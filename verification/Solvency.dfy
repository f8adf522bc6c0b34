/**
 Which configurations always can pay the winners of a vote period (x/oracle/keeper/reward.go,
 x/oracle/tally.go:41-55): the solvency of Rewards, for whole states and blocks.
 */
module Solvency {
  import opened Decimals
  import opened Seqs
  import opened Ballots
  import opened Tally
  import opened TallyLoops
  import opened TallyFacts
  import opened Rewards
  import opened Wrappers
  import opened OracleState
  import opened OracleRuns
  import opened SlashWindows
  import opened Thresholds

  /** A block as staking produces it: a 32-bit number of claims, which hold a part of the bonded power. */
  ghost predicate Possible(c: Config, s: State, b: Block) {
    && "" !in s.targets && b.maxValidators < 0x1_0000_0000
    && ClaimTotal(PollOf(c, s, b)) <= b.totalBondedPower
  }

  function Ratio(c: Config): Dec
    requires c.Valid()
  {
    DistributionRatio(c.votePeriod, c.rewardDistributionWindow)
  }

  // ---------- thresholds nobody reaches

  lemma BallotWithinClaims(p: Poll, d: Denom)
    ensures TotalPower(p.BallotOf(d)) <= ClaimTotal(p)
  {
    hide Sum, Poll.BallotOf, TotalPower;
    var active := p.votes.Keys * p.powers.Keys;
    BallotPower(p, d);
    SumMonotone(Listing(active), CastPower(p, d), ClaimPower(p));
    TotalSubset(active, p.powers.Keys, ClaimPower(p));
  }

  /** Rounded votes of a threshold of three halves or more exceed any positive bonded power. */
  lemma ThresholdBeyond(c: Config, power: nat)
    requires c.voteThreshold >= 3 * HALF && power >= 1
    ensures VotesNeeded(c, power) > power
  {
    hide ChopRound;
    ScaledThreshold(c.voteThreshold, power);
    ChopRoundMonotone(power * (3 * HALF), c.voteThreshold * power);
    ThreeHalves(power);
  }

  lemma ScaledThreshold(t: Dec, power: nat)
    requires t >= 3 * HALF
    ensures t * power >= power * (3 * HALF)
  {
  }

  lemma ThreeHalves(power: nat)
    requires power >= 1
    ensures ChopRound(power * (3 * HALF)) > power
  {
    hide ChopRound;
    ChopRoundTies(power * (3 * HALF));
  }

  lemma ThresholdWithin(c: Config)
    requires c.voteThreshold < 3 * HALF
    ensures VotesNeeded(c, 1) <= 1
  {
    ChopRoundTies(c.voteThreshold);
  }

  lemma NobodyPasses(c: Config, s: State, b: Block)
    requires c.Valid() && c.voteThreshold >= 3 * HALF && Possible(c, s, b)
    ensures Payable(c, s, b)
  {
    hide Poll.BallotOf, TotalPower, ClaimTotal, PollOf, Poll.Passing, Poll.Surviving, Poll.Claims;
    var p := PollOf(c, s, b);
    assert p.Passing() == {} by {
      forall d ensures d !in p.Passing() {
        BallotWithinClaims(p, d);
        PassingIff(p, d);
        PollThreshold(c, s, b);
        if b.totalBondedPower >= 1 {
          ThresholdBeyond(c, b.totalBondedPower);
        }
        CastNonNegative(p, d);
      }
    }
    WeightlessClaims(p);
  }

  lemma PollThreshold(c: Config, s: State, b: Block)
    ensures PollOf(c, s, b).thresholdVotes == VotesNeeded(c, b.totalBondedPower)
  {
  }

  lemma CastNonNegative(p: Poll, d: Denom)
    ensures TotalPower(p.BallotOf(d)) >= 0
  {
    hide Poll.BallotOf;
    SumNonNegative(p.BallotOf(d), PowerOf());
  }

  lemma WeightlessClaims(p: Poll)
    requires p.Passing() == {}
    ensures WeightSum(p.Claims()) == 0
  {
    hide Poll.ClaimOver, Sum, Poll.Passing;
    var claims := p.Claims();
    forall a ensures WeightBy(claims)(a) == 0 {
      if a in p.powers {
        SilentClaim(p, a);
      }
    }
    SumAllZero(Listing(claims.Keys), WeightBy(claims));
  }

  // ---------- uluna as a vote target

  const LONE: Addr := "a"

  /** The lone validator voted on uluna, of which the oracle account holds 10^18. */
  function LunaState(height: nat): State {
    State(height, map[], map[LONE := map[LUNA := ONE]], map[], map[], map[LUNA := 0], map[LUNA := ONE], map[])
  }

  lemma LunaPoll(c: Config, height: nat)
    requires c.Valid() && c.voteThreshold < 3 * HALF
    ensures var p := PollOf(c, LunaState(height), Alone(LONE));
      && p.votes == map[LONE := map[LUNA := ONE]] && p.powers == map[LONE := 1] && p.targets == map[LUNA := 0]
      && p.thresholdVotes <= 1 && p.rewardBand >= 0
      && ClaimTotal(p) == 1
  {
    hide Sum;
    ThresholdWithin(c);
    PollThreshold(c, LunaState(height), Alone(LONE));
    assert Alone(LONE).validators[1..] == [];
    var p := PollOf(c, LunaState(height), Alone(LONE));
    assert p.powers == map[LONE := 1] + ClaimPowers([], 0);
    SingleTotal(p.powers.Keys, LONE, ClaimPower(p));
  }

  lemma SingleTotal<T>(s: set<T>, a: T, f: T -> int)
    requires s == {a}
    ensures Total(s, f) == f(a)
  {
    TotalEmpty(f);
    TotalAdd({}, a, f);
    assert {} + {a} == s;
  }

  /** The only vote is the median of its ballot, so its voter wins. */
  lemma LunaWeight(p: Poll)
    requires p.votes == map[LONE := map[LUNA := ONE]] && p.powers == map[LONE := 1] && p.targets == map[LUNA := 0]
    requires p.thresholdVotes <= 1 && p.rewardBand >= 0
    ensures p.Passing() == {LUNA} && p.Surviving() == map[LUNA := 0]
    ensures p.Claims().Keys == {LONE} && p.Claims()[LONE].weight == 1
  {
    hide Sum, Poll.WeightIn, Poll.WinsIn, Poll.Reference, Poll.BallotOf, Poll.Passing, Poll.Surviving, TotalPower;
    LunaBallot(p);
    LunaPasses(p);
    p.ReferenceLargest();
    LunaWins(p);
    SingleTotal(p.Passing(), LUNA, p.WeightOn(LONE));
  }

  lemma LunaPasses(p: Poll)
    requires p.targets == map[LUNA := 0] && p.thresholdVotes <= 1
    requires p.BallotOf(LUNA) != [] && TotalPower(p.BallotOf(LUNA)) == 1
    ensures p.Passing() == {LUNA} && p.Surviving() == map[LUNA := 0]
  {
    hide Poll.BallotOf, TotalPower;
  }

  lemma LunaBallot(p: Poll)
    requires p.votes == map[LONE := map[LUNA := ONE]] && p.powers == map[LONE := 1]
    ensures p.BallotOf(LUNA) == [Vote(ONE, LONE, 1)] && TotalPower(p.BallotOf(LUNA)) == 1
  {
    var active := p.votes.Keys * p.powers.Keys;
    assert active == {LONE};
    ListingMembers(active);
    var l := Listing(active);
    assert |l| == 1 && l[0] in l;
    assert l == [LONE];
    var v := Vote(ONE, LONE, 1);
    assert p.VoteOn(LUNA)(LONE) == [v];
    assert FlatMap([LONE], p.VoteOn(LUNA)) == [v] + FlatMap([], p.VoteOn(LUNA));
    SumSingle(v, PowerOf());
  }

  lemma LunaWins(p: Poll)
    requires p.BallotOf(LUNA) == [Vote(ONE, LONE, 1)] && p.Reference() == LUNA && p.rewardBand >= 0
    ensures p.WeightIn(LUNA, LONE) == 1
  {
    hide Sum, Poll.BallotOf, Poll.Reference, MedianOf, DeviationOf;
    var b := p.Counted(LUNA);
    MedianOfIsMedian(b);
    var median, spread := MedianOf(b), p.Spread(b);
    assert median == ONE;
    MulNonNegative(median, QuoInt(p.rewardBand, 2));
    assert spread >= 0;
    SumSingle(Vote(ONE, LONE, 1), WinningPower(median, spread, LONE));
  }

  /** Listed twice, more than half a balance in a period is more than the balance. */
  lemma LunaUnpaid(c: Config, height: nat)
    requires c.Valid() && c.voteThreshold < 3 * HALF && 2 * Ratio(c) > ONE
    ensures Possible(c, LunaState(height), Alone(LONE))
    ensures !Payable(c, LunaState(height), Alone(LONE))
    ensures PeriodEnded(c, LunaState(height), Alone(LONE)) == None
  {
    hide Sum, Poll.Surviving, Poll.Claims, PollOf, Poll.RatesDefined, ClaimTotal, Payout;
    var s, b := LunaState(height), Alone(LONE);
    var p := PollOf(c, s, b);
    LunaPoll(c, height);
    LunaWeight(p);
    DistributionRatioBounds(c.votePeriod, c.rewardDistributionWindow);
    LunaPayout(p.Claims(), p.Surviving().Keys, s.pool, Ratio(c));
    assert PayoutAt(c, s, b, LUNA) > AmountOf(s.pool, LUNA);
  }

  lemma LunaPayout(claims: map<Addr, Claim>, targets: set<Denom>, pool: Coins, ratio: Dec)
    requires claims.Keys == {LONE} && claims[LONE].weight == 1 && targets == {LUNA} && pool == map[LUNA := ONE]
    requires ratio >= 0 && 2 * ratio > ONE
    ensures Payout(claims, targets, pool, ratio, LUNA) > ONE
  {
    hide Sum, Share, PeriodReward;
    SingleTotal(claims.Keys, LONE, WeightBy(claims));
    SingleTotal(claims.Keys, LONE, ShareBy(PeriodReward(2, ONE, ratio), WeightBy(claims), 1));
    ShareOfAll(ratio);
  }

  lemma ShareOfAll(ratio: Dec)
    requires ratio >= 0 && 2 * ratio > ONE
    ensures Share(PeriodReward(2, ONE, ratio), 1, 1) > ONE
  {
    hide Sum;
    InsolventWhenRatioLarge(2, ratio, LONE);
    var w := (x: Addr) => 1;
    SumSingle(LONE, w);
    SumSingle(LONE, ShareBy(PeriodReward(2, ONE, ratio), w, 1));
  }

  // ---------- exactly when

  /**
   A configuration can pay the winners of every state and block if and only if a period takes at
   most half a balance, or the threshold is so high that no ballot ever passes. Parameter
   validation asks for neither.
   */
  lemma AlwaysPayableIff(c: Config)
    requires c.Valid()
    ensures (forall s: State, b: Block | Possible(c, s, b) :: Payable(c, s, b))
      <==> 2 * Ratio(c) <= ONE || c.voteThreshold >= 3 * HALF
  {
    hide Payable, Possible;
    if 2 * Ratio(c) <= ONE {
      forall s: State, b: Block | Possible(c, s, b) ensures Payable(c, s, b) {
        PossibleBlock(c, s, b);
        AlwaysPayable(c, s, b);
      }
    } else if c.voteThreshold >= 3 * HALF {
      forall s: State, b: Block | Possible(c, s, b) ensures Payable(c, s, b) {
        NobodyPasses(c, s, b);
      }
    } else {
      LunaUnpaid(c, 0);
    }
  }

  lemma PossibleBlock(c: Config, s: State, b: Block)
    requires Possible(c, s, b)
    ensures b.maxValidators < 0x1_0000_0000
  {
  }
}
