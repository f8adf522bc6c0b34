/**
 Which vote thresholds keep the tally from dividing by zero (x/oracle/tally.go:41-86,
 x/oracle/abci.go:60-85). Two passing ballots must share power two or more; whether they do
 depends on exactly one relation between the threshold and the claimed power.
 */
module Thresholds {
  import opened Decimals
  import opened Seqs
  import opened Ballots
  import opened Tally
  import opened TallyLoops
  import opened TallyFacts
  import opened Wrappers
  import opened OracleState

  /** No voter's cross rate in a passing ballot rounds to zero. */
  ghost predicate NoZeroCross(p: Poll) {
    forall d, a :: d in p.Passing() && VotedPositive(p, d, a) && VotedPositive(p, p.Reference(), a) ==>
      Quo(p.votes[a][p.Reference()], p.votes[a][d]) > 0
  }

  ghost function ClaimTotal(p: Poll): int {
    Total(p.powers.Keys, ClaimPower(p))
  }

  // ---------- thresholds that suffice

  /** Twice the threshold exceeds the claimed power by two: any two passing ballots share power two. */
  lemma OverlapThresholdSuffices(p: Poll)
    requires 2 * p.thresholdVotes >= ClaimTotal(p) + 2 && NoZeroCross(p)
    ensures p.RatesDefined()
  {
    hide Total, Quo, Poll.Counted, Poll.Reference, MedianOf, Poll.Passing, TotalPower, Poll.BallotOf;
    forall d | d in p.Passing() && d != p.Reference() ensures MedianOf(p.Counted(d)) != 0 {
      p.ReferenceLargest();
      PassingIff(p, d);
      PassingIff(p, p.Reference());
      OverlapMakesRateDefined(p, d);
    }
  }

  // ---------- thresholds that do not

  /** A cross ballot of power at most one in which somebody has no cross rate makes the tally divide by zero. */
  lemma NarrowOverlapFails(p: Poll, d: Denom, v: Vote)
    requires d in p.Passing() && d != p.Reference() && TotalPower(p.Counted(d)) <= 1
    requires v in p.Counted(d) && v.rate <= 0
    ensures !p.RatesDefined()
  {
    hide Poll.Counted, Poll.Reference, MedianOf, PowerAtMost, TotalPower, Poll.Passing;
    RateDefinedIff(p, d);
    PowerAtMostMonotone(p.Counted(d), 0, 0);
  }

  /** Power of each of the two ballots: the least that passes. */
  function Turnout(threshold: int): nat {
    if threshold < 1 then 1 else threshold
  }

  /** Power common to both ballots: none if there is room for two apart, else one. */
  function Common(power: nat, threshold: int): nat {
    if 2 * Turnout(threshold) <= power then 0 else 1
  }

  const KRW: Denom := "ukrw"
  const USD: Denom := "uusd"

  const NARROW_VOTES: map<Addr, map<Denom, Dec>> :=
    map["a" := map[KRW := ONE], "b" := map[KRW := ONE, USD := ONE], "c" := map[USD := ONE]]

  const NARROW_TARGETS: map<Denom, Dec> := map[KRW := 0, USD := 0]

  function NarrowPowers(power: nat, threshold: int): map<Addr, nat>
    requires power >= 1 && 2 * threshold <= power + 1
  {
    var q, m := Turnout(threshold), Common(power, threshold);
    map["a" := q - m, "b" := m, "c" := q - m, "d" := power - 2 * q + m]
  }

  /** One validator votes on ukrw, one on uusd, one with as little power as possible on both. */
  function NarrowPoll(power: nat, threshold: int, rewardBand: Dec, sqrt: Dec -> Dec): Poll
    requires power >= 1 && 2 * threshold <= power + 1
  {
    Poll(NARROW_VOTES, NarrowPowers(power, threshold), NARROW_TARGETS, threshold, rewardBand, sqrt)
  }

  lemma TripleSum(l: seq<Addr>, f: Addr -> int)
    requires multiset(l) == multiset({"a", "b", "c"})
    ensures Sum(l, f) == f("a") + f("b") + f("c")
  {
    var t: seq<Addr> := ["a", "b", "c"];
    assert multiset(t) == multiset({"a", "b", "c"});
    SumPermutation(l, t, f);
    assert t[1..] == ["b", "c"] && t[1..][1..] == ["c"];
    SumSingle("c", f);
  }

  lemma NarrowActive(p: Poll, power: nat, threshold: int)
    requires power >= 1 && 2 * threshold <= power + 1
    requires p.votes == NARROW_VOTES && p.powers == NarrowPowers(power, threshold)
    ensures p.votes.Keys * p.powers.Keys == {"a", "b", "c"}
    ensures multiset(Listing(p.votes.Keys * p.powers.Keys)) == multiset({"a", "b", "c"})
  {
  }

  lemma FourSum(s: set<Addr>, f: Addr -> int)
    requires s == {"a", "b", "c", "d"}
    ensures Total(s, f) == f("a") + f("b") + f("c") + f("d")
  {
    hide Sum;
    var t: set<Addr> := {"a", "b", "c"};
    assert s == t + {"d"} && "d" !in t;
    TotalAdd(t, "d", f);
    TripleSum(Listing(t), f);
  }

  lemma NarrowClaims(power: nat, threshold: int, rewardBand: Dec, sqrt: Dec -> Dec)
    requires power >= 1 && 2 * threshold <= power + 1
    ensures ClaimTotal(NarrowPoll(power, threshold, rewardBand, sqrt)) == power
  {
    hide Total;
    var p := NarrowPoll(power, threshold, rewardBand, sqrt);
    FourSum(p.powers.Keys, ClaimPower(p));
  }

  lemma NarrowBallot(power: nat, threshold: int, rewardBand: Dec, sqrt: Dec -> Dec, d: Denom)
    requires power >= 1 && 2 * threshold <= power + 1 && d in NARROW_TARGETS
    ensures d in NarrowPoll(power, threshold, rewardBand, sqrt).Passing()
  {
    hide Sum, Poll.BallotOf, TotalPower, Poll.Passing;
    var p := NarrowPoll(power, threshold, rewardBand, sqrt);
    NarrowActive(p, power, threshold);
    BallotPower(p, d);
    TripleSum(Listing(p.votes.Keys * p.powers.Keys), CastPower(p, d));
    assert KRW != USD;
    PassingIff(p, d);
  }

  /** Between the two denoms only the third validator has a cross rate. */
  lemma NarrowShared(power: nat, threshold: int, rewardBand: Dec, sqrt: Dec -> Dec, d: Denom)
    requires power >= 1 && 2 * threshold <= power + 1 && d in NARROW_TARGETS
    requires var p := NarrowPoll(power, threshold, rewardBand, sqrt);
      p.Reference() in NARROW_TARGETS && p.Reference() != d
    ensures var p := NarrowPoll(power, threshold, rewardBand, sqrt); TotalPower(p.Counted(d)) <= 1
  {
    hide Sum, Poll.BallotOf, TotalPower, Poll.Passing, Poll.Reference, Poll.Bases, CrossBallot;
    var p := NarrowPoll(power, threshold, rewardBand, sqrt);
    NarrowActive(p, power, threshold);
    CrossBallotPower(p, d);
    assert KRW != USD;
    TripleSum(Listing(p.votes.Keys * p.powers.Keys), SharedPower(p, d, p.Reference()));
  }

  /** The validator that voted on d alone stands in its cross ballot without a rate. */
  lemma NarrowLoner(p: Poll, d: Denom, a: Addr)
    requires a in p.votes && a in p.powers && d in p.votes[a] && p.Reference() !in p.votes[a] && d != p.Reference()
    ensures Vote(0, a, 0) in p.Counted(d)
  {
    hide Poll.BallotOf, Poll.Reference, Poll.Bases, CrossBallot;
    var w := Vote(p.votes[a][d], a, if p.votes[a][d] > 0 then p.powers[a] else 0);
    p.BallotMember(d, w);
    BasesVoted(p, a);
    assert CrossVote(w, p.Bases()) == Vote(0, a, 0);
    CrossBallotMember(p.BallotOf(d), p.Bases(), Vote(0, a, 0));
  }

  /** Below the bound the tally of this poll divides by zero, although no cross rate rounds to zero. */
  lemma NarrowPollFails(power: nat, threshold: int, rewardBand: Dec, sqrt: Dec -> Dec)
    requires power >= 1 && 2 * threshold <= power + 1
    ensures var p := NarrowPoll(power, threshold, rewardBand, sqrt); NoZeroCross(p) && !p.RatesDefined()
  {
    hide Sum, Poll.BallotOf, TotalPower, Poll.Passing, Poll.Reference, Poll.RatesDefined, Poll.Counted, Quo;
    var p := NarrowPoll(power, threshold, rewardBand, sqrt);
    NarrowReference(power, threshold, rewardBand, sqrt);
    assert KRW != USD;
    var d, a := if p.Reference() == KRW then USD else KRW, if p.Reference() == KRW then "c" else "a";
    NarrowBallot(power, threshold, rewardBand, sqrt, d);
    NarrowShared(power, threshold, rewardBand, sqrt, d);
    NarrowLoner(p, d, a);
    NarrowOverlapFails(p, d, Vote(0, a, 0));
    QuoSelf(ONE);
    assert forall b, e :: b in p.votes && e in p.votes[b] ==> p.votes[b][e] == ONE;
  }

  lemma NarrowReference(power: nat, threshold: int, rewardBand: Dec, sqrt: Dec -> Dec)
    requires power >= 1 && 2 * threshold <= power + 1
    ensures NarrowPoll(power, threshold, rewardBand, sqrt).Reference() in NARROW_TARGETS
  {
    hide Poll.BallotOf, Poll.Reference;
    var p := NarrowPoll(power, threshold, rewardBand, sqrt);
    NarrowBallot(power, threshold, rewardBand, sqrt, KRW);
    p.ReferenceLargest();
  }

  /**
   The exact bound. All polls of a claimed power and a threshold, in which no cross rate rounds
   to zero, complete if and only if twice the threshold exceeds the power by at least two.
   */
  lemma ThresholdExact(power: nat, threshold: int)
    requires power >= 1
    ensures (forall p: Poll | ClaimTotal(p) == power && p.thresholdVotes == threshold && NoZeroCross(p) ::
               p.RatesDefined())
      <==> 2 * threshold >= power + 2
  {
    hide ClaimTotal, NoZeroCross, Poll.RatesDefined;
    if 2 * threshold >= power + 2 {
      forall p: Poll | ClaimTotal(p) == power && p.thresholdVotes == threshold && NoZeroCross(p)
        ensures p.RatesDefined()
      {
        OverlapThresholdSuffices(p);
      }
    } else {
      var sqrt := (x: Dec) => 0;
      NarrowClaims(power, threshold, 0, sqrt);
      NarrowPollFails(power, threshold, 0, sqrt);
    }
  }

  // ---------- configurations and blocks

  /** Half the power, the default parameter: two validators of 50 that vote on different targets. */
  lemma HalfFails(sqrt: Dec -> Dec)
    ensures NarrowPowers(100, 50) == map["a" := 50, "b" := 0, "c" := 50, "d" := 0]
    ensures !NarrowPoll(100, 50, 0, sqrt).RatesDefined()
  {
    hide Poll.RatesDefined;
    NarrowPollFails(100, 50, 0, sqrt);
  }

  /** Two thirds of the power, with one validator of three in common. */
  lemma TwoThirdsFail(sqrt: Dec -> Dec)
    ensures NarrowPowers(3, 2) == map["a" := 1, "b" := 1, "c" := 1, "d" := 0]
    ensures !NarrowPoll(3, 2, 0, sqrt).RatesDefined()
  {
    hide Poll.RatesDefined;
    NarrowPollFails(3, 2, 0, sqrt);
  }

  /** The threshold of a configuration against a bonded power (tally.go:53-55). */
  function VotesNeeded(c: Config, power: nat): int {
    ThresholdVotes(c, Block([], 0, power))
  }

  /** The votes needed are the threshold's part of the bonded power to the nearest vote. */
  lemma VotesNeededNearest(c: Config, power: nat)
    ensures -HALF <= VotesNeeded(c, power) * ONE - c.voteThreshold * power <= HALF
  {
    ChopRoundNearest(c.voteThreshold * power);
  }

  function NarrowBlock(power: nat, threshold: int): Block
    requires power >= 1 && 2 * threshold <= power + 1
  {
    var powers := NarrowPowers(power, threshold);
    Block([Validator("a", true, false, powers["a"]), Validator("b", true, false, powers["b"]),
           Validator("c", true, false, powers["c"]), Validator("d", true, false, powers["d"])], 4, power)
  }

  function NarrowState(height: nat): State {
    State(height, map[], NARROW_VOTES, map[], map[], NARROW_TARGETS, map[], map[])
  }

  lemma NarrowBlockPoll(c: Config, power: nat, height: nat)
    requires power >= 1 && 2 * VotesNeeded(c, power) <= power + 1
    ensures PollOf(c, NarrowState(height), NarrowBlock(power, VotesNeeded(c, power)))
      == NarrowPoll(power, VotesNeeded(c, power), c.rewardBand, c.sqrt)
  {
    var powers := NarrowPowers(power, VotesNeeded(c, power));
    FourClaims(powers["a"], powers["b"], powers["c"], powers["d"]);
    assert powers == map["a" := powers["a"], "b" := powers["b"], "c" := powers["c"], "d" := powers["d"]];
  }

  lemma FourClaims(a: nat, b: nat, c: nat, d: nat)
    ensures ClaimPowers([Validator("a", true, false, a), Validator("b", true, false, b),
                         Validator("c", true, false, c), Validator("d", true, false, d)], 4)
      == map["a" := a, "b" := b, "c" := c, "d" := d]
  {
    var three := [Validator("b", true, false, b), Validator("c", true, false, c), Validator("d", true, false, d)];
    var two := [Validator("c", true, false, c), Validator("d", true, false, d)];
    var one := [Validator("d", true, false, d)];
    ClaimsStep("d", d, [], 0);
    ClaimsStep("c", c, one, 1);
    ClaimsStep("b", b, two, 2);
    ClaimsStep("a", a, three, 3);
    assert [Validator("c", true, false, c)] + one == two && [Validator("b", true, false, b)] + two == three;
    assert [Validator("d", true, false, d)] + [] == one;
    assert [Validator("a", true, false, a)] + three == [Validator("a", true, false, a), Validator("b", true, false, b),
                         Validator("c", true, false, c), Validator("d", true, false, d)];
  }

  lemma ClaimsStep(a: Addr, power: nat, rest: seq<Validator>, max: nat)
    ensures ClaimPowers([Validator(a, true, false, power)] + rest, max + 1) == map[a := power] + ClaimPowers(rest, max)
  {
    assert ([Validator(a, true, false, power)] + rest)[1..] == rest;
  }

  /** With any valid configuration short of the bound, a last block of a period panics. */
  lemma PeriodEndPanics(c: Config, power: nat, height: nat)
    requires c.Valid() && power >= 1 && 2 * VotesNeeded(c, power) <= power + 1
    ensures PeriodEnded(c, NarrowState(height), NarrowBlock(power, VotesNeeded(c, power))) == None
  {
    hide PollOf, Poll.RatesDefined, Payable, NarrowPoll, NarrowBlock;
    NarrowBlockPoll(c, power, height);
    NarrowPollFails(power, VotesNeeded(c, power), c.rewardBand, c.sqrt);
  }

  /** The default threshold of one half panics at every even bonded power, and every lower one does too. */
  lemma DefaultThresholdPanics(c: Config, n: nat, height: nat)
    requires c.Valid() && c.voteThreshold <= HALF && n >= 1
    ensures 2 * VotesNeeded(c, 2 * n) <= 2 * n
    ensures PeriodEnded(c, NarrowState(height), NarrowBlock(2 * n, VotesNeeded(c, 2 * n))) == None
  {
    hide PeriodEnded, NarrowState, NarrowBlock;
    assert c.voteThreshold * (2 * n) <= HALF * (2 * n) == n * ONE;
    ChopRoundMonotone(c.voteThreshold * (2 * n), n * ONE);
    ChopRoundExact(n);
    PeriodEndPanics(c, 2 * n, height);
  }

  /** A tally at a bonded power, of which the claims are a part, with no cross rate rounding to zero. */
  ghost predicate AtPower(c: Config, s: State, b: Block, power: nat) {
    b.totalBondedPower == power && ClaimTotal(PollOf(c, s, b)) <= power && NoZeroCross(PollOf(c, s, b))
  }

  /**
   The bound for a configuration: at a bonded power, no tally of any state and block in which no
   cross rate rounds to zero divides by zero, if and only if the votes needed exceed half the
   power by at least one.
   */
  lemma ConfigurationExact(c: Config, power: nat)
    requires c.Valid() && power >= 1
    ensures (forall s: State, b: Block | AtPower(c, s, b, power) :: PollOf(c, s, b).RatesDefined())
      <==> 2 * VotesNeeded(c, power) >= power + 2
  {
    hide ClaimTotal, NoZeroCross, Poll.RatesDefined, NarrowPoll;
    if 2 * VotesNeeded(c, power) >= power + 2 {
      forall s: State, b: Block | AtPower(c, s, b, power) ensures PollOf(c, s, b).RatesDefined() {
        OverlapThresholdSuffices(PollOf(c, s, b));
      }
    } else {
      NarrowBlockPoll(c, power, 0);
      NarrowClaims(power, VotesNeeded(c, power), c.rewardBand, c.sqrt);
      NarrowPollFails(power, VotesNeeded(c, power), c.rewardBand, c.sqrt);
      var s, b := NarrowState(0), NarrowBlock(power, VotesNeeded(c, power));
      assert AtPower(c, s, b, power) && !PollOf(c, s, b).RatesDefined();
    }
  }
}
