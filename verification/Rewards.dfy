/**
 Paying the winners of a vote period out of the oracle account
 (x/oracle/keeper/reward.go): each winner's share is rounded half to even and then
 truncated, per denom.
 */
module Rewards {
  import opened Decimals
  import opened Seqs
  import opened Ballots
  import opened Tally
  import opened TallyLoops
  import opened Wrappers

  type Coins = map<Denom, nat>

  const LUNA: Denom := "uluna"

  function AmountOf(m: map<Denom, int>, d: Denom): int {
    if d in m then m[d] else 0
  }

  /** How often a denom is listed for reward: uluna always, and every vote target. */
  function Listed(targets: set<Denom>, d: Denom): nat {
    (if d == LUNA then 1 else 0) + (if d in targets then 1 else 0)
  }

  /** Part of a balance set aside for this period. */
  function PeriodReward(listed: nat, balance: nat, ratio: Dec): Dec {
    listed * (balance * ratio)
  }

  function Share(reward: Dec, weight: int, weightSum: int): int
    requires weightSum != 0
  {
    Truncate(Mul(reward, QuoInt(FromInt(weight), weightSum)))
  }

  function DistributionRatio(votePeriod: nat, window: nat): Dec
    requires window != 0
  {
    QuoInt(FromInt(votePeriod), window)
  }

  // ---------- solvency

  function Fraction(w: Addr -> int, weightSum: int): Addr -> int
    requires weightSum != 0
  {
    (a: Addr) => QuoInt(FromInt(w(a)), weightSum)
  }

  function ShareBy(reward: Dec, w: Addr -> int, weightSum: int): Addr -> int
    requires weightSum != 0
  {
    (a: Addr) => Share(reward, w(a), weightSum)
  }

  lemma TruncDivBelow(a: int, d: int)
    requires a >= 0 && d > 0
    ensures 0 <= TruncDiv(a, d) && TruncDiv(a, d) * d <= a
  {
    DivAtLeast(a, d, 0);
    assert a == d * (a / d) + a % d;
  }

  lemma ShareBound(reward: Dec, weight: int, weightSum: int)
    requires reward >= 0 && weight >= 0 && weightSum > 0
    ensures Share(reward, weight, weightSum) >= 0
    ensures 2 * (ONE * ONE) * Share(reward, weight, weightSum)
         <= 2 * (reward * QuoInt(FromInt(weight), weightSum)) + ONE
  {
    var f := QuoInt(FromInt(weight), weightSum);
    TruncDivBelow(FromInt(weight), weightSum);
    assert reward * f >= 0;
    ChopRoundNearest(reward * f);
    TruncDivBelow(Mul(reward, f), ONE);
  }

  lemma {:induction false} SharesBound(l: seq<Addr>, reward: Dec, w: Addr -> int, weightSum: int)
    requires reward >= 0 && weightSum > 0 && forall a :: a in l ==> w(a) >= 0
    ensures Sum(l, ShareBy(reward, w, weightSum)) >= 0
    ensures 2 * (ONE * ONE) * Sum(l, ShareBy(reward, w, weightSum))
         <= 2 * (reward * Sum(l, Fraction(w, weightSum))) + |l| * ONE
  {
    hide Share, QuoInt, FromInt;
    if l != [] {
      SharesBound(l[1..], reward, w, weightSum);
      ShareBound(reward, w(l[0]), weightSum);
      var f, g := Fraction(w, weightSum)(l[0]), Sum(l[1..], Fraction(w, weightSum));
      assert reward * (f + g) == reward * f + reward * g;
      assert |l| * ONE == ONE + |l[1..]| * ONE;
    }
  }

  lemma {:induction false} FractionsBound(l: seq<Addr>, w: Addr -> int, weightSum: int)
    requires weightSum > 0 && forall a :: a in l ==> w(a) >= 0
    ensures 0 <= weightSum * Sum(l, Fraction(w, weightSum)) <= Sum(l, w) * ONE
    ensures Sum(l, Fraction(w, weightSum)) >= 0
  {
    if l != [] {
      FractionsBound(l[1..], w, weightSum);
      var f, g := Fraction(w, weightSum)(l[0]), Sum(l[1..], Fraction(w, weightSum));
      TruncDivBelow(FromInt(w(l[0])), weightSum);
      assert weightSum * (f + g) == f * weightSum + weightSum * g;
    }
  }

  /** The shares exceed the reward by less than one unit per two quintillion winners. */
  lemma SharesWithinReward(l: seq<Addr>, reward: Dec, w: Addr -> int)
    requires reward >= 0 && Sum(l, w) > 0 && forall a :: a in l ==> w(a) >= 0
    ensures 2 * ONE * Sum(l, ShareBy(reward, w, Sum(l, w))) <= 2 * reward + |l|
  {
    hide Sum, Fraction, ShareBy;
    var s := Sum(l, w);
    SharesBound(l, reward, w, s);
    FractionsBound(l, w, s);
    var f := Sum(l, Fraction(w, s));
    CancelFactor(s, f, ONE);
    ScaleDown(Sum(l, ShareBy(reward, w, s)), reward, f, |l|);
  }

  lemma ScaleDown(shares: int, reward: int, f: int, n: int)
    requires reward >= 0 && f <= ONE
    requires 2 * (ONE * ONE) * shares <= 2 * (reward * f) + n * ONE
    ensures 2 * ONE * shares <= 2 * reward + n
  {
    assert reward * f <= reward * ONE;
    CancelFactor(ONE, 2 * ONE * shares, 2 * reward + n);
  }

  lemma CancelFactor(s: int, f: int, g: int)
    requires s > 0 && s * f <= s * g
    ensures f <= g
  {
    if f > g {
      MulGap(s, f, g);
      assert false;
    }
  }

  /** The shares of one denom's reward do not exceed the balance they are taken from. */
  ghost predicate Solvent(listed: nat, ratio: Dec, balance: nat, l: seq<Addr>, w: Addr -> int)
    requires Sum(l, w) != 0
  {
    Sum(l, ShareBy(PeriodReward(listed, balance, ratio), w, Sum(l, w))) <= balance
  }

  /** Winners whose weights are non-negative, not all zero, and that are fewer than 2 * 10^18. */
  ghost predicate Winners(l: seq<Addr>, w: Addr -> int) {
    Sum(l, w) > 0 && (forall a :: a in l ==> w(a) >= 0) && |l| < 2 * ONE
  }

  lemma SolventWhenRatioSmall(listed: nat, ratio: Dec, balance: nat, l: seq<Addr>, w: Addr -> int)
    requires ratio >= 0 && listed * ratio <= ONE && Winners(l, w)
    ensures Solvent(listed, ratio, balance, l, w)
  {
    var reward := PeriodReward(listed, balance, ratio);
    assert reward == balance * (listed * ratio) by {
      assert listed * (balance * ratio) == balance * (listed * ratio);
    }
    assert 0 <= reward <= balance * ONE;
    SharesWithinReward(l, reward, w);
  }

  lemma InsolventWhenRatioLarge(listed: nat, ratio: Dec, a: Addr)
    requires ratio >= 0 && listed * ratio > ONE
    ensures Winners([a], (x: Addr) => 1) && !Solvent(listed, ratio, ONE, [a], (x: Addr) => 1)
  {
    var w, reward := (x: Addr) => 1, PeriodReward(listed, ONE, ratio);
    SumSingle(a, w);
    SumSingle(a, ShareBy(reward, w, 1));
    assert FromInt(1) / 1 == ONE;
    assert reward == (listed * ratio) * ONE by {
      assert listed * (ONE * ratio) == (listed * ratio) * ONE;
    }
    MulOne(reward);
    DivExact(listed * ratio, ONE);
  }

  /**
   Payment of every balance to every set of winners is solvent exactly when the listed
   fractions of a balance add up to at most one. Listed once, any ratio in [0, 1] is safe;
   if uluna is itself a vote target it is listed twice, and twice the ratio must fit.
   */
  lemma SolvencyIff(listed: nat, ratio: Dec)
    requires ratio >= 0
    ensures (forall balance: nat, l: seq<Addr>, w: Addr -> int | Winners(l, w) :: Solvent(listed, ratio, balance, l, w))
            <==> listed * ratio <= ONE
  {
    if listed * ratio <= ONE {
      forall balance: nat, l: seq<Addr>, w: Addr -> int | Winners(l, w)
        ensures Solvent(listed, ratio, balance, l, w)
      {
        SolventWhenRatioSmall(listed, ratio, balance, l, w);
      }
    } else {
      InsolventWhenRatioLarge(listed, ratio, "");
      assert !Solvent(listed, ratio, ONE, [""], (x: Addr) => 1);
    }
  }

  lemma DistributionRatioBounds(votePeriod: nat, window: nat)
    requires 0 < window && votePeriod <= window
    ensures 0 <= DistributionRatio(votePeriod, window) <= ONE
  {
    TruncDivBelow(FromInt(votePeriod), window);
    DivMonotone(votePeriod * ONE, window * ONE, window);
    DivExact(ONE, window);
    assert window * ONE == ONE * window;
  }

  // ---------- how much is paid

  /** The ratio is the vote period's part of the distribution window, cut off after the last digit. */
  lemma RatioExact(votePeriod: nat, window: nat)
    requires window > 0
    ensures var ratio := DistributionRatio(votePeriod, window);
      window * ratio <= votePeriod * ONE < window * (ratio + 1)
  {
    QuoIntCut(FromInt(votePeriod), window);
  }

  /** A reward is the period's part of an amount, up to one part in 10^18 of the amount. */
  predicate IsReward(reward: Dec, amount: nat, votePeriod: nat, window: nat) {
    window * reward <= amount * (votePeriod * ONE) <= window * reward + amount * window
  }

  lemma RewardExact(listed: nat, balance: nat, votePeriod: nat, window: nat)
    requires window > 0
    ensures var reward := PeriodReward(listed, balance, DistributionRatio(votePeriod, window));
      IsReward(reward, listed * balance, votePeriod, window)
  {
    hide DistributionRatio;
    var ratio, amount := DistributionRatio(votePeriod, window), listed * balance;
    RatioExact(votePeriod, window);
    assert listed * (balance * ratio) == amount * ratio;
    assert window * (amount * ratio) == amount * (window * ratio);
    assert amount >= 0;
    ScaleMonotone(amount, window * ratio, votePeriod * ONE);
    ScaleMonotone(amount, votePeriod * ONE, window * ratio + window);
    assert window * (ratio + 1) == window * ratio + window;
    assert amount * (window * ratio + window) == amount * (window * ratio) + amount * window;
  }

  /** A share is the weight's part of the reward, up to its roundings and one unit cut off. */
  predicate IsShare(share: int, reward: Dec, weight: int, weightSum: int) {
    && 2 * ONE * (weightSum * share) <= 2 * (reward * weight) + weightSum
    && reward * (weight * ONE) <=
      (ONE * ONE) * (weightSum * share) + weightSum * (HALF + ONE * ONE) + reward * weightSum
  }

  lemma ShareLower(reward: Dec, weight: int, weightSum: int)
    requires reward >= 0 && weight >= 0 && weightSum > 0
    ensures reward * QuoInt(FromInt(weight), weightSum)
         <= (ONE * ONE) * Share(reward, weight, weightSum) + HALF + ONE * ONE
  {
    hide QuoInt;
    var f := QuoInt(FromInt(weight), weightSum);
    MulNearest(reward, f);
    QuoIntCut(FromInt(weight), weightSum);
    TruncateLower(Mul(reward, f));
  }

  lemma TruncateLower(x: Dec)
    ensures Truncate(x) * ONE >= x - ONE
  {
    QuoIntCut(x, ONE);
  }

  lemma FractionExact(weight: int, weightSum: int)
    requires weight >= 0 && weightSum > 0
    ensures var f := QuoInt(FromInt(weight), weightSum);
      weightSum * f <= weight * ONE <= weightSum * f + weightSum
  {
    QuoIntCut(FromInt(weight), weightSum);
    var f := QuoInt(FromInt(weight), weightSum);
    assert weightSum * (f + 1) == weightSum * f + weightSum;
  }

  lemma ShareExact(reward: Dec, weight: int, weightSum: int)
    requires reward >= 0 && weight >= 0 && weightSum > 0
    ensures IsShare(Share(reward, weight, weightSum), reward, weight, weightSum)
  {
    hide Share, QuoInt, FromInt;
    var f, share := QuoInt(FromInt(weight), weightSum), Share(reward, weight, weightSum);
    FractionExact(weight, weightSum);
    ShareBound(reward, weight, weightSum);
    ShareLower(reward, weight, weightSum);
    ShareScaled(share, reward, weight, weightSum, f);
  }

  lemma ShareScaled(share: int, reward: Dec, weight: int, weightSum: int, f: int)
    requires reward >= 0 && weightSum > 0 && weightSum * f <= weight * ONE <= weightSum * f + weightSum
    requires 2 * (ONE * ONE) * share <= 2 * (reward * f) + ONE
    requires reward * f <= (ONE * ONE) * share + HALF + ONE * ONE
    ensures IsShare(share, reward, weight, weightSum)
  {
    ScaleMonotone(weightSum, 2 * (ONE * ONE) * share, 2 * (reward * f) + ONE);
    ScaleMonotone(weightSum, reward * f, (ONE * ONE) * share + HALF + ONE * ONE);
    ScaleMonotone(reward, weightSum * f, weight * ONE);
    ScaleMonotone(reward, weight * ONE, weightSum * f + weightSum);
    ShareTerms(share, reward, weight, weightSum, f);
    CancelFactor(ONE, 2 * ONE * (weightSum * share), 2 * (reward * weight) + weightSum);
  }

  lemma ShareTerms(share: int, reward: int, weight: int, weightSum: int, f: int)
    ensures weightSum * (2 * (ONE * ONE) * share) == ONE * (2 * ONE * (weightSum * share))
    ensures weightSum * (2 * (reward * f) + ONE) == 2 * (reward * (weightSum * f)) + ONE * weightSum
    ensures weightSum * ((ONE * ONE) * share + HALF + ONE * ONE)
         == (ONE * ONE) * (weightSum * share) + weightSum * (HALF + ONE * ONE)
    ensures reward * (weight * ONE) == ONE * (reward * weight)
    ensures reward * (weightSum * f + weightSum) == weightSum * (reward * f) + reward * weightSum
  {
    assert weightSum * (reward * f) == reward * (weightSum * f);
  }

  lemma {:induction false} SharesLower(l: seq<Addr>, reward: Dec, w: Addr -> int, weightSum: int)
    requires reward >= 0 && weightSum > 0 && forall a :: a in l ==> w(a) >= 0
    ensures reward * Sum(l, Fraction(w, weightSum))
         <= (ONE * ONE) * Sum(l, ShareBy(reward, w, weightSum)) + |l| * (HALF + ONE * ONE)
  {
    hide Share, QuoInt, FromInt;
    if l != [] {
      SharesLower(l[1..], reward, w, weightSum);
      ShareLower(reward, w(l[0]), weightSum);
      var f, g := Fraction(w, weightSum)(l[0]), Sum(l[1..], Fraction(w, weightSum));
      assert reward * (f + g) == reward * f + reward * g;
      assert |l| * (HALF + ONE * ONE) == HALF + ONE * ONE + |l[1..]| * (HALF + ONE * ONE);
    }
  }

  lemma {:induction false} FractionsLower(l: seq<Addr>, w: Addr -> int, weightSum: int)
    requires weightSum > 0 && forall a :: a in l ==> w(a) >= 0
    ensures Sum(l, w) * ONE <= weightSum * Sum(l, Fraction(w, weightSum)) + |l| * weightSum
  {
    hide QuoInt, FromInt;
    if l != [] {
      FractionsLower(l[1..], w, weightSum);
      var f, g := Fraction(w, weightSum)(l[0]), Sum(l[1..], Fraction(w, weightSum));
      FractionExact(w(l[0]), weightSum);
      assert weightSum * (f + g) == weightSum * f + weightSum * g;
      assert |l| * weightSum == weightSum + |l[1..]| * weightSum;
    }
  }

  /** The shares of n winners make up the reward, up to the roundings and one unit cut off for each. */
  lemma SharesMakeUpReward(l: seq<Addr>, reward: Dec, w: Addr -> int)
    requires reward >= 0 && Sum(l, w) > 0 && forall a :: a in l ==> w(a) >= 0
    ensures reward * ONE
         <= (ONE * ONE) * Sum(l, ShareBy(reward, w, Sum(l, w))) + |l| * (HALF + ONE * ONE) + reward * |l|
  {
    hide Sum, Fraction, ShareBy;
    var s := Sum(l, w);
    var f := Sum(l, Fraction(w, s));
    SharesLower(l, reward, w, s);
    FractionsLower(l, w, s);
    assert s * ONE <= s * (f + |l|) by {
      assert s * (f + |l|) == s * f + |l| * s;
    }
    CancelFactor(s, ONE, f + |l|);
    ScaleMonotone(reward, ONE, f + |l|);
    assert reward * (f + |l|) == reward * f + reward * |l|;
  }

  /**
   A payout to n winners is the vote period's part of an amount. It exceeds that by less than the
   rounding, and falls short of it by at most the digits cut off the ratio, those cut off the
   weights, and for each winner the rounding and a unit cut off.
   */
  predicate IsPayout(payout: int, amount: nat, votePeriod: nat, window: nat, n: nat) {
    && 2 * ONE * (window * payout) <= 2 * (amount * (votePeriod * ONE)) + window * n
    && ONE * (amount * (votePeriod * ONE))
         <= (ONE * ONE) * (window * payout) + window * (n * (HALF + ONE * ONE))
            + ONE * (amount * window) + n * (amount * (votePeriod * ONE))
  }

  lemma PayoutFromReward(payout: int, reward: Dec, amount: nat, votePeriod: nat, window: nat, n: nat)
    requires window > 0 && reward >= 0 && IsReward(reward, amount, votePeriod, window)
    requires 2 * ONE * payout <= 2 * reward + n
    requires reward * ONE <= (ONE * ONE) * payout + n * (HALF + ONE * ONE) + reward * n
    ensures IsPayout(payout, amount, votePeriod, window, n)
  {
    var part := amount * (votePeriod * ONE);
    ScaleMonotone(window, 2 * ONE * payout, 2 * reward + n);
    ScaleMonotone(window, reward * ONE, (ONE * ONE) * payout + n * (HALF + ONE * ONE) + reward * n);
    ScaleMonotone(n, window * reward, part);
    PayoutTerms(payout, reward, window, n);
    PayoutArithmetic(part, window * payout, window * reward, amount * window, window * (n * (HALF + ONE * ONE)),
                     n * (window * reward), n * part);
  }

  lemma PayoutTerms(payout: int, reward: int, window: int, n: int)
    ensures window * (2 * ONE * payout) == 2 * ONE * (window * payout)
    ensures window * (2 * reward + n) == 2 * (window * reward) + window * n
    ensures window * (reward * ONE) == ONE * (window * reward)
    ensures window * ((ONE * ONE) * payout + n * (HALF + ONE * ONE) + reward * n)
         == (ONE * ONE) * (window * payout) + window * (n * (HALF + ONE * ONE)) + n * (window * reward)
  {
    assert window * (reward * n) == n * (window * reward);
  }

  lemma PayoutArithmetic(part: int, paid: int, reward: int, cut: int, rounding: int, weights: int, parts: int)
    requires ONE * reward <= (ONE * ONE) * paid + rounding + weights && weights <= parts && part <= reward + cut
    ensures ONE * part <= (ONE * ONE) * paid + rounding + ONE * cut + parts
  {
  }

  // ---------- the loops

  function WeightBy(claims: map<Addr, Claim>): Addr -> int {
    (a: Addr) => if a in claims then claims[a].weight else 0
  }

  ghost function WeightSum(claims: map<Addr, Claim>): int {
    Total(claims.Keys, WeightBy(claims))
  }

  ghost function RewardOf(targets: set<Denom>, pool: Coins, ratio: Dec, d: Denom): Dec {
    PeriodReward(Listed(targets, d), AmountOf(pool, d), ratio)
  }

  /** What is paid out in one denom, over all claims in no particular order. */
  ghost function PaidIn(claims: map<Addr, Claim>, reward: Dec): int
    requires WeightSum(claims) != 0
  {
    Total(claims.Keys, ShareBy(reward, WeightBy(claims), WeightSum(claims)))
  }

  lemma PaidInFits(claims: map<Addr, Claim>, targets: set<Denom>, pool: Coins, ratio: Dec, d: Denom)
    requires (forall a :: a in claims ==> claims[a].weight >= 0) && WeightSum(claims) != 0
    requires |claims| < 2 * ONE && 0 <= ratio && Listed(targets, d) * ratio <= ONE
    ensures 0 <= PaidIn(claims, RewardOf(targets, pool, ratio, d)) <= AmountOf(pool, d)
  {
    hide Sum, ShareBy, Listed, PeriodReward;
    var l, w := Listing(claims.Keys), WeightBy(claims);
    ListingMembers(claims.Keys);
    SumNonNegative(l, w);
    SolventWhenRatioSmall(Listed(targets, d), ratio, AmountOf(pool, d), l, w);
    PeriodRewardNonNegative(Listed(targets, d), AmountOf(pool, d), ratio);
    SharesBound(l, RewardOf(targets, pool, ratio, d), w, Sum(l, w));
  }

  lemma PeriodRewardNonNegative(listed: nat, balance: nat, ratio: Dec)
    requires ratio >= 0
    ensures PeriodReward(listed, balance, ratio) >= 0
  {
    assert balance * ratio >= 0;
  }

  /** Sum of the weights (reward.go:34-37), whatever the order. */
  method SumWeights(claims: map<Addr, Claim>) returns (ballotPowerSum: int)
    ensures ballotPowerSum == WeightSum(claims)
  {
    hide Total;
    ballotPowerSum := 0;
    var winners := claims.Keys;
    TotalEmpty(WeightBy(claims));
    ghost var done: set<Addr> := {};
    while winners != {}
      invariant done == claims.Keys - winners && winners <= claims.Keys
      invariant ballotPowerSum == Total(done, WeightBy(claims))
    {
      var winner :| winner in winners;
      TotalAdd(done, winner, WeightBy(claims));
      winners := winners - {winner};
      done := done + {winner};
      ballotPowerSum := ballotPowerSum + claims[winner].weight;
    }
    assert done == claims.Keys;
  }

  /** The denoms to reward (reward.go:24-31), uluna first and the targets in any order. */
  method RewardDenoms(targets: set<Denom>) returns (rewardDenoms: seq<Denom>)
    ensures forall d :: multiset(rewardDenoms)[d] == Listed(targets, d)
  {
    rewardDenoms := [LUNA];
    var rest := targets;
    while rest != {}
      invariant rest <= targets
      invariant forall d :: multiset(rewardDenoms)[d] == Listed(targets - rest, d)
    {
      var denom :| denom in rest;
      rest := rest - {denom};
      rewardDenoms := rewardDenoms + [denom];
    }
    assert targets - rest == targets;
  }

  /** The rewards of the period (reward.go:47-60). */
  method PeriodRewards(targets: set<Denom>, pool: Coins, ratio: Dec) returns (rewards: map<Denom, Dec>)
    ensures forall d :: AmountOf(rewards, d) == RewardOf(targets, pool, ratio, d)
  {
    var rewardDenoms := RewardDenoms(targets);
    rewards := map[];
    for i := 0 to |rewardDenoms|
      invariant forall d :: AmountOf(rewards, d) == multiset(rewardDenoms[..i])[d] * (AmountOf(pool, d) * ratio)
    {
      var denom := rewardDenoms[i];
      assert rewardDenoms[..i + 1] == rewardDenoms[..i] + [denom];
      ghost var k := multiset(rewardDenoms[..i])[denom];
      assert (k + 1) * (AmountOf(pool, denom) * ratio)
          == k * (AmountOf(pool, denom) * ratio) + AmountOf(pool, denom) * ratio;
      var rewardPool := AmountOf(pool, denom);
      if rewardPool == 0 {
        assert AmountOf(pool, denom) * ratio == 0;
        continue;
      }
      MulWhole(rewardPool, ratio);
      rewards := rewards[denom := AmountOf(rewards, denom) + Mul(FromInt(rewardPool), ratio)];
    }
    assert rewardDenoms[..|rewardDenoms|] == rewardDenoms;
  }

  /** The shares of one winner, denom by denom (reward.go:71). */
  function RewardCoins(rewards: map<Denom, Dec>, weight: int, weightSum: int): map<Denom, int>
    requires weightSum != 0
  {
    map d | d in rewards :: Share(rewards[d], weight, weightSum)
  }

  function AddCoins(m: map<Denom, int>, n: map<Denom, int>): map<Denom, int> {
    map d | d in m.Keys + n.Keys :: AmountOf(m, d) + AmountOf(n, d)
  }

  ghost predicate DoledOut(rewards: map<Denom, Dec>, claims: map<Addr, Claim>, done: set<Addr>,
                           distributed: map<Denom, int>)
    requires WeightSum(claims) != 0
  {
    && distributed.Keys <= rewards.Keys
    && forall d :: d in rewards ==>
         AmountOf(distributed, d) == Total(done, ShareBy(rewards[d], WeightBy(claims), WeightSum(claims)))
  }

  lemma DoledStep(rewards: map<Denom, Dec>, claims: map<Addr, Claim>, done: set<Addr>,
                  distributed: map<Denom, int>, a: Addr)
    requires WeightSum(claims) != 0 && a in claims && a !in done
    requires DoledOut(rewards, claims, done, distributed)
    ensures DoledOut(rewards, claims, done + {a},
                     AddCoins(distributed, RewardCoins(rewards, claims[a].weight, WeightSum(claims))))
  {
    hide Total, WeightSum, Share;
    forall d | d in rewards
      ensures Total(done + {a}, ShareBy(rewards[d], WeightBy(claims), WeightSum(claims)))
           == Total(done, ShareBy(rewards[d], WeightBy(claims), WeightSum(claims)))
              + Share(rewards[d], claims[a].weight, WeightSum(claims))
    {
      TotalAdd(done, a, ShareBy(rewards[d], WeightBy(claims), WeightSum(claims)));
    }
  }

  lemma DoledNone(rewards: map<Denom, Dec>, claims: map<Addr, Claim>)
    requires WeightSum(claims) != 0
    ensures DoledOut(rewards, claims, {}, map[])
  {
    forall d | d in rewards ensures Total({}, ShareBy(rewards[d], WeightBy(claims), WeightSum(claims))) == 0 {
      TotalEmpty(ShareBy(rewards[d], WeightBy(claims), WeightSum(claims)));
    }
  }

  /**
   The paying loop (reward.go:66-84). `validators` are the known validators: a claim without
   one makes the loop dereference nil, which is the result None.
   */
  method DoleOut(rewards: map<Denom, Dec>, claims: map<Addr, Claim>, ballotPowerSum: int, validators: set<Addr>)
    returns (distributed: Option<map<Denom, int>>, credits: map<Addr, map<Denom, int>>)
    requires ballotPowerSum == WeightSum(claims) != 0
    ensures distributed.Some? <==> claims.Keys <= validators
    ensures distributed.Some? ==> DoledOut(rewards, claims, claims.Keys, distributed.value)
    ensures distributed.Some? ==> credits.Keys == claims.Keys
    ensures forall a :: a in credits ==>
      a in claims && credits[a] == RewardCoins(rewards, claims[a].weight, ballotPowerSum)
  {
    hide *;
    var paid: map<Denom, int> := map[];
    credits := map[];
    DoledNone(rewards, claims);
    var winners := claims.Keys;
    ghost var done: set<Addr> := {};
    while winners != {}
      invariant winners <= claims.Keys && done == claims.Keys - winners && done <= validators
      invariant DoledOut(rewards, claims, done, paid) && credits.Keys == done
      invariant forall a :: a in credits ==>
        a in claims && credits[a] == RewardCoins(rewards, claims[a].weight, ballotPowerSum)
    {
      var winner :| winner in winners;
      if winner !in validators {
        return None, credits;
      }
      DoledStep(rewards, claims, done, paid, winner);
      var rewardCoins := RewardCoins(rewards, claims[winner].weight, ballotPowerSum);
      credits := credits[winner := rewardCoins];
      paid := AddCoins(paid, rewardCoins);
      winners := winners - {winner};
      done := done + {winner};
    }
    assert done == claims.Keys;
    distributed := Some(paid);
  }

  lemma RewardOfUnlisted(claims: map<Addr, Claim>)
    requires WeightSum(claims) != 0
    ensures PaidIn(claims, 0) == 0
  {
    var l, f := Listing(claims.Keys), ShareBy(0, WeightBy(claims), WeightSum(claims));
    forall a ensures f(a) == 0 {
      assert 0 * QuoInt(FromInt(WeightBy(claims)(a)), WeightSum(claims)) == 0;
    }
    SumAllZero(l, f);
  }

  lemma {:induction false} SumAllZero(l: seq<Addr>, f: Addr -> int)
    requires forall a :: f(a) == 0
    ensures Sum(l, f) == 0
  {
    if l != [] {
      SumAllZero(l[1..], f);
    }
  }

  /** What the winners receive altogether: nothing if nobody carries weight. */
  ghost function Payout(claims: map<Addr, Claim>, targets: set<Denom>, pool: Coins, ratio: Dec, d: Denom): int {
    if WeightSum(claims) == 0 then 0 else PaidIn(claims, RewardOf(targets, pool, ratio, d))
  }

  /** What one winner is credited. */
  ghost function Credit(claims: map<Addr, Claim>, targets: set<Denom>, pool: Coins, ratio: Dec, a: Addr, d: Denom): int
  {
    if WeightSum(claims) == 0 then 0
    else Share(RewardOf(targets, pool, ratio, d), WeightBy(claims)(a), WeightSum(claims))
  }

  function CreditOf(credits: map<Addr, map<Denom, int>>, a: Addr, d: Denom): int {
    if a in credits then AmountOf(credits[a], d) else 0
  }

  /** The credits of all winners add up to the payout. */
  lemma CreditsAddUp(claims: map<Addr, Claim>, targets: set<Denom>, pool: Coins, ratio: Dec, d: Denom)
    ensures Total(claims.Keys, (a: Addr) => Credit(claims, targets, pool, ratio, a, d))
         == Payout(claims, targets, pool, ratio, d)
  {
    hide Share, Sum;
    var f := (a: Addr) => Credit(claims, targets, pool, ratio, a, d);
    if WeightSum(claims) == 0 {
      SumAllZero(Listing(claims.Keys), f);
    } else {
      var g := ShareBy(RewardOf(targets, pool, ratio, d), WeightBy(claims), WeightSum(claims));
      SumCongruent(Listing(claims.Keys), f, g);
    }
  }

  /** Claims of which none has a negative weight and some has a positive one. */
  ghost predicate HasWinners(claims: map<Addr, Claim>) {
    WeightSum(claims) != 0 && forall a :: a in claims ==> claims[a].weight >= 0
  }

  lemma WeightSumPositive(claims: map<Addr, Claim>)
    requires HasWinners(claims)
    ensures WeightSum(claims) > 0
  {
    ListingMembers(claims.Keys);
    SumNonNegative(Listing(claims.Keys), WeightBy(claims));
  }

  lemma PayoutExact(claims: map<Addr, Claim>, targets: set<Denom>, pool: Coins, votePeriod: nat, window: nat, d: Denom)
    requires window > 0 && HasWinners(claims)
    ensures IsPayout(Payout(claims, targets, pool, DistributionRatio(votePeriod, window), d),
                     Listed(targets, d) * AmountOf(pool, d), votePeriod, window, |claims|)
  {
    hide Sum, ShareBy, Listed, PeriodReward, DistributionRatio, IsPayout, IsReward;
    var l, w, ratio := Listing(claims.Keys), WeightBy(claims), DistributionRatio(votePeriod, window);
    var reward := RewardOf(targets, pool, ratio, d);
    ListingMembers(claims.Keys);
    WeightSumPositive(claims);
    RatioNonNegative(votePeriod, window);
    PeriodRewardNonNegative(Listed(targets, d), AmountOf(pool, d), ratio);
    RewardExact(Listed(targets, d), AmountOf(pool, d), votePeriod, window);
    SharesWithinReward(l, reward, w);
    SharesMakeUpReward(l, reward, w);
    var promised := Listed(targets, d) * AmountOf(pool, d);
    PayoutFromReward(PaidIn(claims, reward), reward, promised, votePeriod, window, |claims|);
  }

  lemma RatioNonNegative(votePeriod: nat, window: nat)
    requires window > 0
    ensures DistributionRatio(votePeriod, window) >= 0
  {
    TruncDivBelow(FromInt(votePeriod), window);
  }

  /** A winner is credited the part of the reward its weight calls for. */
  lemma CreditExact(claims: map<Addr, Claim>, targets: set<Denom>, pool: Coins, ratio: Dec, a: Addr, d: Denom)
    requires HasWinners(claims) && a in claims && ratio >= 0
    ensures IsShare(Credit(claims, targets, pool, ratio, a, d), RewardOf(targets, pool, ratio, d),
                    claims[a].weight, WeightSum(claims))
  {
    hide Share, WeightSum, PeriodReward;
    WeightSumPositive(claims);
    PeriodRewardNonNegative(Listed(targets, d), AmountOf(pool, d), ratio);
    ShareExact(RewardOf(targets, pool, ratio, d), claims[a].weight, WeightSum(claims));
  }

  lemma PayoutFits(claims: map<Addr, Claim>, targets: set<Denom>, pool: Coins, ratio: Dec, d: Denom)
    requires forall a :: a in claims ==> claims[a].weight >= 0
    requires |claims| < 2 * ONE && 0 <= ratio && Listed(targets, d) * ratio <= ONE
    ensures 0 <= Payout(claims, targets, pool, ratio, d) <= AmountOf(pool, d)
  {
    if WeightSum(claims) != 0 {
      PaidInFits(claims, targets, pool, ratio, d);
    }
  }

  /**
   RewardBallotWinners (reward.go:16-91) up to the transfer, which the caller makes: the
   coins to move are the Payout in every denom, whatever orders the maps were ranged in.
   */
  method RewardBallotWinners(votePeriod: nat, rewardDistributionWindow: nat, targets: set<Denom>,
                             claims: map<Addr, Claim>, pool: Coins, validators: set<Addr>)
    returns (distributed: Option<map<Denom, int>>, credits: map<Addr, map<Denom, int>>)
    requires rewardDistributionWindow != 0
    ensures distributed.Some? <==> WeightSum(claims) == 0 || claims.Keys <= validators
    ensures var ratio := DistributionRatio(votePeriod, rewardDistributionWindow);
      distributed.Some? ==> forall d :: AmountOf(distributed.value, d) == Payout(claims, targets, pool, ratio, d)
    ensures var ratio := DistributionRatio(votePeriod, rewardDistributionWindow);
      distributed.Some? ==> forall a, d :: a in claims ==>
        CreditOf(credits, a, d) == Credit(claims, targets, pool, ratio, a, d)
    ensures distributed.Some? && HasWinners(claims) ==> forall d ::
      IsPayout(AmountOf(distributed.value, d), Listed(targets, d) * AmountOf(pool, d),
               votePeriod, rewardDistributionWindow, |claims|)
  {
    hide Share, WeightSum, DoledOut, RewardOf, RewardCoins, Credit, CreditOf, Payout, IsPayout, DistributionRatio;
    var ballotPowerSum := SumWeights(claims);
    if ballotPowerSum == 0 {
      NothingPaid(claims, targets, pool, DistributionRatio(votePeriod, rewardDistributionWindow));
      return Some(map[]), map[];
    }
    var ratio := DistributionRatio(votePeriod, rewardDistributionWindow);
    var rewards := PeriodRewards(targets, pool, ratio);
    distributed, credits := DoleOut(rewards, claims, ballotPowerSum, validators);
    if distributed.Some? {
      forall d ensures AmountOf(distributed.value, d) == Payout(claims, targets, pool, ratio, d) {
        DoledIsPayout(rewards, claims, distributed.value, targets, pool, ratio, d);
      }
      forall a, d | a in claims ensures CreditOf(credits, a, d) == Credit(claims, targets, pool, ratio, a, d) {
        CoinsAreCredit(rewards, claims, credits, targets, pool, ratio, a, d);
      }
      if HasWinners(claims) {
        forall d ensures IsPayout(AmountOf(distributed.value, d), Listed(targets, d) * AmountOf(pool, d),
                                  votePeriod, rewardDistributionWindow, |claims|)
        {
          PayoutExact(claims, targets, pool, votePeriod, rewardDistributionWindow, d);
        }
      }
    }
  }

  lemma DoledIsPayout(rewards: map<Denom, Dec>, claims: map<Addr, Claim>, distributed: map<Denom, int>,
                      targets: set<Denom>, pool: Coins, ratio: Dec, d: Denom)
    requires WeightSum(claims) != 0 && DoledOut(rewards, claims, claims.Keys, distributed)
    requires AmountOf(rewards, d) == RewardOf(targets, pool, ratio, d)
    ensures AmountOf(distributed, d) == Payout(claims, targets, pool, ratio, d)
  {
    hide WeightSum, Share, Total, PeriodReward;
    RewardOfUnlisted(claims);
  }

  lemma CoinsAreCredit(rewards: map<Denom, Dec>, claims: map<Addr, Claim>, credits: map<Addr, map<Denom, int>>,
                       targets: set<Denom>, pool: Coins, ratio: Dec, a: Addr, d: Denom)
    requires WeightSum(claims) != 0 && a in claims && a in credits
    requires credits[a] == RewardCoins(rewards, claims[a].weight, WeightSum(claims))
    requires AmountOf(rewards, d) == RewardOf(targets, pool, ratio, d)
    ensures CreditOf(credits, a, d) == Credit(claims, targets, pool, ratio, a, d)
  {
    hide WeightSum, Share, PeriodReward;
    NoShareOfNothing(claims[a].weight, WeightSum(claims));
  }

  lemma NothingPaid(claims: map<Addr, Claim>, targets: set<Denom>, pool: Coins, ratio: Dec)
    requires WeightSum(claims) == 0
    ensures forall d :: Payout(claims, targets, pool, ratio, d) == 0
    ensures forall a, d :: CreditOf(map[], a, d) == Credit(claims, targets, pool, ratio, a, d)
  {
  }

  lemma NoShareOfNothing(weight: int, weightSum: int)
    requires weightSum != 0
    ensures Share(0, weight, weightSum) == 0
  {
    assert 0 * QuoInt(FromInt(weight), weightSum) == 0;
  }
}
