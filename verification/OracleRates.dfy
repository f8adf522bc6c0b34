/**
 What a tally's numbers amount to, up to rounding (x/oracle/abci.go:60-85, x/oracle/tally.go:14-38):
 the stored rates, the band of winners and the weight a validator gains.
 */
module OracleRates {
  import opened Decimals
  import opened Seqs
  import opened Ballots
  import opened Tally
  import opened TallyFacts

  // ---------- the reference

  /** The reference is a passing denom of the largest power, and the first in order of those. */
  lemma ReferenceExact(p: Poll, d: Denom)
    requires d in p.Passing()
    ensures var r := p.Reference();
      && r in p.Passing() && TotalPower(p.BallotOf(d)) <= TotalPower(p.BallotOf(r))
      && (TotalPower(p.BallotOf(d)) == TotalPower(p.BallotOf(r)) && d != r ==> Before(r, d))
  {
    hide Poll.Passing, Poll.Reference, Poll.BallotOf, TotalPower;
    p.ReferenceLargest();
  }

  // ---------- the stored rates

  /**
   The rate stored for a denom: the median of its votes for the reference, otherwise the median
   of the reference divided by the median of the cross rates.
   */
  ghost predicate IsStoredRate(p: Poll, d: Denom, rate: Dec) {
    if d == p.Reference() then IsWeightedMedian(p.BallotOf(d), rate)
    else IsQuotient(rate, MedianOf(p.BallotOf(p.Reference())), MedianOf(p.Counted(d)))
  }

  lemma CrossMedianNonNegative(p: Poll, d: Denom)
    requires d in p.Passing() && d != p.Reference()
    ensures MedianOf(p.Counted(d)) >= 0
  {
    hide Poll.Passing, Poll.Counted, Poll.Reference, MedianOf;
    CountedNonEmpty(p, d);
    MedianOfIsMedian(p.Counted(d));
    var v :| v in p.Counted(d) && v.rate == MedianOf(p.Counted(d));
    CountedNonNegative(p, d, v);
  }

  lemma StoredRate(p: Poll, d: Denom)
    requires p.RatesDefined() && d in p.Passing()
    ensures IsStoredRate(p, d, p.Rates()[d])
  {
    hide Poll.Passing, Poll.Counted, Poll.Reference, MedianOf, Poll.BallotOf, Quo, IsQuotient, IsWeightedMedian;
    if d == p.Reference() {
      CountedNonEmpty(p, d);
      ReferenceCounted(p);
      MedianOfIsMedian(p.BallotOf(d));
    } else {
      CrossMedianNonNegative(p, d);
      QuoNearest(MedianOf(p.BallotOf(p.Reference())), MedianOf(p.Counted(d)));
    }
  }

  lemma ReferenceCounted(p: Poll)
    ensures p.Counted(p.Reference()) == p.BallotOf(p.Reference())
  {
    hide Poll.BallotOf, Poll.Reference;
  }

  /** The cross rate of a voter is its rate for the reference divided by its rate for the denom. */
  lemma CrossRate(p: Poll, d: Denom, v: Vote)
    requires d != p.Reference() && v in p.Counted(d) && v.power > 0
    ensures VotedPositive(p, d, v.voter) && VotedPositive(p, p.Reference(), v.voter)
    ensures IsQuotient(v.rate, p.votes[v.voter][p.Reference()], p.votes[v.voter][d])
  {
    hide Poll.Counted, Poll.Reference, Quo, IsQuotient;
    CountedNonNegative(p, d, v);
    QuoNearest(p.votes[v.voter][p.Reference()], p.votes[v.voter][d]);
  }

  /** All that voted a positive rate on a denom agree on it. */
  ghost predicate Unanimous(p: Poll, d: Denom, rate: Dec) {
    forall a :: VotedPositive(p, d, a) ==> p.votes[a][d] == rate
  }

  /** A positive vote with power carries the median of a ballot of power two or more. */
  lemma UnanimousReference(p: Poll, rate: Dec)
    requires p.Reference() in p.Passing() && Unanimous(p, p.Reference(), rate)
    requires TotalPower(p.BallotOf(p.Reference())) >= 2
    ensures MedianOf(p.BallotOf(p.Reference())) == rate
  {
    hide Poll.Passing, Poll.Counted, Poll.Reference, MedianOf, Poll.BallotOf, TotalPower, IsWeightedMedian;
    var b := p.BallotOf(p.Reference());
    CountedNonEmpty(p, p.Reference());
    ReferenceCounted(p);
    MedianOfIsMedian(b);
    MedianHasPower(b, MedianOf(b));
    var v :| v in b && v.rate == MedianOf(b) && v.power > 0;
    p.BallotMember(p.Reference(), v);
  }

  lemma UnanimousCross(p: Poll, d: Denom, refRate: Dec, rate: Dec)
    requires d in p.Passing() && d != p.Reference() && TotalPower(p.Counted(d)) >= 2
    requires Unanimous(p, p.Reference(), refRate) && Unanimous(p, d, rate)
    ensures IsQuotient(MedianOf(p.Counted(d)), refRate, rate)
  {
    hide Poll.Passing, Poll.Counted, Poll.Reference, MedianOf, TotalPower, IsWeightedMedian, IsQuotient;
    CountedNonEmpty(p, d);
    MedianOfIsMedian(p.Counted(d));
    MedianHasPower(p.Counted(d), MedianOf(p.Counted(d)));
    var v :| v in p.Counted(d) && v.rate == MedianOf(p.Counted(d)) && v.power > 0;
    CrossRate(p, d, v);
  }

  /**
   If all positive votes on the reference agree and all on the denom agree, the stored rate is the
   rate voted on the denom, up to the rounding of the two divisions.
   */
  lemma UnanimousRate(p: Poll, d: Denom, refRate: Dec, rate: Dec)
    requires p.RatesDefined() && d in p.Passing() && d != p.Reference()
    requires Unanimous(p, p.Reference(), refRate) && Unanimous(p, d, rate)
    requires TotalPower(p.BallotOf(p.Reference())) >= 2 && TotalPower(p.Counted(d)) >= 2
    ensures var cross := MedianOf(p.Counted(d));
      && cross > 0 && IsQuotient(cross, refRate, rate)
      && -((rate + cross) * (ONE + 2)) <= 2 * ONE * (cross * (p.Rates()[d] - rate)) <= (rate + cross) * (ONE + 2)
  {
    hide Poll.Passing, Poll.Counted, Poll.Reference, MedianOf, TotalPower, Poll.BallotOf;
    StoredRate(p, d);
    p.ReferenceLargest();
    UnanimousReference(p, refRate);
    UnanimousCross(p, d, refRate, rate);
    TwiceDivided(refRate, rate, MedianOf(p.Counted(d)), p.Rates()[d]);
  }

  lemma TwiceDivided(r: Dec, v: Dec, c: Dec, rate: Dec)
    requires IsQuotient(c, r, v) && IsQuotient(rate, r, c)
    ensures -((v + c) * (ONE + 2)) <= 2 * ONE * (c * (rate - v)) <= (v + c) * (ONE + 2)
  {
    assert c * (rate - v) == rate * c - c * v;
    assert (v + c) * (ONE + 2) == v * (ONE + 2) + c * (ONE + 2);
  }

  // ---------- the band

  function Absolute(x: int): nat {
    if x < 0 then -x else x
  }

  /** x is half the reward band of the median, up to rounding. */
  predicate IsHalfBand(x: Dec, median: Dec, rewardBand: Dec) {
    -(ONE + Absolute(median)) <= 2 * ONE * x - median * rewardBand <= ONE + Absolute(median)
  }

  lemma HalfBand(median: Dec, rewardBand: Dec)
    requires rewardBand >= 0
    ensures IsHalfBand(Mul(median, QuoInt(rewardBand, 2)), median, rewardBand)
  {
    var h := QuoInt(rewardBand, 2);
    QuoIntCut(rewardBand, 2);
    MulNearest(median, h);
    var rest := rewardBand - 2 * h;
    assert 0 <= rest <= 1;
    assert median * rewardBand == 2 * (median * h) + median * rest;
    assert rest == 0 ==> median * rest == 0;
    assert rest == 1 ==> median * rest == median;
  }

  /** The band is the larger of the deviation and half the reward band of the median. */
  lemma BandWidth(p: Poll, b: Ballot) returns (half: Dec)
    requires p.rewardBand >= 0
    ensures IsHalfBand(half, MedianOf(b), p.rewardBand)
    ensures p.Spread(b) >= half && p.Spread(b) >= DeviationOf(b, MedianOf(b), p.sqrt)
    ensures p.Spread(b) in {half, DeviationOf(b, MedianOf(b), p.sqrt)}
  {
    hide MedianOf, DeviationOf, Mul, IsHalfBand;
    half := Mul(MedianOf(b), QuoInt(p.rewardBand, 2));
    HalfBand(MedianOf(b), p.rewardBand);
  }

  /** A denom is covered by a vote at most the band away from the median, or by abstaining. */
  lemma CoveredIff(p: Poll, d: Denom, a: Addr)
    ensures Covers(p, d, a) <==>
      exists v ::
        && v in p.Counted(d) && v.voter == a
        && (v.rate <= 0 || Absolute(v.rate - MedianOf(p.Counted(d))) <= p.Spread(p.Counted(d)))
  {
    hide Poll.Counted, Poll.Spread, MedianOf;
    var b := p.Counted(d);
    forall v | v in b && v.voter == a
      ensures Wins(MedianOf(b), p.Spread(b), v) <==> v.rate <= 0 || Absolute(v.rate - MedianOf(b)) <= p.Spread(b)
    {
    }
  }

  // ---------- weights

  /** Power of a validator's vote in the ballot counted for a denom. */
  ghost function CountedPower(p: Poll, d: Denom, a: Addr): int {
    if d == p.Reference() then CastPower(p, d)(a) else SharedPower(p, d, p.Reference())(a)
  }

  lemma CountedPowerOf(p: Poll, d: Denom, v: Vote)
    requires v in p.Counted(d)
    ensures v.power == CountedPower(p, d, v.voter)
  {
    hide Poll.BallotOf, Poll.Reference, Poll.Bases, CrossBallot;
    if d == p.Reference() {
      p.BallotMember(d, v);
    } else {
      CrossBallotMember(p.BallotOf(d), p.Bases(), v);
      var w :| w in p.BallotOf(d) && v == CrossVote(w, p.Bases());
      p.BallotMember(d, w);
      BasesVoted(p, w.voter);
    }
  }

  lemma {:induction false} SumOfOwn(b: Ballot, f: Vote -> int, a: Addr, x: int)
    requires forall v :: v in b ==> f(v) == if v.voter == a then x else 0
    ensures Sum(b, f) == x * Sum(b, OneIfBy(a))
  {
    if b != [] {
      SumOfOwn(b[1..], f, a, x);
      assert b == [b[0]] + b[1..];
      var n := Sum(b[1..], OneIfBy(a));
      assert x * (1 + n) == x + x * n && x * (0 + n) == x * n;
    }
  }

  /** On a ballot a validator gains its counted power if it covered the denom, and else nothing. */
  lemma WeightGained(p: Poll, d: Denom, a: Addr)
    ensures p.WeightIn(d, a) == if Covers(p, d, a) then CountedPower(p, d, a) else 0
  {
    hide Poll.Counted, Poll.Spread, MedianOf, CountedPower, Sum;
    var b := p.Counted(d);
    var median, spread := MedianOf(b), p.Spread(b);
    var f := WinningPower(median, spread, a);
    p.CountedOneVoteEach(d);
    if Covers(p, d, a) {
      var w :| w in b && w.voter == a && Wins(median, spread, w);
      CountedPowerOf(p, d, w);
      forall v | v in b ensures f(v) == if v.voter == a then w.power else 0 {
        assert v.voter == a ==> v == w;
      }
      SumOfOwn(b, f, a, w.power);
      SumNonNegative(b, OneIfBy(a));
      assert OneIfBy(a)(w) == 1;
      assert Sum(b, OneIfBy(a)) == 1;
    } else {
      SumOfOwn(b, f, a, 0);
    }
  }

  /** The weight of a claim is the counted power over the passing denoms its validator covered. */
  lemma ClaimWeight(p: Poll, a: Addr)
    requires a in p.powers
    ensures p.Claims()[a].weight
         == Total(p.Passing(), (d: Denom) => if Covers(p, d, a) then CountedPower(p, d, a) else 0)
    ensures p.Claims()[a].power == p.powers[a]
  {
    hide Poll.WeightIn, Poll.WinsIn, Covers, CountedPower, Sum, Poll.Passing;
    var f := (d: Denom) => if Covers(p, d, a) then CountedPower(p, d, a) else 0;
    forall d ensures p.WeightOn(a)(d) == f(d) {
      WeightGained(p, d, a);
    }
    SumCongruent(Listing(p.Passing()), p.WeightOn(a), f);
  }
}
