/**
 Ballots of the oracle (x/oracle/types/ballot.go): power, weighted median, reference map
 and cross rates. Voting powers are non-negative and unbounded.
 */
module Ballots {
  import opened Decimals
  import opened Seqs

  type Addr = string
  type Denom = string

  datatype Vote = Vote(rate: Dec, voter: Addr, power: nat)
  type Ballot = seq<Vote>

  // ---------- measures of a ballot, none of which depends on its order

  function PowerOf(): Vote -> int {
    (v: Vote) => v.power
  }

  function PowerOfAtMost(r: Dec): Vote -> int {
    (v: Vote) => if v.rate <= r then v.power else 0
  }

  function OneIfBy(a: Addr): Vote -> int {
    (v: Vote) => if v.voter == a then 1 else 0
  }

  function SquaredDeviation(median: Dec): Vote -> int {
    (v: Vote) => Mul(v.rate - median, v.rate - median)
  }

  function TotalPower(b: Ballot): int {
    Sum(b, PowerOf())
  }

  /** Power of the votes at or below a rate. */
  function PowerAtMost(b: Ballot, r: Dec): int {
    Sum(b, PowerOfAtMost(r))
  }

  ghost predicate SameVotes(b: Ballot, c: Ballot) {
    multiset(b) == multiset(c)
  }

  lemma SameVotesMembers(b: Ballot, c: Ballot)
    requires SameVotes(b, c)
    ensures |b| == |c|
    ensures forall v :: v in b <==> v in c
  {
    assert |multiset(b)| == |multiset(c)|;
    assert forall v :: v in b <==> v in multiset(b);
  }

  predicate SortedByRate(b: Ballot) {
    forall i, j :: 0 <= i < j < |b| ==> b[i].rate <= b[j].rate
  }

  /** Each validator has at most one vote in the ballot. */
  ghost predicate OneVoteEach(b: Ballot) {
    && (forall v, w :: v in b && w in b && v.voter == w.voter ==> v == w)
    && (forall a :: Sum(b, OneIfBy(a)) <= 1)
  }

  lemma OneVoteEachPermutes(b: Ballot, c: Ballot)
    requires SameVotes(b, c) && OneVoteEach(c)
    ensures OneVoteEach(b)
  {
    SameVotesMembers(b, c);
    forall a ensures Sum(b, OneIfBy(a)) <= 1 {
      SumPermutation(b, c, OneIfBy(a));
    }
  }

  // ---------- weighted median

  /** r is the least voted rate at which the cumulative power reaches half the total. */
  ghost predicate IsWeightedMedian(b: Ballot, r: Dec) {
    && (exists v :: v in b && v.rate == r)
    && PowerAtMost(b, r) >= TotalPower(b) / 2
    && (forall v :: v in b && v.rate < r ==> PowerAtMost(b, v.rate) < TotalPower(b) / 2)
  }

  /** The median is determined by the votes, not by their order: an unstable sort is harmless. */
  lemma WeightedMedianUnique(b: Ballot, c: Ballot, r: Dec, s: Dec)
    requires SameVotes(b, c)
    requires IsWeightedMedian(b, r) && IsWeightedMedian(c, s)
    ensures r == s
  {
    SameVotesMembers(b, c);
    SumPermutation(b, c, PowerOf());
    SumPermutation(b, c, PowerOfAtMost(r));
    SumPermutation(b, c, PowerOfAtMost(s));
  }

  lemma PowerAtMostMonotone(b: Ballot, r: Dec, s: Dec)
    requires r <= s
    ensures 0 <= PowerAtMost(b, r) <= PowerAtMost(b, s) <= TotalPower(b)
  {
    SumNonNegative(b, PowerOfAtMost(r));
    SumMonotone(b, PowerOfAtMost(r), PowerOfAtMost(s));
    SumMonotone(b, PowerOfAtMost(s), PowerOf());
  }

  lemma {:induction false} LeastVote(b: Ballot, p: Vote -> bool, w: Vote) returns (m: Vote)
    requires w in b && p(w)
    ensures m in b && p(m) && forall v :: v in b && p(v) ==> m.rate <= v.rate
  {
    m := w;
    for i := 0 to |b|
      invariant m in b && p(m)
      invariant forall j :: 0 <= j < i && p(b[j]) ==> m.rate <= b[j].rate
    {
      if p(b[i]) && b[i].rate < m.rate {
        m := b[i];
      }
    }
  }

  lemma {:induction false} GreatestVote(b: Ballot, p: Vote -> bool, w: Vote) returns (m: Vote)
    requires w in b && p(w)
    ensures m in b && p(m) && forall v :: v in b && p(v) ==> v.rate <= m.rate
  {
    m := w;
    for i := 0 to |b|
      invariant m in b && p(m)
      invariant forall j :: 0 <= j < i && p(b[j]) ==> b[j].rate <= m.rate
    {
      if p(b[i]) && b[i].rate > m.rate {
        m := b[i];
      }
    }
  }

  lemma WeightedMedianExists(b: Ballot)
    requires b != []
    ensures exists r :: IsWeightedMedian(b, r)
  {
    var top := GreatestVote(b, (v: Vote) => true, b[0]);
    SumCongruent(b, PowerOfAtMost(top.rate), PowerOf());
    SumNonNegative(b, PowerOf());
    var m := LeastVote(b, (v: Vote) => PowerAtMost(b, v.rate) >= TotalPower(b) / 2, top);
    assert IsWeightedMedian(b, m.rate);
  }

  /** The median of the votes in any order; zero for an empty ballot. */
  ghost function MedianOf(b: Ballot): Dec {
    if b == [] then 0
    else
      WeightedMedianExists(b);
      var r :| IsWeightedMedian(b, r);
      r
  }

  lemma MedianOfIsMedian(b: Ballot)
    requires b != []
    ensures IsWeightedMedian(b, MedianOf(b))
  {
    WeightedMedianExists(b);
  }

  lemma MedianOfPermutes(b: Ballot, c: Ballot)
    requires SameVotes(b, c)
    ensures MedianOf(b) == MedianOf(c)
  {
    SameVotesMembers(b, c);
    if b != [] {
      MedianOfIsMedian(b);
      MedianOfIsMedian(c);
      WeightedMedianUnique(b, c, MedianOf(b), MedianOf(c));
    }
  }

  /** A greatest rate at or below a bound sees the same cumulative power as the bound. */
  lemma PowerAtMostJumps(b: Ballot, x: Dec, w: Vote) returns (m: Dec)
    requires w in b && w.rate <= x
    ensures m <= x && (exists v :: v in b && v.rate == m)
    ensures PowerAtMost(b, m) == PowerAtMost(b, x)
  {
    var top := GreatestVote(b, (v: Vote) => v.rate <= x, w);
    m := top.rate;
    SumCongruent(b, PowerOfAtMost(m), PowerOfAtMost(x));
  }

  /** With total power at least two the median was voted with positive power. */
  lemma MedianHasPower(b: Ballot, r: Dec)
    requires IsWeightedMedian(b, r) && TotalPower(b) >= 2
    ensures exists v :: v in b && v.rate == r && v.power > 0
  {
    if forall v :: v in b && v.rate == r ==> v.power == 0 {
      SumCongruent(b, PowerOfAtMost(r), PowerOfAtMost(r - 1));
      if w :| w in b && w.rate <= r - 1 {
        var m := PowerAtMostJumps(b, r - 1, w);
        assert false;
      } else {
        SumCongruent(b, PowerOfAtMost(r - 1), (v: Vote) => 0);
        SumZero(b);
        assert false;
      }
    }
  }

  lemma {:induction false} SumZero(b: Ballot)
    ensures Sum(b, (v: Vote) => 0) == 0
  {
    if b != [] {
      SumZero(b[1..]);
    }
  }

  /** Exactly when the median is positive. */
  lemma MedianPositiveIff(b: Ballot, r: Dec)
    requires IsWeightedMedian(b, r)
    ensures r > 0 <==> (forall v :: v in b ==> v.rate > 0) || PowerAtMost(b, 0) < TotalPower(b) / 2
  {
    if r > 0 {
      if w :| w in b && w.rate <= 0 {
        var m := PowerAtMostJumps(b, 0, w);
      }
    } else {
      PowerAtMostMonotone(b, r, 0);
    }
  }

  /** Power (ballot.go:88-95). */
  method Power(b: Ballot) returns (totalPower: int)
    ensures totalPower == TotalPower(b)
  {
    totalPower := 0;
    for i := 0 to |b|
      invariant totalPower == Sum(b[..i], PowerOf())
    {
      SumStep(b, i, PowerOf());
      totalPower := totalPower + b[i].power;
    }
    assert b[..|b|] == b;
  }

  /** Splits the cumulative power at a position of a ballot sorted around a rate. */
  lemma PowerAround(b: Ballot, i: nat, r: Dec)
    requires i <= |b|
    ensures (forall j :: 0 <= j < i ==> b[j].rate <= r) ==> Sum(b[..i], PowerOf()) <= PowerAtMost(b, r)
    ensures (forall j :: i <= j < |b| ==> b[j].rate > r) ==> PowerAtMost(b, r) <= Sum(b[..i], PowerOf())
  {
    assert b == b[..i] + b[i..];
    SumAppend(b[..i], b[i..], PowerOfAtMost(r));
    SumMonotone(b[..i], PowerOfAtMost(r), PowerOf());
    SumNonNegative(b[i..], PowerOfAtMost(r));
    if forall j :: 0 <= j < i ==> b[j].rate <= r {
      SumCongruent(b[..i], PowerOfAtMost(r), PowerOf());
    }
    if forall j :: i <= j < |b| ==> b[j].rate > r {
      SumCongruent(b[i..], PowerOfAtMost(r), (v: Vote) => 0);
      SumZero(b[i..]);
    }
  }

  /** WeightedMedian (ballot.go:99-113): the scan returns the median of the votes. */
  method WeightedMedian(b: Ballot) returns (median: Dec)
    requires SortedByRate(b)
    ensures b == [] ==> median == 0
    ensures b != [] ==> IsWeightedMedian(b, median)
    ensures median == MedianOf(b)
  {
    var totalPower := Power(b);
    var pivot := 0;
    for i := 0 to |b|
      invariant pivot == Sum(b[..i], PowerOf())
      invariant i > 0 ==> pivot < totalPower / 2
    {
      SumStep(b, i, PowerOf());
      pivot := pivot + b[i].power;
      if pivot >= totalPower / 2 {
        median := b[i].rate;
        PowerAround(b, i + 1, median);
        forall v | v in b && v.rate < median ensures PowerAtMost(b, v.rate) < totalPower / 2 {
          PowerAround(b, i, v.rate);
        }
        MedianOfIsMedian(b);
        WeightedMedianUnique(b, b, median, MedianOf(b));
        return;
      }
    }
    assert b[..|b|] == b;
    SumNonNegative(b, PowerOf());
    median := 0;
  }

  // ---------- sorting

  method InsertByRate(s: Ballot, v: Vote) returns (t: Ballot)
    requires SortedByRate(s)
    ensures SortedByRate(t)
    ensures multiset(t) == multiset(s) + multiset{v}
  {
    var k := 0;
    while k < |s| && s[k].rate <= v.rate
      invariant 0 <= k <= |s|
      invariant forall j :: 0 <= j < k ==> s[j].rate <= v.rate
    {
      k := k + 1;
    }
    hide SortedByRate;
    t := s[..k] + [v] + s[k..];
    SortedInsert(s, v, k);
    assert s == s[..k] + s[k..];
  }

  lemma SortedInsert(s: Ballot, v: Vote, k: nat)
    requires SortedByRate(s) && k <= |s|
    requires forall j :: 0 <= j < k ==> s[j].rate <= v.rate
    requires k < |s| ==> v.rate <= s[k].rate
    ensures SortedByRate(s[..k] + [v] + s[k..])
  {
    var t := s[..k] + [v] + s[k..];
    forall i, j | 0 <= i < j < |t| ensures t[i].rate <= t[j].rate {
      assert j > k ==> t[j] == s[j - 1];
    }
  }

  /** sort.Sort with Less of ballot.go:149-156; callers learn only that the result is some sorted permutation. */
  method SortBallot(b: Ballot) returns (s: Ballot)
    ensures SortedByRate(s)
    ensures SameVotes(s, b)
  {
    s := [];
    for i := 0 to |b|
      invariant SortedByRate(s)
      invariant multiset(s) == multiset(b[..i])
    {
      assert b[..i + 1] == b[..i] + [b[i]];
      s := InsertByRate(s, b[i]);
    }
    assert b[..|b|] == b;
  }

  // ---------- standard deviation

  /**
   StandardDeviation (ballot.go:116-140). The float square root is the parameter `sqrt`;
   what is modelled is that it is applied to the variance.
   */
  ghost function DeviationOf(b: Ballot, median: Dec, sqrt: Dec -> Dec): Dec {
    if b == [] then 0 else sqrt(QuoInt(Sum(b, SquaredDeviation(median)), |b|))
  }

  method StandardDeviation(b: Ballot, median: Dec, sqrt: Dec -> Dec) returns (r: Dec)
    ensures r == DeviationOf(b, median, sqrt)
  {
    if b == [] {
      return 0;
    }
    var sum := 0;
    for i := 0 to |b|
      invariant sum == Sum(b[..i], SquaredDeviation(median))
    {
      SumStep(b, i, SquaredDeviation(median));
      var deviation := b[i].rate - median;
      sum := sum + Mul(deviation, deviation);
    }
    assert b[..|b|] == b;
    r := sqrt(QuoInt(sum, |b|));
  }

  function RawDeviation(median: Dec): Vote -> int {
    (v: Vote) => (v.rate - median) * (v.rate - median)
  }

  lemma {:induction false} SquaresNearest(b: Ballot, median: Dec)
    ensures -(|b| * HALF) <= Sum(b, SquaredDeviation(median)) * ONE - Sum(b, RawDeviation(median)) <= |b| * HALF
    ensures Sum(b, SquaredDeviation(median)) >= 0
  {
    hide Mul;
    if b != [] {
      SquaresNearest(b[1..], median);
      var d := b[0].rate - median;
      MulNearest(d, d);
      MulSquare(d);
      assert |b| * HALF == HALF + |b[1..]| * HALF;
    }
  }

  lemma MulSquare(d: Dec)
    ensures Mul(d, d) >= 0
  {
    assert d * d >= 0;
    ChopRoundNearest(d * d);
  }

  /** What the root is taken of is the mean squared deviation from the median, up to rounding. */
  lemma VarianceExact(b: Ballot, median: Dec, sqrt: Dec -> Dec) returns (variance: Dec)
    requires b != []
    ensures DeviationOf(b, median, sqrt) == sqrt(variance)
    ensures -(|b| * HALF) <= ONE * (|b| * variance) + ONE * |b| - Sum(b, RawDeviation(median))
    ensures ONE * (|b| * variance) - Sum(b, RawDeviation(median)) <= |b| * HALF
  {
    hide Sum;
    var n, total := |b|, Sum(b, SquaredDeviation(median));
    variance := QuoInt(total, n);
    SquaresNearest(b, median);
    QuoIntCut(total, n);
    assert n * (variance + 1) == n * variance + n;
  }

  lemma DeviationPermutes(b: Ballot, c: Ballot, median: Dec, sqrt: Dec -> Dec)
    requires SameVotes(b, c)
    ensures DeviationOf(b, median, sqrt) == DeviationOf(c, median, sqrt)
  {
    SameVotesMembers(b, c);
    SumPermutation(b, c, SquaredDeviation(median));
  }

  // ---------- reference map and cross rates

  /** m holds exactly the positive rates of the ballot, by voter. */
  ghost predicate IsReferenceMap(b: Ballot, m: map<Addr, Dec>) {
    && (forall v :: v in b && v.rate > 0 ==> v.voter in m && m[v.voter] == v.rate)
    && (forall a :: a in m ==> exists v :: v in b && v.rate > 0 && v.voter == a)
  }

  lemma ReferenceMapUnique(b: Ballot, c: Ballot, m: map<Addr, Dec>, n: map<Addr, Dec>)
    requires SameVotes(b, c) && IsReferenceMap(b, m) && IsReferenceMap(c, n)
    ensures m == n
  {
    SameVotesMembers(b, c);
    assert forall a :: a in m <==> a in n;
  }

  /** Position i holds the last positive rate of its voter. */
  ghost predicate IsLastPositive(b: Ballot, i: int) {
    && 0 <= i < |b| && b[i].rate > 0
    && forall j :: i < j < |b| && b[j].voter == b[i].voter ==> b[j].rate <= 0
  }

  /** m holds the last positive rate of every voter that has one. */
  ghost predicate HoldsLastPositive(b: Ballot, m: map<Addr, Dec>) {
    && (forall i :: 0 <= i < |b| && IsLastPositive(b, i) ==> b[i].voter in m && m[b[i].voter] == b[i].rate)
    && (forall a :: a in m ==> exists i :: IsLastPositive(b, i) && b[i].voter == a)
  }

  lemma LastPositiveMore(b: Ballot, v: Vote, m: map<Addr, Dec>)
    requires HoldsLastPositive(b, m)
    ensures HoldsLastPositive(b + [v], if v.rate > 0 then m[v.voter := v.rate] else m)
  {
    var c, n := b + [v], if v.rate > 0 then m[v.voter := v.rate] else m;
    forall i | 0 <= i < |c| && IsLastPositive(c, i) ensures c[i].voter in n && n[c[i].voter] == c[i].rate {
      if i < |b| {
        assert c[|b|] == v;
        assert IsLastPositive(b, i) by {
          forall j | i < j < |b| && b[j].voter == b[i].voter ensures b[j].rate <= 0 {
            assert c[j] == b[j];
          }
        }
      }
    }
    forall a | a in n ensures exists i :: IsLastPositive(c, i) && c[i].voter == a {
      if v.rate > 0 && a == v.voter {
        assert IsLastPositive(c, |b|);
      } else {
        var i :| IsLastPositive(b, i) && b[i].voter == a;
        assert c[i] == b[i];
        assert IsLastPositive(c, i);
      }
    }
  }

  lemma {:induction false} SomeLastPositive(b: Ballot, i: nat) returns (k: nat)
    requires i < |b| && b[i].rate > 0
    ensures IsLastPositive(b, k) && b[k].voter == b[i].voter
    decreases |b| - i
  {
    if j :| i < j < |b| && b[j].voter == b[i].voter && b[j].rate > 0 {
      k := SomeLastPositive(b, j);
    } else {
      k := i;
    }
  }

  /** With one vote each, the last positive rates are the positive rates. */
  lemma LastPositiveIsReference(b: Ballot, m: map<Addr, Dec>)
    requires HoldsLastPositive(b, m) && OneVoteEach(b)
    ensures IsReferenceMap(b, m)
  {
    forall v | v in b && v.rate > 0 ensures v.voter in m && m[v.voter] == v.rate {
      var i :| 0 <= i < |b| && b[i] == v;
      var k := SomeLastPositive(b, i);
      assert b[k] in b;
    }
    forall a | a in m ensures exists v :: v in b && v.rate > 0 && v.voter == a {
      var i :| IsLastPositive(b, i) && b[i].voter == a;
      assert b[i] in b;
    }
  }

  /** ToMap (ballot.go:37-46). */
  method ToMap(b: Ballot) returns (m: map<Addr, Dec>)
    ensures HoldsLastPositive(b, m)
    ensures OneVoteEach(b) ==> IsReferenceMap(b, m)
  {
    hide OneVoteEach, IsReferenceMap, HoldsLastPositive;
    m := map[];
    assert HoldsLastPositive(b[..0], m) by {
      NothingHeld();
      assert b[..0] == [];
    }
    for i := 0 to |b|
      invariant HoldsLastPositive(b[..i], m)
    {
      assert b[..i + 1] == b[..i] + [b[i]];
      LastPositiveMore(b[..i], b[i], m);
      if b[i].rate > 0 {
        m := m[b[i].voter := b[i].rate];
      }
    }
    assert b[..|b|] == b;
    if OneVoteEach(b) {
      LastPositiveIsReference(b, m);
    }
  }

  lemma NothingHeld()
    ensures HoldsLastPositive([], map[])
  {
  }

  function CrossVote(v: Vote, bases: map<Addr, Dec>): Vote {
    if v.voter in bases && v.rate > 0
    then Vote(Quo(bases[v.voter], v.rate), v.voter, v.power)
    else Vote(0, v.voter, 0)
  }

  function CrossVoteIn(bases: map<Addr, Dec>): Vote -> seq<Vote> {
    (v: Vote) => [CrossVote(v, bases)]
  }

  function CrossBallot(b: Ballot, bases: map<Addr, Dec>): Ballot {
    FlatMap(b, CrossVoteIn(bases))
  }

  /** ToCrossRateWithSort (ballot.go:68-85). */
  method ToCrossRateWithSort(b: Ballot, bases: map<Addr, Dec>) returns (cb: Ballot)
    ensures SortedByRate(cb)
    ensures SameVotes(cb, CrossBallot(b, bases))
  {
    cb := [];
    for i := 0 to |b|
      invariant cb == FlatMap(b[..i], CrossVoteIn(bases))
    {
      FlatMapStep(b, i, CrossVoteIn(bases));
      var vote := b[i];
      if vote.voter in bases && vote.rate > 0 {
        vote := vote.(rate := Quo(bases[vote.voter], vote.rate));
      } else {
        vote := vote.(rate := 0, power := 0);
      }
      cb := cb + [vote];
    }
    assert b[..|b|] == b;
    cb := SortBallot(cb);
  }

  lemma CrossBallotMember(b: Ballot, bases: map<Addr, Dec>, w: Vote)
    ensures w in CrossBallot(b, bases) <==> exists v :: v in b && w == CrossVote(v, bases)
  {
    InFlatMap(b, CrossVoteIn(bases), w);
    if v :| v in b && w == CrossVote(v, bases) {
      assert w in CrossVoteIn(bases)(v);
    }
  }

  lemma CrossBallotOneVoteEach(b: Ballot, bases: map<Addr, Dec>)
    requires OneVoteEach(b)
    ensures OneVoteEach(CrossBallot(b, bases))
  {
    var c := CrossBallot(b, bases);
    forall v, w | v in c && w in c && v.voter == w.voter ensures v == w {
      CrossBallotMember(b, bases, v);
      CrossBallotMember(b, bases, w);
    }
    forall a ensures Sum(c, OneIfBy(a)) <= 1 {
      forall v ensures OneIfBy(a)(v) == Sum(CrossVoteIn(bases)(v), OneIfBy(a)) {
        assert CrossVoteIn(bases)(v)[1..] == [];
      }
      SumFlatMap(b, CrossVoteIn(bases), OneIfBy(a), OneIfBy(a));
    }
  }
}
