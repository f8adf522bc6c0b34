/**
 What the outcome of a tally guarantees: how wins relate to the surviving targets
 (x/oracle/abci.go:87-98), and when cross rates are well defined (x/oracle/abci.go:60-84).
 */
module TallyFacts {
  import opened Decimals
  import opened Seqs
  import opened Ballots
  import opened Tally

  // ---------- wins and misses

  /** a has an in-band or abstaining vote in the ballot counted for d. */
  ghost predicate Covers(p: Poll, d: Denom, a: Addr) {
    exists v :: v in p.Counted(d) && v.voter == a && Wins(MedianOf(p.Counted(d)), p.Spread(p.Counted(d)), v)
  }

  lemma {:induction false} SumIndicator(b: Ballot, median: Dec, spread: Dec, a: Addr)
    ensures Sum(b, WinningOne(median, spread, a)) >= 0
    ensures Sum(b, WinningOne(median, spread, a)) > 0 <==> exists v :: v in b && v.voter == a && Wins(median, spread, v)
  {
    if b != [] {
      SumIndicator(b[1..], median, spread, a);
      assert b == [b[0]] + b[1..];
    }
  }

  lemma WinsInIndicator(p: Poll, d: Denom, a: Addr)
    ensures p.WinsIn(d, a) == if Covers(p, d, a) then 1 else 0
  {
    var b := p.Counted(d);
    var m, s := MedianOf(b), p.Spread(b);
    p.CountedOneVoteEach(d);
    SumIndicator(b, m, s, a);
    SumMonotone(b, WinningOne(m, s, a), OneIfBy(a));
  }

  lemma {:induction false} SumOfIndicators<T>(l: seq<T>, f: T -> int)
    requires forall x :: x in l ==> 0 <= f(x) <= 1
    ensures 0 <= Sum(l, f) <= |l|
    ensures Sum(l, f) == |l| <==> forall x :: x in l ==> f(x) == 1
  {
    if l != [] {
      SumOfIndicators(l[1..], f);
      assert l == [l[0]] + l[1..];
    }
  }

  lemma TotalOfIndicators<T(!new)>(s: set<T>, f: T -> int)
    requires forall x :: x in s ==> 0 <= f(x) <= 1
    ensures 0 <= Total(s, f) <= |s|
    ensures Total(s, f) == |s| <==> forall x :: x in s ==> f(x) == 1
  {
    ListingMembers(s);
    SumOfIndicators(Listing(s), f);
  }

  lemma PassingSurvive(p: Poll)
    ensures p.Passing() <= p.Surviving().Keys
    ensures |p.Passing()| <= |p.Surviving()|
    ensures |p.Passing()| == |p.Surviving()| ==> p.Passing() == p.Surviving().Keys
  {
    SubsetSize(p.Passing(), p.Surviving().Keys);
  }

  lemma SubsetSize<T>(s: set<T>, t: set<T>)
    requires s <= t
    ensures |s| <= |t| && (|s| == |t| ==> s == t)
  {
    assert t == s + (t - s);
    assert |t| == |s| + |t - s|;
  }

  lemma UncoveredUnlessPassing(p: Poll, d: Denom, a: Addr)
    requires d in p.Surviving() && Covers(p, d, a)
    ensures d in p.Passing()
  {
    if p.BallotOf(d) == [] {
      var v :| v in p.Counted(d);
      CountedMember(p, d, v);
      assert false;
    }
  }

  lemma CountedMember(p: Poll, d: Denom, v: Vote)
    requires v in p.Counted(d)
    ensures p.BallotOf(d) != []
  {
    if d != p.Reference() {
      CrossBallotMember(p.BallotOf(d), p.Bases(), v);
    }
  }

  /**
   A claimed validator never wins more ballots than there are surviving targets, and wins
   exactly that many iff it covered every one of them; otherwise it is charged a miss.
   */
  lemma FullWinsIffCovered(p: Poll, a: Addr)
    requires a in p.powers
    ensures 0 <= p.Claims()[a].winCount <= |p.Surviving()|
    ensures p.Claims()[a].winCount == |p.Surviving()| <==> forall d :: d in p.Surviving() ==> Covers(p, d, a)
  {
    hide Covers, Poll.WinsIn, Total, Poll.Passing, Poll.Surviving;
    forall d ensures p.WinsOn(a)(d) == if Covers(p, d, a) then 1 else 0 {
      WinsInIndicator(p, d, a);
    }
    TotalOfIndicators(p.Passing(), p.WinsOn(a));
    PassingSurvive(p);
    assert p.Claims()[a].winCount == Total(p.Passing(), p.WinsOn(a));
    if forall d :: d in p.Surviving() ==> Covers(p, d, a) {
      forall d | d in p.Surviving() ensures d in p.Passing() {
        UncoveredUnlessPassing(p, d, a);
      }
      assert p.Passing() == p.Surviving().Keys;
    }
  }

  // ---------- quorum intersection

  function ClaimPower(p: Poll): Addr -> int {
    (a: Addr) => if a in p.powers then p.powers[a] else 0
  }

  predicate VotedPositive(p: Poll, d: Denom, a: Addr) {
    a in p.votes && a in p.powers && d in p.votes[a] && p.votes[a][d] > 0
  }

  function CastPower(p: Poll, d: Denom): Addr -> int {
    (a: Addr) => if VotedPositive(p, d, a) then p.powers[a] else 0
  }

  function SharedPower(p: Poll, d: Denom, e: Denom): Addr -> int {
    (a: Addr) => if VotedPositive(p, d, a) && VotedPositive(p, e, a) then p.powers[a] else 0
  }

  function CrossPower(bases: map<Addr, Dec>): Vote -> int {
    (v: Vote) => CrossVote(v, bases).power
  }

  lemma VoteOnSum(p: Poll, d: Denom, a: Addr, f: Vote -> int)
    ensures Sum(p.VoteOn(d)(a), f) ==
      if a in p.votes && a in p.powers && d in p.votes[a]
      then f(Vote(p.votes[a][d], a, if p.votes[a][d] > 0 then p.powers[a] else 0)) else 0
  {
    if a in p.votes && a in p.powers && d in p.votes[a] {
      SumSingle(Vote(p.votes[a][d], a, if p.votes[a][d] > 0 then p.powers[a] else 0), f);
    }
  }

  lemma BallotPower(p: Poll, d: Denom)
    ensures TotalPower(p.BallotOf(d)) == Sum(Listing(p.votes.Keys * p.powers.Keys), CastPower(p, d))
  {
    forall a ensures CastPower(p, d)(a) == Sum(p.VoteOn(d)(a), PowerOf()) {
      VoteOnSum(p, d, a, PowerOf());
    }
    SumFlatMap(Listing(p.votes.Keys * p.powers.Keys), p.VoteOn(d), PowerOf(), CastPower(p, d));
  }

  lemma BasesVoted(p: Poll, a: Addr)
    ensures a in p.Bases() <==> VotedPositive(p, p.Reference(), a)
    ensures a in p.Bases() ==> p.Bases()[a] == p.votes[a][p.Reference()]
  {
  }

  lemma SharedIsCross(p: Poll, d: Denom, a: Addr)
    ensures SharedPower(p, d, p.Reference())(a) == Sum(p.VoteOn(d)(a), CrossPower(p.Bases()))
  {
    hide Poll.Bases, Poll.Reference, Sum, Poll.VoteOn;
    VoteOnSum(p, d, a, CrossPower(p.Bases()));
    BasesVoted(p, a);
  }

  lemma CrossPowerSum(b: Ballot, bases: map<Addr, Dec>)
    ensures TotalPower(CrossBallot(b, bases)) == Sum(b, CrossPower(bases))
  {
    forall v ensures CrossPower(bases)(v) == Sum(CrossVoteIn(bases)(v), PowerOf()) {
      SumSingle(CrossVote(v, bases), PowerOf());
    }
    SumFlatMap(b, CrossVoteIn(bases), PowerOf(), CrossPower(bases));
  }

  lemma CrossBallotPower(p: Poll, d: Denom)
    ensures TotalPower(CrossBallot(p.BallotOf(d), p.Bases())) ==
            Sum(Listing(p.votes.Keys * p.powers.Keys), SharedPower(p, d, p.Reference()))
  {
    hide Poll.Bases, Poll.Reference, Poll.VoteOn, CrossPower, SharedPower, TotalPower, CrossBallot;
    CrossPowerSum(p.BallotOf(d), p.Bases());
    forall a ensures SharedPower(p, d, p.Reference())(a) == Sum(p.VoteOn(d)(a), CrossPower(p.Bases())) {
      SharedIsCross(p, d, a);
    }
    var active := Listing(p.votes.Keys * p.powers.Keys);
    SumFlatMap(active, p.VoteOn(d), CrossPower(p.Bases()), SharedPower(p, d, p.Reference()));
  }

  lemma {:induction false} SumInclusion(l: seq<Addr>, f: Addr -> int, g: Addr -> int, h: Addr -> int, k: Addr -> int)
    requires forall a :: f(a) + g(a) <= h(a) + k(a)
    ensures Sum(l, f) + Sum(l, g) <= Sum(l, h) + Sum(l, k)
  {
    if l != [] {
      SumInclusion(l[1..], f, g, h, k);
    }
  }

  lemma MultisetSplit(s: set<Addr>, t: set<Addr>)
    requires s <= t
    ensures multiset(t) == multiset(s) + multiset(t - s)
  {
    assert t == s + (t - s);
  }

  lemma TotalSubset(s: set<Addr>, t: set<Addr>, f: Addr -> int)
    requires s <= t && forall a :: f(a) >= 0
    ensures Total(s, f) <= Total(t, f)
  {
    hide Sum;
    var l, m := Listing(s), Listing(t - s);
    MultisetSplit(s, t);
    SumPermutation(Listing(t), l + m, f);
    SumAppend(l, m, f);
    SumNonNegative(m, f);
  }

  lemma InclusionAt(p: Poll, d: Denom, r: Denom, a: Addr)
    ensures CastPower(p, r)(a) + CastPower(p, d)(a) <= SharedPower(p, d, r)(a) + ClaimPower(p)(a)
    ensures ClaimPower(p)(a) >= 0
  {
  }

  /** Two ballots of powers R and Q out of total claim power P share at least R + Q - P. */
  lemma QuorumIntersection(p: Poll, d: Denom)
    ensures TotalPower(CrossBallot(p.BallotOf(d), p.Bases()))
         >= TotalPower(p.BallotOf(p.Reference())) + TotalPower(p.BallotOf(d)) - Total(p.powers.Keys, ClaimPower(p))
  {
    hide Sum, Poll.BallotOf, Poll.Reference, CrossBallot, Poll.Bases, TotalPower, CastPower, SharedPower, ClaimPower;
    var r, active := p.Reference(), p.votes.Keys * p.powers.Keys;
    forall a
      ensures CastPower(p, r)(a) + CastPower(p, d)(a) <= SharedPower(p, d, r)(a) + ClaimPower(p)(a)
      ensures ClaimPower(p)(a) >= 0
    {
      InclusionAt(p, d, r, a);
    }
    BallotPower(p, d);
    BallotPower(p, r);
    CrossBallotPower(p, d);
    SumInclusion(Listing(active), CastPower(p, r), CastPower(p, d), SharedPower(p, d, r), ClaimPower(p));
    TotalSubset(active, p.powers.Keys, ClaimPower(p));
  }

  // ---------- when cross rates are defined

  lemma CountedNonNegative(p: Poll, d: Denom, v: Vote)
    requires d != p.Reference() && v in p.Counted(d)
    ensures v.rate >= 0
    ensures v.power > 0 ==>
      VotedPositive(p, d, v.voter) && VotedPositive(p, p.Reference(), v.voter)
      && v.rate == Quo(p.votes[v.voter][p.Reference()], p.votes[v.voter][d])
  {
    CrossBallotMember(p.BallotOf(d), p.Bases(), v);
    var w :| w in p.BallotOf(d) && v == CrossVote(w, p.Bases());
    p.BallotMember(d, w);
    if w.voter in p.Bases() && w.rate > 0 {
      QuoNonNegative(p.Bases()[w.voter], w.rate);
    }
  }

  lemma CountedNonEmpty(p: Poll, d: Denom)
    requires d in p.Passing()
    ensures p.Counted(d) != []
  {
    var b := p.BallotOf(d);
    CrossBallotMember(b, p.Bases(), CrossVote(b[0], p.Bases()));
  }

  /**
   If the reference and another passing ballot overlap in power two or more, and no shared
   voter's cross rate rounds to zero, the division by the cross-rate median is defined.
   */
  lemma OverlapMakesRateDefined(p: Poll, d: Denom)
    requires d in p.Passing() && d != p.Reference()
    requires TotalPower(p.BallotOf(p.Reference())) + TotalPower(p.BallotOf(d))
          >= Total(p.powers.Keys, ClaimPower(p)) + 2
    requires forall a :: VotedPositive(p, d, a) && VotedPositive(p, p.Reference(), a) ==>
      Quo(p.votes[a][p.Reference()], p.votes[a][d]) > 0
    ensures MedianOf(p.Counted(d)) > 0
  {
    QuorumIntersection(p, d);
    CountedNonEmpty(p, d);
    MedianOfIsMedian(p.Counted(d));
    MedianHasPower(p.Counted(d), MedianOf(p.Counted(d)));
    var v :| v in p.Counted(d) && v.rate == MedianOf(p.Counted(d)) && v.power > 0;
    CountedNonNegative(p, d, v);
  }

  /** Every cross rate is positive, or less than half the power voted a cross rate of zero. */
  ghost predicate ZeroRatesOutweighed(p: Poll, d: Denom) {
    || (forall v :: v in p.Counted(d) ==> v.rate > 0)
    || PowerAtMost(p.Counted(d), 0) < TotalPower(p.Counted(d)) / 2
  }

  lemma RateDefinedIff(p: Poll, d: Denom)
    requires d in p.Passing() && d != p.Reference()
    ensures MedianOf(p.Counted(d)) != 0 <==> ZeroRatesOutweighed(p, d)
  {
    hide Poll.Counted, Poll.Reference, MedianOf, PowerAtMost, TotalPower, Poll.Passing;
    CountedNonEmpty(p, d);
    MedianOfIsMedian(p.Counted(d));
    MedianPositiveIff(p.Counted(d), MedianOf(p.Counted(d)));
    var v :| v in p.Counted(d) && v.rate == MedianOf(p.Counted(d));
    CountedNonNegative(p, d, v);
  }

  /** Exactly when a tally completes rather than dividing by zero. */
  lemma TallyCompletesIff(p: Poll)
    ensures p.RatesDefined() <==> forall d :: d in p.Passing() && d != p.Reference() ==> ZeroRatesOutweighed(p, d)
  {
    hide Poll.Passing, Poll.Reference, ZeroRatesOutweighed, Poll.Counted, MedianOf;
    forall d | d in p.Passing() && d != p.Reference()
      ensures MedianOf(p.Counted(d)) != 0 <==> ZeroRatesOutweighed(p, d)
    {
      RateDefinedIff(p, d);
    }
  }

  /** A passing ballot without a single voter in common with the reference makes the tally divide by zero. */
  lemma DisjointTurnoutFails(p: Poll, d: Denom)
    requires d in p.Passing() && d != p.Reference()
    requires forall a :: !(VotedPositive(p, d, a) && VotedPositive(p, p.Reference(), a))
    ensures !p.RatesDefined()
  {
    hide Poll.Counted, Poll.Reference, MedianOf, PowerAtMost, TotalPower, Poll.Passing;
    CountedNonEmpty(p, d);
    MedianOfIsMedian(p.Counted(d));
    var v :| v in p.Counted(d) && v.rate == MedianOf(p.Counted(d));
    CountedUnshared(p, d, v);
  }

  lemma CountedUnshared(p: Poll, d: Denom, v: Vote)
    requires d != p.Reference() && v in p.Counted(d)
    requires !(VotedPositive(p, d, v.voter) && VotedPositive(p, p.Reference(), v.voter))
    ensures v.rate == 0
  {
    CrossBallotMember(p.BallotOf(d), p.Bases(), v);
    var w :| w in p.BallotOf(d) && v == CrossVote(w, p.Bases());
    p.BallotMember(d, w);
    BasesVoted(p, w.voter);
  }

  lemma PassingIff(p: Poll, d: Denom)
    ensures d in p.Passing() <==>
      d in p.targets && TotalPower(p.BallotOf(d)) != 0 && TotalPower(p.BallotOf(d)) >= p.thresholdVotes
  {
  }
}
