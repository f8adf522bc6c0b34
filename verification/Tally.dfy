/**
 The tally of one vote period: building ballots from revealed votes
 (x/oracle/keeper/ballot.go), choosing the reference denom and counting ballots
 (x/oracle/tally.go, x/oracle/abci.go:55-85).

 A Poll holds what a tally reads. Its members define the outcome without mentioning any
 order; the methods below follow the source, pick the elements of a map in an arbitrary
 order, and are proved to produce exactly that outcome.
 */
module Tally {
  import opened Decimals
  import opened Seqs
  import opened Ballots

  datatype Claim = Claim(power: nat, weight: int, winCount: int)

  /** Go's order on strings. */
  predicate Before(a: string, b: string) {
    b != [] && (a == [] || a[0] < b[0] || (a[0] == b[0] && Before(a[1..], b[1..])))
  }

  lemma {:induction false} BeforeTotal(a: string, b: string)
    ensures a == b || Before(a, b) || Before(b, a)
    ensures !(Before(a, b) && Before(b, a))
    ensures !Before(a, a)
  {
    if a != [] && b != [] && a[0] == b[0] {
      BeforeTotal(a[1..], b[1..]);
      assert a == [a[0]] + a[1..] && b == [b[0]] + b[1..];
    }
    if a != [] {
      BeforeTotal(a[1..], a[1..]);
    }
  }

  lemma {:induction false} BeforeTransitive(a: string, b: string, c: string)
    requires Before(a, b) && Before(b, c)
    ensures Before(a, c)
  {
    if a != [] && a[0] == b[0] == c[0] {
      BeforeTransitive(a[1..], b[1..], c[1..]);
    }
  }

  /** a comes before b exactly if it is a proper prefix, or smaller at the first difference. */
  lemma {:induction false} BeforeIff(a: string, b: string)
    ensures Before(a, b) <==> a < b || exists i :: FirstDifference(a, b, i) && a[i] < b[i]
  {
    if a != [] && b != [] && a[0] == b[0] {
      BeforeIff(a[1..], b[1..]);
      assert a == [a[0]] + a[1..] && b == [b[0]] + b[1..];
      assert a < b <==> a[1..] < b[1..];
      forall i | FirstDifference(a[1..], b[1..], i) ensures FirstDifference(a, b, i + 1) {
        assert a[..i + 1] == [a[0]] + a[1..][..i] && b[..i + 1] == [b[0]] + b[1..][..i];
      }
      forall i | FirstDifference(a, b, i) ensures i > 0 && FirstDifference(a[1..], b[1..], i - 1) {
        assert a[1..][..i - 1] == a[..i][1..] && b[1..][..i - 1] == b[..i][1..];
      }
      if i :| FirstDifference(a, b, i) && a[i] < b[i] {
        assert FirstDifference(a[1..], b[1..], i - 1) && a[1..][i - 1] < b[1..][i - 1];
      }
      if i :| FirstDifference(a[1..], b[1..], i) && a[1..][i] < b[1..][i] {
        assert FirstDifference(a, b, i + 1) && a[i + 1] < b[i + 1];
      }
    } else if a != [] && b != [] {
      assert FirstDifference(a, b, 0);
      forall i | FirstDifference(a, b, i) ensures i == 0 {
        AgreeBefore(a, b, i);
      }
    }
  }

  lemma AgreeBefore(a: string, b: string, i: int)
    requires FirstDifference(a, b, i)
    ensures i > 0 ==> a[0] == b[0]
  {
    assert i > 0 ==> a[..i][0] == b[..i][0];
  }

  predicate FirstDifference(a: string, b: string, i: int) {
    0 <= i < |a| && i < |b| && a[..i] == b[..i] && a[i] != b[i]
  }

  // ---------- the largest ballot

  ghost predicate Beats(power: Denom -> int, r: Denom, d: Denom) {
    power(r) > power(d) || (power(r) == power(d) && Before(r, d))
  }

  /** r has the largest power in s, the first in order among equals; "" if s is empty. */
  ghost predicate IsReference(power: Denom -> int, s: set<Denom>, r: Denom) {
    if s == {} then r == "" else r in s && forall d :: d in s && d != r ==> Beats(power, r, d)
  }

  lemma ReferenceUnique(power: Denom -> int, s: set<Denom>, r: Denom, q: Denom)
    requires IsReference(power, s, r) && IsReference(power, s, q)
    ensures r == q
  {
    BeforeTotal(r, q);
  }

  lemma PickBetter(power: Denom -> int, s: set<Denom>, q: Denom, d: Denom) returns (r: Denom)
    requires IsReference(power, s, q) && d !in s
    ensures IsReference(power, s + {d}, r)
    ensures r == if s == {} || Beats(power, d, q) then d else q
  {
    BeforeTotal(d, q);
    r := if s == {} || Beats(power, d, q) then d else q;
    if s != {} && Beats(power, d, q) {
      forall e | e in s && e != q ensures Beats(power, d, e) {
        if Before(d, q) && Before(q, e) {
          BeforeTransitive(d, q, e);
        }
      }
    }
  }

  lemma {:induction false} ReferenceExists(power: Denom -> int, l: seq<Denom>) returns (r: Denom)
    ensures IsReference(power, (set d | d in l), r)
  {
    r := "";
    for i := 0 to |l|
      invariant IsReference(power, (set d | d in l[..i]), r)
    {
      var s, prefix := (set d | d in l[..i]), l[..i + 1];
      assert prefix == l[..i] + [l[i]];
      assert (set d | d in prefix) == s + {l[i]};
      if l[i] in s {
        assert s + {l[i]} == s;
      } else {
        r := PickBetter(power, s, r, l[i]);
      }
    }
    assert l[..|l|] == l;
  }

  // ---------- what a tally decides

  /** The votes revealed in the period, the powers of the active validators, and the parameters that matter. */
  datatype Poll = Poll(
    votes: map<Addr, map<Denom, Dec>>,
    powers: map<Addr, nat>,
    targets: map<Denom, Dec>,
    thresholdVotes: int,
    rewardBand: Dec,
    sqrt: Dec -> Dec)
  {
    /** The vote of one validator on a denom, if it is active and voted on it; abstaining costs all power. */
    function VoteOn(d: Denom): Addr -> seq<Vote> {
      (a: Addr) =>
        if a in votes && a in powers && d in votes[a]
        then [Vote(votes[a][d], a, if votes[a][d] > 0 then powers[a] else 0)]
        else []
    }

    ghost function BallotOf(d: Denom): Ballot {
      FlatMap(Listing(votes.Keys * powers.Keys), VoteOn(d))
    }

    ghost predicate IsPassing(d: Denom) {
      && d in targets
      && BallotOf(d) != []
      && TotalPower(BallotOf(d)) != 0
      && TotalPower(BallotOf(d)) >= thresholdVotes
    }

    ghost function Passing(): set<Denom> {
      set d | d in targets && IsPassing(d)
    }

    /** A target whose ballot failed is dropped; a target nobody voted on stays. */
    ghost function Surviving(): map<Denom, Dec> {
      map d | d in targets && (BallotOf(d) == [] || IsPassing(d)) :: targets[d]
    }

    ghost function PowerOn(): Denom -> int {
      (d: Denom) => TotalPower(BallotOf(d))
    }

    lemma SomeReference()
      ensures exists r :: IsReference(PowerOn(), Passing(), r)
    {
      var l := Listing(Passing());
      ListingMembers(Passing());
      assert (set d | d in l) == Passing();
      var r := ReferenceExists(PowerOn(), l);
    }

    ghost function Reference(): Denom {
      SomeReference();
      var r :| IsReference(PowerOn(), Passing(), r);
      r
    }

    lemma ReferenceLargest()
      ensures IsReference(PowerOn(), Passing(), Reference())
    {
      SomeReference();
    }

    /** The positive rates voted on the reference denom. */
    ghost function Bases(): map<Addr, Dec> {
      var r := Reference();
      map a | a in votes && a in powers && r in votes[a] && votes[a][r] > 0 :: votes[a][r]
    }

    /** The ballot that is tallied for a denom. */
    ghost function Counted(d: Denom): Ballot {
      if d == Reference() then BallotOf(d) else CrossBallot(BallotOf(d), Bases())
    }

    /** The division that turns a cross rate back is defined for every denom. */
    ghost predicate RatesDefined() {
      forall d :: d in Passing() && d != Reference() ==> MedianOf(Counted(d)) != 0
    }

    ghost function RateFor(d: Denom): Dec
      requires d == Reference() || MedianOf(Counted(d)) != 0
    {
      if d == Reference() then MedianOf(Counted(d))
      else Quo(MedianOf(BallotOf(Reference())), MedianOf(Counted(d)))
    }

    ghost function Rates(): map<Denom, Dec>
      requires RatesDefined()
    {
      map d | d in Passing() :: RateFor(d)
    }

    /** Half-width of the winning band around the median of a ballot. */
    ghost function Spread(b: Ballot): Dec {
      var m := MedianOf(b);
      var deviation, band := DeviationOf(b, m, sqrt), Mul(m, QuoInt(rewardBand, 2));
      if deviation > band then deviation else band
    }

    /** Power won, and ballots won (zero or one), by a validator on a denom. */
    ghost function WeightIn(d: Denom, a: Addr): int {
      Sum(Counted(d), WinningPower(MedianOf(Counted(d)), Spread(Counted(d)), a))
    }

    ghost function WinsIn(d: Denom, a: Addr): int {
      Sum(Counted(d), WinningOne(MedianOf(Counted(d)), Spread(Counted(d)), a))
    }

    ghost function WeightOn(a: Addr): Denom -> int {
      (d: Denom) => WeightIn(d, a)
    }

    ghost function WinsOn(a: Addr): Denom -> int {
      (d: Denom) => WinsIn(d, a)
    }

    ghost function Claims(): map<Addr, Claim> {
      map a | a in powers :: ClaimOver(Passing(), a)
    }

    ghost function ClaimOver(s: set<Denom>, a: Addr): Claim
      requires a in powers
    {
      Claim(powers[a], Total(s, WeightOn(a)), Total(s, WinsOn(a)))
    }

    // ---------- facts about ballots

    /** v is what an active validator's stored vote contributes to the ballot of d. */
    predicate IsCast(d: Denom, v: Vote) {
      && v.voter in votes && v.voter in powers && d in votes[v.voter]
      && v == Vote(votes[v.voter][d], v.voter, if votes[v.voter][d] > 0 then powers[v.voter] else 0)
    }

    lemma VoteOnMember(d: Denom, a: Addr, v: Vote)
      ensures v in VoteOn(d)(a) <==> v.voter == a && IsCast(d, v)
    {
    }

    lemma BallotMember(d: Denom, v: Vote)
      ensures v in BallotOf(d) <==> IsCast(d, v)
    {
      var l := Listing(votes.Keys * powers.Keys);
      ListingMembers(votes.Keys * powers.Keys);
      InFlatMap(l, VoteOn(d), v);
      if IsCast(d, v) {
        VoteOnMember(d, v.voter, v);
        assert v.voter in votes.Keys * powers.Keys;
        assert v.voter in l;
      } else if v in BallotOf(d) {
        var a :| a in l && v in VoteOn(d)(a);
        VoteOnMember(d, a, v);
        assert false;
      }
    }

    lemma BallotOneVoteEach(d: Denom)
      ensures OneVoteEach(BallotOf(d))
    {
      forall v, w | v in BallotOf(d) && w in BallotOf(d) && v.voter == w.voter ensures v == w {
        BallotMember(d, v);
        BallotMember(d, w);
      }
      forall a ensures Sum(BallotOf(d), OneIfBy(a)) <= 1 {
        BallotVotesBy(d, a);
      }
    }

    function VotesOnBy(d: Denom, a: Addr): Addr -> int {
      (x: Addr) => Sum(VoteOn(d)(x), OneIfBy(a))
    }

    lemma VotesOnByAtMostOnce(d: Denom, a: Addr, x: Addr)
      ensures VotesOnBy(d, a)(x) <= OneIf(a)(x)
    {
      if x in votes && x in powers && d in votes[x] {
        var v := Vote(votes[x][d], x, if votes[x][d] > 0 then powers[x] else 0);
        assert VoteOn(d)(x) == [v];
        SumSingle(v, OneIfBy(a));
      } else {
        assert VoteOn(d)(x) == [];
        assert VotesOnBy(d, a)(x) == 0;
      }
    }

    lemma BallotVotesBy(d: Denom, a: Addr)
      ensures Sum(BallotOf(d), OneIfBy(a)) <= 1
    {
      var l := Listing(votes.Keys * powers.Keys);
      SumFlatMap(l, VoteOn(d), OneIfBy(a), VotesOnBy(d, a));
      forall x ensures VotesOnBy(d, a)(x) <= OneIf(a)(x) {
        VotesOnByAtMostOnce(d, a, x);
      }
      SumMonotone(l, VotesOnBy(d, a), OneIf(a));
      OccursOnce(l, votes.Keys * powers.Keys, a);
    }

    lemma CountedOneVoteEach(d: Denom)
      ensures OneVoteEach(Counted(d))
    {
      BallotOneVoteEach(d);
      CrossBallotOneVoteEach(BallotOf(d), Bases());
    }

    lemma BasesAreReference()
      ensures IsReferenceMap(BallotOf(Reference()), Bases())
    {
      var r := Reference();
      forall v | v in BallotOf(r) && v.rate > 0 ensures v.voter in Bases() && Bases()[v.voter] == v.rate {
        BallotMember(r, v);
      }
      forall a | a in Bases() ensures exists v :: v in BallotOf(r) && v.rate > 0 && v.voter == a {
        var v := Vote(votes[a][r], a, powers[a]);
        BallotMember(r, v);
      }
    }

    lemma CountedVoters(d: Denom, v: Vote)
      requires v in Counted(d)
      ensures v.voter in votes && v.voter in powers && d in votes[v.voter]
    {
      hide BallotOf, Bases, Reference;
      if d == Reference() {
        BallotMember(d, v);
      } else {
        CrossBallotMember(BallotOf(d), Bases(), v);
        var w :| w in BallotOf(d) && v == CrossVote(w, Bases());
        BallotMember(d, w);
      }
    }
  }

  function OneIf(a: Addr): Addr -> int {
    (x: Addr) => if x == a then 1 else 0
  }

  lemma {:induction false} OccursOnce(l: seq<Addr>, s: set<Addr>, a: Addr)
    requires multiset(l) <= multiset(s)
    ensures Sum(l, OneIf(a)) <= multiset(l)[a] <= 1
  {
    if l != [] {
      assert l == [l[0]] + l[1..];
      assert multiset(l) == multiset{l[0]} + multiset(l[1..]);
      OccursOnce(l[1..], s, a);
    }
  }

  // ---------- winners

  /** Within the band around the median, or an abstention (tally.go:25-27). */
  predicate Wins(median: Dec, spread: Dec, v: Vote) {
    median - spread <= v.rate <= median + spread || v.rate <= 0
  }

  function WinningPower(median: Dec, spread: Dec, a: Addr): Vote -> int {
    (v: Vote) => if v.voter == a && Wins(median, spread, v) then v.power else 0
  }

  function WinningOne(median: Dec, spread: Dec, a: Addr): Vote -> int {
    (v: Vote) => if v.voter == a && Wins(median, spread, v) then 1 else 0
  }

  lemma SpreadPermutes(p: Poll, b: Ballot, c: Ballot)
    requires SameVotes(b, c)
    ensures MedianOf(b) == MedianOf(c) && p.Spread(b) == p.Spread(c)
  {
    MedianOfPermutes(b, c);
    DeviationPermutes(b, c, MedianOf(b), p.sqrt);
  }

  /** A claim after the winning votes of a ballot by one voter. */
  function Credited(c: Claim, b: Ballot, median: Dec, spread: Dec, a: Addr): Claim {
    Claim(c.power,
          c.weight + Sum(b, WinningPower(median, spread, a)),
          c.winCount + Sum(b, WinningOne(median, spread, a)))
  }

  lemma CreditedStep(c: Claim, b: Ballot, i: nat, median: Dec, spread: Dec, a: Addr)
    requires i < |b|
    ensures var was, now := Credited(c, b[..i], median, spread, a), Credited(c, b[..i + 1], median, spread, a);
            now == if b[i].voter == a && Wins(median, spread, b[i])
                   then Claim(was.power, was.weight + b[i].power, was.winCount + 1) else was
  {
    SumStep(b, i, WinningPower(median, spread, a));
    SumStep(b, i, WinningOne(median, spread, a));
  }

  /** The band of a ballot (tally.go:15-21). */
  method RewardSpread(b: Ballot, median: Dec, p: Poll) returns (spread: Dec)
    requires median == MedianOf(b)
    ensures spread == p.Spread(b)
  {
    var standardDeviation := StandardDeviation(b, median, p.sqrt);
    spread := Mul(median, QuoInt(p.rewardBand, 2));
    if standardDeviation > spread {
      spread := standardDeviation;
    }
  }

  /** The claim of a voter, a blank one if it has none (a Go map yields its zero value). */
  function ClaimOf(claims: map<Addr, Claim>, a: Addr): Claim {
    if a in claims then claims[a] else Claim(0, 0, 0)
  }

  /** The voters of winning votes. */
  function WinnersOf(b: Ballot, median: Dec, spread: Dec): set<Addr> {
    set v | v in b && Wins(median, spread, v) :: v.voter
  }

  lemma WinnersClaimed(b: Ballot, median: Dec, spread: Dec, claims: map<Addr, Claim>)
    requires forall v :: v in b ==> v.voter in claims
    ensures claims.Keys + WinnersOf(b, median, spread) == claims.Keys
  {
  }

  lemma WinnersStep(b: Ballot, i: nat, median: Dec, spread: Dec)
    requires i < |b|
    ensures WinnersOf(b[..i + 1], median, spread) ==
      WinnersOf(b[..i], median, spread) + if Wins(median, spread, b[i]) then {b[i].voter} else {}
  {
    assert b[..i + 1] == b[..i] + [b[i]];
  }

  /** The claims once the votes of a ballot are credited. */
  ghost predicate AreCredited(claims: map<Addr, Claim>, b: Ballot, median: Dec, spread: Dec, result: map<Addr, Claim>) {
    && result.Keys == claims.Keys + WinnersOf(b, median, spread)
    && forall a :: a in result ==> result[a] == Credited(ClaimOf(claims, a), b, median, spread, a)
  }

  /** A claim with one more winning vote. */
  function Won(claims: map<Addr, Claim>, v: Vote): map<Addr, Claim> {
    var claim := ClaimOf(claims, v.voter);
    claims[v.voter := Claim(claim.power, claim.weight + v.power, claim.winCount + 1)]
  }

  lemma CreditedNone(claims: map<Addr, Claim>, median: Dec, spread: Dec)
    ensures AreCredited(claims, [], median, spread, claims)
  {
  }

  lemma CreditedNext(claims: map<Addr, Claim>, b: Ballot, i: nat, median: Dec, spread: Dec, result: map<Addr, Claim>)
    requires i < |b| && AreCredited(claims, b[..i], median, spread, result)
    ensures AreCredited(claims, b[..i + 1], median, spread,
                        if Wins(median, spread, b[i]) then Won(result, b[i]) else result)
  {
    hide WinnersOf, Credited, Wins;
    WinnersStep(b, i, median, spread);
    var next := if Wins(median, spread, b[i]) then Won(result, b[i]) else result;
    forall a | a in next ensures next[a] == Credited(ClaimOf(claims, a), b[..i + 1], median, spread, a) {
      CreditedStep(ClaimOf(claims, a), b, i, median, spread, a);
      if a !in result {
        NotYetCredited(ClaimOf(claims, a), b[..i], median, spread, a);
      }
    }
  }

  /** Whoever has won nothing is credited nothing. */
  lemma {:induction false} NotYetCredited(c: Claim, b: Ballot, median: Dec, spread: Dec, a: Addr)
    requires a !in WinnersOf(b, median, spread)
    ensures Credited(c, b, median, spread, a) == c
  {
    SumCongruent(b, WinningPower(median, spread, a), (v: Vote) => 0);
    SumCongruent(b, WinningOne(median, spread, a), (v: Vote) => 0);
    SumZero(b);
  }

  /** The loop of Tally (tally.go:23-35): adds each winning vote to its voter's claim. */
  method CreditWinners(b: Ballot, median: Dec, spread: Dec, claims: map<Addr, Claim>) returns (result: map<Addr, Claim>)
    ensures result.Keys == claims.Keys + WinnersOf(b, median, spread)
    ensures forall a :: a in result ==> result[a] == Credited(ClaimOf(claims, a), b, median, spread, a)
  {
    hide WinnersOf, Credited;
    result := claims;
    assert b[..0] == [];
    CreditedNone(claims, median, spread);
    for i := 0 to |b|
      invariant AreCredited(claims, b[..i], median, spread, result)
    {
      CreditedNext(claims, b, i, median, spread, result);
      var vote := b[i];
      if (median - spread <= vote.rate && vote.rate <= median + spread) || !(vote.rate > 0) {
        var claim := ClaimOf(result, vote.voter);
        result := result[vote.voter := Claim(claim.power, claim.weight + vote.power, claim.winCount + 1)];
      }
    }
    assert b[..|b|] == b;
  }

  /** Tally (tally.go:14-38). */
  method TallyBallot(b: Ballot, claims: map<Addr, Claim>, p: Poll) returns (median: Dec, result: map<Addr, Claim>)
    requires SortedByRate(b)
    ensures median == MedianOf(b)
    ensures result.Keys == claims.Keys + WinnersOf(b, median, p.Spread(b))
    ensures forall a :: a in result ==> result[a] == Credited(ClaimOf(claims, a), b, median, p.Spread(b), a)
  {
    median := WeightedMedian(b);
    var spread := RewardSpread(b, median, p);
    result := CreditWinners(b, median, spread, claims);
  }
}
