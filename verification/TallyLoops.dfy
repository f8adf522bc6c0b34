/**
 The loops of one tally over Go maps (x/oracle/keeper/ballot.go:15-56,
 x/oracle/tally.go:49-86, x/oracle/abci.go:60-85). Each range picks its next key
 arbitrarily, and each method ends in the outcome its Poll defines: the tally is
 deterministic whatever order the runtime chooses.
 */
module TallyLoops {
  import opened Decimals
  import opened Seqs
  import opened Ballots
  import opened Tally
  import opened OracleRates
  import opened Wrappers

  // ---------- ballots by denom

  /** The ballots hold the votes visited so far, in the order visited. */
  ghost predicate Collected(p: Poll, m: map<Denom, Ballot>, order: seq<Addr>) {
    forall d :: && (d in m <==> FlatMap(order, p.VoteOn(d)) != [])
                && (d in m ==> m[d] == FlatMap(order, p.VoteOn(d)))
  }

  /** One sorted ballot for each denom some active validator voted on. */
  ghost predicate IsVoteMap(p: Poll, m: map<Denom, Ballot>) {
    forall d :: && (d in m <==> p.BallotOf(d) != [])
                && (d in m ==> SortedByRate(m[d]) && SameVotes(m[d], p.BallotOf(d)))
  }

  lemma FlatMapSnoc(p: Poll, order: seq<Addr>, a: Addr, d: Denom)
    ensures FlatMap(order + [a], p.VoteOn(d)) == FlatMap(order, p.VoteOn(d)) + p.VoteOn(d)(a)
  {
    FlatMapAppend(order, [a], p.VoteOn(d));
    assert FlatMap([a], p.VoteOn(d)) == p.VoteOn(d)(a);
  }

  /** The handler of one aggregate vote (ballot.go:19-45). */
  method AddVotes(p: Poll, m: map<Denom, Ballot>, voter: Addr, ghost order: seq<Addr>) returns (r: map<Denom, Ballot>)
    requires Collected(p, m, order)
    requires voter in p.votes && voter in p.powers
    ensures Collected(p, r, order + [voter])
  {
    hide Collected;
    r := m;
    var tuples := p.votes[voter];
    var denoms := tuples.Keys;
    while denoms != {}
      invariant denoms <= tuples.Keys
      invariant forall d :: d in tuples && d !in denoms ==> d in r && r[d] == AppendedVote(p, m, d, voter)
      invariant forall d :: d !in tuples || d in denoms ==> (d in r <==> d in m) && (d in m ==> r[d] == m[d])
    {
      var denom :| denom in denoms;
      denoms := denoms - {denom};
      var power := p.powers[voter];
      if !(tuples[denom] > 0) {
        power := 0;
      }
      var ballot := if denom in r then r[denom] else [];
      r := r[denom := ballot + [Vote(tuples[denom], voter, power)]];
    }
    CollectedMore(p, m, r, voter, order);
  }

  /** The ballot of d with the voter's vote at its end. */
  function AppendedVote(p: Poll, m: map<Denom, Ballot>, d: Denom, voter: Addr): Ballot
    requires voter in p.votes && voter in p.powers && d in p.votes[voter]
  {
    var rate := p.votes[voter][d];
    (if d in m then m[d] else []) + [Vote(rate, voter, if rate > 0 then p.powers[voter] else 0)]
  }

  lemma CollectedMore(p: Poll, m: map<Denom, Ballot>, r: map<Denom, Ballot>, voter: Addr, order: seq<Addr>)
    requires Collected(p, m, order) && voter in p.votes && voter in p.powers
    requires forall d :: d in p.votes[voter] ==> d in r && r[d] == AppendedVote(p, m, d, voter)
    requires forall d :: d !in p.votes[voter] ==> (d in r <==> d in m) && (d in m ==> r[d] == m[d])
    ensures Collected(p, r, order + [voter])
  {
    forall d
      ensures d in r <==> FlatMap(order + [voter], p.VoteOn(d)) != []
      ensures d in r ==> r[d] == FlatMap(order + [voter], p.VoteOn(d))
    {
      CollectedAt(p, m, r, voter, order, d);
    }
  }

  lemma CollectedAt(p: Poll, m: map<Denom, Ballot>, r: map<Denom, Ballot>, voter: Addr, order: seq<Addr>, d: Denom)
    requires Collected(p, m, order) && voter in p.votes && voter in p.powers
    requires d in p.votes[voter] ==> d in r && r[d] == AppendedVote(p, m, d, voter)
    requires d !in p.votes[voter] ==> (d in r <==> d in m) && (d in m ==> r[d] == m[d])
    ensures d in r <==> FlatMap(order + [voter], p.VoteOn(d)) != []
    ensures d in r ==> r[d] == FlatMap(order + [voter], p.VoteOn(d))
  {
    hide FlatMap;
    FlatMapSnoc(p, order, voter, d);
    assert d in m <==> FlatMap(order, p.VoteOn(d)) != [];
  }

  method SortBallots(m: map<Denom, Ballot>) returns (r: map<Denom, Ballot>)
    ensures r.Keys == m.Keys
    ensures forall d :: d in m ==> SortedByRate(r[d]) && SameVotes(r[d], m[d])
  {
    r := m;
    var denoms := m.Keys;
    while denoms != {}
      invariant denoms <= m.Keys
      invariant r.Keys == m.Keys
      invariant forall d :: d in m ==> SameVotes(r[d], m[d])
      invariant forall d :: d in m && d !in denoms ==> SortedByRate(r[d])
    {
      var denom :| denom in denoms;
      denoms := denoms - {denom};
      var ballot := SortBallot(r[denom]);
      r := r[denom := ballot];
    }
  }

  lemma CollectedIsVoteMap(p: Poll, m: map<Denom, Ballot>, r: map<Denom, Ballot>, order: seq<Addr>)
    requires Collected(p, m, order)
    requires multiset(order) == multiset(p.votes.Keys * p.powers.Keys)
    requires r.Keys == m.Keys
    requires forall d :: d in m ==> SortedByRate(r[d]) && SameVotes(r[d], m[d])
    ensures IsVoteMap(p, r)
  {
    forall d
      ensures d in r <==> p.BallotOf(d) != []
      ensures d in r ==> SortedByRate(r[d]) && SameVotes(r[d], p.BallotOf(d))
    {
      FlatMapPermutation(order, Listing(p.votes.Keys * p.powers.Keys), p.VoteOn(d));
      SameVotesMembers(FlatMap(order, p.VoteOn(d)), p.BallotOf(d));
    }
  }

  lemma NoneCollected(p: Poll)
    ensures Collected(p, map[], [])
  {
  }

  /** The handler of ballot.go:19-45 on one stored vote: inactive validators are passed over. */
  method VisitVoter(p: Poll, m: map<Denom, Ballot>, voter: Addr, ghost order: seq<Addr>, ghost seen: set<Addr>)
    returns (r: map<Denom, Ballot>, ghost order': seq<Addr>)
    requires Collected(p, m, order) && multiset(order) == multiset(seen)
    requires voter in p.votes && voter !in seen
    ensures Collected(p, r, order')
    ensures multiset(order') == multiset(seen + ({voter} * p.powers.Keys))
  {
    r, order' := m, order;
    if voter in p.powers {
      r := AddVotes(p, m, voter, order);
      ExtendListing(seen, voter, order);
      order' := order + [voter];
      assert seen + {voter} == seen + ({voter} * p.powers.Keys);
    } else {
      assert seen == seen + ({voter} * p.powers.Keys);
    }
  }

  /** The votes of every active validator, in the order the store happens to yield them (ballot.go:47). */
  method CollectVotes(p: Poll) returns (collected: map<Denom, Ballot>, ghost order: seq<Addr>)
    ensures Collected(p, collected, order)
    ensures multiset(order) == multiset(p.votes.Keys * p.powers.Keys)
  {
    hide Collected;
    collected, order := map[], [];
    NoneCollected(p);
    var voters := p.votes.Keys;
    ghost var seen: set<Addr> := {};
    while voters != {}
      invariant voters <= p.votes.Keys
      invariant seen == (p.votes.Keys - voters) * p.powers.Keys
      invariant multiset(order) == multiset(seen)
      invariant Collected(p, collected, order)
    {
      var voter :| voter in voters;
      collected, order := VisitVoter(p, collected, voter, order, seen);
      voters := voters - {voter};
      seen := seen + ({voter} * p.powers.Keys);
    }
    assert seen == p.votes.Keys * p.powers.Keys;
  }

  lemma ExtendListing(s: set<Addr>, a: Addr, order: seq<Addr>)
    requires a !in s && multiset(order) == multiset(s)
    ensures multiset(order + [a]) == multiset(s + {a})
  {
    assert multiset(s + {a}) == multiset(s) + multiset{a};
  }

  /** OrganizeBallotByDenom (ballot.go:15-56), whatever order the votes are visited in. */
  method OrganizeBallotByDenom(p: Poll) returns (voteMap: map<Denom, Ballot>)
    ensures IsVoteMap(p, voteMap)
  {
    var collected;
    ghost var order;
    collected, order := CollectVotes(p);
    voteMap := SortBallots(collected);
    CollectedIsVoteMap(p, collected, voteMap, order);
  }

  // ---------- the reference denom

  /** ballotIsPassing (tally.go:41-44). */
  method BallotIsPassing(ballot: Ballot, thresholdVotes: int) returns (power: int, ok: bool)
    ensures power == TotalPower(ballot)
    ensures ok <==> TotalPower(ballot) != 0 && TotalPower(ballot) >= thresholdVotes
  {
    power := Power(ballot);
    ok := power != 0 && power >= thresholdVotes;
  }

  /** The loop of PickReferenceTerra (tally.go:57-83) over an arbitrary order of the ballots. */
  method PickAmong(voteTargets: map<Denom, Dec>, voteMap: map<Denom, Ballot>, thresholdVotes: int,
                   ghost power: Denom -> int, ghost passing: set<Denom>)
    returns (referenceTerra: Denom, targets: map<Denom, Dec>, ballots: map<Denom, Ballot>)
    requires forall d :: d in voteMap ==> power(d) == TotalPower(voteMap[d]) >= 0
    requires forall d :: d in passing <==>
      d in voteMap && d in voteTargets && power(d) != 0 && power(d) >= thresholdVotes
    ensures IsReference(power, passing, referenceTerra)
    ensures targets == voteTargets - (voteMap.Keys - passing)
    ensures ballots == voteMap - (voteMap.Keys - passing)
  {
    var largestBallotPower := 0;
    referenceTerra, targets, ballots := "", voteTargets, voteMap;
    var denoms := voteMap.Keys;
    ghost var passed: set<Denom>, failed: set<Denom> := {}, {};
    while denoms != {}
      invariant denoms <= voteMap.Keys
      invariant passed == passing - denoms
      invariant failed == voteMap.Keys - denoms - passing
      invariant IsReference(power, passed, referenceTerra)
      invariant largestBallotPower == if passed == {} then 0 else power(referenceTerra)
      invariant ballots == voteMap - failed
      invariant targets == voteTargets - failed
    {
      var denom :| denom in denoms;
      denoms := denoms - {denom};
      if denom !in voteTargets {
        ballots := ballots - {denom};
        failed := failed + {denom};
        continue;
      }
      var ballotPower, ok := BallotIsPassing(voteMap[denom], thresholdVotes);
      if !ok {
        targets := targets - {denom};
        ballots := ballots - {denom};
        failed := failed + {denom};
        continue;
      }
      ghost var better := PickBetter(power, passed, referenceTerra, denom);
      passed := passed + {denom};
      if ballotPower > largestBallotPower || largestBallotPower == 0 {
        referenceTerra := denom;
        largestBallotPower := ballotPower;
      } else if largestBallotPower == ballotPower && Before(denom, referenceTerra) {
        referenceTerra := denom;
      }
    }
    assert passed == passing && failed == voteMap.Keys - passing;
  }

  lemma PowerInVoteMap(p: Poll, voteMap: map<Denom, Ballot>, d: Denom)
    requires IsVoteMap(p, voteMap) && d in voteMap
    ensures p.PowerOn()(d) == TotalPower(voteMap[d]) >= 0
  {
    SumPermutation(voteMap[d], p.BallotOf(d), PowerOf());
    SumNonNegative(voteMap[d], PowerOf());
  }

  lemma PassingInVoteMap(p: Poll, voteMap: map<Denom, Ballot>, d: Denom)
    requires IsVoteMap(p, voteMap)
    ensures d in p.Passing() <==>
      d in voteMap && d in p.targets && p.PowerOn()(d) != 0 && p.PowerOn()(d) >= p.thresholdVotes
  {
  }

  lemma SurvivingTargets(p: Poll, voteMap: map<Denom, Ballot>)
    requires IsVoteMap(p, voteMap)
    ensures p.targets - (voteMap.Keys - p.Passing()) == p.Surviving()
  {
    var s := p.targets - (voteMap.Keys - p.Passing());
    assert forall d :: d in s <==> d in p.Surviving();
  }

  /** PickReferenceTerra (tally.go:49-86). */
  method PickReferenceTerra(p: Poll, voteMap: map<Denom, Ballot>)
    returns (referenceTerra: Denom, targets: map<Denom, Dec>, ballots: map<Denom, Ballot>)
    requires IsVoteMap(p, voteMap)
    ensures referenceTerra == p.Reference()
    ensures targets == p.Surviving()
    ensures ballots.Keys == p.Passing() && forall d :: d in ballots ==> d in voteMap && ballots[d] == voteMap[d]
  {
    hide *;
    forall d | d in voteMap ensures p.PowerOn()(d) == TotalPower(voteMap[d]) >= 0 {
      PowerInVoteMap(p, voteMap, d);
    }
    forall d ensures d in p.Passing() <==>
        d in voteMap && d in p.targets && p.PowerOn()(d) != 0 && p.PowerOn()(d) >= p.thresholdVotes {
      PassingInVoteMap(p, voteMap, d);
    }
    referenceTerra, targets, ballots := PickAmong(p.targets, voteMap, p.thresholdVotes, p.PowerOn(), p.Passing());
    p.ReferenceLargest();
    ReferenceUnique(p.PowerOn(), p.Passing(), referenceTerra, p.Reference());
    SurvivingTargets(p, voteMap);
  }

  // ---------- the tally

  datatype Outcome = Outcome(targets: map<Denom, Dec>, rates: map<Denom, Dec>, claims: map<Addr, Claim>)

  ghost predicate RateDefined(p: Poll, d: Denom) {
    d == p.Reference() || MedianOf(p.Counted(d)) != 0
  }

  /** The claim of a after the ballot of one more denom. */
  ghost function CreditedOn(p: Poll, c: Claim, d: Denom, a: Addr): Claim {
    Claim(c.power, c.weight + p.WeightIn(d, a), c.winCount + p.WinsIn(d, a))
  }

  lemma CreditedOnPermutes(p: Poll, c: Claim, d: Denom, a: Addr, b: Ballot)
    requires SameVotes(b, p.Counted(d))
    ensures Credited(c, b, MedianOf(b), p.Spread(b), a) == CreditedOn(p, c, d, a)
  {
    SpreadPermutes(p, b, p.Counted(d));
    SumPermutation(b, p.Counted(d), WinningPower(MedianOf(b), p.Spread(b), a));
    SumPermutation(b, p.Counted(d), WinningOne(MedianOf(b), p.Spread(b), a));
  }

  lemma ClaimStep(p: Poll, s: set<Denom>, d: Denom, a: Addr)
    requires a in p.powers && d !in s
    ensures p.ClaimOver(s + {d}, a) == CreditedOn(p, p.ClaimOver(s, a), d, a)
  {
    hide Total, Poll.WeightIn, Poll.WinsIn;
    TotalAdd(s, d, p.WeightOn(a));
    TotalAdd(s, d, p.WinsOn(a));
  }

  lemma CrossPermutes(b: Ballot, c: Ballot, bases: map<Addr, Dec>)
    requires SameVotes(b, c)
    ensures SameVotes(CrossBallot(b, bases), CrossBallot(c, bases))
  {
    FlatMapPermutation(b, c, CrossVoteIn(bases));
  }

  /** The ballot to tally (abci.go:69-72). */
  method BallotToTally(p: Poll, denom: Denom, ballot: Ballot, bases: map<Addr, Dec>, referenceTerra: Denom)
    returns (b: Ballot)
    requires SortedByRate(ballot) && SameVotes(ballot, p.BallotOf(denom))
    requires referenceTerra == p.Reference() && bases == p.Bases()
    ensures SortedByRate(b) && SameVotes(b, p.Counted(denom))
  {
    b := ballot;
    if denom != referenceTerra {
      b := ToCrossRateWithSort(ballot, bases);
      CrossPermutes(ballot, p.BallotOf(denom), bases);
    }
  }

  /** Tally on the counted ballot of a denom (abci.go:74-75): every voter has a claim, so only claims change. */
  method CreditBallot(p: Poll, denom: Denom, b: Ballot, claims: map<Addr, Claim>)
    returns (median: Dec, result: map<Addr, Claim>)
    requires SortedByRate(b) && SameVotes(b, p.Counted(denom)) && claims.Keys == p.powers.Keys
    ensures median == MedianOf(p.Counted(denom))
    ensures result.Keys == p.powers.Keys
    ensures forall a :: a in claims ==> result[a] == CreditedOn(p, claims[a], denom, a)
  {
    hide Poll.Counted, Credited, Poll.Spread, MedianOf, WinnersOf, SortedByRate;
    SameVotesMembers(b, p.Counted(denom));
    forall v | v in b ensures v.voter in claims {
      p.CountedVoters(denom, v);
    }
    median, result := TallyBallot(b, claims, p);
    WinnersClaimed(b, median, p.Spread(b), claims);
    SpreadPermutes(p, b, p.Counted(denom));
    forall a | a in claims ensures result[a] == CreditedOn(p, claims[a], denom, a) {
      CreditedOnPermutes(p, claims[a], denom, a, b);
    }
  }

  /** The body of the tally loop (abci.go:67-84); None is the panic of a division by zero. */
  method TallyDenom(p: Poll, denom: Denom, ballot: Ballot, bases: map<Addr, Dec>, referenceTerra: Denom,
                    exchangeRateRT: Dec, claims: map<Addr, Claim>)
    returns (rate: Option<Dec>, result: map<Addr, Claim>)
    requires SortedByRate(ballot) && SameVotes(ballot, p.BallotOf(denom))
    requires referenceTerra == p.Reference() && bases == p.Bases()
    requires exchangeRateRT == MedianOf(p.BallotOf(referenceTerra))
    requires claims.Keys == p.powers.Keys
    ensures rate.Some? <==> RateDefined(p, denom)
    ensures rate.Some? ==> rate.value == p.RateFor(denom)
    ensures result.Keys == p.powers.Keys
    ensures forall a :: a in claims ==> result[a] == CreditedOn(p, claims[a], denom, a)
  {
    hide SameVotes, Poll.BallotOf, Poll.Counted, Poll.Bases, Poll.Reference, MedianOf, CreditedOn;
    var b := BallotToTally(p, denom, ballot, bases, referenceTerra);
    var exchangeRate;
    exchangeRate, result := CreditBallot(p, denom, b, claims);
    if denom != referenceTerra {
      if exchangeRate == 0 {
        rate := None;
      } else {
        rate := Some(Quo(exchangeRateRT, exchangeRate));
      }
    } else {
      rate := Some(exchangeRate);
    }
  }

  /** What the tally has produced once the ballots in `done` are counted. */
  ghost predicate TalliedOver(p: Poll, done: set<Denom>, rates: map<Denom, Dec>, claims: map<Addr, Claim>) {
    && rates.Keys == done
    && (forall d :: d in done ==> RateDefined(p, d) && rates[d] == p.RateFor(d))
    && claims.Keys == p.powers.Keys
    && (forall a :: a in claims ==> claims[a] == p.ClaimOver(done, a))
  }

  lemma TalliedNone(p: Poll, claims: map<Addr, Claim>)
    requires claims == map a | a in p.powers :: Claim(p.powers[a], 0, 0)
    ensures TalliedOver(p, {}, map[], claims)
  {
    hide Total, Poll.WeightIn, Poll.WinsIn;
    forall a | a in claims ensures claims[a] == p.ClaimOver({}, a) {
      TotalEmpty(p.WeightOn(a));
      TotalEmpty(p.WinsOn(a));
    }
  }

  lemma TalliedStep(p: Poll, done: set<Denom>, rates: map<Denom, Dec>, claims: map<Addr, Claim>,
                    d: Denom, rate: Dec, result: map<Addr, Claim>)
    requires TalliedOver(p, done, rates, claims) && d !in done
    requires RateDefined(p, d) && rate == p.RateFor(d)
    requires result.Keys == p.powers.Keys
    requires forall a :: a in claims ==> result[a] == CreditedOn(p, claims[a], d, a)
    ensures TalliedOver(p, done + {d}, rates[d := rate], result)
  {
    hide Poll.ClaimOver, CreditedOn, RateDefined, Poll.RateFor;
    forall a | a in result ensures result[a] == p.ClaimOver(done + {d}, a) {
      ClaimStep(p, done, d, a);
    }
  }

  lemma TalliedAll(p: Poll, rates: map<Denom, Dec>, claims: map<Addr, Claim>)
    requires TalliedOver(p, p.Passing(), rates, claims)
    ensures p.RatesDefined() && rates == p.Rates() && claims == p.Claims()
  {
    hide Poll.ClaimOver, Poll.RateFor, Poll.Passing, Poll.Reference, Poll.Counted, MedianOf;
    forall d | d in p.Passing() && d != p.Reference() ensures MedianOf(p.Counted(d)) != 0 {
      assert RateDefined(p, d);
    }
  }

  /** The tally loop (abci.go:61-85), over an arbitrary order of the ballots. */
  method TallyLoop(p: Poll, referenceTerra: Denom, ballots: map<Denom, Ballot>, claims0: map<Addr, Claim>)
    returns (rates: Option<map<Denom, Dec>>, claims: map<Addr, Claim>)
    requires referenceTerra == p.Reference() && referenceTerra in ballots
    requires ballots.Keys == p.Passing()
    requires forall d :: d in ballots ==> SortedByRate(ballots[d]) && SameVotes(ballots[d], p.BallotOf(d))
    requires TalliedOver(p, {}, map[], claims0)
    ensures rates.Some? ==> TalliedOver(p, p.Passing(), rates.value, claims)
    ensures rates.None? ==> exists d :: d in p.Passing() && !RateDefined(p, d)
  {
    hide *;
    var ballotRT := ballots[referenceTerra];
    p.BallotOneVoteEach(referenceTerra);
    OneVoteEachPermutes(ballotRT, p.BallotOf(referenceTerra));
    var bases := ToMap(ballotRT);
    BasesOfReference(p, ballotRT, bases);
    var exchangeRateRT := WeightedMedian(ballotRT);
    MedianOfPermutes(ballotRT, p.BallotOf(referenceTerra));
    var stored: map<Denom, Dec> := map[];
    claims := claims0;
    var denoms := ballots.Keys;
    assert ballots.Keys - denoms == {};
    while denoms != {}
      invariant denoms <= ballots.Keys
      invariant TalliedOver(p, ballots.Keys - denoms, stored, claims)
    {
      var denom :| denom in denoms;
      TalliedKeys(p, ballots.Keys - denoms, stored, claims);
      var rate, result := TallyDenom(p, denom, ballots[denom], bases, referenceTerra, exchangeRateRT, claims);
      if rate.None? {
        return None, claims;
      }
      TalliedStep(p, ballots.Keys - denoms, stored, claims, denom, rate.value, result);
      assert ballots.Keys - (denoms - {denom}) == (ballots.Keys - denoms) + {denom};
      denoms := denoms - {denom};
      stored := stored[denom := rate.value];
      claims := result;
    }
    assert ballots.Keys - denoms == ballots.Keys;
    rates := Some(stored);
  }

  lemma TalliedKeys(p: Poll, done: set<Denom>, rates: map<Denom, Dec>, claims: map<Addr, Claim>)
    requires TalliedOver(p, done, rates, claims)
    ensures claims.Keys == p.powers.Keys
  {
  }

  lemma BasesOfReference(p: Poll, b: Ballot, bases: map<Addr, Dec>)
    requires SameVotes(b, p.BallotOf(p.Reference())) && IsReferenceMap(b, bases)
    ensures bases == p.Bases()
  {
    p.BasesAreReference();
    ReferenceMapUnique(b, p.BallotOf(p.Reference()), bases, p.Bases());
  }

  /**
   A target without a name that has the largest ballot is taken for no reference at all: nothing
   is tallied. Validation refuses such names.
   */
  ghost predicate Unnamed(p: Poll) {
    p.Reference() == "" && "" in p.Passing()
  }

  /**
   The tally of a vote period (abci.go:42-85). Whatever order the maps are ranged over, it
   ends in the outcome of the Poll; it panics exactly when some cross-rate median is zero.
   */
  method TallyVotes(p: Poll) returns (r: Option<Outcome>)
    ensures !Unnamed(p) ==> (r.Some? <==> p.RatesDefined())
    ensures !Unnamed(p) && r.Some? ==> r.value == Outcome(p.Surviving(), p.Rates(), p.Claims())
    ensures !Unnamed(p) && r.Some? ==>
      r.value.rates.Keys == p.Passing() && forall d :: d in p.Passing() ==> IsStoredRate(p, d, r.value.rates[d])
    ensures Unnamed(p) ==> r == Some(Outcome(p.Surviving(), map[], map a | a in p.powers :: Claim(p.powers[a], 0, 0)))
  {
    var claims := map a | a in p.powers :: Claim(p.powers[a], 0, 0);
    TalliedNone(p, claims);
    var voteMap := OrganizeBallotByDenom(p);
    var referenceTerra, targets, ballots := PickReferenceTerra(p, voteMap);
    p.ReferenceLargest();
    if referenceTerra != "" {
      var rates;
      rates, claims := TallyLoop(p, referenceTerra, ballots, claims);
      if rates.None? {
        return None;
      }
      TalliedAll(p, rates.value, claims);
      StoredRates(p);
      r := Some(Outcome(targets, rates.value, claims));
    } else {
      if !Unnamed(p) {
        assert p.Passing() == {};
        TalliedAll(p, map[], claims);
        StoredRates(p);
      }
      r := Some(Outcome(targets, map[], claims));
    }
  }

  lemma StoredRates(p: Poll)
    requires p.RatesDefined()
    ensures p.Rates().Keys == p.Passing()
    ensures forall d :: d in p.Passing() ==> IsStoredRate(p, d, p.Rates()[d])
  {
    hide IsStoredRate, Poll.RateFor, Poll.Passing;
    forall d | d in p.Passing() ensures IsStoredRate(p, d, p.Rates()[d]) {
      StoredRate(p, d);
    }
  }

  /** Named targets exclude that. */
  lemma NamedReference(p: Poll)
    requires "" !in p.targets
    ensures !Unnamed(p)
  {
  }
}
