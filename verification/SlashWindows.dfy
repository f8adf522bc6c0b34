/**
 Miss counters over slash windows (x/oracle/abci.go:87-120, x/oracle/keeper/slash.go): a
 counter is charged at most once per vote period and cleared at the end of a window. Whether
 it can exceed the number of vote periods per window depends on whether the vote period divides
 the window, and on whether there is anything to vote on.
 */
module SlashWindows {
  import opened Decimals
  import opened Seqs
  import opened Ballots
  import opened Tally
  import opened TallyLoops
  import opened Wrappers
  import opened TallyFacts
  import opened Rewards
  import opened OracleState
  import opened OracleRuns

  // ---------- one block

  /** A claimed validator is charged one miss exactly when it left a surviving target uncovered. */
  lemma MissCountedIff(c: Config, s: State, b: Block, a: Addr)
    requires c.Valid() && PeriodEnded(c, s, b).Some? && a in ClaimPowers(b.validators, b.maxValidators)
    ensures var p, t := PollOf(c, s, b), PeriodEnded(c, s, b).value;
      CounterOf(t, a) == CounterOf(s, a) + if forall d :: d in p.Surviving() ==> Covers(p, d, a) then 0 else 1
  {
    hide PeriodEnded, Poll.Surviving, Covers, Poll.ClaimOver;
    FullWinsIffCovered(PollOf(c, s, b), a);
    PeriodEndedStores(c, s, b);
  }

  function CounterOf(s: State, a: Addr): nat {
    if a in s.missCounters then s.missCounters[a] else 0
  }

  lemma PeriodEndCounters(c: Config, s: State, b: Block, a: Addr)
    requires c.Valid() && AfterPeriod(c, s, b).Some?
    ensures var t := AfterPeriod(c, s, b).value;
      && t.height == s.height
      && CounterOf(s, a) <= CounterOf(t, a)
      && CounterOf(t, a) <= CounterOf(s, a) + (if IsPeriodLastBlock(s.height, c.votePeriod) then 1 else 0)
      && (!IsPeriodLastBlock(s.height, c.votePeriod) ==> t.missCounters == s.missCounters)
  {
    hide PeriodEnded, PollOf, Poll.Claims, Poll.Surviving;
    if IsPeriodLastBlock(s.height, c.votePeriod) {
      PeriodEndedStores(c, s, b);
    }
  }

  // ---------- the vote period divides the window

  /** Counters never exceed the vote periods completed since the window began. */
  ghost predicate CountersWithinWindow(c: Config, s: State)
    requires c.Valid()
  {
    forall a :: CounterOf(s, a) <= (s.height % c.slashWindow) / c.votePeriod
  }

  lemma WindowPosition(c: Config, h: nat)
    requires c.Valid() && c.slashWindow % c.votePeriod == 0
    ensures var x, d := h % c.slashWindow, c.votePeriod;
      && (if IsPeriodLastBlock(h, d) then (x + 1) / d == x / d + 1 else (x + 1) / d == x / d)
      && (IsPeriodLastBlock(h, c.slashWindow) <==> x + 1 == c.slashWindow)
      && (!IsPeriodLastBlock(h, c.slashWindow) ==> (h + 1) % c.slashWindow == x + 1)
      && (IsPeriodLastBlock(h, c.slashWindow) ==> (h + 1) % c.slashWindow == 0)
  {
    var w, d := c.slashWindow, c.votePeriod;
    var x, q, k := h % w, h / w, w / d;
    assert h == q * w + x;
    assert w == k * d;
    var y, z := x / d, x % d;
    assert x == y * d + z;
    assert h == (q * k + y) * d + z by {
      assert q * (k * d) == (q * k) * d;
      assert (q * k + y) * d == (q * k) * d + y * d;
    }
    PositionIn(h, q * k + y, d, z);
    PositionIn(h, q, w, x);
    PositionIn(x, y, d, z);
  }

  /** Stepping from h = q * d + z to the next number, modulo d. */
  lemma PositionIn(h: nat, q: int, d: nat, z: nat)
    requires d > 0 && z < d && h == q * d + z
    ensures if z + 1 == d then (h + 1) % d == 0 && (h + 1) / d == q + 1 else (h + 1) % d == z + 1 && (h + 1) / d == q
  {
    if z + 1 == d {
      assert h + 1 == (q + 1) * d + 0;
      ModOfMultiple(q + 1, d, 0);
    } else {
      ModOfMultiple(q, d, z + 1);
    }
  }

  lemma WithinBlock(c: Config, s: State, t: State, b: Block)
    requires c.Valid() && c.slashWindow % c.votePeriod == 0
    requires BlockEnded(c, s, b) == Some(t) && CountersWithinWindow(c, s)
    ensures CountersWithinWindow(c, t)
  {
    hide AfterPeriod, SlashDefined;
    WindowPosition(c, s.height);
    forall a ensures CounterOf(t, a) <= (t.height % c.slashWindow) / c.votePeriod {
      PeriodEndCounters(c, s, b, a);
      WithinBound(c, s, t, b, a);
    }
  }

  lemma WithinBound(c: Config, s: State, t: State, b: Block, a: Addr)
    requires c.Valid() && c.slashWindow % c.votePeriod == 0 && BlockEnded(c, s, b) == Some(t)
    requires CounterOf(s, a) <= (s.height % c.slashWindow) / c.votePeriod
    requires AfterPeriod(c, s, b).Some? && AfterPeriod(c, s, b).value.height == s.height
    requires CounterOf(AfterPeriod(c, s, b).value, a)
          <= CounterOf(s, a) + (if IsPeriodLastBlock(s.height, c.votePeriod) then 1 else 0)
    ensures CounterOf(t, a) <= (t.height % c.slashWindow) / c.votePeriod
  {
    hide AfterPeriod, SlashDefined, IsPeriodLastBlock;
    WindowPosition(c, s.height);
    if IsPeriodLastBlock(s.height, c.slashWindow) {
      DivAtLeast(t.height % c.slashWindow, c.votePeriod, 0);
    }
  }

  lemma WithinStep(c: Config, r: Run, n: nat)
    requires c.Valid() && c.slashWindow % c.votePeriod == 0
    requires IsRun(c, r) && n < |r.steps| && CountersWithinWindow(c, r.states[n])
    ensures CountersWithinWindow(c, r.states[n + 1])
  {
    hide BlockEnded, VoteError;
    var s, t := r.states[n], r.states[n + 1];
    assert Next(c, s, r.steps[n]) == Some(t);
    if r.steps[n].Ending? {
      WithinBlock(c, s, t, r.steps[n].block);
    } else {
      assert t.missCounters == s.missCounters && t.height == s.height;
      assert forall a :: CounterOf(t, a) == CounterOf(s, a);
    }
  }

  lemma {:induction false} CountersStayWithin(c: Config, r: Run, n: nat)
    requires c.Valid() && c.slashWindow % c.votePeriod == 0
    requires IsRun(c, r) && n < |r.states| && StartsClean(r)
    ensures CountersWithinWindow(c, r.states[n])
  {
    if n == 0 {
      forall a ensures CounterOf(r.states[0], a) <= (r.states[0].height % c.slashWindow) / c.votePeriod {
        DivAtLeast(r.states[0].height % c.slashWindow, c.votePeriod, 0);
      }
    } else {
      CountersStayWithin(c, r, n - 1);
      WithinStep(c, r, n - 1);
    }
  }

  // ---------- the check at the end of a window

  /** A run that starts without counters, all its vote targets named as validation demands. */
  predicate StartsClean(r: Run) {
    r.states != [] && r.states[0].missCounters == map[] && "" !in r.states[0].targets
  }

  /** Step n ends a slash window, and every counter it checks is at most the vote periods per window. */
  ghost predicate CheckedSafely(c: Config, r: Run, n: nat)
    requires c.Valid() && IsRun(c, r)
  {
    n < |r.steps| && r.steps[n].Ending? && IsPeriodLastBlock(r.states[n].height, c.slashWindow) ==>
      var t := AfterPeriod(c, r.states[n], r.steps[n].block);
      t.Some? && forall a :: CounterOf(t.value, a) <= VotePeriodsPerWindow(c)
  }

  lemma DividingWindowSafe(c: Config, r: Run, n: nat)
    requires c.Valid() && c.slashWindow % c.votePeriod == 0
    requires IsRun(c, r) && StartsClean(r)
    ensures CheckedSafely(c, r, n)
  {
    hide AfterPeriod;
    if n < |r.steps| && r.steps[n].Ending? && IsPeriodLastBlock(r.states[n].height, c.slashWindow) {
      var s, b := r.states[n], r.steps[n].block;
      assert Next(c, s, r.steps[n]) == Some(r.states[n + 1]);
      CountersStayWithin(c, r, n);
      WindowPosition(c, s.height);
      forall a ensures CounterOf(AfterPeriod(c, s, b).value, a) <= VotePeriodsPerWindow(c) {
        PeriodEndCounters(c, s, b, a);
      }
    }
  }

  lemma QuotientBelow(x: nat, n: nat, m: nat)
    requires n > 0
    ensures x / n < m <==> x < m * n
  {
    assert x == n * (x / n) + x % n;
    if x >= m * n {
      DivAtLeast(x, n, m);
    }
  }

  /** Within bounds the subtraction does not wrap and the rate of valid votes lies in [0, 1]. */
  lemma RateInRange(c: Config, missed: nat)
    requires c.Valid() && c.slashWindow < TWO64 / 2 && missed <= VotePeriodsPerWindow(c)
    ensures SignedDifference(VotePeriodsPerWindow(c), missed) == VotePeriodsPerWindow(c) - missed
    ensures 0 <= ValidVoteRate(c, missed) <= ONE
    ensures Penalised(c, missed) <==>
      (VotePeriodsPerWindow(c) - missed) * ONE < c.minValidPerWindow * VotePeriodsPerWindow(c)
  {
    hide SignedDifference;
    var n := VotePeriodsPerWindow(c);
    DivAntitone(c.slashWindow, 1, c.votePeriod);
    PlainDifference(n, missed);
    var x := (n - missed) * ONE;
    QuotientBelow(x, n, ONE + 1);
    assert x <= n * ONE && (ONE + 1) * n == n * ONE + n;
    QuotientBelow(x, n, 0);
    QuotientBelow(x, n, c.minValidPerWindow);
  }

  /** Above the bound the difference turns negative, and so does the rate unless it rounds to zero. */
  lemma RateAboveBound(c: Config, missed: nat)
    requires c.Valid() && VotePeriodsPerWindow(c) < missed < TWO64 / 2 && c.slashWindow < TWO64 / 2
    ensures SignedDifference(VotePeriodsPerWindow(c), missed) < 0
    ensures ValidVoteRate(c, missed) <= 0
  {
    var n := VotePeriodsPerWindow(c);
    DivAntitone(c.slashWindow, 1, c.votePeriod);
    WrappedDifference(n, missed);
    DivAtLeast((missed - n) * ONE, n, 0);
  }

  /**
   While its counter fits the window, a validator is slashed exactly if it is bonded and not jailed
   and the vote periods it did not miss fall short of the minimum's part of the window.
   */
  lemma SlashedIff(c: Config, s: State, b: Block, a: Addr)
    requires c.Valid() && c.slashWindow < TWO64 / 2
    requires a in s.missCounters && s.missCounters[a] <= VotePeriodsPerWindow(c)
    ensures a in Slashed(c, s, b) <==>
      && (exists i :: 0 <= i < |b.validators| && b.validators[i].addr == a
                      && b.validators[i].bonded && !b.validators[i].jailed)
      && (VotePeriodsPerWindow(c) - s.missCounters[a]) * ONE < c.minValidPerWindow * VotePeriodsPerWindow(c)
  {
    hide Penalised;
    RateInRange(c, s.missCounters[a]);
  }

  lemma PlainDifference(a: nat, b: nat)
    requires b <= a < TWO64 / 2
    ensures SignedDifference(a, b) == a - b
  {
    assert (a - b) % TWO64 == a - b;
  }

  lemma WrappedDifference(a: nat, b: nat)
    requires a < b < TWO64 / 2
    ensures SignedDifference(a, b) == a - b
  {
    assert (a - b) % TWO64 == a - b + TWO64;
  }

  /**
   If the vote period divides the slash window, every run that starts with no counters reaches
   the check with counters that fit, valid rates, and leaves no counter behind.
   */
  lemma WindowEndSafety(c: Config, r: Run, n: nat, a: Addr)
    requires c.Valid() && c.slashWindow % c.votePeriod == 0 && c.slashWindow < TWO64 / 2
    requires IsRun(c, r) && StartsClean(r)
    requires n < |r.steps| && r.steps[n].Ending? && IsPeriodLastBlock(r.states[n].height, c.slashWindow)
    ensures var t := AfterPeriod(c, r.states[n], r.steps[n].block);
      t.Some? && CounterOf(t.value, a) <= VotePeriodsPerWindow(c) && 0 <= ValidVoteRate(c, CounterOf(t.value, a)) <= ONE
    ensures r.states[n + 1].missCounters == map[]
  {
    hide AfterPeriod, ValidVoteRate;
    assert Next(c, r.states[n], r.steps[n]) == Some(r.states[n + 1]);
    DividingWindowSafe(c, r, n);
    RateInRange(c, CounterOf(AfterPeriod(c, r.states[n], r.steps[n].block).value, a));
  }

  // ---------- the vote period does not divide the window

  /** A validator alone on the chain. */
  function Alone(a: Addr): Block {
    Block([Validator(a, true, false, 1)], 1, 1)
  }

  /** Nobody has voted, and there is something to vote on. */
  predicate Silent(s: State) {
    s.votes == map[] && s.targets != map[]
  }

  lemma SilentPoll(c: Config, s: State, a: Addr)
    requires Silent(s)
    ensures var p := PollOf(c, s, Alone(a));
      && p.powers == map[a := 1] && p.Surviving() == s.targets && p.RatesDefined()
      && p.Claims() == map[a := Claim(1, 0, 0)]
  {
    hide Poll.Surviving, Poll.RatesDefined, Poll.Passing, Poll.ClaimOver;
    var p := PollOf(c, s, Alone(a));
    assert Alone(a).validators[1..] == [];
    assert p.powers == map[a := 1] + ClaimPowers([], 0);
    NothingPasses(p);
    SilentClaim(p, a);
  }

  lemma NothingPasses(p: Poll)
    requires p.votes == map[]
    ensures p.Passing() == {} && p.Surviving() == p.targets && p.RatesDefined()
  {
    hide Poll.BallotOf, Poll.Counted, Poll.Reference, MedianOf;
    forall d ensures p.BallotOf(d) == [] {
      NoBallot(p, d);
    }
  }

  lemma NoBallot(p: Poll, d: Denom)
    requires p.votes == map[]
    ensures p.BallotOf(d) == []
  {
    assert p.votes.Keys * p.powers.Keys == {};
  }

  lemma SilentClaim(p: Poll, a: Addr)
    requires a in p.powers && p.Passing() == {}
    ensures p.ClaimOver(p.Passing(), a) == Claim(p.powers[a], 0, 0)
  {
    hide Poll.WeightIn, Poll.WinsIn;
    TotalEmpty(p.WeightOn(a));
    TotalEmpty(p.WinsOn(a));
  }

  lemma SilentPayable(c: Config, s: State, a: Addr)
    requires c.Valid() && Silent(s)
    ensures Payable(c, s, Alone(a))
  {
    hide PollOf, Poll.Surviving, Poll.Claims, Poll.RatesDefined;
    SilentPoll(c, s, a);
    var claims := PollOf(c, s, Alone(a)).Claims();
    assert WeightSum(claims) == 0 by {
      TotalEmpty(WeightBy(claims));
      assert claims.Keys == {} + {a};
      TotalAdd({}, a, WeightBy(claims));
    }
  }

  lemma WhitelistNonEmpty(w: seq<(Denom, Dec)>)
    requires w != []
    ensures WhitelistMap(w) != map[]
  {
    assert w[|w| - 1].0 in WhitelistMap(w);
  }

  /** A silent vote period charges the lone validator one miss and stays silent. */
  lemma SilentPeriod(c: Config, s: State, a: Addr)
    requires c.Valid() && c.whitelist != [] && Silent(s) && s.missCounters.Keys <= {a}
    ensures PeriodEnded(c, s, Alone(a)).Some?
    ensures var t := PeriodEnded(c, s, Alone(a)).value;
      Silent(t) && t.height == s.height && t.missCounters == map[a := CounterOf(s, a) + 1]
  {
    hide PollOf, Poll.Surviving, Poll.Claims, Poll.RatesDefined, Payable, PayoutAt, Poll.Rates, KeptPrevotes;
    SilentPoll(c, s, a);
    SilentPayable(c, s, a);
    WhitelistNonEmpty(c.whitelist);
    assert |s.targets| > 0;
    assert Missed(map[a := Claim(1, 0, 0)], |s.targets|) == {a};
  }

  /** How many of the blocks lo up to hi end a vote period. */
  function PeriodEnds(d: nat, lo: nat, hi: nat): int
    requires d > 0
  {
    hi / d - lo / d
  }

  lemma PeriodEndsStep(d: nat, lo: nat, h: nat)
    requires d > 0
    ensures PeriodEnds(d, lo, h + 1) == PeriodEnds(d, lo, h) + (if IsPeriodLastBlock(h, d) then 1 else 0)
  {
    assert h == (h / d) * d + h % d;
    PositionIn(h, h / d, d, h % d);
  }

  lemma SilentBlock(c: Config, s: State, a: Addr)
    requires c.Valid() && c.whitelist != [] && Silent(s) && s.missCounters.Keys <= {a}
    ensures AfterPeriod(c, s, Alone(a)).Some?
    ensures var t := AfterPeriod(c, s, Alone(a)).value;
      && Silent(t) && t.height == s.height && t.missCounters.Keys <= {a}
      && CounterOf(t, a) == CounterOf(s, a) + (if IsPeriodLastBlock(s.height, c.votePeriod) then 1 else 0)
      && SlashDefined(c, t, Alone(a))
  {
    hide PeriodEnded, Penalised;
    if IsPeriodLastBlock(s.height, c.votePeriod) {
      SilentPeriod(c, s, a);
    }
    assert Alone(a).validators[0].addr == a;
  }

  /** Nobody votes for n blocks that end no slash window: the counter follows the period ends. */
  lemma {:induction false} SilentRun(c: Config, s: State, a: Addr, n: nat) returns (r: Run)
    requires c.Valid() && c.whitelist != [] && Silent(s) && s.missCounters == map[]
    requires forall h :: s.height <= h < s.height + n ==> !IsPeriodLastBlock(h, c.slashWindow)
    ensures IsRun(c, r) && |r.steps| == n && r.states[0] == s
    ensures var t := r.states[n];
      && Silent(t) && t.height == s.height + n && t.missCounters.Keys <= {a}
      && CounterOf(t, a) == PeriodEnds(c.votePeriod, s.height, s.height + n)
  {
    hide AfterPeriod, SlashDefined;
    if n == 0 {
      r := Run([s], []);
    } else {
      var q := SilentRun(c, s, a, n - 1);
      var u := q.states[n - 1];
      SilentBlock(c, u, a);
      PeriodEndsStep(c.votePeriod, s.height, u.height);
      var t := BlockEnded(c, u, Alone(a)).value;
      r := ExtendRun(c, q, Ending(Alone(a)), t);
    }
  }

  lemma ExtendRun(c: Config, q: Run, step: Step, t: State) returns (r: Run)
    requires c.Valid() && IsRun(c, q) && Next(c, q.states[|q.steps|], step) == Some(t)
    ensures r == Run(q.states + [t], q.steps + [step]) && IsRun(c, r)
  {
    hide Next;
    r := Run(q.states + [t], q.steps + [step]);
  }

  lemma CrowdedStep(d: nat, w: nat, k: nat)
    requires 0 < d && (k * w) / d <= k * (w / d) && PeriodEnds(d, k * w, (k + 1) * w) <= w / d
    ensures ((k + 1) * w) / d <= (k + 1) * (w / d)
  {
    assert (k + 1) * (w / d) == k * (w / d) + w / d;
  }

  lemma CrowdedEnd(d: nat, w: nat)
    requires 0 < d && w % d != 0
    ensures (d * w) / d > d * (w / d)
  {
    DivExact(w, d);
    assert d * w == w * d;
    assert w == d * (w / d) + w % d;
  }

  /** Some window of w blocks ends more vote periods of d blocks than w / d, unless d divides w. */
  lemma CrowdedWindow(d: nat, w: nat) returns (k: nat)
    requires 0 < d && w % d != 0
    ensures PeriodEnds(d, k * w, (k + 1) * w) > w / d
  {
    hide PeriodEnds;
    k := 0;
    assert 0 * w == 0 && 0 * (w / d) == 0;
    while k < d && PeriodEnds(d, k * w, (k + 1) * w) <= w / d
      invariant 0 <= k <= d
      invariant (k * w) / d <= k * (w / d)
    {
      CrowdedStep(d, w, k);
      k := k + 1;
    }
    if k == d {
      CrowdedEnd(d, w);
      assert false;
    }
  }

  lemma NoWindowEndBefore(w: nat, k: nat, h: nat)
    requires w > 0 && k * w <= h < (k + 1) * w - 1
    ensures !IsPeriodLastBlock(h, w)
  {
    var x := h + 1 - k * w;
    assert (k + 1) * w == k * w + w;
    ModOfMultiple(k, w, x);
  }

  lemma WindowEndsAt(w: nat, k: nat)
    requires w > 0
    ensures (k + 1) * w >= 1 && IsPeriodLastBlock((k + 1) * w - 1, w)
  {
    assert (k + 1) * w == k * w + w && k * w >= 0;
    ModOfMultiple(k + 1, w, 0);
  }

  /** Where the vote period does not divide the window, some silent run overfills a counter. */
  lemma CrowdedRun(c: Config, d: Denom) returns (r: Run, n: nat)
    requires c.Valid() && c.whitelist != [] && c.slashWindow % c.votePeriod != 0 && d != ""
    ensures IsRun(c, r) && StartsClean(r) && !CheckedSafely(c, r, n)
  {
    hide AfterPeriod, SlashDefined;
    var w := c.slashWindow;
    var k := CrowdedWindow(c.votePeriod, w);
    var s := State(k * w, map[], map[], map[], map[], map[d := 0], map[], map[]);
    assert d in s.targets;
    assert (k + 1) * w == k * w + w;
    n := w - 1;
    forall h | s.height <= h < s.height + n ensures !IsPeriodLastBlock(h, w) {
      NoWindowEndBefore(w, k, h);
    }
    var q := SilentRun(c, s, "", n);
    var u := q.states[n];
    SilentBlock(c, u, "");
    WindowEndsAt(w, k);
    PeriodEndsStep(c.votePeriod, s.height, u.height);
    r := ExtendRun(c, q, Ending(Alone("")), BlockEnded(c, u, Alone("")).value);
  }

  // ---------- an empty whitelist

  /** While there is nothing to vote on a counter is at most one, and zero before. */
  ghost predicate ChargedOnce(s: State) {
    forall a :: CounterOf(s, a) <= if s.targets == map[] then 1 else 0
  }

  /** A period without surviving targets charges nobody. */
  lemma NoTargetsNoMiss(p: Poll)
    requires p.Surviving() == map[]
    ensures Missed(p.Claims(), |p.Surviving()|) == {}
  {
    hide Poll.Surviving, Poll.ClaimOver, Covers;
    forall a | a in p.powers ensures p.Claims()[a].winCount == 0 {
      FullWinsIffCovered(p, a);
    }
  }

  /** The first period in which a target survives charges its misses and empties the targets for good. */
  lemma ChargedOncePeriod(c: Config, s: State, b: Block)
    requires c.Valid() && c.whitelist == [] && PeriodEnded(c, s, b).Some? && ChargedOnce(s)
    ensures ChargedOnce(PeriodEnded(c, s, b).value)
  {
    hide PollOf, Poll.Surviving, Poll.Claims, PeriodEnded;
    var p, t := PollOf(c, s, b), PeriodEnded(c, s, b).value;
    PeriodEndedStores(c, s, b);
    PeriodEndedTargets(c, s, b);
    SurvivingOfNone(p, s.targets);
    if p.Surviving() == map[] {
      NoTargetsNoMiss(p);
    }
    EmptyWhitelistApplied(p.Surviving(), s.targets);
    forall a ensures CounterOf(t, a) <= if t.targets == map[] then 1 else 0 {
      OneMiss(s, t, p.Claims(), |p.Surviving()|, a);
    }
  }

  lemma EmptyWhitelistApplied(surviving: map<Denom, Dec>, stored: map<Denom, Dec>)
    ensures WhitelistApplied([], surviving, stored) == if surviving == map[] then stored else map[]
  {
    if surviving != map[] {
      var d :| d in surviving;
      assert |surviving| > 0;
    }
  }

  lemma OneMiss(s: State, t: State, claims: map<Addr, Claim>, targets: nat, a: Addr)
    requires t.missCounters == WithMisses(s.missCounters, claims, targets)
    ensures CounterOf(t, a) == CounterOf(s, a) + if a in Missed(claims, targets) then 1 else 0
  {
  }

  lemma PeriodEndedTargets(c: Config, s: State, b: Block)
    requires c.Valid() && PeriodEnded(c, s, b).Some?
    ensures PollOf(c, s, b).targets == s.targets
    ensures PeriodEnded(c, s, b).value.targets == WhitelistApplied(c.whitelist, PollOf(c, s, b).Surviving(), s.targets)
  {
    hide Poll.Surviving, Poll.Claims, Poll.RatesDefined, Payable, PayoutAt, Poll.Rates, KeptPrevotes, WhitelistApplied;
  }

  lemma SurvivingOfNone(p: Poll, targets: map<Denom, Dec>)
    requires p.targets == targets
    ensures targets == map[] ==> p.Surviving() == map[]
    ensures p.Surviving() != map[] ==> |p.Surviving()| > 0
  {
    if p.Surviving() != map[] {
      var d :| d in p.Surviving();
    }
  }

  lemma ChargedOnceBlock(c: Config, s: State, t: State, b: Block)
    requires c.Valid() && c.whitelist == [] && BlockEnded(c, s, b) == Some(t) && ChargedOnce(s)
    ensures ChargedOnce(t) && ChargedOnce(AfterPeriod(c, s, b).value)
  {
    hide PeriodEnded, SlashDefined, ChargedOnce;
    if IsPeriodLastBlock(s.height, c.votePeriod) {
      ChargedOncePeriod(c, s, b);
    }
    FewerCounters(AfterPeriod(c, s, b).value, t);
  }

  lemma FewerCounters(u: State, t: State)
    requires ChargedOnce(u) && t.targets == u.targets
    requires t.missCounters == u.missCounters || t.missCounters == map[]
    ensures ChargedOnce(t)
  {
    assert forall a :: CounterOf(t, a) <= CounterOf(u, a);
  }

  lemma {:induction false} ChargedOnceRun(c: Config, r: Run, n: nat)
    requires c.Valid() && c.whitelist == [] && IsRun(c, r) && n < |r.states| && StartsClean(r)
    ensures ChargedOnce(r.states[n])
  {
    if n > 0 {
      hide BlockEnded, VoteError, ChargedOnce;
      ChargedOnceRun(c, r, n - 1);
      var s, t, step := r.states[n - 1], r.states[n], r.steps[n - 1];
      assert Next(c, s, step) == Some(t);
      if step.Ending? {
        ChargedOnceBlock(c, s, t, step.block);
      } else {
        FewerCounters(s, t);
      }
    }
  }

  lemma EmptyWhitelistSafe(c: Config, r: Run, n: nat)
    requires c.Valid() && c.whitelist == [] && IsRun(c, r) && StartsClean(r)
    ensures CheckedSafely(c, r, n)
  {
    hide AfterPeriod, BlockEnded;
    if n < |r.steps| && r.steps[n].Ending? && IsPeriodLastBlock(r.states[n].height, c.slashWindow) {
      var s, b := r.states[n], r.steps[n].block;
      assert Next(c, s, r.steps[n]) == Some(r.states[n + 1]);
      ChargedOnceRun(c, r, n);
      ChargedOnceBlock(c, s, r.states[n + 1], b);
      EndedAfterPeriod(c, s, b);
    }
  }

  lemma EndedAfterPeriod(c: Config, s: State, b: Block)
    requires c.Valid() && BlockEnded(c, s, b).Some?
    ensures AfterPeriod(c, s, b).Some?
  {
    hide AfterPeriod;
  }

  /**
   Counters fit the window at every check of every run that starts without counters if and
   only if the vote period divides the slash window, or there is nothing on the whitelist.
   Parameter validation asks for neither.
   */
  lemma WindowSafeIff(c: Config)
    requires c.Valid()
    ensures (forall r, n: nat :: IsRun(c, r) && StartsClean(r) ==> CheckedSafely(c, r, n))
            <==> c.slashWindow % c.votePeriod == 0 || c.whitelist == []
  {
    hide IsRun, CheckedSafely, StartsClean;
    if c.slashWindow % c.votePeriod == 0 {
      forall r, n: nat | IsRun(c, r) && StartsClean(r) ensures CheckedSafely(c, r, n) {
        DividingWindowSafe(c, r, n);
      }
    } else if c.whitelist == [] {
      forall r, n: nat | IsRun(c, r) && StartsClean(r) ensures CheckedSafely(c, r, n) {
        EmptyWhitelistSafe(c, r, n);
      }
    } else {
      var r, n := CrowdedRun(c, c.whitelist[0].0);
    }
  }
}
