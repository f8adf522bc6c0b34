/**
 Safety of the oracle over whole runs: commit-reveal, prevote retention and conservation of
 the reward funds (x/oracle/keeper/msg_server.go, x/oracle/keeper/ballot.go,
 x/oracle/keeper/reward.go).
 */
module OracleRuns {
  import opened Decimals
  import opened Seqs
  import opened Ballots
  import opened Tally
  import opened TallyLoops
  import opened Wrappers
  import opened TallyFacts
  import opened OracleRates
  import opened Rewards
  import opened OracleState
  import opened OracleKeeper

  datatype Step = Prevoting(prevote: PrevoteMsg) | Voting(vote: VoteMsg) | Ending(block: Block)

  ghost function Next(c: Config, s: State, step: Step): Option<State>
    requires c.Valid()
  {
    match step
    case Prevoting(msg) => Some(Prevoted(s, msg))
    case Voting(msg) => Some(Voted(c, s, msg))
    case Ending(b) => BlockEnded(c, s, b)
  }

  /** A run that has not panicked: the state before each step, and after the last. */
  datatype Run = Run(states: seq<State>, steps: seq<Step>)

  ghost predicate IsRun(c: Config, r: Run)
    requires c.Valid()
  {
    && |r.states| == |r.steps| + 1
    && forall i :: 0 <= i < |r.steps| ==> Next(c, r.states[i], r.steps[i]) == Some(r.states[i + 1])
  }

  // ---------- what ending a block does to each store

  lemma PeriodEndedStores(c: Config, s: State, b: Block)
    requires c.Valid() && PeriodEnded(c, s, b).Some?
    ensures var t := PeriodEnded(c, s, b).value;
      && t.height == s.height && t.votes == map[]
      && t.prevotes == KeptPrevotes(s.height, c.votePeriod, s.prevotes)
      && t.missCounters == WithMisses(s.missCounters, PollOf(c, s, b).Claims(), |PollOf(c, s, b).Surviving()|)
  {
  }

  lemma EndedStores(c: Config, s: State, b: Block)
    requires c.Valid() && BlockEnded(c, s, b).Some?
    ensures var t := BlockEnded(c, s, b).value;
      && t.height == s.height + 1
      && (if IsPeriodLastBlock(s.height, c.votePeriod)
          then t.prevotes == KeptPrevotes(s.height, c.votePeriod, s.prevotes) && t.votes == map[]
          else t.prevotes == s.prevotes && t.votes == s.votes)
  {
    hide KeptPrevotes, PeriodEnded, SlashDefined, WithMisses, PollOf, Poll.Claims, Poll.Surviving;
    if IsPeriodLastBlock(s.height, c.votePeriod) {
      PeriodEndedStores(c, s, b);
    }
  }

  lemma NamedStep(c: Config, s: State, step: Step)
    requires c.Valid() && "" !in s.targets && Next(c, s, step).Some?
    ensures "" !in Next(c, s, step).value.targets
  {
    hide PeriodEnded, SlashDefined, VoteError;
    if step.Ending? && IsPeriodLastBlock(s.height, c.votePeriod) {
      PeriodEndedNamed(c, s, step.block);
    }
  }

  /** What the end blocker asks of the stored targets, that they are named, holds over every run. */
  lemma {:induction false} TargetsStayNamed(c: Config, r: Run, n: nat)
    requires c.Valid() && IsRun(c, r) && n < |r.states| && "" !in r.states[0].targets
    ensures "" !in r.states[n].targets
  {
    hide Next;
    if n > 0 {
      TargetsStayNamed(c, r, n - 1);
      assert Next(c, r.states[n - 1], r.steps[n - 1]) == Some(r.states[n]);
      NamedStep(c, r.states[n - 1], r.steps[n - 1]);
    }
  }

  // ---------- the stored rates

  predicate EndsPeriod(c: Config, r: Run, j: int)
    requires c.Valid()
  {
    && 0 <= j < |r.steps| && j < |r.states|
    && r.steps[j].Ending? && IsPeriodLastBlock(r.states[j].height, c.votePeriod)
  }

  /** The rates are those of exactly the denoms that passed the poll, each as the tally promises it. */
  ghost predicate RatesOf(p: Poll, rates: map<Denom, Dec>) {
    rates.Keys == p.Passing() && forall d :: d in p.Passing() ==> IsStoredRate(p, d, rates[d])
  }

  lemma RatesStep(c: Config, s: State, step: Step)
    requires c.Valid() && Next(c, s, step).Some?
    ensures var t := Next(c, s, step).value;
      if step.Ending? && IsPeriodLastBlock(s.height, c.votePeriod)
      then RatesOf(PollOf(c, s, step.block), t.rates) else t.rates == s.rates
  {
    hide KeptPrevotes, SlashDefined, WithMisses, PollOf, Poll.Claims, Poll.Surviving, Poll.Rates, Poll.RatesDefined,
         Payable, PoolAfter, DistributionAfter, WhitelistApplied, IsStoredRate, VoteError, PrevoteError;
    if step.Ending? && IsPeriodLastBlock(s.height, c.votePeriod) {
      StoredRates(PollOf(c, s, step.block));
    }
  }

  /**
   In every run the stored rates are those of the last tally: j is the last step that ended a vote
   period, and what is stored since is a rate for exactly the denoms that passed then.
   */
  lemma {:induction false} RatesFromLastTally(c: Config, r: Run, n: nat) returns (j: int)
    requires c.Valid() && IsRun(c, r) && n < |r.states|
    ensures -1 <= j < n && forall k :: j < k < n ==> !EndsPeriod(c, r, k)
    ensures j >= 0 ==> EndsPeriod(c, r, j) && RatesOf(PollOf(c, r.states[j], r.steps[j].block), r.states[n].rates)
    ensures j < 0 ==> r.states[n].rates == r.states[0].rates
  {
    hide Next, RatesOf, PollOf;
    j := -1;
    if n > 0 {
      assert Next(c, r.states[n - 1], r.steps[n - 1]) == Some(r.states[n]);
      RatesStep(c, r.states[n - 1], r.steps[n - 1]);
      if EndsPeriod(c, r, n - 1) {
        j := n - 1;
      } else {
        j := RatesFromLastTally(c, r, n - 1);
      }
    }
  }

  // ---------- commit and reveal

  /**
   A reveal is accepted, and the vote stored, exactly if it is permitted, its validator's prevote is
   of the period before, the rates parse and name targets only, and the hash matches.
   */
  lemma RevealAcceptedIff(c: Config, s: State, msg: VoteMsg)
    requires c.Valid()
    ensures var t := Next(c, s, Voting(msg)).value;
      if && msg.permitted && msg.validator in s.prevotes
         && Period(c, s.height) == Period(c, s.prevotes[msg.validator].submitBlock) + 1
         && c.parse(msg.rates).Some? && c.parse(msg.rates).value.Keys <= s.targets.Keys
         && s.prevotes[msg.validator].hash == c.hash(msg.salt, msg.rates, msg.validator)
      then t.votes == s.votes[msg.validator := c.parse(msg.rates).value] && t.prevotes == s.prevotes - {msg.validator}
      else t == s
  {
  }

  /** A permitted prevote with a well-formed hash replaces the validator's earlier one. */
  lemma PrevoteAcceptedIff(c: Config, s: State, msg: PrevoteMsg)
    requires c.Valid()
    ensures Next(c, s, Prevoting(msg)).value ==
      if msg.permitted && msg.hash.Some?
      then s.(prevotes := s.prevotes[msg.validator := Prevote(msg.hash.value, s.height)]) else s
  {
  }

  /** Every denom that is voted on is a target. */
  ghost predicate VotesNameTargets(s: State) {
    forall a, d :: a in s.votes && d in s.votes[a] ==> d in s.targets
  }

  lemma VotesNameStep(c: Config, s: State, step: Step)
    requires c.Valid() && VotesNameTargets(s) && Next(c, s, step).Some?
    ensures VotesNameTargets(Next(c, s, step).value)
  {
    hide PeriodEnded, SlashDefined;
    match step
    case Prevoting(_) =>
    case Voting(msg) =>
      RevealAcceptedIff(c, s, msg);
    case Ending(b) =>
      if IsPeriodLastBlock(s.height, c.votePeriod) {
        EndedStores(c, s, b);
      }
  }

  /** In every run from an empty vote store, at every tally, only targets are voted on. */
  lemma {:induction false} VotesStayOnTargets(c: Config, r: Run, n: nat)
    requires c.Valid() && IsRun(c, r) && n < |r.states| && r.states[0].votes == map[]
    ensures VotesNameTargets(r.states[n])
  {
    hide Next;
    if n > 0 {
      VotesStayOnTargets(c, r, n - 1);
      assert Next(c, r.states[n - 1], r.steps[n - 1]) == Some(r.states[n]);
      VotesNameStep(c, r.states[n - 1], r.steps[n - 1]);
    }
  }

  predicate Prevotes(r: Run, i: int, a: Addr) {
    && 0 <= i < |r.steps| && r.steps[i].Prevoting?
    && r.steps[i].prevote.validator == a && PrevoteError(r.steps[i].prevote).None?
  }

  ghost predicate Reveals(c: Config, r: Run, j: int, a: Addr)
    requires c.Valid()
  {
    && 0 <= j < |r.steps| && j < |r.states| && r.steps[j].Voting?
    && r.steps[j].vote.validator == a && VoteError(c, r.states[j], r.steps[j].vote).None?
  }

  /** The prevote was in the store when the run began (index -1), or step i stored it. */
  predicate Stored(r: Run, i: int, a: Addr, prevote: Prevote) {
    && -1 <= i < |r.states|
    && if i == -1 then r.states != [] && a in r.states[0].prevotes && r.states[0].prevotes[a] == prevote
       else Prevotes(r, i, a) && prevote == Prevote(r.steps[i].prevote.hash.value, r.states[i].height)
  }

  lemma {:induction false} HeightsGrow(c: Config, r: Run, i: nat, j: nat)
    requires c.Valid() && IsRun(c, r) && i <= j < |r.states|
    ensures r.states[i].height <= r.states[j].height
  {
    hide BlockEnded, VoteError;
    if i < j {
      HeightsGrow(c, r, i, j - 1);
      assert Next(c, r.states[j - 1], r.steps[j - 1]) == Some(r.states[j]);
      if r.steps[j - 1].Ending? {
        EndedStores(c, r.states[j - 1], r.steps[j - 1].block);
      }
    }
  }

  /** A stored prevote is new in this step, or was there before and was not revealed by it. */
  lemma PrevoteStep(c: Config, r: Run, n: nat, a: Addr)
    requires c.Valid() && IsRun(c, r) && n < |r.steps| && a in r.states[n + 1].prevotes
    ensures Stored(r, n, a, r.states[n + 1].prevotes[a])
         || (a in r.states[n].prevotes && r.states[n + 1].prevotes[a] == r.states[n].prevotes[a]
             && !Prevotes(r, n, a) && !Reveals(c, r, n, a))
  {
    hide BlockEnded, VoteError;
    assert Next(c, r.states[n], r.steps[n]) == Some(r.states[n + 1]);
    if r.steps[n].Ending? {
      EndedStores(c, r.states[n], r.steps[n].block);
    }
  }

  /** Where a stored prevote comes from; since then it was neither replaced nor revealed. */
  lemma {:induction false} PrevoteOrigin(c: Config, r: Run, n: nat, a: Addr) returns (i: int)
    requires c.Valid() && IsRun(c, r) && n < |r.states| && a in r.states[n].prevotes
    ensures -1 <= i < n && Stored(r, i, a, r.states[n].prevotes[a])
    ensures forall k :: i < k < n ==> !Prevotes(r, k, a) && !Reveals(c, r, k, a)
  {
    hide Reveals, Prevotes, Next;
    if n == 0 {
      i := -1;
    } else {
      PrevoteStep(c, r, n - 1, a);
      if Stored(r, n - 1, a, r.states[n].prevotes[a]) {
        i := n - 1;
      } else {
        i := PrevoteOrigin(c, r, n - 1, a);
      }
    }
  }

  lemma SamePeriod(c: Config, h: nat)
    requires c.Valid() && !IsPeriodLastBlock(h, c.votePeriod)
    ensures Period(c, h) == Period(c, h + 1)
  {
    var q, m := h / c.votePeriod, h % c.votePeriod;
    assert h == c.votePeriod * q + m;
    if m + 1 == c.votePeriod {
      assert h + 1 == (q + 1) * c.votePeriod + 0;
      ModOfMultiple(q + 1, c.votePeriod, 0);
      assert false;
    }
    ModOfMultiple(q, c.votePeriod, m + 1);
  }

  lemma ModOfMultiple(q: int, d: int, m: int)
    requires 0 <= m < d
    ensures (q * d + m) % d == m && (q * d + m) / d == q
  {
    var x := q * d + m;
    assert x == d * (x / d) + x % d;
    if x / d > q {
      MulGap(d, x / d, q);
      assert false;
    }
    if x / d < q {
      MulGap(d, q, x / d);
      assert false;
    }
  }

  /** A vote in the store is new in this step, or was there before in the same period. */
  lemma VoteStep(c: Config, r: Run, n: nat, a: Addr)
    requires c.Valid() && IsRun(c, r) && n < |r.steps| && a in r.states[n + 1].votes
    ensures Period(c, r.states[n].height) == Period(c, r.states[n + 1].height)
    ensures (Reveals(c, r, n, a) && c.parse(r.steps[n].vote.rates) == Some(r.states[n + 1].votes[a]))
         || (!Reveals(c, r, n, a) && a in r.states[n].votes && r.states[n + 1].votes[a] == r.states[n].votes[a])
  {
    hide BlockEnded;
    assert Next(c, r.states[n], r.steps[n]) == Some(r.states[n + 1]);
    if r.steps[n].Ending? {
      EndedStores(c, r.states[n], r.steps[n].block);
      SamePeriod(c, r.states[n].height);
    }
  }

  /** A vote in the store was revealed in the current period, and is its validator's last reveal. */
  lemma {:induction false} VoteOrigin(c: Config, r: Run, n: nat, a: Addr) returns (j: nat)
    requires c.Valid() && IsRun(c, r) && n < |r.states|
    requires r.states[0].votes == map[] && a in r.states[n].votes
    ensures j < n && Reveals(c, r, j, a)
    ensures c.parse(r.steps[j].vote.rates) == Some(r.states[n].votes[a])
    ensures Period(c, r.states[j].height) == Period(c, r.states[n].height)
    ensures forall k :: j < k < n ==> !Reveals(c, r, k, a)
  {
    hide Next, Period, VoteError;
    VoteStep(c, r, n - 1, a);
    if Reveals(c, r, n - 1, a) {
      j := n - 1;
    } else {
      j := VoteOrigin(c, r, n - 1, a);
    }
  }

  /** A prevote stored at step i backs the reveal of step j: its hash commits to what is revealed one period later. */
  ghost predicate Backs(c: Config, r: Run, i: int, j: int, a: Addr, prevote: Prevote)
    requires c.Valid()
  {
    && i < j && Stored(r, i, a, prevote) && Reveals(c, r, j, a) && r.steps[j].vote.permitted
    && prevote.hash == c.hash(r.steps[j].vote.salt, r.steps[j].vote.rates, a)
    && Period(c, prevote.submitBlock) + 1 == Period(c, r.states[j].height)
  }

  lemma RevealBacked(c: Config, r: Run, j: nat, a: Addr) returns (i: int, prevote: Prevote)
    requires c.Valid() && IsRun(c, r) && Reveals(c, r, j, a)
    ensures Backs(c, r, i, j, a, prevote)
    ensures forall k :: i < k < j ==> !Prevotes(r, k, a) && !Reveals(c, r, k, a)
  {
    prevote := r.states[j].prevotes[a];
    i := PrevoteOrigin(c, r, j, a);
  }

  /**
   Commit-reveal safety. In every run that starts without votes, each vote in the store, in
   particular at a tally, was revealed in the current vote period against a prevote of the
   immediately preceding period whose hash it matches.
   */
  lemma CommitRevealSafety(c: Config, r: Run, n: nat, a: Addr) returns (i: int, j: nat, prevote: Prevote)
    requires c.Valid() && IsRun(c, r) && n < |r.states|
    requires r.states[0].votes == map[] && a in r.states[n].votes
    ensures j < n && Backs(c, r, i, j, a, prevote)
    ensures Period(c, r.states[j].height) == Period(c, r.states[n].height)
    ensures c.parse(r.steps[j].vote.rates) == Some(r.states[n].votes[a])
  {
    hide IsRun, Reveals, Stored;
    j := VoteOrigin(c, r, n, a);
    i, prevote := RevealBacked(c, r, j, a);
  }

  /**
   No prevote backs two reveals, and a validator reveals at most once per period: a later
   reveal is backed by a prevote stored after the earlier one, and falls in a later period.
   */
  lemma RevealsSeparated(c: Config, r: Run, j: nat, k: nat, a: Addr) returns (i: int, prevote: Prevote)
    requires c.Valid() && IsRun(c, r) && j < k && Reveals(c, r, j, a) && Reveals(c, r, k, a)
    ensures j < i && Backs(c, r, i, k, a, prevote)
    ensures forall i', prevote' :: Backs(c, r, i', j, a, prevote') ==> i' < i
    ensures Period(c, r.states[j].height) < Period(c, r.states[k].height)
  {
    hide IsRun;
    i, prevote := RevealBacked(c, r, k, a);
    assert !(i < j);
    HeightsGrow(c, r, j, i);
    DivMonotone(r.states[j].height, r.states[i].height, c.votePeriod);
  }

  // ---------- retention of prevotes

  /** A reveal of this prevote passes the period check at the given height. */
  predicate Revealable(c: Config, prevote: Prevote, height: nat)
    requires c.Valid()
  {
    Period(c, height) - Period(c, prevote.submitBlock) == 1
  }

  lemma NextPeriodStarts(c: Config, h: nat)
    requires c.Valid() && IsPeriodLastBlock(h, c.votePeriod)
    ensures Period(c, h + 1) == Period(c, h) + 1
    ensures h + 1 == c.votePeriod * (Period(c, h) + 1)
    ensures forall h' :: h' > h ==> Period(c, h') >= Period(c, h) + 1
  {
    var d, q := c.votePeriod, (h + 1) / c.votePeriod;
    assert h + 1 == d * q;
    assert h == (q - 1) * d + (d - 1);
    ModOfMultiple(q - 1, d, d - 1);
    forall h' | h' > h ensures Period(c, h') >= Period(c, h) + 1 {
      DivMonotone(h + 1, h', d);
    }
  }

  /**
   After the clearing at the end of a period, a prevote can still be revealed by some later
   block exactly if it was submitted in that period; all of those are kept. What is dropped
   can never be revealed, and the one kept prevote height that can no longer be revealed is
   the last block of the period before.
   */
  lemma ClearBallotsExact(c: Config, h: nat, prevote: Prevote)
    requires c.Valid() && IsPeriodLastBlock(h, c.votePeriod) && prevote.submitBlock <= h
    ensures (exists h' :: h' > h && Revealable(c, prevote, h')) <==> Period(c, prevote.submitBlock) == Period(c, h)
    ensures (exists h' :: h' > h && Revealable(c, prevote, h')) ==> Kept(h, c.votePeriod, prevote)
    ensures Kept(h, c.votePeriod, prevote) && !(exists h' :: h' > h && Revealable(c, prevote, h'))
            <==> prevote.submitBlock + c.votePeriod == h
  {
    var d, s, q := c.votePeriod, prevote.submitBlock, Period(c, h);
    if s / d == q {
      RevealableNext(c, h, prevote);
    } else {
      NeverRevealable(c, h, prevote);
    }
    PeriodBounds(c, h, s);
  }

  lemma RevealableNext(c: Config, h: nat, prevote: Prevote)
    requires c.Valid() && IsPeriodLastBlock(h, c.votePeriod) && Period(c, prevote.submitBlock) == Period(c, h)
    ensures Revealable(c, prevote, h + 1)
  {
    NextPeriodStarts(c, h);
  }

  lemma NeverRevealable(c: Config, h: nat, prevote: Prevote)
    requires c.Valid() && IsPeriodLastBlock(h, c.votePeriod) && prevote.submitBlock <= h
    requires Period(c, prevote.submitBlock) != Period(c, h)
    ensures forall h' :: h' > h ==> !Revealable(c, prevote, h')
  {
    NextPeriodStarts(c, h);
    DivMonotone(prevote.submitBlock, h, c.votePeriod);
  }

  /** Being submitted in the period that h ends is being submitted in its last votePeriod blocks. */
  lemma PeriodBounds(c: Config, h: nat, s: nat)
    requires c.Valid() && IsPeriodLastBlock(h, c.votePeriod) && s <= h
    ensures Period(c, s) == Period(c, h) <==> s + c.votePeriod > h
  {
    hide Period;
    NextPeriodStarts(c, h);
    var d, q := c.votePeriod, Period(c, h);
    MultipleBound(d, q, s, h);
    PeriodDefinition(c, s);
    PeriodDefinition(c, h);
  }

  lemma PeriodDefinition(c: Config, h: nat)
    requires c.Valid()
    ensures Period(c, h) == h / c.votePeriod
  {
  }

  lemma MultipleBound(d: nat, q: nat, s: nat, h: nat)
    requires d > 0 && h + 1 == d * (q + 1) && s <= h
    ensures s / d == q <==> s + d > h
  {
    assert d * (q + 1) == q * d + d;
    assert s == d * (s / d) + s % d;
    if s + d > h {
      ModOfMultiple(q, d, s - q * d);
    }
  }

  /** Every stored prevote is recent: nothing older than the last clearing allows. */
  ghost predicate PrevotesRecent(c: Config, s: State)
    requires c.Valid()
  {
    forall a :: a in s.prevotes ==>
      c.votePeriod * (Period(c, s.height) - 1) - 1 <= s.prevotes[a].submitBlock <= s.height
  }

  lemma RecentClearing(c: Config, s: State, t: State)
    requires c.Valid() && IsPeriodLastBlock(s.height, c.votePeriod) && PrevotesRecent(c, s)
    requires t.height == s.height + 1 && t.prevotes == KeptPrevotes(s.height, c.votePeriod, s.prevotes)
    ensures PrevotesRecent(c, t)
  {
    var d, q := c.votePeriod, Period(c, s.height);
    NextPeriodStarts(c, s.height);
    assert d * (q + 1) == d * q + d;
  }

  lemma RecentBlock(c: Config, s: State, t: State, b: Block)
    requires c.Valid() && BlockEnded(c, s, b) == Some(t) && PrevotesRecent(c, s)
    ensures PrevotesRecent(c, t)
  {
    hide BlockEnded, KeptPrevotes, Period, IsPeriodLastBlock;
    EndedStores(c, s, b);
    if IsPeriodLastBlock(s.height, c.votePeriod) {
      RecentClearing(c, s, t);
    } else {
      SamePeriod(c, s.height);
    }
  }

  lemma RecentMessage(c: Config, s: State, t: State)
    requires c.Valid() && PrevotesRecent(c, s) && t.height == s.height
    requires forall a :: a in t.prevotes ==>
      (a in s.prevotes && t.prevotes[a] == s.prevotes[a]) || t.prevotes[a].submitBlock == s.height
    ensures PrevotesRecent(c, t)
  {
    var d, q := c.votePeriod, Period(c, s.height);
    assert s.height == d * q + s.height % d;
    assert d * (q - 1) == d * q - d;
  }

  lemma RecentStep(c: Config, r: Run, n: nat)
    requires c.Valid() && IsRun(c, r) && n < |r.steps| && PrevotesRecent(c, r.states[n])
    ensures PrevotesRecent(c, r.states[n + 1])
  {
    hide BlockEnded, VoteError, PrevotesRecent;
    var s, t := r.states[n], r.states[n + 1];
    assert Next(c, s, r.steps[n]) == Some(t);
    if r.steps[n].Ending? {
      RecentBlock(c, s, t, r.steps[n].block);
    } else {
      RecentMessage(c, s, t);
    }
  }

  /** In every reachable state each stored prevote was submitted within the last two vote periods. */
  lemma {:induction false} PrevotesStayRecent(c: Config, r: Run, n: nat)
    requires c.Valid() && IsRun(c, r) && n < |r.states| && PrevotesRecent(c, r.states[0])
    ensures PrevotesRecent(c, r.states[n])
    ensures forall a :: a in r.states[n].prevotes ==>
      var prevote := r.states[n].prevotes[a];
      prevote.submitBlock <= r.states[n].height <= prevote.submitBlock + 2 * c.votePeriod
  {
    hide PrevotesRecent, Next;
    if n > 0 {
      PrevotesStayRecent(c, r, n - 1);
      RecentStep(c, r, n - 1);
    }
    RecentWithinTwoPeriods(c, r.states[n]);
  }

  lemma RecentWithinTwoPeriods(c: Config, s: State)
    requires c.Valid() && PrevotesRecent(c, s)
    ensures forall a :: a in s.prevotes ==>
      s.prevotes[a].submitBlock <= s.height <= s.prevotes[a].submitBlock + 2 * c.votePeriod
  {
    var d, q := c.votePeriod, Period(c, s.height);
    assert s.height == d * q + s.height % d;
    assert d * (q - 1) == d * q - d;
  }

  // ---------- reward funds

  lemma ClaimWeightsNonNegative(p: Poll, a: Addr)
    requires a in p.powers
    ensures p.Claims()[a].weight >= 0
  {
    hide Poll.WeightIn, Poll.WinsIn, Poll.Passing, Sum;
    forall d ensures p.WeightOn(a)(d) >= 0 {
      WeightInNonNegative(p, d, a);
    }
    SumNonNegative(Listing(p.Passing()), p.WeightOn(a));
  }

  lemma WeightInNonNegative(p: Poll, d: Denom, a: Addr)
    ensures p.WeightIn(d, a) >= 0
  {
    hide Poll.Counted, Poll.Spread, MedianOf;
    SumNonNegative(p.Counted(d), WinningPower(MedianOf(p.Counted(d)), p.Spread(p.Counted(d)), a));
  }

  lemma OneMoreEntry(a: Addr, power: nat, rest: map<Addr, nat>)
    ensures |map[a := power] + rest| <= 1 + |rest|
  {
    var m := map[a := power] + rest;
    assert m.Keys == {a} + rest.Keys;
    assert |m.Keys| <= |{a}| + |rest.Keys|;
  }

  lemma {:induction false} ClaimCount(vs: seq<Validator>, max: nat)
    ensures |ClaimPowers(vs, max)| <= max
  {
    if vs != [] && max != 0 {
      if vs[0].bonded {
        ClaimCount(vs[1..], max - 1);
        OneMoreEntry(vs[0].addr, vs[0].power, ClaimPowers(vs[1..], max - 1));
      } else {
        ClaimCount(vs[1..], max);
      }
    }
  }

  /** uluna is not a vote target, or rewards take at most half the balance each period. */
  predicate LunaListedSafely(c: Config, s: State)
    requires c.Valid()
  {
    LUNA !in s.targets || 2 * DistributionRatio(c.votePeriod, c.rewardDistributionWindow) <= ONE
  }

  /** The reward transfer at the end of a period always has enough funds; maxValidators is a 32-bit number. */
  lemma AlwaysPayable(c: Config, s: State, b: Block)
    requires c.Valid() && LunaListedSafely(c, s) && b.maxValidators < 0x1_0000_0000
    ensures Payable(c, s, b)
  {
    hide Poll.Surviving, Poll.Claims, Payout, ClaimPowers;
    var p, ratio := PollOf(c, s, b), DistributionRatio(c.votePeriod, c.rewardDistributionWindow);
    DistributionRatioBounds(c.votePeriod, c.rewardDistributionWindow);
    ClaimsDomain(p);
    ClaimCount(b.validators, b.maxValidators);
    assert |p.Claims()| == |p.Claims().Keys| == |p.powers.Keys| == |p.powers|;
    forall a | a in p.Claims() ensures p.Claims()[a].weight >= 0 {
      ClaimWeightsNonNegative(p, a);
    }
    forall d ensures 0 <= PayoutAt(c, s, b, d) <= AmountOf(s.pool, d) {
      SurvivingAreTargets(p, d);
      PayoutFits(p.Claims(), p.Surviving().Keys, s.pool, ratio, d);
    }
  }

  lemma ClaimsDomain(p: Poll)
    ensures p.Claims().Keys == p.powers.Keys
  {
    hide Poll.ClaimOver;
  }

  lemma SurvivingAreTargets(p: Poll, d: Denom)
    ensures d in p.Surviving() ==> d in p.targets
  {
  }

  /** The last block of a vote period completes exactly when no zero cross rate decides a median. */
  lemma PeriodEndCompletesIff(c: Config, s: State, b: Block)
    requires c.Valid() && LunaListedSafely(c, s) && b.maxValidators < 0x1_0000_0000
    ensures PeriodEnded(c, s, b).Some? <==>
      var p := PollOf(c, s, b); forall d :: d in p.Passing() && d != p.Reference() ==> ZeroRatesOutweighed(p, d)
  {
    hide Poll.RatesDefined, Payable, Poll.Passing, Poll.Reference, ZeroRatesOutweighed, PollOf, PayoutAt,
         KeptPrevotes, WithMisses, WhitelistApplied, Poll.Surviving, Poll.Claims, Poll.Rates, LunaListedSafely;
    AlwaysPayable(c, s, b);
    TallyCompletesIff(PollOf(c, s, b));
  }

  function Funds(s: State, d: Denom): int {
    AmountOf(s.pool, d) + AmountOf(s.distribution, d)
  }

  lemma FundsAtPeriodEnd(c: Config, s: State, b: Block, d: Denom)
    requires c.Valid() && PeriodEnded(c, s, b).Some?
    ensures Funds(PeriodEnded(c, s, b).value, d) == Funds(s, d)
    ensures AmountOf(PeriodEnded(c, s, b).value.pool, d) <= AmountOf(s.pool, d)
  {
    hide Poll.RatesDefined, PayoutAt, KeptPrevotes, WithMisses, WhitelistApplied, Poll.Surviving, Poll.Claims,
         Poll.Rates, PollOf;
    if d !in s.pool {
      PayoutAbsent(c, s, b, d);
    }
    assert 0 <= PayoutAt(c, s, b, d) <= AmountOf(s.pool, d);
  }

  lemma FundsStep(c: Config, r: Run, n: nat, d: Denom)
    requires c.Valid() && IsRun(c, r) && n < |r.steps|
    ensures Funds(r.states[n + 1], d) == Funds(r.states[n], d)
  {
    hide PeriodEnded, SlashDefined, VoteError;
    var s := r.states[n];
    assert Next(c, s, r.steps[n]) == Some(r.states[n + 1]);
    if r.steps[n].Ending? && IsPeriodLastBlock(s.height, c.votePeriod) {
      FundsAtPeriodEnd(c, s, r.steps[n].block, d);
    }
  }

  /** Over every run rewards only move: what leaves the oracle account reaches the distribution module. */
  lemma {:induction false} FundsConserved(c: Config, r: Run, n: nat, d: Denom)
    requires c.Valid() && IsRun(c, r) && n < |r.states|
    ensures Funds(r.states[n], d) == Funds(r.states[0], d)
  {
    if n > 0 {
      FundsConserved(c, r, n - 1, d);
      FundsStep(c, r, n - 1, d);
    }
  }
}
