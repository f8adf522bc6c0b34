/**
 The oracle module as a state machine: prevotes and votes arrive within a block, and every
 block ends with EndBlock (x/oracle/abci.go, x/oracle/keeper/msg_server.go,
 x/oracle/keeper/ballot.go, x/oracle/keeper/slash.go, types/util/blocks.go). The functions
 here say what one step does to the stores; OracleKeeper holds the imperative steps that
 meet them and OracleRuns what holds over whole runs.
 */
module OracleState {
  import opened Decimals
  import opened Seqs
  import opened Ballots
  import opened Tally
  import opened TallyLoops
  import opened Wrappers
  import opened Rewards

  datatype Prevote = Prevote(hash: string, submitBlock: nat)

  type Tuples = map<Denom, Dec>

  /**
   Parameters held fixed over a run, together with the functions whose bodies are not
   modelled: the vote hash, the parser of rate strings (which rejects duplicate denoms), and
   the square root.
   */
  datatype Config = Config(
    votePeriod: nat,
    voteThreshold: Dec,
    rewardBand: Dec,
    rewardDistributionWindow: nat,
    whitelist: seq<(Denom, Dec)>,
    slashWindow: nat,
    minValidPerWindow: Dec,
    hash: (string, string, Addr) -> string,
    parse: string -> Option<Tuples>,
    sqrt: Dec -> Dec)
  {
    /** Params.Validate (x/oracle/types/params.go:91-128), without the slash fraction, which nothing here reads. */
    predicate Valid() {
      && 0 < votePeriod <= rewardDistributionWindow
      && voteThreshold > 330_000_000_000_000_000
      && votePeriod <= slashWindow
      && 0 <= rewardBand <= ONE
      && 0 <= minValidPerWindow <= ONE
      && forall i :: 0 <= i < |whitelist| ==> whitelist[i].0 != "" && 0 <= whitelist[i].1 <= ONE
    }
  }

  datatype State = State(
    height: nat,
    prevotes: map<Addr, Prevote>,
    votes: map<Addr, Tuples>,
    rates: map<Denom, Dec>,
    missCounters: map<Addr, nat>,
    targets: map<Denom, Dec>,
    pool: Coins,
    distribution: Coins)

  datatype Error =
    | NoVotingPermission | InvalidHash | NoAggregatePrevote | RevealPeriodMissMatch
    | InvalidRates | UnknownDenom | VerificationFailed

  /** A message, with the outcome of the feeder check and of the hex decoding of its hash. */
  datatype PrevoteMsg = PrevoteMsg(validator: Addr, permitted: bool, hash: Option<string>)
  datatype VoteMsg = VoteMsg(validator: Addr, permitted: bool, salt: string, rates: string)

  datatype Validator = Validator(addr: Addr, bonded: bool, jailed: bool, power: nat)

  /** What a block sees of the staking module, validators in descending power. */
  datatype Block = Block(validators: seq<Validator>, maxValidators: nat, totalBondedPower: nat)

  // ---------- periods

  /** IsPeriodLastBlock (types/util/blocks.go:17-19). */
  predicate IsPeriodLastBlock(height: nat, blocksPerPeriod: nat)
    requires blocksPerPeriod > 0
  {
    (height + 1) % blocksPerPeriod == 0
  }

  function Period(c: Config, height: nat): nat
    requires c.Valid()
  {
    height / c.votePeriod
  }

  // ---------- messages

  function PrevoteError(msg: PrevoteMsg): Option<Error> {
    if !msg.permitted then Some(NoVotingPermission)
    else if msg.hash.None? then Some(InvalidHash)
    else None
  }

  function Prevoted(s: State, msg: PrevoteMsg): State {
    if PrevoteError(msg).Some? then s
    else s.(prevotes := s.prevotes[msg.validator := Prevote(msg.hash.value, s.height)])
  }

  function VoteError(c: Config, s: State, msg: VoteMsg): Option<Error>
    requires c.Valid()
  {
    if !msg.permitted then Some(NoVotingPermission)
    else if msg.validator !in s.prevotes then Some(NoAggregatePrevote)
    else
      var prevote := s.prevotes[msg.validator];
      if Period(c, s.height) - Period(c, prevote.submitBlock) != 1 then Some(RevealPeriodMissMatch)
      else if c.parse(msg.rates).None? then Some(InvalidRates)
      else if !(c.parse(msg.rates).value.Keys <= s.targets.Keys) then Some(UnknownDenom)
      else if prevote.hash != c.hash(msg.salt, msg.rates, msg.validator) then Some(VerificationFailed)
      else None
  }

  function Voted(c: Config, s: State, msg: VoteMsg): State
    requires c.Valid()
  {
    if VoteError(c, s, msg).Some? then s
    else s.(votes := s.votes[msg.validator := c.parse(msg.rates).value], prevotes := s.prevotes - {msg.validator})
  }

  // ---------- the end of a vote period

  /** The claim map (abci.go:22-40): the first maxValidators bonded validators. */
  function ClaimPowers(vs: seq<Validator>, max: nat): map<Addr, nat> {
    if vs == [] || max == 0 then map[]
    else if vs[0].bonded then map[vs[0].addr := vs[0].power] + ClaimPowers(vs[1..], max - 1)
    else ClaimPowers(vs[1..], max)
  }

  /** VoteThreshold times the bonded power, rounded (tally.go:53-55). */
  function ThresholdVotes(c: Config, b: Block): int {
    ChopRound(c.voteThreshold * b.totalBondedPower)
  }

  function PollOf(c: Config, s: State, b: Block): Poll {
    Poll(s.votes, ClaimPowers(b.validators, b.maxValidators), s.targets, ThresholdVotes(c, b), c.rewardBand, c.sqrt)
  }

  function KnownValidators(b: Block): set<Addr> {
    set i | 0 <= i < |b.validators| :: b.validators[i].addr
  }

  /** One more miss for every claim that did not win all surviving targets (abci.go:89-98). */
  function WithMisses(counters: map<Addr, nat>, claims: map<Addr, Claim>, targets: nat): map<Addr, nat> {
    map a | a in counters.Keys + Missed(claims, targets) ::
      (if a in counters then counters[a] else 0) + (if a in Missed(claims, targets) then 1 else 0)
  }

  function Missed(claims: map<Addr, Claim>, targets: nat): set<Addr> {
    set a | a in claims && claims[a].winCount != targets
  }

  /** ClearBallots (ballot.go:59-74) keeps the prevotes this predicate accepts, and no vote. */
  predicate Kept(height: nat, votePeriod: nat, prevote: Prevote) {
    height <= prevote.submitBlock + votePeriod
  }

  function KeptPrevotes(height: nat, votePeriod: nat, prevotes: map<Addr, Prevote>): map<Addr, Prevote> {
    map a | a in prevotes && Kept(height, votePeriod, prevotes[a]) :: prevotes[a]
  }

  function WhitelistMap(w: seq<(Denom, Dec)>): map<Denom, Dec> {
    if w == [] then map[] else WhitelistMap(w[..|w| - 1])[w[|w| - 1].0 := w[|w| - 1].1]
  }

  predicate UpdateRequired(w: seq<(Denom, Dec)>, surviving: map<Denom, Dec>) {
    || |surviving| != |w|
    || exists i :: 0 <= i < |w| && !(w[i].0 in surviving && surviving[w[i].0] == w[i].1)
  }

  /** ApplyWhitelist (ballot.go:77-117) compares the whitelist with the surviving targets. */
  function WhitelistApplied(w: seq<(Denom, Dec)>, surviving: map<Denom, Dec>, stored: map<Denom, Dec>)
    : map<Denom, Dec>
  {
    if UpdateRequired(w, surviving) then WhitelistMap(w) else stored
  }

  lemma {:induction false} WhitelistMapKeys(w: seq<(Denom, Dec)>)
    ensures forall d :: d in WhitelistMap(w) <==> exists i :: 0 <= i < |w| && w[i].0 == d
  {
    hide WhitelistMap;
    WhitelistMapStep(w);
    if w != [] {
      var n := |w| - 1;
      var front := w[..n];
      WhitelistMapKeys(front);
      assert forall i :: 0 <= i < n ==> front[i] == w[i];
      assert w[n].0 in WhitelistMap(w);
      forall d | d in WhitelistMap(front) ensures exists i :: 0 <= i < |w| && w[i].0 == d {
        var i :| 0 <= i < n && front[i].0 == d;
        assert w[i].0 == d;
      }
    }
  }

  lemma {:induction false} WhitelistMapEntries(w: seq<(Denom, Dec)>)
    requires NamesDiffer(w)
    ensures |WhitelistMap(w)| == |w|
    ensures forall i :: 0 <= i < |w| ==> w[i].0 in WhitelistMap(w) && WhitelistMap(w)[w[i].0] == w[i].1
  {
    hide WhitelistMap;
    WhitelistMapStep(w);
    if w != [] {
      var n := |w| - 1;
      var front := w[..n];
      assert forall i :: 0 <= i < n ==> front[i] == w[i];
      WhitelistMapEntries(front);
      assert w[n].0 !in WhitelistMap(front) by {
        WhitelistMapKeys(front);
      }
    }
  }

  lemma WhitelistMapStep(w: seq<(Denom, Dec)>)
    ensures WhitelistMap(w) == if w == [] then map[] else WhitelistMap(w[..|w| - 1])[w[|w| - 1].0 := w[|w| - 1].1]
  {
  }

  ghost predicate NamesDiffer(w: seq<(Denom, Dec)>) {
    forall i, j :: 0 <= i < j < |w| ==> w[i].0 != w[j].0
  }

  /**
   If no target was pruned, the stored targets become the whitelist, unless the whitelist repeats
   a name and no update is found necessary. (A pruned target can hide a difference: the
   comparison is with the surviving targets, not with the stored ones.)
   */
  lemma WhitelistAppliedInFull(w: seq<(Denom, Dec)>, stored: map<Denom, Dec>)
    ensures WhitelistApplied(w, stored, stored) == WhitelistMap(w) <==> UpdateRequired(w, stored) || NamesDiffer(w)
  {
    hide WhitelistMap, UpdateRequired;
    if !UpdateRequired(w, stored) {
      NoUpdateRequired(w, stored);
      var m := WhitelistMap(w);
      if NamesDiffer(w) {
        WhitelistMapEntries(w);
        WhitelistMapKeys(w);
        forall d | d in m ensures d in stored && stored[d] == m[d] {
          var i :| 0 <= i < |w| && w[i].0 == d;
        }
        SameSizeSubmap(m, stored);
      } else {
        RepeatedNames(w);
      }
    }
  }

  lemma {:induction false} WhitelistMapSize(w: seq<(Denom, Dec)>)
    ensures |WhitelistMap(w)| <= |w|
  {
    hide WhitelistMap;
    WhitelistMapStep(w);
    if w != [] {
      WhitelistMapSize(w[..|w| - 1]);
    }
  }

  /** A whitelist that repeats a name has fewer targets than entries. */
  lemma {:induction false} RepeatedNames(w: seq<(Denom, Dec)>)
    requires !NamesDiffer(w)
    ensures |WhitelistMap(w)| < |w|
  {
    hide WhitelistMap;
    var n := |w| - 1;
    var front := w[..n];
    WhitelistMapStep(w);
    if NamesDiffer(front) {
      var i, j :| 0 <= i < j < |w| && w[i].0 == w[j].0;
      assert forall k :: 0 <= k < n ==> front[k] == w[k];
      assert j == n;
      WhitelistMapKeys(front);
      assert front[i].0 == w[n].0;
      assert w[n].0 in WhitelistMap(front);
      WhitelistMapSize(front);
    } else {
      RepeatedNames(front);
    }
  }

  lemma NoUpdateRequired(w: seq<(Denom, Dec)>, surviving: map<Denom, Dec>)
    requires !UpdateRequired(w, surviving)
    ensures |surviving| == |w| && forall i :: 0 <= i < |w| ==> w[i].0 in surviving && surviving[w[i].0] == w[i].1
  {
  }

  lemma SameSizeSubmap(m: map<Denom, Dec>, n: map<Denom, Dec>)
    requires |m| == |n| && forall d :: d in m ==> d in n && n[d] == m[d]
    ensures m == n
  {
    assert n.Keys == m.Keys + (n.Keys - m.Keys);
    assert |n.Keys| == |m.Keys| + |n.Keys - m.Keys|;
  }

  ghost function PayoutAt(c: Config, s: State, b: Block, d: Denom): int
    requires c.Valid()
  {
    var p := PollOf(c, s, b);
    Payout(p.Claims(), p.Surviving().Keys, s.pool, DistributionRatio(c.votePeriod, c.rewardDistributionWindow), d)
  }

  ghost function CreditAt(c: Config, s: State, b: Block, a: Addr, d: Denom): int
    requires c.Valid()
  {
    var p := PollOf(c, s, b);
    Credit(p.Claims(), p.Surviving().Keys, s.pool, DistributionRatio(c.votePeriod, c.rewardDistributionWindow), a, d)
  }

  /** The transfer to the distribution module has enough funds in every denom. */
  ghost predicate Payable(c: Config, s: State, b: Block)
    requires c.Valid()
  {
    forall d :: 0 <= PayoutAt(c, s, b, d) <= AmountOf(s.pool, d)
  }

  ghost function PoolAfter(c: Config, s: State, b: Block): Coins
    requires c.Valid() && Payable(c, s, b)
  {
    map d | d in s.pool :: s.pool[d] - PayoutAt(c, s, b, d)
  }

  ghost function DistributionAfter(c: Config, s: State, b: Block): Coins
    requires c.Valid() && Payable(c, s, b)
  {
    map d | d in s.pool.Keys + s.distribution.Keys :: AmountOf(s.distribution, d) + PayoutAt(c, s, b, d)
  }

  /** The effect of a vote period's last block (abci.go:19-114); None is a panic. */
  ghost function PeriodEnded(c: Config, s: State, b: Block): Option<State>
    requires c.Valid()
  {
    var p := PollOf(c, s, b);
    if !p.RatesDefined() || !Payable(c, s, b) then None
    else Some(State(
      s.height,
      KeptPrevotes(s.height, c.votePeriod, s.prevotes),
      map[],
      p.Rates(),
      WithMisses(s.missCounters, p.Claims(), |p.Surviving()|),
      WhitelistApplied(c.whitelist, p.Surviving(), s.targets),
      PoolAfter(c, s, b),
      DistributionAfter(c, s, b)))
  }

  // ---------- the end of a slash window

  const TWO64: int := 0x1_0000_0000_0000_0000

  /** uint64 subtraction read back as int64 (slash.go:24-26). */
  function SignedDifference(a: nat, b: nat): int {
    var d := (a - b) % TWO64;
    if d < TWO64 / 2 then d else d - TWO64
  }

  /** slash.go:13-17. */
  function VotePeriodsPerWindow(c: Config): nat
    requires c.Valid()
    ensures VotePeriodsPerWindow(c) == c.slashWindow / c.votePeriod >= 1
  {
    PeriodsInWindow(c.slashWindow, c.votePeriod);
    Truncate(QuoInt(FromInt(c.slashWindow), c.votePeriod))
  }

  lemma PeriodsInWindow(window: nat, period: nat)
    requires 0 < period <= window
    ensures Truncate(QuoInt(FromInt(window), period)) == window / period >= 1
  {
    var q, x := window / period, FromInt(window);
    assert window == period * q + window % period;
    DivAtLeast(window, period, 1);
    assert period * (q * ONE) == (period * q) * ONE;
    DivAtLeast(x, period, q * ONE);
    assert period * ((q + 1) * ONE) == (period * q + period) * ONE;
    var y := x / period;
    assert x == period * y + x % period;
    if y >= (q + 1) * ONE {
      assert false;
    }
    DivAtLeast(y, ONE, q);
    assert y == ONE * (y / ONE) + y % ONE;
  }

  function ValidVoteRate(c: Config, missCounter: nat): Dec
    requires c.Valid()
  {
    QuoInt(FromInt(SignedDifference(VotePeriodsPerWindow(c), missCounter)), VotePeriodsPerWindow(c))
  }

  predicate Penalised(c: Config, missCounter: nat)
    requires c.Valid()
  {
    ValidVoteRate(c, missCounter) < c.minValidPerWindow
  }

  /** Slashing looks every penalised operator up; an unknown one is a nil dereference. */
  predicate SlashDefined(c: Config, s: State, b: Block)
    requires c.Valid()
  {
    forall a :: a in s.missCounters && Penalised(c, s.missCounters[a]) ==> a in KnownValidators(b)
  }

  /** Those slashed and jailed (slash.go:28-43). */
  function Slashed(c: Config, s: State, b: Block): set<Addr>
    requires c.Valid()
  {
    set i | 0 <= i < |b.validators| && var v := b.validators[i];
            v.addr in s.missCounters && Penalised(c, s.missCounters[v.addr]) && v.bonded && !v.jailed
         :: b.validators[i].addr
  }

  ghost function WindowEnded(c: Config, s: State, b: Block): Option<State>
    requires c.Valid()
  {
    if SlashDefined(c, s, b) then Some(s.(missCounters := map[])) else None
  }

  // ---------- every block

  ghost function AfterPeriod(c: Config, s: State, b: Block): Option<State>
    requires c.Valid()
  {
    if IsPeriodLastBlock(s.height, c.votePeriod) then PeriodEnded(c, s, b) else Some(s)
  }

  /** EndBlocker (abci.go:15-121), after which the next block starts. */
  ghost function BlockEnded(c: Config, s: State, b: Block): Option<State>
    requires c.Valid()
  {
    var t := AfterPeriod(c, s, b);
    if t.None? then None
    else
      var u := if IsPeriodLastBlock(s.height, c.slashWindow) then WindowEnded(c, t.value, b) else t;
      if u.None? then None else Some(u.value.(height := s.height + 1))
  }
}
