/**
 The oracle keeper: the handlers and the end blocker as they update the stores in place
 (x/oracle/keeper/msg_server.go, x/oracle/abci.go). Every method is tied to the state
 machine of OracleState; store iteration and map ranges pick their next key arbitrarily.
 */
module OracleKeeper {
  import opened Decimals
  import opened Seqs
  import opened Ballots
  import opened Tally
  import opened TallyLoops
  import opened Wrappers
  import opened Rewards
  import opened OracleState

  /** The claim map loop (abci.go:30-40). */
  method BuildClaimPowers(validators: seq<Validator>, maxValidators: nat) returns (powers: map<Addr, nat>)
    ensures powers == ClaimPowers(validators, maxValidators)
  {
    powers := map[];
    var i, k := 0, 0;
    assert validators[0..] == validators;
    while k < |validators| && i < maxValidators
      invariant 0 <= k <= |validators| && 0 <= i <= maxValidators
      invariant powers + ClaimPowers(validators[k..], maxValidators - i) == ClaimPowers(validators, maxValidators)
    {
      assert validators[k..][1..] == validators[k + 1..];
      var validator := validators[k];
      ghost var rest := ClaimPowers(validators[k + 1..], maxValidators - i - 1);
      if validator.bonded {
        assert powers[validator.addr := validator.power] + rest
          == powers + (map[validator.addr := validator.power] + rest);
        powers := powers[validator.addr := validator.power];
        i := i + 1;
      }
      k := k + 1;
    }
    assert ClaimPowers(validators[k..], maxValidators - i) == map[];
  }

  /** Miss counting (abci.go:89-98), over an arbitrary order of the claims. */
  method CountMisses(counters: map<Addr, nat>, claims: map<Addr, Claim>, voteTargetsLen: nat)
    returns (r: map<Addr, nat>)
    ensures r == WithMisses(counters, claims, voteTargetsLen)
  {
    r := counters;
    var rest := claims.Keys;
    while rest != {}
      invariant rest <= claims.Keys
      invariant r.Keys == counters.Keys + (Missed(claims, voteTargetsLen) - rest)
      invariant forall a :: a in r ==>
        r[a] == (if a in counters then counters[a] else 0)
                + (if a in Missed(claims, voteTargetsLen) && a !in rest then 1 else 0)
    {
      var a :| a in rest;
      rest := rest - {a};
      if claims[a].winCount == voteTargetsLen {
        continue;
      }
      r := r[a := (if a in r then r[a] else 0) + 1];
    }
  }

  /** The first half of ClearBallots (ballot.go:61-67): deleting while iterating. */
  method ClearPrevotes(prevotes: map<Addr, Prevote>, height: nat, votePeriod: nat) returns (r: map<Addr, Prevote>)
    ensures r == KeptPrevotes(height, votePeriod, prevotes)
  {
    r := prevotes;
    var rest := prevotes.Keys;
    while rest != {}
      invariant rest <= prevotes.Keys
      invariant r == map a | a in prevotes && (a in rest || Kept(height, votePeriod, prevotes[a])) :: prevotes[a]
    {
      var a :| a in rest;
      rest := rest - {a};
      if height > prevotes[a].submitBlock + votePeriod {
        r := r - {a};
      }
    }
  }

  /** ApplyWhitelist (ballot.go:77-117) on the stored targets. */
  method ApplyWhitelist(whitelist: seq<(Denom, Dec)>, voteTargets: map<Denom, Dec>, stored: map<Denom, Dec>)
    returns (r: map<Denom, Dec>)
    ensures r == WhitelistApplied(whitelist, voteTargets, stored)
  {
    var updateRequired := false;
    if |voteTargets| != |whitelist| {
      updateRequired := true;
    } else {
      for i := 0 to |whitelist|
        invariant !updateRequired
        invariant forall j :: 0 <= j < i ==>
          whitelist[j].0 in voteTargets && voteTargets[whitelist[j].0] == whitelist[j].1
      {
        var item := whitelist[i];
        if item.0 !in voteTargets || voteTargets[item.0] != item.1 {
          updateRequired := true;
          break;
        }
      }
    }
    r := stored;
    if updateRequired {
      r := map[];
      for i := 0 to |whitelist|
        invariant r == WhitelistMap(whitelist[..i])
      {
        assert whitelist[..i + 1][..i] == whitelist[..i];
        r := r[whitelist[i].0 := whitelist[i].1];
      }
      assert whitelist[..|whitelist|] == whitelist;
    }
  }

  /** Number of bonded validators among those of higher rank. */
  function BondedIn(vs: seq<Validator>): nat {
    if vs == [] then 0 else BondedIn(vs[1..]) + if vs[0].bonded then 1 else 0
  }

  /** i is the position of a bonded validator that fewer than max bonded ones outrank. */
  predicate Ranked(vs: seq<Validator>, max: nat, i: nat) {
    i < |vs| && vs[i].bonded && BondedIn(vs[..i]) < max
  }

  lemma BondedInTail(vs: seq<Validator>, i: nat)
    requires 0 < i <= |vs|
    ensures BondedIn(vs[..i]) == BondedIn(vs[1..][..i - 1]) + if vs[0].bonded then 1 else 0
  {
    assert vs[..i][1..] == vs[1..][..i - 1];
  }

  lemma RankedTail(vs: seq<Validator>, max: nat, i: nat)
    requires vs != [] && max != 0 && i > 0
    ensures Ranked(vs, max, i) <==> Ranked(vs[1..], if vs[0].bonded then max - 1 else max, i - 1)
  {
    if i < |vs| {
      BondedInTail(vs, i);
    }
  }

  /**
   With distinct addresses, the claims are exactly the highest ranked bonded validators, up to
   the maximum, each with its own power.
   */
  lemma {:induction false} ClaimPowersExact(vs: seq<Validator>, max: nat)
    requires forall i, j :: 0 <= i < j < |vs| ==> vs[i].addr != vs[j].addr
    ensures forall i :: 0 <= i < |vs| ==> (vs[i].addr in ClaimPowers(vs, max) <==> Ranked(vs, max, i))
    ensures forall i :: 0 <= i < |vs| && Ranked(vs, max, i) ==> ClaimPowers(vs, max)[vs[i].addr] == vs[i].power
  {
    ClaimPowersKnown(vs, max);
    if vs != [] && max != 0 {
      var n := if vs[0].bonded then max - 1 else max;
      var rest := vs[1..];
      ClaimPowersExact(rest, n);
      ClaimPowersKnown(rest, n);
      assert vs[0].addr !in ClaimPowers(rest, n);
      assert Ranked(vs, max, 0) <==> vs[0].bonded;
      forall i | 0 < i < |vs|
        ensures vs[i].addr in ClaimPowers(vs, max) <==> Ranked(vs, max, i)
        ensures Ranked(vs, max, i) ==> ClaimPowers(vs, max)[vs[i].addr] == vs[i].power
      {
        RankedTail(vs, max, i);
        assert rest[i - 1] == vs[i];
      }
    }
  }

  lemma ClaimPowersKnown(vs: seq<Validator>, max: nat)
    ensures forall a :: a in ClaimPowers(vs, max) ==> exists i :: 0 <= i < |vs| && vs[i].addr == a
  {
    if vs != [] && max != 0 {
      var n := if vs[0].bonded then max - 1 else max;
      ClaimPowersKnown(vs[1..], n);
      forall a | a in ClaimPowers(vs, max) ensures exists i :: 0 <= i < |vs| && vs[i].addr == a {
        if a in ClaimPowers(vs[1..], n) {
          var i :| 0 <= i < |vs[1..]| && vs[1..][i].addr == a;
          assert vs[i + 1].addr == a;
        }
      }
    }
  }

  lemma ClaimsAreKnown(c: Config, s: State, b: Block)
    ensures PollOf(c, s, b).Claims().Keys <= KnownValidators(b)
  {
    hide Poll.ClaimOver;
    ClaimPowersKnown(b.validators, b.maxValidators);
  }

  /** The operator's rate is too low, and it is bonded and not jailed (slash.go:24-42). */
  predicate IsSlashed(c: Config, b: Block, operator: Addr, missCounter: nat)
    requires c.Valid()
  {
    && Penalised(c, missCounter)
    && exists i :: 0 <= i < |b.validators| && b.validators[i].addr == operator
                   && b.validators[i].bonded && !b.validators[i].jailed
  }

  lemma SlashedMembers(c: Config, s: State, b: Block, slashed: set<Addr>)
    requires c.Valid()
    requires forall a :: a in slashed <==> a in s.missCounters && IsSlashed(c, b, a, s.missCounters[a])
    ensures slashed == Slashed(c, s, b)
  {
    hide Penalised;
  }

  /** A payout in a denom the oracle account does not hold is nothing. */
  lemma PayoutAbsent(c: Config, s: State, b: Block, d: Denom)
    requires c.Valid() && d !in s.pool
    ensures PayoutAt(c, s, b, d) == 0
  {
    hide Poll.Claims, Poll.Surviving, WeightSum, PaidIn, Listed, DistributionRatio;
    var p := PollOf(c, s, b);
    var ratio := DistributionRatio(c.votePeriod, c.rewardDistributionWindow);
    assert RewardOf(p.Surviving().Keys, s.pool, ratio, d) == 0 by {
      assert 0 * ratio == 0;
    }
    if WeightSum(p.Claims()) != 0 {
      RewardOfUnlisted(p.Claims());
    }
  }

  lemma {:induction false} WhitelistNamed(w: seq<(Denom, Dec)>)
    requires forall i :: 0 <= i < |w| ==> w[i].0 != ""
    ensures "" !in WhitelistMap(w)
  {
    if w != [] {
      WhitelistNamed(w[..|w| - 1]);
    }
  }

  lemma PeriodEndedNamed(c: Config, s: State, b: Block)
    requires c.Valid() && PeriodEnded(c, s, b).Some? && "" !in s.targets
    ensures "" !in PeriodEnded(c, s, b).value.targets
  {
    hide Poll.RatesDefined, Payable, PayoutAt, Poll.Rates, WithMisses, KeptPrevotes, UpdateRequired, Poll.Surviving;
    WhitelistNamed(c.whitelist);
  }

  class Keeper {
    const c: Config
    var height: nat
    var prevotes: map<Addr, Prevote>
    var votes: map<Addr, Tuples>
    var rates: map<Denom, Dec>
    var missCounters: map<Addr, nat>
    var targets: map<Denom, Dec>
    var pool: Coins
    var distribution: Coins

    function Get(): State
      reads this
    {
      State(height, prevotes, votes, rates, missCounters, targets, pool, distribution)
    }

    /** Validated parameters, and targets named as validation demands of the whitelist they come from. */
    ghost predicate Valid()
      reads this
    {
      c.Valid() && "" !in targets
    }

    constructor (c: Config, s: State)
      requires c.Valid() && "" !in s.targets
      ensures this.c == c && Get() == s && Valid()
    {
      this.c := c;
      height, prevotes, votes, rates := s.height, s.prevotes, s.votes, s.rates;
      missCounters, targets, pool, distribution := s.missCounters, s.targets, s.pool, s.distribution;
    }

    /** msg_server.go:24-63. */
    method AggregateExchangeRatePrevote(msg: PrevoteMsg) returns (err: Option<Error>)
      requires Valid()
      modifies this`prevotes
      ensures Valid()
      ensures err == PrevoteError(msg)
      ensures Get() == Prevoted(old(Get()), msg)
    {
      if !msg.permitted {
        return Some(NoVotingPermission);
      }
      if msg.hash.None? {
        return Some(InvalidHash);
      }
      prevotes := prevotes[msg.validator := Prevote(msg.hash.value, height)];
      err := None;
    }

    /** msg_server.go:65-130. */
    method AggregateExchangeRateVote(msg: VoteMsg) returns (err: Option<Error>)
      requires Valid()
      modifies this`prevotes, this`votes
      ensures Valid()
      ensures err == VoteError(c, old(Get()), msg)
      ensures Get() == Voted(c, old(Get()), msg)
    {
      if !msg.permitted {
        return Some(NoVotingPermission);
      }
      if msg.validator !in prevotes {
        return Some(NoAggregatePrevote);
      }
      var aggregatePrevote := prevotes[msg.validator];
      if height / c.votePeriod - aggregatePrevote.submitBlock / c.votePeriod != 1 {
        return Some(RevealPeriodMissMatch);
      }
      var parsed := c.parse(msg.rates);
      if parsed.None? {
        return Some(InvalidRates);
      }
      var denoms := parsed.value.Keys;
      while denoms != {}
        invariant denoms <= parsed.value.Keys
        invariant parsed.value.Keys - denoms <= targets.Keys
      {
        var denom :| denom in denoms;
        if denom !in targets {
          assert !(parsed.value.Keys <= targets.Keys);
          return Some(UnknownDenom);
        }
        denoms := denoms - {denom};
      }
      assert parsed.value.Keys <= targets.Keys;
      if aggregatePrevote.hash != c.hash(msg.salt, msg.rates, msg.validator) {
        return Some(VerificationFailed);
      }
      votes := votes[msg.validator := parsed.value];
      prevotes := prevotes - {msg.validator};
      err := None;
    }

    /** The transfer of the distributed reward (reward.go:87-90), which fails without funds. */
    method SendToDistribution(coins: map<Denom, int>) returns (ok: bool)
      modifies this`pool, this`distribution
      ensures ok <==> forall d :: 0 <= AmountOf(coins, d) <= AmountOf(old(pool), d)
      ensures !ok ==> pool == old(pool) && distribution == old(distribution)
      ensures ok ==> pool == map d | d in old(pool) :: old(pool)[d] - AmountOf(coins, d)
      ensures ok ==>
        distribution ==
          map d | d in old(pool).Keys + old(distribution).Keys :: AmountOf(old(distribution), d) + AmountOf(coins, d)
    {
      ok := forall d :: d in coins ==> 0 <= coins[d] <= AmountOf(pool, d);
      if ok {
        forall d ensures 0 <= AmountOf(coins, d) <= AmountOf(pool, d) {
        }
        distribution := map d | d in pool.Keys + distribution.Keys :: AmountOf(distribution, d) + AmountOf(coins, d);
        pool := map d | d in pool :: pool[d] - AmountOf(coins, d);
      } else {
        var d :| d in coins && !(0 <= coins[d] <= AmountOf(pool, d));
        assert !(0 <= AmountOf(coins, d) <= AmountOf(pool, d));
      }
    }

    /** RewardBallotWinners with its transfer (reward.go:16-91). */
    method PayWinners(b: Block, targets: set<Denom>, claims: map<Addr, Claim>, ghost s: State)
      returns (ok: bool, credits: map<Addr, map<Denom, int>>)
      requires c.Valid() && pool == s.pool && distribution == s.distribution
      requires claims == PollOf(c, s, b).Claims() && targets == PollOf(c, s, b).Surviving().Keys
      modifies this`pool, this`distribution
      ensures ok <==> Payable(c, s, b)
      ensures ok ==> pool == PoolAfter(c, s, b) && distribution == DistributionAfter(c, s, b)
      ensures ok ==> forall a, d :: a in claims ==> CreditOf(credits, a, d) == CreditAt(c, s, b, a, d)
    {
      hide Poll.Claims, Poll.Surviving, Payout, PollOf, KnownValidators, Credit, CreditOf, IsPayout, HasWinners, Listed,
           DistributionRatio, WeightSum;
      ClaimsAreKnown(c, s, b);
      var distributed;
      distributed, credits :=
        RewardBallotWinners(c.votePeriod, c.rewardDistributionWindow, targets, claims, pool, KnownValidators(b));
      ok := SendToDistribution(distributed.value);
    }

    /** Building the claim map and tallying (abci.go:21-85). */
    method TallyPeriod(b: Block) returns (outcome: Option<Outcome>)
      requires Valid()
      ensures outcome.Some? <==> PollOf(c, Get(), b).RatesDefined()
      ensures outcome.Some? ==>
        var p := PollOf(c, Get(), b); outcome.value == Outcome(p.Surviving(), p.Rates(), p.Claims())
    {
      hide Poll.Claims, Poll.Surviving, Poll.Rates, Poll.RatesDefined, ClaimPowers, ThresholdVotes, Unnamed;
      NamedReference(PollOf(c, Get(), b));
      var powers := BuildClaimPowers(b.validators, b.maxValidators);
      outcome := TallyVotes(Poll(votes, powers, targets, ThresholdVotes(c, b), c.rewardBand, c.sqrt));
    }

    /** Clearing the ballots and applying the whitelist (abci.go:109-113). */
    method ClearBallotsAndApplyWhitelist(voteTargets: map<Denom, Dec>)
      modifies this`prevotes, this`votes, this`targets
      ensures prevotes == KeptPrevotes(height, c.votePeriod, old(prevotes)) && votes == map[]
      ensures targets == WhitelistApplied(c.whitelist, voteTargets, old(targets))
    {
      prevotes := ClearPrevotes(prevotes, height, c.votePeriod);
      votes := map[];
      targets := ApplyWhitelist(c.whitelist, voteTargets, targets);
    }

    /** The body run at the last block of a vote period (abci.go:21-113). */
    method EndPeriod(b: Block) returns (ok: bool)
      requires Valid()
      modifies this
      ensures ok <==> PeriodEnded(c, old(Get()), b).Some?
      ensures ok ==> Valid() && Get() == PeriodEnded(c, old(Get()), b).value
    {
      hide Poll.Claims, Poll.Surviving, Poll.Rates, Poll.RatesDefined, PayoutAt, Payable, WithMisses, WhitelistApplied,
           KeptPrevotes, PollOf, Config.Valid, PoolAfter, DistributionAfter;
      ghost var s := Get();
      var outcome := TallyPeriod(b);
      if outcome.None? {
        return false;
      }
      rates := outcome.value.rates;
      missCounters := CountMisses(missCounters, outcome.value.claims, |outcome.value.targets|);
      var credits;
      ok, credits := PayWinners(b, outcome.value.targets.Keys, outcome.value.claims, s);
      if !ok {
        return;
      }
      ClearBallotsAndApplyWhitelist(outcome.value.targets);
      PeriodEndedNamed(c, s, b);
    }

    /** SlashAndResetMissCounters (slash.go:8-48), over an arbitrary order of the counters. */
    method SlashAndResetMissCounters(b: Block) returns (ok: bool, slashed: set<Addr>)
      requires Valid()
      modifies this`missCounters
      ensures Valid()
      ensures ok <==> WindowEnded(c, old(Get()), b).Some?
      ensures ok ==> Get() == WindowEnded(c, old(Get()), b).value
      ensures ok ==> slashed == Slashed(c, old(Get()), b)
    {
      hide Penalised, IsSlashed, KnownValidators, Slashed, Config.Valid;
      slashed := {};
      ghost var s, done := Get(), {};
      assert s.missCounters - {} == s.missCounters;
      var operators := missCounters.Keys;
      while operators != {}
        invariant operators <= s.missCounters.Keys && done == s.missCounters.Keys - operators
        invariant missCounters == s.missCounters - done
        invariant Get() == s.(missCounters := missCounters)
        invariant forall a :: a in done && Penalised(c, s.missCounters[a]) ==> a in KnownValidators(b)
        invariant forall a :: a in slashed <==> a in done && IsSlashed(c, b, a, s.missCounters[a])
      {
        var operator :| operator in operators;
        var missCounter := missCounters[operator];
        if Penalised(c, missCounter) && operator !in KnownValidators(b) {
          return false, slashed;
        }
        if IsSlashed(c, b, operator, missCounter) {
          slashed := slashed + {operator};
        }
        missCounters := missCounters - {operator};
        operators := operators - {operator};
        done := done + {operator};
      }
      assert done == s.missCounters.Keys;
      SlashedMembers(c, s, b, slashed);
      ok := true;
    }

    /** EndBlocker (abci.go:15-121); a false result is a panic. */
    method EndBlocker(b: Block) returns (ok: bool)
      requires Valid()
      modifies this
      ensures ok <==> BlockEnded(c, old(Get()), b).Some?
      ensures ok ==> Valid() && Get() == BlockEnded(c, old(Get()), b).value
    {
      hide PeriodEnded, WindowEnded;
      ok := true;
      if IsPeriodLastBlock(height, c.votePeriod) {
        ok := EndPeriod(b);
        if !ok {
          return;
        }
        PeriodKeepsHeight(c, old(Get()), b);
      }
      if IsPeriodLastBlock(height, c.slashWindow) {
        var slashed;
        ok, slashed := SlashAndResetMissCounters(b);
        if !ok {
          return;
        }
      }
      height := height + 1;
    }
  }

  lemma PeriodKeepsHeight(c: Config, s: State, b: Block)
    requires c.Valid() && PeriodEnded(c, s, b).Some?
    ensures PeriodEnded(c, s, b).value.height == s.height
  {
  }
}
