/**
 The commission state machine (x/dyncomm/keeper/dyncomm.go:44-175, x/dyncomm/ante/ante.go,
 x/dyncomm/post/post.go): weekly epochs raise commissions to the floor, edits are checked
 against it, and the post handler records the intended rate as the target of later epochs.
 */
module DynCommRuns {
  import opened Decimals
  import opened Wrappers
  import opened DynComm
  import opened DynCommTxs

  datatype State = State(validators: Validators, store: Store)

  function Larger(a: Dec, b: Dec): Dec {
    if a < b then b else a
  }

  // ---------- steps

  /** The validator after UpdateValidatorMinRates (dyncomm.go:126-153). */
  function Raised(v: Validator, min: Dec, target: Dec): Validator {
    v.(rate := Larger(target, min), maxRate := Larger(v.maxRate, min))
  }

  /** UpdateAllBondedValidatorRates once the bonded validators in `done` are updated. */
  function EpochOver(p: Params, k: Staking, s: State, done: set<Addr>): State
    requires p.Valid() && k.Valid()
  {
    State(
      map a | a in s.validators ::
        if a in done then Raised(s.validators[a], DynCommission(p, k, s.validators[a].tokens), TargetOf(s.store, a))
        else s.validators[a],
      map a | a in s.store.Keys + (done * s.validators.Keys) ::
        if a in done && a in s.validators then Entry(DynCommission(p, k, s.validators[a].tokens), TargetOf(s.store, a))
        else s.store[a])
  }

  function AfterEpoch(p: Params, k: Staking, s: State): State
    requires p.Valid() && k.Valid()
  {
    EpochOver(p, k, s, Bonded(s.validators))
  }

  function Bonded(vs: Validators): set<Addr> {
    set a | a in vs && vs[a].bonded
  }

  lemma EpochStart(p: Params, k: Staking, s: State)
    requires p.Valid() && k.Valid()
    ensures EpochOver(p, k, s, {}) == s
  {
  }

  lemma EpochUntouched(p: Params, k: Staking, s: State, done: set<Addr>, a: Addr)
    requires p.Valid() && k.Valid() && a in s.validators && a !in done
    ensures a in EpochOver(p, k, s, done).validators && EpochOver(p, k, s, done).validators[a] == s.validators[a]
  {
  }

  lemma EpochMore(p: Params, k: Staking, s: State, done: set<Addr>, a: Addr, t: State)
    requires p.Valid() && k.Valid() && a in s.validators && a !in done
    requires var u, min := EpochOver(p, k, s, done), DynCommission(p, k, s.validators[a].tokens);
      && t.validators == u.validators[a := Raised(u.validators[a], min, TargetOf(u.store, a))]
      && t.store == u.store[a := Entry(min, TargetOf(u.store, a))]
    ensures t == EpochOver(p, k, s, done + {a})
  {
    hide DynCommission;
  }

  /**
   One step. A transaction may fail for reasons of the staking module that are not modelled;
   `succeeds` is its own decision about that. Staking may change tokens and bonding at any time,
   and remove a validator without the commission store hearing of it.
   */
  datatype Step =
    | Epoch(staking: Staking)
    | Transaction(msgs: seq<Msg>, succeeds: bool)
    | Restake(operator: Addr, tokens: nat, bonded: bool)
    | Remove(operator: Addr)

  /** The ante filter and the staking module let a transaction through. */
  predicate Passes(s: State, step: Step) {
    && step.Transaction? && step.succeeds
    && EditsAllowed(StoredFloors(s.store), step.msgs) && !StaleError(step.msgs, false)
    && PerformedAll(s.validators, Effects(step.msgs)).Some?
  }

  function AfterTransaction(s: State, step: Step): State
    requires Passes(s, step)
  {
    State(PerformedAll(s.validators, Effects(step.msgs)).value, Recorded(s.store, step.msgs))
  }

  function Next(p: Params, s: State, step: Step): State
    requires p.Valid() && (step.Epoch? ==> step.staking.Valid())
  {
    match step
    case Epoch(k) => AfterEpoch(p, k, s)
    case Transaction(_, _) => if Passes(s, step) then AfterTransaction(s, step) else s
    case Restake(a, tokens, bonded) =>
      if a !in s.validators then s
      else s.(validators := s.validators[a := s.validators[a].(tokens := tokens, bonded := bonded)])
    case Remove(a) => s.(validators := s.validators - {a})
  }

  // ---------- the keeper

  class Keeper {
    const params: Params
    var validators: Validators
    var store: Store

    constructor (params: Params, s: State)
      ensures this.params == params && Get() == s
    {
      this.params, validators, store := params, s.validators, s.store;
    }

    function Get(): State
      reads this
    {
      State(validators, store)
    }

    /** SetDynCommissionRate (dyncomm.go:44-62) keeps the target. */
    method SetDynCommissionRate(a: Addr, rate: Dec)
      modifies this`store
      ensures store == old(store)[a := Entry(rate, TargetOf(old(store), a))]
    {
      var targetRate := 0;
      if a in store {
        targetRate := store[a].target;
      }
      store := store[a := Entry(rate, targetRate)];
    }

    /** SetTargetCommissionRate (dyncomm.go:64-82) keeps the minimum. */
    method SetTargetCommissionRate(a: Addr, rate: Dec)
      modifies this`store
      ensures store == old(store)[a := Entry(MinOf(old(store), a), rate)]
    {
      var minRate := 0;
      if a in store {
        minRate := store[a].min;
      }
      store := store[a := Entry(minRate, rate)];
    }

    /** UpdateValidatorMinRates (dyncomm.go:126-159). */
    method UpdateValidatorMinRates(k: Staking, a: Addr)
      requires params.Valid() && k.Valid() && a in validators
      modifies this
      ensures var min := DynCommission(params, k, old(validators)[a].tokens);
        && validators == old(validators)[a := Raised(old(validators)[a], min, TargetOf(old(store), a))]
        && store == old(store)[a := Entry(min, TargetOf(old(store), a))]
    {
      var validator := validators[a];
      var minRate := DynCommission(params, k, validator.tokens);
      var newMaxRate := validator.maxRate;
      var newRate := TargetOf(store, a);
      if newRate < minRate {
        newRate := minRate;
      }
      if newMaxRate < minRate {
        newMaxRate := minRate;
      }
      validators := validators[a := validator.(rate := newRate, maxRate := newMaxRate)];
      SetDynCommissionRate(a, minRate);
    }

    /** UpdateAllBondedValidatorRates (dyncomm.go:161-175), in any order of the validators. */
    method UpdateAllBondedValidatorRates(k: Staking)
      requires params.Valid() && k.Valid()
      modifies this
      ensures Get() == AfterEpoch(params, k, old(Get()))
    {
      hide EpochOver, DynCommission;
      ghost var s, done := Get(), {};
      EpochStart(params, k, s);
      var rest := validators.Keys;
      while rest != {}
        invariant rest <= s.validators.Keys && done == Bonded(s.validators) - rest
        invariant Get() == EpochOver(params, k, s, done)
      {
        var a :| a in rest;
        rest := rest - {a};
        EpochUntouched(params, k, s, done, a);
        if !validators[a].bonded {
          continue;
        }
        UpdateValidatorMinRates(k, a);
        EpochMore(params, k, s, done, a, Get());
        done := done + {a};
      }
      assert done == Bonded(s.validators);
    }

    /** The post handler (post.go:36-69): the rates of the top-level messages become targets. */
    method RecordTargets(msgs: seq<Msg>)
      modifies this`store
      ensures store == Recorded(old(store), msgs)
    {
      assert msgs[..0] == [];
      for i := 0 to |msgs|
        invariant store == Recorded(old(store), msgs[..i])
      {
        assert msgs[..i + 1][..i] == msgs[..i];
        match msgs[i] {
          case EditMsg(a, rate) =>
            if rate.Some? {
              SetTargetCommissionRate(a, rate.value);
            }
          case CreateMsg(a, _, initial, _) =>
            SetTargetCommissionRate(a, initial);
          case _ =>
        }
      }
      assert msgs[..|msgs|] == msgs;
    }

    /** A transaction: ante filter, staking, post handler; a failure rolls everything back. */
    method DeliverTx(msgs: seq<Msg>, succeeds: bool) returns (ok: bool)
      requires params.Valid()
      modifies this
      ensures ok <==> Passes(old(Get()), Transaction(msgs, succeeds))
      ensures Get() == Next(params, old(Get()), Transaction(msgs, succeeds))
    {
      ok := FilterMsgs(StoredFloors(store), msgs);
      if !ok || !succeeds {
        return false;
      }
      var after := Perform(validators, Effects(msgs));
      if after.None? {
        return false;
      }
      validators := after.value;
      RecordTargets(msgs);
    }
  }

  /** Staking performs messages one by one, and none if one fails. */
  method Perform(vs: Validators, ms: seq<Msg>) returns (r: Option<Validators>)
    ensures r == PerformedAll(vs, ms)
  {
    var ws := vs;
    assert ms[..0] == [];
    for i := 0 to |ms|
      invariant PerformedAll(vs, ms[..i]) == Some(ws)
    {
      assert ms[..i + 1][..i] == ms[..i];
      if !Acceptable(ws, ms[i]) {
        PerformFails(vs, ms, i + 1);
        return None;
      }
      ws := Performed(ws, ms[i]);
    }
    assert ms[..|ms|] == ms;
    r := Some(ws);
  }

  lemma {:induction false} PerformFails(vs: Validators, ms: seq<Msg>, i: nat)
    requires i <= |ms| && PerformedAll(vs, ms[..i]).None?
    ensures PerformedAll(vs, ms).None?
    decreases |ms| - i
  {
    if i == |ms| {
      assert ms[..i] == ms;
    } else {
      assert ms[..i + 1][..i] == ms[..i];
      PerformFails(vs, ms, i + 1);
    }
  }

  // ---------- one step

  /** Epochs never change a target; nothing else changes a minimum. */
  lemma StoresKept(p: Params, s: State, step: Step, a: Addr)
    requires p.Valid() && (step.Epoch? ==> step.staking.Valid())
    ensures step.Epoch? ==> TargetOf(Next(p, s, step).store, a) == TargetOf(s.store, a)
    ensures !step.Epoch? ==> MinOf(Next(p, s, step).store, a) == MinOf(s.store, a)
  {
    hide DynCommission, Passes, PerformedAll, Recorded;
    if Passes(s, step) {
      TransactionOnly(s, step);
      RecordedAt(s.store, step.msgs, a);
    }
  }

  /** Right after an epoch a bonded validator pays the larger of its target and its floor. */
  lemma EpochSettlesRates(p: Params, k: Staking, s: State, a: Addr)
    requires p.Valid() && k.Valid() && a in s.validators && s.validators[a].bonded
    ensures var t := AfterEpoch(p, k, s);
      && MinOf(t.store, a) == DynCommission(p, k, s.validators[a].tokens)
      && t.validators[a].rate == Larger(TargetOf(t.store, a), MinOf(t.store, a))
      && t.validators[a].maxRate == Larger(s.validators[a].maxRate, MinOf(t.store, a))
  {
  }

  /** Every commission is at least its stored minimum. */
  ghost predicate AboveMinimum(s: State) {
    forall a :: a in s.validators ==> s.validators[a].rate >= MinOf(s.store, a)
  }

  /** Every commission, and every target, is at most the maximum rate. */
  ghost predicate BelowMaximum(s: State) {
    forall a :: a in s.validators ==>
      s.validators[a].rate <= s.validators[a].maxRate && TargetOf(s.store, a) <= s.validators[a].maxRate
  }

  /** No validator ends a transaction with the rate of its creation below a minimum left behind at its address. */
  ghost predicate StartsAboveMinimum(s: State, step: Step) {
    Passes(s, step) ==> forall a ::
      var m := LastSetter(Effects(step.msgs), a);
      m.Some? && m.value.CreateMsg? ==> m.value.initial >= MinOf(s.store, a)
  }

  /** A validator created without the post handler seeing it meets no target above its maximum rate. */
  ghost predicate StartsBelowMaximum(s: State, step: Step) {
    Passes(s, step) ==> forall a ::
      var vs := AfterTransaction(s, step).validators;
      a in vs && a !in s.validators && LastSetter(step.msgs, a).None? ==> TargetOf(s.store, a) <= vs[a].maxRate
  }

  lemma RateAboveMinimumIff(s: State, step: Step, a: Addr)
    requires Passes(s, step) && a in AfterTransaction(s, step).validators
    requires a in s.validators ==> s.validators[a].rate >= MinOf(s.store, a)
    ensures var t, m := AfterTransaction(s, step), LastSetter(Effects(step.msgs), a);
      t.validators[a].rate >= MinOf(t.store, a)
      <==> (m.Some? && m.value.CreateMsg? ==> m.value.initial >= MinOf(s.store, a))
  {
    hide PerformedAll, Recorded, LastSetter, Effects, EditsAllowed;
    var effects := Effects(step.msgs);
    RecordedAt(s.store, step.msgs, a);
    RateAfter(s.validators, effects, a);
    var m := LastSetter(effects, a);
    if m.Some? {
      LastSetterIn(effects, a);
      if m.value.EditMsg? {
        EffectAllowed(StoredFloors(s.store), step.msgs, m.value);
      }
    }
  }

  /** A step keeps every commission above its minimum exactly if no creation in it ends up below a stale one. */
  lemma AboveMinimumKeptIff(p: Params, s: State, step: Step)
    requires p.Valid() && (step.Epoch? ==> step.staking.Valid()) && AboveMinimum(s)
    ensures AboveMinimum(Next(p, s, step)) <==> StartsAboveMinimum(s, step)
  {
    hide DynCommission, AfterTransaction, LastSetter, Effects, Passes;
    if Passes(s, step) {
      TransactionOnly(s, step);
      var t, effects := AfterTransaction(s, step), Effects(step.msgs);
      forall a | a in t.validators
        ensures t.validators[a].rate >= MinOf(t.store, a) <==>
          var m := LastSetter(effects, a);
          m.Some? && m.value.CreateMsg? ==> m.value.initial >= MinOf(s.store, a)
      {
        RateAboveMinimumIff(s, step, a);
      }
      forall a | LastSetter(effects, a).Some? ensures a in t.validators {
        SetterStays(s, step, a);
      }
    }
  }

  lemma TransactionOnly(s: State, step: Step)
    requires Passes(s, step)
    ensures step.Transaction?
  {
  }

  lemma SetterStays(s: State, step: Step, a: Addr)
    requires Passes(s, step) && LastSetter(Effects(step.msgs), a).Some?
    ensures a in AfterTransaction(s, step).validators
    ensures var m := LastSetter(Effects(step.msgs), a).value;
      m.CreateMsg? ==> a !in s.validators && m.initial >= 0
  {
    hide PerformedAll, Recorded, LastSetter, Effects, EditsAllowed;
    var effects := Effects(step.msgs);
    LastSetterIn(effects, a);
    RatesWithinMaximum(s.validators, effects, LastSetter(effects, a).value);
    ValidatorsStay(s.validators, effects, a);
  }

  lemma RateBelowMaximum(s: State, step: Step, a: Addr)
    requires Passes(s, step) && a in AfterTransaction(s, step).validators
    requires a in s.validators ==>
      s.validators[a].rate <= s.validators[a].maxRate && TargetOf(s.store, a) <= s.validators[a].maxRate
    ensures var t := AfterTransaction(s, step);
      && t.validators[a].rate <= t.validators[a].maxRate
      && (TargetOf(t.store, a) <= t.validators[a].maxRate
          <==> (a !in s.validators && LastSetter(step.msgs, a).None? ==>
                  TargetOf(s.store, a) <= t.validators[a].maxRate))
  {
    hide PerformedAll, Recorded, LastSetter, Effects, EditsAllowed;
    var effects := Effects(step.msgs);
    RecordedAt(s.store, step.msgs, a);
    RateAfter(s.validators, effects, a);
    ValidatorsStay(s.validators, effects, a);
    if LastSetter(effects, a).Some? {
      LastSetterIn(effects, a);
      RatesWithinMaximum(s.validators, effects, LastSetter(effects, a).value);
    }
    if LastSetter(step.msgs, a).Some? {
      LastSetterIn(step.msgs, a);
      TopLevelTakesEffect(step.msgs, LastSetter(step.msgs, a).value);
      RatesWithinMaximum(s.validators, effects, LastSetter(step.msgs, a).value);
    }
  }

  lemma BelowMaximumKeptIff(p: Params, s: State, step: Step)
    requires p.Valid() && (step.Epoch? ==> step.staking.Valid()) && BelowMaximum(s)
    ensures BelowMaximum(Next(p, s, step)) <==> StartsBelowMaximum(s, step)
  {
    hide DynCommission, AfterTransaction, LastSetter, Effects, Passes;
    if Passes(s, step) {
      TransactionOnly(s, step);
      var t := AfterTransaction(s, step);
      forall a | a in t.validators
        ensures && t.validators[a].rate <= t.validators[a].maxRate
          && (TargetOf(t.store, a) <= t.validators[a].maxRate
          <==> (a !in s.validators && LastSetter(step.msgs, a).None? ==>
                  TargetOf(s.store, a) <= t.validators[a].maxRate))
      {
        RateBelowMaximum(s, step, a);
      }
    }
  }

  // ---------- runs

  datatype Run = Run(states: seq<State>, steps: seq<Step>)

  ghost predicate IsRun(p: Params, r: Run)
    requires p.Valid()
  {
    && |r.states| == |r.steps| + 1
    && forall i :: 0 <= i < |r.steps| ==>
         (r.steps[i].Epoch? ==> r.steps[i].staking.Valid()) && r.states[i + 1] == Next(p, r.states[i], r.steps[i])
  }

  /**
   Over a run that starts right, commissions stay above their minima exactly as long as no
   validator is re-created below the minimum stored for its address.
   */
  lemma {:induction false} AlwaysAboveMinimumIff(p: Params, r: Run, n: nat)
    requires p.Valid() && IsRun(p, r) && n < |r.states| && AboveMinimum(r.states[0])
    ensures (forall i :: 0 <= i <= n ==> AboveMinimum(r.states[i]))
            <==> (forall i :: 0 <= i < n ==> StartsAboveMinimum(r.states[i], r.steps[i]))
  {
    hide AboveMinimum, StartsAboveMinimum, Next;
    if n > 0 {
      AlwaysAboveMinimumIff(p, r, n - 1);
      if AboveMinimum(r.states[n - 1]) {
        AboveMinimumKeptIff(p, r.states[n - 1], r.steps[n - 1]);
      }
      if forall i :: 0 <= i <= n ==> AboveMinimum(r.states[i]) {
        assert AboveMinimum(r.states[n]) && AboveMinimum(r.states[n - 1]);
      }
    }
  }

  lemma {:induction false} AlwaysBelowMaximumIff(p: Params, r: Run, n: nat)
    requires p.Valid() && IsRun(p, r) && n < |r.states| && BelowMaximum(r.states[0])
    ensures (forall i :: 0 <= i <= n ==> BelowMaximum(r.states[i]))
            <==> (forall i :: 0 <= i < n ==> StartsBelowMaximum(r.states[i], r.steps[i]))
  {
    hide BelowMaximum, StartsBelowMaximum, Next;
    if n > 0 {
      AlwaysBelowMaximumIff(p, r, n - 1);
      if BelowMaximum(r.states[n - 1]) {
        BelowMaximumKeptIff(p, r.states[n - 1], r.steps[n - 1]);
      }
      if forall i :: 0 <= i <= n ==> BelowMaximum(r.states[i]) {
        assert BelowMaximum(r.states[n]) && BelowMaximum(r.states[n - 1]);
      }
    }
  }

  /** Only validators that exist, or did once, have an entry. */
  ghost predicate NoRemovals(r: Run) {
    forall i :: 0 <= i < |r.steps| ==> !r.steps[i].Remove?
  }

  ghost predicate StoreTracksValidators(s: State) {
    forall a :: a in s.store ==> a in s.validators
  }

  lemma TracksStep(p: Params, s: State, step: Step)
    requires p.Valid() && (step.Epoch? ==> step.staking.Valid()) && StoreTracksValidators(s) && !step.Remove?
    ensures StoreTracksValidators(Next(p, s, step))
  {
    hide DynCommission, Passes, PerformedAll, Recorded, LastSetter, Effects;
    if Passes(s, step) {
      TransactionOnly(s, step);
      forall a | a in AfterTransaction(s, step).store ensures a in AfterTransaction(s, step).validators {
        RecordedStays(s, step, a);
      }
    }
  }

  lemma RecordedStays(s: State, step: Step, a: Addr)
    requires Passes(s, step) && StoreTracksValidators(s) && a in AfterTransaction(s, step).store
    ensures a in AfterTransaction(s, step).validators
  {
    hide PerformedAll, Recorded, LastSetter, Effects, EditsAllowed;
    RecordedAt(s.store, step.msgs, a);
    ValidatorsStay(s.validators, Effects(step.msgs), a);
    if LastSetter(step.msgs, a).Some? {
      LastSetterIn(step.msgs, a);
      TopLevelTakesEffect(step.msgs, LastSetter(step.msgs, a).value);
      RatesWithinMaximum(s.validators, Effects(step.msgs), LastSetter(step.msgs, a).value);
    }
  }

  /** Where only validators have entries, no creation meets a stale one. */
  lemma TrackedStarts(s: State, step: Step)
    requires StoreTracksValidators(s)
    ensures StartsAboveMinimum(s, step) && StartsBelowMaximum(s, step)
  {
    hide AfterTransaction, LastSetter, Effects, Passes;
    if Passes(s, step) {
      TransactionOnly(s, step);
      forall a | LastSetter(Effects(step.msgs), a).Some?
        ensures var m := LastSetter(Effects(step.msgs), a).value; m.CreateMsg? ==> a !in s.store && m.initial >= 0
      {
        SetterStays(s, step, a);
      }
      forall a | a in AfterTransaction(s, step).validators && a !in s.validators
        ensures AfterTransaction(s, step).validators[a].maxRate >= 0 && a !in s.store
      {
        CreatedMaximum(s, step, a);
      }
    }
  }

  lemma CreatedMaximum(s: State, step: Step, a: Addr)
    requires Passes(s, step) && a in AfterTransaction(s, step).validators && a !in s.validators
    ensures AfterTransaction(s, step).validators[a].maxRate >= 0
  {
    hide PerformedAll, Recorded, LastSetter, Effects, EditsAllowed;
    var effects := Effects(step.msgs);
    RateAfter(s.validators, effects, a);
    LastSetterIn(effects, a);
    RatesWithinMaximum(s.validators, effects, LastSetter(effects, a).value);
  }

  lemma {:induction false} StoreTracks(p: Params, r: Run, n: nat)
    requires p.Valid() && IsRun(p, r) && NoRemovals(r) && n < |r.states| && StoreTracksValidators(r.states[0])
    ensures StoreTracksValidators(r.states[n])
  {
    hide Next, StoreTracksValidators;
    if n > 0 {
      StoreTracks(p, r, n - 1);
      TracksStep(p, r.states[n - 1], r.steps[n - 1]);
    }
  }

  /**
   In every run of epochs, transactions and staking changes in which no validator is removed,
   each commission stays between its stored minimum and its maximum rate.
   */
  lemma CommissionsInRange(p: Params, r: Run, n: nat)
    requires p.Valid() && IsRun(p, r) && NoRemovals(r) && n < |r.states|
    requires AboveMinimum(r.states[0]) && BelowMaximum(r.states[0]) && StoreTracksValidators(r.states[0])
    ensures AboveMinimum(r.states[n]) && BelowMaximum(r.states[n])
  {
    hide AboveMinimum, BelowMaximum, Next, StartsAboveMinimum, StartsBelowMaximum;
    forall i | 0 <= i < n
      ensures StartsAboveMinimum(r.states[i], r.steps[i]) && StartsBelowMaximum(r.states[i], r.steps[i])
    {
      StoreTracks(p, r, i);
      TrackedStarts(r.states[i], r.steps[i]);
    }
    AlwaysAboveMinimumIff(p, r, n);
    AlwaysBelowMaximumIff(p, r, n);
  }

  /** A validator removed and created again below its old floor breaks the minimum at once. */
  lemma RecreatedBelowMinimum(p: Params, a: Addr, min: Dec, m: Msg)
    requires p.Valid() && m.CreateMsg? && m.operator == a && 0 <= m.initial < min && m.initial <= m.maxRate
    ensures var s := State(map[a := Validator(0, true, min, min)], map[a := Entry(min, min)]);
      var t := Next(p, s, Remove(a));
      AboveMinimum(s) && AboveMinimum(t) && !AboveMinimum(Next(p, t, Transaction([m], true)))
  {
    var s := State(map[a := Validator(0, true, min, min)], map[a := Entry(min, min)]);
    var t, step := Next(p, s, Remove(a)), Transaction([m], true);
    assert t == State(map[], map[a := Entry(min, min)]);
    LoneCreation(t, m);
    AboveMinimumKeptIff(p, t, step);
    assert !StartsAboveMinimum(t, step) by {
      assert MinOf(t.store, a) == min;
    }
  }

  /** An edit within bounds passes, sets the rate, and becomes the target. */
  lemma LoneEdit(p: Params, s: State, m: Msg)
    requires p.Valid() && m.EditMsg? && m.rate.Some? && m.operator in s.validators
    requires 0 <= m.rate.value <= s.validators[m.operator].maxRate && m.rate.value >= MinOf(s.store, m.operator)
    ensures var t := Next(p, s, Transaction([m], true));
      && t.validators == s.validators[m.operator := s.validators[m.operator].(rate := m.rate.value)]
      && t.store == s.store[m.operator := Entry(MinOf(s.store, m.operator), m.rate.value)]
  {
    assert [m][1..] == [] && [m][..0] == [];
    assert Effects([m]) == [m] + Effects([]) == [m];
    assert PerformedAll(s.validators, [m][..0]) == Some(s.validators);
    assert Recorded(s.store, [m][..0]) == s.store;
    assert EditAllowed(StoredFloors(s.store), m);
    assert EditsAllowed(StoredFloors(s.store), []) && !StaleError([], false);
    assert EditsAllowed(StoredFloors(s.store), [m]) && !StaleError([m], false);
    assert Passes(s, Transaction([m], true));
  }

  /** The same edit inside an authz message passes and sets the rate too, and no target is recorded. */
  lemma NestedEdit(p: Params, s: State, m: Msg)
    requires p.Valid() && m.EditMsg? && m.rate.Some? && m.operator in s.validators
    requires 0 <= m.rate.value <= s.validators[m.operator].maxRate && m.rate.value >= MinOf(s.store, m.operator)
    ensures var t := Next(p, s, Transaction([ExecMsg([m])], true));
      && t.validators == s.validators[m.operator := s.validators[m.operator].(rate := m.rate.value)]
      && t.store == s.store
  {
    var exec := ExecMsg([m]);
    var floors := StoredFloors(s.store);
    assert [m][1..] == [] && [m][..0] == [] && [exec][1..] == [] && [exec][..0] == [];
    assert Effects([m]) == [m] + Effects([]) == [m];
    assert Effects([exec]) == Effects([m]) + Effects([]) == [m];
    assert PerformedAll(s.validators, [m][..0]) == Some(s.validators);
    assert Recorded(s.store, [exec][..0]) == s.store;
    assert EditAllowed(floors, m);
    assert EditsAllowed(floors, []) && !StaleError([], false);
    assert EditsAllowed(floors, [m]) && !StaleError([m], false);
    assert EditsAllowed(floors, [exec]) && !StaleError([exec], false);
    assert Passes(s, Transaction([exec], true));
  }

  lemma LoneCreation(s: State, m: Msg)
    requires m.CreateMsg? && m.operator !in s.validators && 0 <= m.initial <= m.maxRate
    ensures Passes(s, Transaction([m], true))
    ensures LastSetter(Effects([m]), m.operator) == Some(m)
  {
    assert [m][1..] == [] && [m][..0] == [];
    assert Effects([m]) == [m] + Effects([]) == [m];
    assert PerformedAll(s.validators, [m][..0]) == Some(s.validators);
    assert EditsAllowed(StoredFloors(s.store), [m]);
    assert !StaleError([], false);
    assert !StaleError([m], false);
  }
}
