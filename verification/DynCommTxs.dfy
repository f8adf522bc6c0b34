/**
 Transactions that edit and create validators (x/dyncomm/ante/ante.go, x/dyncomm/post/post.go): the
 ante filter checks every edit it can reach, staking performs the messages in order, and the post
 handler records the rates of the top-level messages as targets.
 */
module DynCommTxs {
  import opened Decimals
  import opened Wrappers
  import opened DynComm

  datatype Validator = Validator(tokens: nat, bonded: bool, rate: Dec, maxRate: Dec)

  datatype Entry = Entry(min: Dec, target: Dec)

  type Validators = map<Addr, Validator>
  type Store = map<Addr, Entry>

  /** GetDynCommissionRate and GetTargetCommissionRate (dyncomm.go:84-106). */
  function MinOf(store: Store, a: Addr): Dec {
    if a in store then store[a].min else 0
  }

  function TargetOf(store: Store, a: Addr): Dec {
    if a in store then store[a].target else 0
  }

  function StoredFloors(store: Store): Floors {
    map a | a in store :: store[a].min
  }

  // ---------- what a transaction does

  /** The edits and creations that take effect, at any depth, in order. */
  function Effects(msgs: seq<Msg>): seq<Msg>
    decreases msgs
  {
    if msgs == [] then []
    else
      (match msgs[0]
       case EditMsg(_, _) => [msgs[0]]
       case CreateMsg(_, _, _, _) => [msgs[0]]
       case ExecMsg(inner) => Effects(inner)
       case ExecutePacket(inner, effective) => if effective then Effects(inner) else []
       case _ => [])
      + Effects(msgs[1..])
  }

  predicate SetsRate(m: Msg) {
    m.CreateMsg? || (m.EditMsg? && m.rate.Some?)
  }

  function RateIn(m: Msg): Dec
    requires SetsRate(m)
  {
    if m.CreateMsg? then m.initial else m.rate.value
  }

  /** What staking at least asks of an edit or a creation. */
  predicate Acceptable(vs: Validators, m: Msg) {
    match m
    case EditMsg(a, rate) => a in vs && (rate.Some? ==> 0 <= rate.value <= vs[a].maxRate)
    case CreateMsg(a, _, initial, maxRate) => a !in vs && 0 <= initial <= maxRate
    case _ => false
  }

  function Performed(vs: Validators, m: Msg): Validators
    requires Acceptable(vs, m)
  {
    match m
    case EditMsg(a, rate) => if rate.Some? then vs[a := vs[a].(rate := rate.value)] else vs
    case CreateMsg(a, tokens, initial, maxRate) => vs[a := Validator(tokens, false, initial, maxRate)]
  }

  /** All messages in order; None if one is not acceptable where it comes. */
  function PerformedAll(vs: Validators, ms: seq<Msg>): Option<Validators> {
    if ms == [] then Some(vs)
    else
      var before := PerformedAll(vs, ms[..|ms| - 1]);
      if before.None? || !Acceptable(before.value, ms[|ms| - 1]) then None
      else Some(Performed(before.value, ms[|ms| - 1]))
  }

  /** The last message that sets the rate of a validator. */
  function LastSetter(ms: seq<Msg>, a: Addr): Option<Msg> {
    if ms == [] then None
    else
      var m := ms[|ms| - 1];
      if SetsRate(m) && m.operator == a then Some(m) else LastSetter(ms[..|ms| - 1], a)
  }

  /** The targets the post handler records, of the messages at the top level (post.go:36-69). */
  function Recorded(store: Store, msgs: seq<Msg>): Store {
    if msgs == [] then store
    else
      var before, m := Recorded(store, msgs[..|msgs| - 1]), msgs[|msgs| - 1];
      if SetsRate(m) then before[m.operator := Entry(MinOf(before, m.operator), RateIn(m))] else before
  }

  // ---------- the filter reaches every effect

  /** No packet, at any depth, fails. */
  predicate PacketsSucceed(msgs: seq<Msg>)
    decreases msgs
  {
    msgs == [] ||
    (PacketsSucceed(msgs[1..]) &&
     match msgs[0]
     case ExecMsg(inner) => PacketsSucceed(inner)
     case ExecutePacket(inner, effective) => effective && PacketsSucceed(inner)
     case _ => true)
  }

  /** What takes effect is what the filter reaches of the edits and creations, all of it if no packet fails. */
  lemma {:induction false} EffectsReached(msgs: seq<Msg>, m: Msg)
    ensures m in Effects(msgs) ==> m in Reached(msgs) && (m.EditMsg? || m.CreateMsg?)
    ensures PacketsSucceed(msgs) && m in Reached(msgs) && (m.EditMsg? || m.CreateMsg?) ==> m in Effects(msgs)
    decreases msgs
  {
    if msgs != [] {
      EffectsReached(msgs[1..], m);
      match msgs[0]
      case ExecMsg(inner) => EffectsReached(inner, m);
      case ExecutePacket(inner, _) => EffectsReached(inner, m);
      case _ =>
    }
  }

  lemma {:induction false} EffectAllowed(floors: Floors, msgs: seq<Msg>, m: Msg)
    requires EditsAllowed(floors, msgs) && m in Effects(msgs) && m.EditMsg?
    ensures EditAllowed(floors, m)
    decreases msgs
  {
    if m in Effects(msgs[1..]) {
      EffectAllowed(floors, msgs[1..], m);
    } else {
      match msgs[0]
      case ExecMsg(inner) => EffectAllowed(floors, inner, m);
      case ExecutePacket(inner, _) => EffectAllowed(floors, inner, m);
      case _ =>
    }
  }

  lemma {:induction false} TopLevelTakesEffect(msgs: seq<Msg>, m: Msg)
    requires m in msgs && SetsRate(m)
    ensures m in Effects(msgs)
  {
    if m != msgs[0] {
      TopLevelTakesEffect(msgs[1..], m);
    }
  }

  lemma {:induction false} LastSetterIn(ms: seq<Msg>, a: Addr)
    requires LastSetter(ms, a).Some?
    ensures var m := LastSetter(ms, a).value; m in ms && SetsRate(m) && m.operator == a
  {
    var last := ms[|ms| - 1];
    if !(SetsRate(last) && last.operator == a) {
      LastSetterIn(ms[..|ms| - 1], a);
    }
  }

  // ---------- what performing messages leaves

  /** The rate of a validator is that of its last setter, or the one it had. */
  lemma {:induction false} RateAfter(vs: Validators, ms: seq<Msg>, a: Addr)
    requires PerformedAll(vs, ms).Some? && a in PerformedAll(vs, ms).value
    ensures var v := PerformedAll(vs, ms).value[a];
      match LastSetter(ms, a)
      case Some(m) => SetsRate(m) && v.rate == RateIn(m)
      case None => a in vs && v.rate == vs[a].rate
  {
    if ms != [] {
      var front, m := ms[..|ms| - 1], ms[|ms| - 1];
      if !(SetsRate(m) && m.operator == a) {
        RateAfter(vs, front, a);
      }
    }
  }

  /** Validators stay, with their maximum rate, and are only created where there was none. */
  lemma {:induction false} ValidatorsStay(vs: Validators, ms: seq<Msg>, a: Addr)
    requires PerformedAll(vs, ms).Some?
    ensures var ws := PerformedAll(vs, ms).value;
      a in vs ==> a in ws && ws[a].maxRate == vs[a].maxRate
    ensures a in vs ==> forall m :: m in ms && m.CreateMsg? ==> m.operator != a
  {
    if ms != [] {
      ValidatorsStay(vs, ms[..|ms| - 1], a);
      assert ms == ms[..|ms| - 1] + [ms[|ms| - 1]];
    }
  }

  /** Every rate a message sets lies between zero and the maximum rate its validator has in the end. */
  lemma {:induction false} RatesWithinMaximum(vs: Validators, ms: seq<Msg>, m: Msg)
    requires PerformedAll(vs, ms).Some? && m in ms && SetsRate(m)
    ensures var ws := PerformedAll(vs, ms).value; m.operator in ws && 0 <= RateIn(m) <= ws[m.operator].maxRate
  {
    var front, last := ms[..|ms| - 1], ms[|ms| - 1];
    if m in front {
      RatesWithinMaximum(vs, front, m);
    } else {
      assert ms == front + [last];
      assert m == last;
    }
  }

  // ---------- what recording leaves

  lemma {:induction false} RecordedAt(store: Store, msgs: seq<Msg>, a: Addr)
    ensures MinOf(Recorded(store, msgs), a) == MinOf(store, a)
    ensures match LastSetter(msgs, a)
      case Some(m) => SetsRate(m) && TargetOf(Recorded(store, msgs), a) == RateIn(m)
      case None => TargetOf(Recorded(store, msgs), a) == TargetOf(store, a)
    ensures a in Recorded(store, msgs) ==> a in store || LastSetter(msgs, a).Some?
  {
    if msgs != [] {
      RecordedAt(store, msgs[..|msgs| - 1], a);
    }
  }
}
