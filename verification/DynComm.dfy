/**
 Dynamic commission (x/dyncomm/keeper/dyncomm.go, x/dyncomm/ante/ante.go,
 x/dyncomm/post/post.go): a floor on validator commissions that grows with voting power, in
 18-digit fixed point, and the epochs and edits that keep commissions above it.
 */
module DynComm {
  import opened Decimals
  import opened Wrappers

  type Addr = string

  datatype Params = Params(maxZero: Dec, slopeBase: Dec, slopeVpImpact: Dec, cap: Dec)
  {
    /** Params.Validate (x/dyncomm/types/params.go). */
    predicate Valid() {
      0 <= maxZero <= ONE && slopeBase >= 0 && slopeVpImpact > 0 && 0 <= cap <= ONE
    }
  }

  /** What the calculation reads of the staking module. */
  datatype Staking = Staking(totalPower: nat, powerReduction: nat, minCommissionRate: nat)
  {
    predicate Valid() {
      totalPower > 0 && powerReduction > 0
    }
  }

  // ---------- the floor

  /** CalculateVotingPower (dyncomm.go:10-17): in percent. */
  function VotingPower(s: Staking, tokens: nat): Dec
    requires s.Valid()
  {
    QuoInt(FromInt(tokens / s.powerReduction), s.totalPower) * 100
  }

  /** The quadratic (dyncomm.go:24-34). */
  function Quadratic(p: Params, x: Dec): Dec
    requires p.Valid()
  {
    Mul(x - p.maxZero, Quo(x, p.slopeVpImpact) + p.slopeBase)
  }

  /** CalculateDynCommission (dyncomm.go:21-42). */
  function DynCommission(p: Params, s: Staking, tokens: nat): Dec
    requires p.Valid() && s.Valid()
  {
    var minComm, cap := s.minCommissionRate * 100, p.cap * 100;
    var y := Quadratic(p, VotingPower(s, tokens));
    var capped := if y > cap then cap else y;
    var floored := if minComm > capped then minComm else capped;
    QuoInt(floored, 100)
  }

  lemma VotingPowerMonotone(s: Staking, m: nat, n: nat)
    requires s.Valid() && m <= n
    ensures 0 <= VotingPower(s, m) <= VotingPower(s, n)
  {
    DivMonotone(m, n, s.powerReduction);
    DivAtLeast(m, s.powerReduction, 0);
    var a, b := m / s.powerReduction, n / s.powerReduction;
    TruncDivMonotone(FromInt(a), FromInt(b), s.totalPower);
    TruncDivMonotone(0, FromInt(a), s.totalPower);
    DivAtLeast(0, s.totalPower, 0);
    assert TruncDiv(0, s.totalPower) == 0;
  }

  // ---------- the value of the floor

  /** The voting power is the validator's share of the total power in percent, cut off after the last digit. */
  lemma VotingPowerExact(s: Staking, tokens: nat)
    requires s.Valid()
    ensures var x := VotingPower(s, tokens);
      s.totalPower * x <= 100 * ONE * (tokens / s.powerReduction) < s.totalPower * (x + 100)
  {
    var n := tokens / s.powerReduction;
    DivAtLeast(tokens, s.powerReduction, 0);
    var q := QuoInt(FromInt(n), s.totalPower);
    QuoIntCut(FromInt(n), s.totalPower);
    assert s.totalPower * (q * 100) == 100 * (s.totalPower * q);
    assert s.totalPower * (q * 100 + 100) == 100 * (s.totalPower * (q + 1));
  }

  function Absolute(x: int): nat {
    if x < 0 then -x else x
  }

  /** The quadratic before division: slopeVpImpact times (x - maxZero) * (x / slopeVpImpact + slopeBase). */
  function Formula(p: Params, x: Dec): int {
    (x - p.maxZero) * (x * ONE + p.slopeBase * p.slopeVpImpact)
  }

  /** y is (x - maxZero) * (x / slopeVpImpact + slopeBase), up to the rounding of quotient and product. */
  predicate IsQuadratic(p: Params, x: Dec, y: Dec) {
    var slack := p.slopeVpImpact * (ONE * ONE + Absolute(x - p.maxZero) * (ONE + 2));
    -slack <= 2 * ONE * (ONE * (p.slopeVpImpact * y) - Formula(p, x)) <= slack
  }

  lemma QuadraticExact(p: Params, x: Dec)
    requires p.Valid()
    ensures IsQuadratic(p, x, Quadratic(p, x))
  {
    hide Mul, Quo;
    var c, f, q := p.slopeVpImpact, x - p.maxZero, Quo(x, p.slopeVpImpact);
    var y, e := Quadratic(p, x), q * c - x * ONE;
    MulNearest(f, q + p.slopeBase);
    QuoNearest(x, c);
    ScaledError(f, 2 * ONE * e, c * (ONE + 2));
    ProductError(c, y * ONE - f * (q + p.slopeBase));
    ErrorTerms(c, f, q, p.slopeBase, x, y);
    SlackTerms(c, Absolute(f), f, e);
  }

  /** The errors of product and quotient add up to that of the quadratic. */
  lemma ErrorTerms(c: int, f: int, q: int, b: int, x: int, y: int)
    ensures ONE * (c * y) - f * (x * ONE + b * c) == c * (y * ONE - f * (q + b)) + f * (q * c - x * ONE)
  {
    assert c * (y * ONE - f * (q + b)) == ONE * (c * y) - c * (f * (q + b));
    assert c * (f * (q + b)) == f * (q * c) + f * (b * c);
    assert f * (x * ONE + b * c) == f * (x * ONE) + f * (b * c);
    assert f * (q * c - x * ONE) == f * (q * c) - f * (x * ONE);
  }

  lemma SlackTerms(c: int, m: int, f: int, e: int)
    ensures c * (ONE * ONE + m * (ONE + 2)) == c * (ONE * ONE) + m * (c * (ONE + 2))
    ensures f * (2 * ONE * e) == 2 * ONE * (f * e)
  {
  }

  lemma ScaledError(f: int, e: int, bound: int)
    requires -bound <= e <= bound
    ensures -(Absolute(f) * bound) <= f * e <= Absolute(f) * bound
  {
    if f >= 0 {
      ScaleMonotone(f, e, bound);
      ScaleMonotone(f, -bound, e);
    } else {
      ScaleMonotone(-f, e, bound);
      ScaleMonotone(-f, -bound, e);
      assert (-f) * e == -(f * e);
    }
  }

  lemma ProductError(c: int, e: int)
    requires c > 0 && -HALF <= e <= HALF
    ensures -(c * (ONE * ONE)) <= 2 * ONE * (c * e) <= c * (ONE * ONE)
  {
    ScaledGap(e, c);
  }

  /**
   The floor is a hundredth of the quadratic of the voting power, cut off, where that lies between
   the staking minimum and the cap; beyond the cap it is the cap or the minimum, whichever is
   larger, and below the minimum the minimum.
   */
  lemma FloorExact(p: Params, s: Staking, tokens: nat) returns (y: Dec)
    requires p.Valid() && s.Valid()
    ensures IsQuadratic(p, VotingPower(s, tokens), y)
    ensures var floor, min := DynCommission(p, s, tokens), s.minCommissionRate;
      if y > p.cap * 100 then floor == if p.cap > min then p.cap else min
      else if y < min * 100 then floor == min
      else IsCutQuotient(floor, y, 100)
  {
    hide Quadratic, VotingPower, IsQuadratic;
    y := Quadratic(p, VotingPower(s, tokens));
    QuadraticExact(p, VotingPower(s, tokens));
    QuoIntCut(y, 100);
  }

  // ---------- its shape

  /** Below the zero point the rounded quadratic is not positive. */
  lemma QuadraticBelow(p: Params, x: Dec)
    requires p.Valid() && 0 <= x <= p.maxZero
    ensures Quadratic(p, x) <= 0
  {
    var f, g := x - p.maxZero, Quo(x, p.slopeVpImpact) + p.slopeBase;
    QuoNonNegative(x, p.slopeVpImpact);
    assert f * g <= 0;
    ChopRoundNearest(f * g);
  }

  /** From the zero point on the rounded quadratic only grows. */
  lemma QuadraticMonotone(p: Params, x: Dec, y: Dec)
    requires p.Valid() && p.maxZero <= x <= y
    ensures Quadratic(p, x) <= Quadratic(p, y)
  {
    hide Mul, Quo;
    var a, b := x - p.maxZero, y - p.maxZero;
    var f, g := Quo(x, p.slopeVpImpact) + p.slopeBase, Quo(y, p.slopeVpImpact) + p.slopeBase;
    QuoMonotone(x, y, p.slopeVpImpact);
    QuoNonNegative(x, p.slopeVpImpact);
    MulMonotone(a, b, f);
    MulMonotone(f, g, b);
    MulCommutes(b, f);
    MulCommutes(b, g);
  }

  /** The floor lies between the staking minimum and the larger of the cap and that minimum. */
  lemma FloorInRange(p: Params, s: Staking, tokens: nat)
    requires p.Valid() && s.Valid()
    ensures s.minCommissionRate <= DynCommission(p, s, tokens)
    ensures DynCommission(p, s, tokens) <= if p.cap > s.minCommissionRate then p.cap else s.minCommissionRate
  {
    hide Quadratic, VotingPower;
  }

  /** A validator with more tokens never has a lower floor, below the zero point of the quadratic included. */
  lemma FloorMonotone(p: Params, s: Staking, m: nat, n: nat)
    requires p.Valid() && s.Valid() && m <= n
    ensures DynCommission(p, s, m) <= DynCommission(p, s, n)
  {
    hide Quadratic, VotingPower;
    var x, y := VotingPower(s, m), VotingPower(s, n);
    VotingPowerMonotone(s, m, n);
    if p.maxZero <= x {
      QuadraticMonotone(p, x, y);
    } else {
      QuadraticBelow(p, x);
      if y <= p.maxZero {
        QuadraticBelow(p, y);
      }
    }
  }

  // ---------- the message filter

  /**
   Authz and packet messages come with the messages they wrap, or undecodable; the messages of a
   packet take effect together or not at all, which does not decide about the packet itself.
   */
  datatype Msg =
    | EditMsg(operator: Addr, rate: Option<Dec>)
    | CreateMsg(operator: Addr, tokens: nat, initial: Dec, maxRate: Dec)
    | ExecMsg(inner: seq<Msg>)
    | UndecodableExec
    | ExecutePacket(inner: seq<Msg>, effective: bool)
    | UndecodableExecutePacket
    | OtherPacket
    | UndecodablePacket
    | OtherMsg

  type Floors = map<Addr, Dec>

  function FloorOf(floors: Floors, a: Addr): Dec {
    if a in floors then floors[a] else 0
  }

  /** ProcessEditValidator (ante.go:86-103): an intended rate below the floor is refused. */
  predicate EditAllowed(floors: Floors, m: Msg)
    requires m.EditMsg?
  {
    m.rate.Some? ==> m.rate.value >= FloorOf(floors, m.operator)
  }

  /** Every edit the filter can reach, at any depth of authz and packet nesting, respects the floors. */
  predicate EditsAllowed(floors: Floors, msgs: seq<Msg>)
    decreases msgs
  {
    msgs == [] ||
    (EditsAllowed(floors, msgs[1..]) &&
     match msgs[0]
     case EditMsg(_, _) => EditAllowed(floors, msgs[0])
     case ExecMsg(inner) => EditsAllowed(floors, inner)
     case ExecutePacket(inner, _) => EditsAllowed(floors, inner)
     case _ => true)
  }

  /** The messages the filter reaches, at any depth. */
  function Reached(msgs: seq<Msg>): seq<Msg>
    decreases msgs
  {
    if msgs == [] then []
    else
      (match msgs[0]
       case ExecMsg(inner) => Reached(inner)
       case ExecutePacket(inner, _) => Reached(inner)
       case _ => [msgs[0]])
      + Reached(msgs[1..])
  }

  /** Edits are allowed exactly if none that is reached intends a rate below the floor of its validator. */
  lemma {:induction false} EditsAllowedIff(floors: Floors, msgs: seq<Msg>)
    ensures EditsAllowed(floors, msgs) <==>
      forall m :: m in Reached(msgs) && m.EditMsg? && m.rate.Some? ==> m.rate.value >= FloorOf(floors, m.operator)
    decreases msgs
  {
    if msgs != [] {
      EditsAllowedIff(floors, msgs[1..]);
      match msgs[0]
      case ExecMsg(inner) => EditsAllowedIff(floors, inner);
      case ExecutePacket(inner, _) => EditsAllowedIff(floors, inner);
      case _ => assert msgs[0] in Reached(msgs);
    }
  }

  /**
   The error left by an undecodable packet is still pending when an undecodable authz message
   is met, with nothing but ignored messages in between.
   */
  predicate StaleError(msgs: seq<Msg>, pending: bool) {
    msgs != [] &&
    match msgs[0]
    case EditMsg(_, _) => StaleError(msgs[1..], false)
    case CreateMsg(_, _, _, _) => StaleError(msgs[1..], pending)
    case ExecMsg(inner) => StaleError(inner, false) || StaleError(msgs[1..], false)
    case UndecodableExec => pending || StaleError(msgs[1..], pending)
    case ExecutePacket(inner, _) => StaleError(inner, false) || StaleError(msgs[1..], false)
    case UndecodableExecutePacket => StaleError(msgs[1..], false)
    case OtherPacket => StaleError(msgs[1..], false)
    case UndecodablePacket => StaleError(msgs[1..], true)
    case OtherMsg => StaleError(msgs[1..], pending)
  }

  /** Without an undecodable packet no error is stale. */
  lemma {:induction false} NoStaleError(msgs: seq<Msg>)
    requires UndecodablePacket !in Reached(msgs)
    ensures !StaleError(msgs, false)
    decreases msgs
  {
    if msgs != [] {
      assert !msgs[0].ExecMsg? && !msgs[0].ExecutePacket? ==> msgs[0] in Reached(msgs);
      NoStaleError(msgs[1..]);
      if msgs[0].ExecMsg? {
        NoStaleError(msgs[0].inner);
      } else if msgs[0].ExecutePacket? {
        NoStaleError(msgs[0].inner);
      }
    }
  }

  /** An undecodable packet and then an undecodable authz message are refused, in the other order they are not. */
  lemma StaleErrorExample()
    ensures StaleError([UndecodablePacket, UndecodableExec], false)
    ensures !StaleError([UndecodableExec, UndecodablePacket], false)
  {
    assert [UndecodablePacket, UndecodableExec][1..] == [UndecodableExec];
    assert [UndecodableExec, UndecodablePacket][1..] == [UndecodablePacket];
    assert [UndecodablePacket][1..] == [];
    assert StaleError([UndecodableExec], true);
    assert !StaleError([], true);
    assert !StaleError([UndecodablePacket], false);
  }

  /**
   FilterMsgsAndProcessMsgs (ante.go:50-84), with its error variable carried across
   messages: it accepts exactly if every reachable edit respects its floor and no stale error
   is reported.
   */
  method FilterMsgs(floors: Floors, msgs: seq<Msg>) returns (ok: bool)
    ensures ok <==> EditsAllowed(floors, msgs) && !StaleError(msgs, false)
    decreases msgs
  {
    var err := false;
    var i := 0;
    assert msgs[0..] == msgs;
    while i < |msgs|
      invariant 0 <= i <= |msgs|
      invariant EditsAllowed(floors, msgs) <==> EditsAllowed(floors, msgs[i..])
      invariant StaleError(msgs, false) <==> StaleError(msgs[i..], err)
    {
      assert msgs[i..][1..] == msgs[i + 1..];
      assert msgs[i..][0] == msgs[i];
      var msg := msgs[i];
      i := i + 1;
      match msg {
        case EditMsg(_, _) =>
          err := !EditAllowed(floors, msg);
        case ExecMsg(inner) =>
          var accepted := FilterMsgs(floors, inner);
          err := !accepted;
        case UndecodableExec =>
        case ExecutePacket(inner, _) =>
          var accepted := FilterMsgs(floors, inner);
          err := !accepted;
        case UndecodableExecutePacket =>
          err := false;
        case OtherPacket =>
          err := false;
          continue;
        case UndecodablePacket =>
          err := true;
          continue;
        case CreateMsg(_, _, _, _) =>
          continue;
        case OtherMsg =>
          continue;
      }
      if err {
        return false;
      }
    }
    ok := true;
  }
}
