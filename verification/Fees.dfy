/**
 The fee decorator (custom/auth/ante/fee.go): one pass decides how a fee splits into gas, tax
 and refund, a second pass redoes the split to deduct it. Taxes are given per message; how
 they are computed is left out.
 */
module Fees {
  import opened Decimals
  import opened Seqs
  import opened Wrappers

  type Addr = string
  type Denom = string

  // ---------- coins

  /** sdk.Coins: absent means zero, and a valid set lists no zero. */
  type Coins = map<Denom, nat>

  predicate Valid(c: Coins) {
    forall d :: d in c ==> c[d] > 0
  }

  function Amount(c: Coins, d: Denom): nat {
    if d in c then c[d] else 0
  }

  predicate IsZero(c: Coins) {
    forall d :: d in c ==> c[d] == 0
  }

  predicate AllGTE(a: Coins, b: Coins) {
    forall d :: d in b ==> b[d] <= Amount(a, d)
  }

  predicate AnyGTE(a: Coins, b: Coins) {
    exists d :: d in a && a[d] >= Amount(b, d) && Amount(b, d) != 0
  }

  /** Subtraction, defined where the source does not panic. */
  function Sub(a: Coins, b: Coins): (r: Coins)
    requires AllGTE(a, b)
    ensures Valid(r) && forall d :: Amount(r, d) == Amount(a, d) - Amount(b, d)
  {
    map d | d in a && a[d] > Amount(b, d) :: a[d] - Amount(b, d)
  }

  function Add(a: Coins, b: Coins): (r: Coins)
    ensures Valid(a) && Valid(b) ==> Valid(r)
    ensures forall d :: Amount(r, d) == Amount(a, d) + Amount(b, d)
  {
    map d | d in a.Keys + b.Keys :: Amount(a, d) + Amount(b, d)
  }

  lemma CoinsEqual(a: Coins, b: Coins)
    requires Valid(a) && Valid(b) && forall d :: Amount(a, d) == Amount(b, d)
    ensures a == b
  {
    forall d ensures d in a <==> d in b {
      assert Amount(a, d) == Amount(b, d);
    }
    forall d | d in a ensures a[d] == b[d] {
      assert Amount(a, d) == Amount(b, d);
    }
  }

  // ---------- messages and their taxes

  datatype Msg =
    | OracleMsg
    | TaxedMsg(tax: Coins)
    | RefundableMsg(tax: Coins)
    | ExecMsg(msgs: seq<Msg>)
    | OtherMsg

  /** IsOracleTx (app/helper/helper.go). */
  predicate IsOracleTx(msgs: seq<Msg>) {
    msgs != [] && forall i :: 0 <= i < |msgs| ==> msgs[i].OracleMsg?
  }

  /** FilterMsgAndComputeTax (fee_tax.go:23-81): taxes, and taxes that may be refunded. */
  function ComputeTaxes(msgs: seq<Msg>): (r: (Coins, Coins))
    ensures (forall i :: 0 <= i < |msgs| ==> TaxesValid(msgs[i])) ==> Valid(r.0) && Valid(r.1)
  {
    if msgs == [] then (map[], map[])
    else
      var head := match msgs[0]
        case TaxedMsg(tax) => (tax, map[])
        case RefundableMsg(tax) => (map[], tax)
        case ExecMsg(inner) => ComputeTaxes(inner)
        case _ => (map[], map[]);
      var rest := ComputeTaxes(msgs[1..]);
      assert forall i :: 0 <= i < |msgs[1..]| ==> msgs[1..][i] == msgs[i + 1];
      (Add(head.0, rest.0), Add(head.1, rest.1))
  }

  predicate TaxesValid(m: Msg) {
    match m
    case TaxedMsg(tax) => Valid(tax)
    case RefundableMsg(tax) => Valid(tax)
    case ExecMsg(msgs) => forall i :: 0 <= i < |msgs| ==> TaxesValid(msgs[i])
    case _ => true
  }

  /** The messages of a transaction at any depth of authz nesting. */
  function Leaves(msgs: seq<Msg>): seq<Msg>
    decreases msgs
  {
    if msgs == [] then []
    else (if msgs[0].ExecMsg? then Leaves(msgs[0].msgs) else [msgs[0]]) + Leaves(msgs[1..])
  }

  function TaxIn(d: Denom): Msg -> int {
    (m: Msg) => if m.TaxedMsg? then Amount(m.tax, d) else 0
  }

  function RefundableIn(d: Denom): Msg -> int {
    (m: Msg) => if m.RefundableMsg? then Amount(m.tax, d) else 0
  }

  /** Taxes and refundable taxes are the sums over all messages, nested ones included. */
  lemma {:induction false} TaxesAddUp(msgs: seq<Msg>, d: Denom)
    ensures Amount(ComputeTaxes(msgs).0, d) == Sum(Leaves(msgs), TaxIn(d))
    ensures Amount(ComputeTaxes(msgs).1, d) == Sum(Leaves(msgs), RefundableIn(d))
    decreases msgs
  {
    if msgs != [] {
      var head := if msgs[0].ExecMsg? then Leaves(msgs[0].msgs) else [msgs[0]];
      TaxesAddUp(msgs[1..], d);
      if msgs[0].ExecMsg? {
        TaxesAddUp(msgs[0].msgs, d);
      } else {
        SumSingle(msgs[0], TaxIn(d));
        SumSingle(msgs[0], RefundableIn(d));
      }
      SumAppend(head, Leaves(msgs[1..]), TaxIn(d));
      SumAppend(head, Leaves(msgs[1..]), RefundableIn(d));
    }
  }

  /** A transaction of oracle messages only is never taxed. */
  lemma {:induction false} OracleTxUntaxed(msgs: seq<Msg>)
    requires forall i :: 0 <= i < |msgs| ==> msgs[i].OracleMsg?
    ensures ComputeTaxes(msgs) == (map[], map[])
  {
    if msgs != [] {
      assert msgs[0].OracleMsg?;
      OracleTxUntaxed(msgs[1..]);
    }
  }

  // ---------- the first pass

  /** A minimum fee, rounded up (fee.go:249-258). */
  function CeilFee(price: Dec, gas: nat): int {
    var x := Mul(price, FromInt(gas));
    if x % ONE == 0 then x / ONE else x / ONE + 1
  }

  function GasFees(prices: map<Denom, nat>, gas: nat): Coins {
    map d | d in prices :: CeilNonNegative(prices[d], gas); CeilFee(prices[d], gas)
  }

  lemma CeilNonNegative(price: nat, gas: nat)
    ensures CeilFee(price, gas) >= 0
    ensures price * gas <= FromInt(CeilFee(price, gas)) < price * gas + ONE
  {
    MulCommutes(price, FromInt(gas));
    MulWhole(gas, price);
  }

  /** The gas fee of a denom is the least whole amount that covers price times gas, for the priced denoms only. */
  lemma GasFeeOf(prices: map<Denom, nat>, gas: nat, d: Denom)
    ensures d !in prices ==> Amount(GasFees(prices, gas), d) == 0
    ensures d in prices ==>
      prices[d] * gas <= FromInt(Amount(GasFees(prices, gas), d)) < prices[d] * gas + ONE
  {
    if d in prices {
      CeilNonNegative(prices[d], gas);
    }
  }

  predicate CoversGas(remaining: Coins, gasFees: Coins) {
    IsZero(gasFees) || AnyGTE(remaining, gasFees)
  }

  datatype Split = Split(reverseCharge: bool, refund: bool, remaining: Coins)

  /** The fees left after tax: the tax is not taken if the fees would then miss the gas (fee.go:260-278). */
  function AfterTax(fee: Coins, taxes: Coins, gasFees: Coins): (r: (bool, Coins))
    ensures !r.0 ==> AllGTE(fee, taxes)
  {
    if IsZero(taxes) then (false, fee)
    else if !AllGTE(fee, taxes) then (true, fee)
    else if !CoversGas(Sub(fee, taxes), gasFees) then (true, fee)
    else (false, Sub(fee, taxes))
  }

  /** The decision of checkTxFee on a transaction that is not an oracle transaction (fee.go:246-303). */
  function Decide(fee: Coins, taxes: Coins, refundable: Coins, gasFees: Coins): Split {
    var (reverseCharge, remaining) := AfterTax(fee, taxes, gasFees);
    if !IsZero(refundable) && AllGTE(remaining, refundable) && CoversGas(Sub(remaining, refundable), gasFees)
    then Split(reverseCharge, true, Sub(remaining, refundable))
    else Split(reverseCharge, false, remaining)
  }

  /** checkTxFee (fee.go:231-312); None is the error of insufficient fees. */
  method CheckTxFee(fee: Coins, taxes: Coins, refundable: Coins, gasFees: Coins, isOracleTx: bool)
    returns (split: Option<Split>)
    ensures isOracleTx ==> split == Some(Split(false, false, fee))
    ensures !isOracleTx ==>
      var d := Decide(fee, taxes, refundable, gasFees);
      split == if CoversGas(d.remaining, gasFees) then Some(d) else None
    ensures !isOracleTx && split.Some? && Valid(fee) && Valid(taxes) && Valid(refundable) ==>
      && (split.value.reverseCharge <==> ReverseCharged(fee, taxes, gasFees))
      && (split.value.refund <==> RefundGranted(fee, TaxTaken(fee, taxes, gasFees), refundable, gasFees))
  {
    hide RefundGranted, ReverseCharged, TaxTaken, RefundGiven;
    var reverseCharge, refundNonTaxableTaxes, remainingFees := false, false, fee;
    if !isOracleTx {
      if Valid(fee) && Valid(taxes) && Valid(refundable) {
        DecideExact(fee, taxes, refundable, gasFees);
      }
      if !IsZero(taxes) {
        if !AllGTE(remainingFees, taxes) {
          reverseCharge := true;
        } else {
          remainingFees := Sub(remainingFees, taxes);
          if !IsZero(gasFees) && !AnyGTE(remainingFees, gasFees) {
            reverseCharge := true;
            remainingFees := fee;
          }
        }
      }
      if !IsZero(refundable) && AllGTE(remainingFees, refundable) {
        var feeCoinsAfterTax := Sub(remainingFees, refundable);
        if !IsZero(gasFees) && !AnyGTE(feeCoinsAfterTax, gasFees) {
          refundNonTaxableTaxes := false;
        } else {
          refundNonTaxableTaxes := true;
          remainingFees := feeCoinsAfterTax;
        }
      }
      if !IsZero(gasFees) && !AnyGTE(remainingFees, gasFees) {
        return None;
      }
    }
    split := Some(Split(reverseCharge, refundNonTaxableTaxes, remainingFees));
  }

  // ---------- the second pass

  function Max(a: nat, b: nat): nat {
    if a < b then b else a
  }

  /** In simulation a fee below the tax is raised to it (fee.go:128-145). */
  ghost predicate IsRaised(fee: Coins, taxes: Coins, r: Coins) {
    Valid(r) && forall d :: Amount(r, d) == Max(Amount(fee, d), Amount(taxes, d))
  }

  method RaiseToTaxes(fee: Coins, taxes: Coins) returns (feesOrTax: Coins)
    requires Valid(fee) && Valid(taxes)
    ensures IsRaised(fee, taxes, feesOrTax)
  {
    feesOrTax := fee;
    if IsZero(fee) {
      feesOrTax := taxes;
    }
    var rest := taxes.Keys;
    while rest != {}
      invariant rest <= taxes.Keys && Valid(feesOrTax)
      invariant forall d :: d in taxes && d !in rest ==> Amount(feesOrTax, d) == Max(Amount(fee, d), taxes[d])
      invariant forall d :: d !in taxes || d in rest ==>
        Amount(feesOrTax, d) == if fee == map[] then Amount(taxes, d) else Amount(fee, d)
    {
      var denom :| denom in rest;
      rest := rest - {denom};
      var feeAmount := Amount(feesOrTax, denom);
      if feeAmount == 0 {
        feesOrTax := Add(feesOrTax, map[denom := taxes[denom]]);
      } else if feeAmount < taxes[denom] {
        var missing := taxes[denom] - feeAmount;
        feesOrTax := Add(feesOrTax, map[denom := missing]);
      }
    }
  }

  /** A refundable tax is taken off where enough is left (fee.go:183-196). */
  function Refunded(left: Coins, refundable: Coins): (r: Coins)
    ensures forall d :: Amount(r, d) == if Amount(left, d) >= Amount(refundable, d) then Amount(refundable, d) else 0
    ensures AllGTE(left, r)
  {
    map d | d in refundable && Amount(left, d) >= refundable[d] :: refundable[d]
  }

  method TakeRefunds(left: Coins, refundable: Coins) returns (deductFees: Coins)
    requires Valid(left) && Valid(refundable)
    ensures deductFees == Sub(left, Refunded(left, refundable))
  {
    deductFees := left;
    var rest := refundable.Keys;
    while rest != {}
      invariant rest <= refundable.Keys && Valid(deductFees)
      invariant forall d ::
        Amount(deductFees, d) == Amount(left, d) - (if d in rest then 0 else Amount(Refunded(left, refundable), d))
    {
      var denom :| denom in rest;
      rest := rest - {denom};
      if Amount(deductFees, denom) >= refundable[denom] {
        deductFees := Sub(deductFees, map[denom := refundable[denom]]);
      }
    }
    CoinsEqual(deductFees, Sub(left, Refunded(left, refundable)));
  }

  /** A refund granted in the first pass is taken in full in the second. */
  lemma RefundInFull(left: Coins, refundable: Coins)
    requires AllGTE(left, refundable) && Valid(refundable)
    ensures Refunded(left, refundable) == refundable
  {
  }

  // ---------- the two passes agree

  /** What the second pass deducts outside simulation, given the decision of the first. */
  function Deducted(fee: Coins, taxes: Coins, refundable: Coins, split: Split): Coins
    requires split.reverseCharge || AllGTE(fee, taxes)
  {
    var due := if split.reverseCharge then map[] else taxes;
    var back := if split.refund then refundable else map[];
    Sub(Sub(fee, due), Refunded(Sub(fee, due), back))
  }

  /**
   Outside simulation the coins deducted are exactly the fees that were checked against gas,
   so the fee is what is deducted, plus the tax unless it is reverse charged, plus the refund
   if it was granted; and the fee never falls short of the tax it is reduced by.
   */
  lemma PassesAgree(fee: Coins, taxes: Coins, refundable: Coins, gasFees: Coins)
    requires Valid(fee) && Valid(taxes) && Valid(refundable)
    ensures var split := Decide(fee, taxes, refundable, gasFees);
      && (split.reverseCharge || AllGTE(fee, taxes))
      && Deducted(fee, taxes, refundable, split) == split.remaining
      && (split.refund ==> AllGTE(if split.reverseCharge then fee else Sub(fee, taxes), refundable))
      && forall d :: Amount(fee, d) == Amount(split.remaining, d)
           + (if split.reverseCharge then 0 else Amount(taxes, d)) + (if split.refund then Amount(refundable, d) else 0)
  {
    hide CoversGas, AfterTax;
    AfterTaxDue(fee, taxes, gasFees);
    var split := Decide(fee, taxes, refundable, gasFees);
    var left := Sub(fee, if split.reverseCharge then map[] else taxes);
    if split.refund {
      RefundInFull(left, refundable);
    } else {
      NoRefund(left);
    }
  }

  /** Whatever coins are taken off, gas that the rest covers was covered by the whole. */
  lemma CoversGasMonotone(fee: Coins, off: Coins, gasFees: Coins)
    requires AllGTE(fee, off) && CoversGas(Sub(fee, off), gasFees)
    ensures CoversGas(fee, gasFees)
  {
    if !IsZero(gasFees) {
      var left := Sub(fee, off);
      var d :| d in left && left[d] >= Amount(gasFees, d) && Amount(gasFees, d) != 0;
      assert Amount(left, d) == Amount(fee, d) - Amount(off, d);
    }
  }

  /**
   Neither tax nor refund can make a fee fail: after the whole decision the remaining fees
   cover gas exactly if the fee as paid does.
   */
  lemma GasAloneDecides(fee: Coins, taxes: Coins, refundable: Coins, gasFees: Coins)
    requires Valid(fee) && Valid(taxes) && Valid(refundable)
    ensures CoversGas(Decide(fee, taxes, refundable, gasFees).remaining, gasFees) <==> CoversGas(fee, gasFees)
  {
    hide CoversGas;
    var (reverseCharge, remaining) := AfterTax(fee, taxes, gasFees);
    AfterTaxDue(fee, taxes, gasFees);
    var due := if reverseCharge then map[] else taxes;
    if CoversGas(Sub(fee, due), gasFees) {
      CoversGasMonotone(fee, due, gasFees);
    }
    if AllGTE(remaining, refundable) && CoversGas(Sub(remaining, refundable), gasFees) {
      CoversGasMonotone(remaining, refundable, gasFees);
    }
  }

  // ---------- the decision in amounts

  ghost predicate GasAsked(gasFees: Coins) {
    exists d :: Amount(gasFees, d) > 0
  }

  /** What is left of a fee reaches the gas fee in some denom that has one, if any has. */
  ghost predicate GasMet(gasFees: Coins, fee: Coins, due: Coins, back: Coins) {
    GasAsked(gasFees) ==>
      exists d :: Amount(gasFees, d) > 0 && Amount(fee, d) - Amount(due, d) - Amount(back, d) >= Amount(gasFees, d)
  }

  /** There is a tax, and the fee falls short of it, or of tax and gas together. */
  ghost predicate ReverseCharged(fee: Coins, taxes: Coins, gasFees: Coins) {
    && (exists d :: Amount(taxes, d) > 0)
    && ((exists d :: Amount(taxes, d) > Amount(fee, d)) || !GasMet(gasFees, fee, taxes, map[]))
  }

  /** There is something to refund, it fits into what the tax leaves, and gas is still met. */
  ghost predicate RefundGranted(fee: Coins, due: Coins, refundable: Coins, gasFees: Coins) {
    && (exists d :: Amount(refundable, d) > 0)
    && (forall d :: Amount(refundable, d) <= Amount(fee, d) - Amount(due, d))
    && GasMet(gasFees, fee, due, refundable)
  }

  ghost function TaxTaken(fee: Coins, taxes: Coins, gasFees: Coins): Coins {
    if ReverseCharged(fee, taxes, gasFees) then map[] else taxes
  }

  ghost function RefundGiven(fee: Coins, taxes: Coins, refundable: Coins, gasFees: Coins): Coins {
    if RefundGranted(fee, TaxTaken(fee, taxes, gasFees), refundable, gasFees) then refundable else map[]
  }

  lemma CoversGasIff(gasFees: Coins, left: Coins, fee: Coins, due: Coins, back: Coins)
    requires forall d :: Amount(left, d) == Amount(fee, d) - Amount(due, d) - Amount(back, d)
    ensures CoversGas(left, gasFees) <==> GasMet(gasFees, fee, due, back)
  {
    if CoversGas(left, gasFees) && GasAsked(gasFees) {
      var e :| Amount(gasFees, e) > 0;
      var d :| d in left && left[d] >= Amount(gasFees, d) && Amount(gasFees, d) != 0;
      assert Amount(left, d) == left[d];
    }
    if GasMet(gasFees, fee, due, back) && !IsZero(gasFees) {
      var e :| e in gasFees && gasFees[e] != 0;
      assert Amount(gasFees, e) > 0;
      var d :| Amount(gasFees, d) > 0 && Amount(fee, d) - Amount(due, d) - Amount(back, d) >= Amount(gasFees, d);
      assert Amount(left, d) >= Amount(gasFees, d);
      assert d in left;
    }
  }

  lemma NonZeroIff(c: Coins)
    ensures !IsZero(c) <==> exists d :: Amount(c, d) > 0
  {
    if !IsZero(c) {
      var d :| d in c && c[d] != 0;
      assert Amount(c, d) > 0;
    }
  }

  lemma AllGTEIff(a: Coins, b: Coins)
    ensures AllGTE(a, b) <==> forall d :: Amount(b, d) <= Amount(a, d)
  {
    if forall d :: Amount(b, d) <= Amount(a, d) {
      forall d | d in b ensures b[d] <= Amount(a, d) {
        assert Amount(b, d) == b[d];
      }
    }
  }

  /** The tax is reverse charged, and the refund granted, exactly where the amounts say so. */
  lemma TaxExact(fee: Coins, taxes: Coins, gasFees: Coins)
    requires Valid(fee) && Valid(taxes)
    ensures AfterTax(fee, taxes, gasFees).0 <==> ReverseCharged(fee, taxes, gasFees)
  {
    hide CoversGas, GasMet, AllGTE;
    NonZeroIff(taxes);
    AllGTEIff(fee, taxes);
    if AllGTE(fee, taxes) {
      CoversGasIff(gasFees, Sub(fee, taxes), fee, taxes, map[]);
    }
  }

  lemma DecideExact(fee: Coins, taxes: Coins, refundable: Coins, gasFees: Coins)
    requires Valid(fee) && Valid(taxes) && Valid(refundable)
    ensures var split, due := Decide(fee, taxes, refundable, gasFees), TaxTaken(fee, taxes, gasFees);
      && (split.reverseCharge <==> ReverseCharged(fee, taxes, gasFees))
      && (split.refund <==> RefundGranted(fee, due, refundable, gasFees))
      && forall d :: Amount(split.remaining, d)
           == Amount(fee, d) - Amount(due, d) - Amount(RefundGiven(fee, taxes, refundable, gasFees), d)
  {
    hide CoversGas, GasMet, AllGTE, AfterTax, ReverseCharged;
    TaxExact(fee, taxes, gasFees);
    AfterTaxDue(fee, taxes, gasFees);
    var due, left := TaxTaken(fee, taxes, gasFees), AfterTax(fee, taxes, gasFees).1;
    assert forall d :: Amount(left, d) == Amount(fee, d) - Amount(due, d);
    NonZeroIff(refundable);
    AllGTEIff(left, refundable);
    if AllGTE(left, refundable) {
      CoversGasIff(gasFees, Sub(left, refundable), fee, due, refundable);
    }
  }

  /** The fees left after tax are the fee without what is due. */
  lemma AfterTaxDue(fee: Coins, taxes: Coins, gasFees: Coins)
    requires Valid(fee) && Valid(taxes)
    ensures var (reverseCharge, remaining) := AfterTax(fee, taxes, gasFees);
      var due := if reverseCharge then map[] else taxes;
      AllGTE(fee, due) && remaining == Sub(fee, due) && Valid(remaining)
  {
    hide CoversGas;
    CoinsEqual(Sub(fee, map[]), fee);
    assert IsZero(taxes) ==> taxes == map[];
  }

  lemma NoRefund(left: Coins)
    requires Valid(left)
    ensures Refunded(left, map[]) == map[] && Sub(left, map[]) == left
  {
    CoinsEqual(Sub(left, map[]), left);
  }

  // ---------- the decorator

  datatype Tx = Tx(
    fee: Coins, gas: nat, msgs: seq<Msg>, payer: Addr,
    granter: Option<Addr>, grantAllowed: bool)
  {
    predicate WellFormed() {
      Valid(fee) && forall i :: 0 <= i < |msgs| ==> TaxesValid(msgs[i])
    }

    /** The account the fee is deducted from (fee.go:101-119). */
    function Source(): Addr {
      if granter.Some? then granter.value else payer
    }
  }

  datatype Error = InvalidGasLimit | InsufficientFee | GrantRefused | UnknownAddress | InsufficientFunds

  /** Result of the decorator: the tax left for later, and what moved. */
  datatype Outcome = Outcome(reverseCharge: bool, taxDue: Coins, refunded: Coins, deducted: Coins, minted: Coins)

  const COLLECTOR: Addr := "fee_collector"

  type Account = (Addr, Denom)

  function BalanceOf(b: map<Account, nat>, a: Addr, d: Denom): nat {
    if (a, d) in b then b[(a, d)] else 0
  }

  /** One account gained coins, another lost coins, in every denom. */
  ghost predicate Moved(b: map<Account, nat>, b': map<Account, nat>, a: Addr, gain: Coins, loss: Coins) {
    forall x, d ::
      BalanceOf(b', x, d) == BalanceOf(b, x, d)
        + (if x == a then Amount(gain, d) - Amount(loss, d) else 0) + (if x == COLLECTOR then Amount(loss, d) else 0)
  }

  lemma NothingMoved(b: map<Account, nat>, a: Addr)
    ensures Moved(b, b, a, map[], map[])
  {
    var none: Coins := map[];
    assert forall d :: Amount(none, d) == 0;
  }

  lemma MovedTwice(b: map<Account, nat>, b': map<Account, nat>, b'': map<Account, nat>,
                   a: Addr, gain: Coins, loss: Coins)
    requires Moved(b, b', a, gain, map[]) && Moved(b', b'', a, map[], loss)
    ensures Moved(b, b'', a, gain, loss)
  {
    var none: Coins := map[];
    assert forall d :: Amount(none, d) == 0;
  }

  lemma RaisedIsValid(fee: Coins, taxes: Coins, r: Coins)
    requires IsRaised(fee, taxes, r)
    ensures Valid(r)
  {
  }

  lemma BaseIsSplit(fee: Coins, base: Coins, taxes: Coins, refundable: Coins, o: Outcome)
    requires AllGTE(base, taxes) && o.taxDue == taxes
    requires o.refunded == Refunded(Sub(base, taxes), refundable) && o.deducted == DeductedFrom(base, taxes, refundable)
    requires forall d :: Amount(base, d) == Amount(fee, d) + Amount(o.minted, d)
    ensures SplitsBase(fee, base, taxes, refundable, o)
  {
  }

  function Restrict(c: Coins, s: set<Denom>): Coins {
    map d | d in c && d in s :: c[d]
  }

  /** What leaves the payer in the second pass: the base fee without tax and refunds. */
  function DeductedFrom(base: Coins, taxes: Coins, refundable: Coins): Coins
    requires AllGTE(base, taxes)
  {
    Sub(Sub(base, taxes), Refunded(Sub(base, taxes), refundable))
  }

  /** The outcome of the second pass: the base fee splits without remainder, and what it adds to the fee is minted. */
  ghost predicate SplitsBase(fee: Coins, base: Coins, taxes: Coins, refundable: Coins, o: Outcome) {
    && AllGTE(base, taxes) && o.taxDue == taxes
    && o.refunded == Refunded(Sub(base, taxes), refundable)
    && o.deducted == DeductedFrom(base, taxes, refundable)
    && (forall d :: Amount(base, d) == Amount(o.deducted, d) + Amount(o.taxDue, d) + Amount(o.refunded, d))
    && (forall d :: Amount(base, d) == Amount(fee, d) + Amount(o.minted, d))
  }

  /** The account the fee comes from exists, and its grant, if one is needed, allows the fee (fee.go:106-124). */
  predicate MayPay(tx: Tx, accounts: set<Addr>) {
    && (tx.granter.Some? && tx.granter.value != tx.payer ==> tx.grantAllowed)
    && tx.Source() in accounts
  }

  /** What simulation deducts in a denom: the fee raised to the tax, without the tax and without a refund that fits. */
  function SimulatedCharge(fee: nat, tax: nat, refundable: nat): nat {
    var left := Max(fee, tax) - tax;
    if left >= refundable then left - refundable else left
  }

  /** The source can pay in simulation, where what the tax adds to the fee is minted first. */
  ghost predicate CanSimulate(tx: Tx, taxes: Coins, refundable: Coins, balances: map<Account, nat>) {
    forall d ::
      BalanceOf(balances, tx.Source(), d) + Max(Amount(tx.fee, d), Amount(taxes, d)) - Amount(tx.fee, d)
        >= SimulatedCharge(Amount(tx.fee, d), Amount(taxes, d), Amount(refundable, d))
  }

  lemma SimulationFunds(tx: Tx, taxes: Coins, refundable: Coins, base: Coins, minted: Coins,
                        b: map<Account, nat>, b': map<Account, nat>)
    requires IsRaised(tx.fee, taxes, base) && AllGTE(base, taxes) && tx.Source() != COLLECTOR
    requires forall d :: Amount(base, d) == Amount(tx.fee, d) + Amount(minted, d)
    requires Moved(b, b', tx.Source(), minted, map[])
    ensures CanSimulate(tx, taxes, refundable, b)
      <==> forall d :: BalanceOf(b', tx.Source(), d) >= Amount(DeductedFrom(base, taxes, refundable), d)
  {
    hide Moved, DeductedFrom;
    forall d
      ensures BalanceOf(b', tx.Source(), d) == BalanceOf(b, tx.Source(), d) + Amount(minted, d)
      ensures Amount(DeductedFrom(base, taxes, refundable), d)
        == SimulatedCharge(Amount(tx.fee, d), Amount(taxes, d), Amount(refundable, d))
    {
      MovedAt(b, b', tx.Source(), minted, d);
      DeductedAt(base, taxes, refundable, d);
    }
  }

  lemma MovedAt(b: map<Account, nat>, b': map<Account, nat>, a: Addr, gain: Coins, d: Denom)
    requires Moved(b, b', a, gain, map[]) && a != COLLECTOR
    ensures BalanceOf(b', a, d) == BalanceOf(b, a, d) + Amount(gain, d)
  {
  }

  lemma DeductedAt(base: Coins, taxes: Coins, refundable: Coins, d: Denom)
    requires AllGTE(base, taxes)
    ensures var left := Amount(base, d) - Amount(taxes, d);
      Amount(DeductedFrom(base, taxes, refundable), d) ==
        if left >= Amount(refundable, d) then left - Amount(refundable, d) else left
  {
  }

  class Decorator {
    var accounts: set<Addr>
    var balances: map<Account, nat>
    var gasPrices: map<Denom, nat>
    var height: nat

    constructor (accounts: set<Addr>, balances: map<Account, nat>, gasPrices: map<Denom, nat>, height: nat)
      ensures this.accounts == accounts && this.balances == balances
      ensures this.gasPrices == gasPrices && this.height == height
    {
      this.accounts, this.balances, this.gasPrices, this.height := accounts, balances, gasPrices, height;
    }

    /** MintCoins and the transfer to the account (fee.go:156-165). */
    method MintTo(a: Addr, coins: Coins)
      modifies this`balances
      ensures Moved(old(balances), balances, a, coins, map[])
    {
      var rest := coins.Keys;
      ghost var done: set<Denom> := {};
      assert Restrict(coins, done) == map[];
      NothingMoved(balances, a);
      while rest != {}
        invariant rest <= coins.Keys && done == coins.Keys - rest
        invariant Moved(old(balances), balances, a, Restrict(coins, done), map[])
      {
        var d :| d in rest;
        balances := balances[(a, d) := BalanceOf(balances, a, d) + coins[d]];
        rest := rest - {d};
        done := done + {d};
      }
      assert Restrict(coins, done) == coins;
    }

    /** DeductFees (fee.go:214-225): the transfer to the fee collector. */
    method DeductFees(a: Addr, fees: Coins) returns (ok: bool)
      requires a != COLLECTOR
      modifies this`balances
      ensures ok <==> forall d :: d in fees ==> BalanceOf(old(balances), a, d) >= fees[d]
      ensures !ok ==> balances == old(balances)
      ensures ok ==> Moved(old(balances), balances, a, map[], fees)
    {
      ok := forall d :: d in fees ==> BalanceOf(balances, a, d) >= fees[d];
      if !ok {
        return;
      }
      var rest := fees.Keys;
      ghost var done: set<Denom> := {};
      assert Restrict(fees, done) == map[];
      NothingMoved(balances, a);
      while rest != {}
        invariant rest <= fees.Keys && done == fees.Keys - rest
        invariant Moved(old(balances), balances, a, map[], Restrict(fees, done))
      {
        var d :| d in rest;
        balances := balances[(a, d) := BalanceOf(balances, a, d) - fees[d]];
        balances := balances[(COLLECTOR, d) := BalanceOf(balances, COLLECTOR, d) + fees[d]];
        rest := rest - {d};
        done := done + {d};
      }
      assert Restrict(fees, done) == fees;
    }

    /** The simulated top-up (fee.go:128-168): raise the fee to the taxes and mint the difference. */
    method TopUp(tx: Tx, taxes: Coins) returns (feesOrTax: Coins, minted: Coins)
      requires Valid(tx.fee) && Valid(taxes)
      modifies this`balances
      ensures IsRaised(tx.fee, taxes, feesOrTax) && AllGTE(feesOrTax, taxes) && AllGTE(feesOrTax, tx.fee)
      ensures forall d :: Amount(feesOrTax, d) == Amount(tx.fee, d) + Amount(minted, d)
      ensures Moved(old(balances), balances, tx.Source(), minted, map[])
    {
      feesOrTax := RaiseToTaxes(tx.fee, taxes);
      forall d ensures Amount(taxes, d) <= Amount(feesOrTax, d) && Amount(tx.fee, d) <= Amount(feesOrTax, d) {
      }
      minted := map[];
      if !IsZero(feesOrTax) {
        minted := Sub(feesOrTax, tx.fee);
        if !IsZero(minted) {
          MintTo(tx.Source(), minted);
        }
      }
    }

    /** The deduction (fee.go:178-206) from the fee, or the raised fee. */
    method DeductFrom(tx: Tx, feesOrTax: Coins, taxes: Coins, refundable: Coins) returns (deducted: Option<Coins>)
      requires Valid(feesOrTax) && Valid(taxes) && Valid(refundable)
      requires AllGTE(feesOrTax, taxes) && tx.Source() != COLLECTOR
      modifies this`balances
      ensures deducted.Some? ==> deducted.value == DeductedFrom(feesOrTax, taxes, refundable)
      ensures deducted.Some? ==> Moved(old(balances), balances, tx.Source(), map[], deducted.value)
      ensures deducted.Some? <==>
        forall d :: BalanceOf(old(balances), tx.Source(), d) >= Amount(DeductedFrom(feesOrTax, taxes, refundable), d)
      ensures deducted.None? ==> balances == old(balances)
    {
      var deductFees: Coins := map[];
      if !IsZero(feesOrTax) {
        deductFees := Sub(feesOrTax, taxes);
        deductFees := TakeRefunds(deductFees, refundable);
        assert forall d :: d in deductFees <==> Amount(deductFees, d) > 0;
        if !IsZero(deductFees) {
          var ok := DeductFees(tx.Source(), deductFees);
          if !ok {
            var d :| d in deductFees && BalanceOf(balances, tx.Source(), d) < deductFees[d];
            assert Amount(deductFees, d) == deductFees[d];
            return None;
          }
        }
      } else {
        assert feesOrTax == map[];
        CoinsEqual(map[], DeductedFrom(feesOrTax, taxes, refundable));
      }
      deducted := Some(deductFees);
    }

    /** checkDeductFee (fee.go:96-211). */
    method CheckDeductFee(tx: Tx, taxes: Coins, refundable: Coins, simulate: bool) returns (r: Result<Outcome, Error>)
      requires Valid(tx.fee) && Valid(taxes) && Valid(refundable) && tx.Source() != COLLECTOR
      requires simulate || AllGTE(tx.fee, taxes)
      modifies this`balances
      ensures r.Ok? ==>
        && (exists base :: SplitsBase(tx.fee, base, taxes, refundable, r.value)
             && if simulate then IsRaised(tx.fee, taxes, base) else base == tx.fee && r.value.minted == map[])
        && Moved(old(balances), balances, tx.Source(), r.value.minted, r.value.deducted)
      ensures !simulate ==> (r.Ok? <==>
        MayPay(tx, accounts)
        && forall d :: BalanceOf(old(balances), tx.Source(), d) >= Amount(DeductedFrom(tx.fee, taxes, refundable), d))
      ensures simulate ==> (r.Ok? <==> MayPay(tx, accounts) && CanSimulate(tx, taxes, refundable, old(balances)))
    {
      hide Moved, DeductedFrom, IsRaised, CanSimulate;
      if tx.granter.Some? && tx.granter.value != tx.payer && !tx.grantAllowed {
        return Err(GrantRefused);
      }
      if tx.Source() !in accounts {
        return Err(UnknownAddress);
      }
      var feesOrTax, minted := tx.fee, map[];
      NothingMoved(balances, tx.Source());
      if simulate {
        feesOrTax, minted := TopUp(tx, taxes);
        RaisedIsValid(tx.fee, taxes, feesOrTax);
        SimulationFunds(tx, taxes, refundable, feesOrTax, minted, old(balances), balances);
      }
      ghost var toppedUp := balances;
      var deducted := DeductFrom(tx, feesOrTax, taxes, refundable);
      if deducted.None? {
        return Err(InsufficientFunds);
      }
      MovedTwice(old(balances), toppedUp, balances, tx.Source(), minted, deducted.value);
      var refunded := Refunded(Sub(feesOrTax, taxes), refundable);
      r := Ok(Outcome(false, taxes, refunded, deducted.value, minted));
      BaseIsSplit(tx.fee, feesOrTax, taxes, refundable, r.value);
    }

    /**
     AnteHandle (fee.go:45-94), with the roll-back of a refused transaction. Outside
     simulation the coins taken from the payer are exactly the fees checked against gas, they
     reach the fee collector, and with the tax left for later and the refund they make up the fee;
     a transaction is accepted exactly if its fee covers gas and its source can pay the charge.
     */
    method AnteHandle(tx: Tx, simulate: bool) returns (r: Result<Outcome, Error>)
      requires tx.WellFormed() && tx.Source() != COLLECTOR
      modifies this`balances
      ensures r.Err? ==> balances == old(balances)
      ensures r.Ok? ==> Moved(old(balances), balances, tx.Source(), r.value.minted, r.value.deducted)
      ensures r.Ok? && simulate ==> exists base ::
        SplitsBase(tx.fee, base, ComputeTaxes(tx.msgs).0, ComputeTaxes(tx.msgs).1, r.value)
        && IsRaised(tx.fee, ComputeTaxes(tx.msgs).0, base)
      ensures r.Ok? && !simulate ==> Delivered(tx, GasFees(gasPrices, tx.gas), r.value)
      ensures !simulate ==>
        var gasFees := GasFees(gasPrices, tx.gas);
        (r.Ok? <==>
          && (height > 0 ==> tx.gas > 0) && MayPay(tx, accounts)
          && (IsOracleTx(tx.msgs) || GasMet(gasFees, tx.fee, map[], map[]))
          && forall d ::
               BalanceOf(old(balances), tx.Source(), d)
                 >= Amount(tx.fee, d) - Amount(DueOf(tx, gasFees), d) - Amount(BackOf(tx, gasFees), d))
      ensures simulate ==>
        var (taxes, refundable) := ComputeTaxes(tx.msgs);
        (r.Ok? <==> MayPay(tx, accounts) && CanSimulate(tx, taxes, refundable, old(balances)))
    {
      hide Moved, Decide, GasFees, ComputeTaxes, IsRaised, Delivered, DeductedFrom, CanSimulate, MayPay, CoversGas,
           IsOracleTx, GasMet, DueOf, BackOf;
      if !simulate && height > 0 && tx.gas == 0 {
        return Err(InvalidGasLimit);
      }
      TaxesAreValid(tx);
      var (taxes, refundable) := ComputeTaxes(tx.msgs);
      var reverseCharge := false;
      if !simulate {
        var chosen := ChooseTaxes(tx, GasFees(gasPrices, tx.gas));
        if chosen.None? {
          return Err(InsufficientFee);
        }
        reverseCharge, taxes, refundable := chosen.value.0, chosen.value.1, chosen.value.2;
        ChosenCharge(tx, GasFees(gasPrices, tx.gas), reverseCharge, taxes, refundable);
      }
      var saved := balances;
      r := CheckDeductFee(tx, taxes, refundable, simulate);
      if r.Err? {
        balances := saved;
        return;
      }
      if !simulate {
        ChosenDelivers(tx, GasFees(gasPrices, tx.gas), reverseCharge, taxes, refundable, r.value);
      }
      r := Ok(r.value.(reverseCharge := reverseCharge));
    }
  }

  lemma TaxesAreValid(tx: Tx)
    requires tx.WellFormed()
    ensures Valid(tx.fee) && Valid(ComputeTaxes(tx.msgs).0) && Valid(ComputeTaxes(tx.msgs).1)
  {
  }

  /** The tax taken from a transaction's fee, and the refund given. */
  ghost function DueOf(tx: Tx, gasFees: Coins): Coins {
    if IsOracleTx(tx.msgs) then map[] else TaxTaken(tx.fee, ComputeTaxes(tx.msgs).0, gasFees)
  }

  ghost function BackOf(tx: Tx, gasFees: Coins): Coins {
    if IsOracleTx(tx.msgs) then map[]
    else RefundGiven(tx.fee, ComputeTaxes(tx.msgs).0, ComputeTaxes(tx.msgs).1, gasFees)
  }

  /** What an accepted transaction outside simulation means for its fee. */
  ghost predicate Delivered(tx: Tx, gasFees: Coins, o: Outcome) {
    && o.minted == map[]
    && o.taxDue == DueOf(tx, gasFees) && o.refunded == BackOf(tx, gasFees)
    && (forall d :: Amount(tx.fee, d) == Amount(o.deducted, d) + Amount(o.taxDue, d) + Amount(o.refunded, d))
    && (o.reverseCharge <==> !IsOracleTx(tx.msgs) && ReverseCharged(tx.fee, ComputeTaxes(tx.msgs).0, gasFees))
    && (!IsOracleTx(tx.msgs) ==> GasMet(gasFees, tx.fee, o.taxDue, o.refunded))
  }

  /** The taxes and refunds handed to the second pass follow the decision of the first. */
  ghost predicate Chosen(tx: Tx, gasFees: Coins, reverseCharge: bool, taxes: Coins, refundable: Coins) {
    && Valid(taxes) && Valid(refundable) && AllGTE(tx.fee, taxes)
    && Refunded(Sub(tx.fee, taxes), refundable) == refundable
    && if IsOracleTx(tx.msgs) then
         !reverseCharge && taxes == map[] && refundable == map[] && DeductedFrom(tx.fee, taxes, refundable) == tx.fee
       else
         var (allTaxes, allRefundable) := ComputeTaxes(tx.msgs);
         var split := Decide(tx.fee, allTaxes, allRefundable, gasFees);
         && reverseCharge == split.reverseCharge && CoversGas(split.remaining, gasFees)
         && taxes == (if split.reverseCharge then map[] else allTaxes)
         && refundable == (if split.refund then allRefundable else map[])
         && DeductedFrom(tx.fee, taxes, refundable) == split.remaining
  }

  /** What is chosen is what the amounts call for. */
  lemma ChosenExact(tx: Tx, gasFees: Coins, reverseCharge: bool, taxes: Coins, refundable: Coins)
    requires tx.WellFormed() && Chosen(tx, gasFees, reverseCharge, taxes, refundable)
    ensures taxes == DueOf(tx, gasFees) && refundable == BackOf(tx, gasFees)
    ensures reverseCharge <==> !IsOracleTx(tx.msgs) && ReverseCharged(tx.fee, ComputeTaxes(tx.msgs).0, gasFees)
    ensures !IsOracleTx(tx.msgs) ==> GasMet(gasFees, tx.fee, taxes, refundable)
  {
    hide Decide, ComputeTaxes, DeductedFrom, CoversGas, GasMet, ReverseCharged, RefundGranted, IsOracleTx;
    TaxesAreValid(tx);
    var (all, back) := ComputeTaxes(tx.msgs);
    if !IsOracleTx(tx.msgs) {
      DecideExact(tx.fee, all, back, gasFees);
      CoversGasIff(gasFees, Decide(tx.fee, all, back, gasFees).remaining, tx.fee, taxes, refundable);
    }
  }

  lemma ChosenDelivers(tx: Tx, gasFees: Coins, reverseCharge: bool, taxes: Coins, refundable: Coins, o: Outcome)
    requires tx.WellFormed() && Chosen(tx, gasFees, reverseCharge, taxes, refundable)
    requires SplitsBase(tx.fee, tx.fee, taxes, refundable, o) && o.minted == map[]
    ensures Delivered(tx, gasFees, o.(reverseCharge := reverseCharge))
  {
    hide Decide, ComputeTaxes, DeductedFrom, DueOf, BackOf, GasMet, ReverseCharged;
    ChosenExact(tx, gasFees, reverseCharge, taxes, refundable);
  }

  lemma ChosenCharge(tx: Tx, gasFees: Coins, reverseCharge: bool, taxes: Coins, refundable: Coins)
    requires tx.WellFormed() && Chosen(tx, gasFees, reverseCharge, taxes, refundable)
    ensures forall d ::
      Amount(DeductedFrom(tx.fee, taxes, refundable), d)
        == Amount(tx.fee, d) - Amount(DueOf(tx, gasFees), d) - Amount(BackOf(tx, gasFees), d)
  {
    hide Decide, ComputeTaxes, DueOf, BackOf;
    ChosenExact(tx, gasFees, reverseCharge, taxes, refundable);
  }

  /** The first half of AnteHandle outside simulation (fee.go:60-84). */
  method ChooseTaxes(tx: Tx, gasFees: Coins) returns (r: Option<(bool, Coins, Coins)>)
    requires tx.WellFormed()
    ensures r.Some? ==> Chosen(tx, gasFees, r.value.0, r.value.1, r.value.2)
    ensures r.Some? <==> IsOracleTx(tx.msgs) || GasMet(gasFees, tx.fee, map[], map[])
  {
    hide Decide, ComputeTaxes, Chosen, CoversGas, GasMet;
    var (taxes, refundable) := ComputeTaxes(tx.msgs);
    TaxesAreValid(tx);
    GasAloneDecides(tx.fee, taxes, refundable, gasFees);
    CoversGasIff(gasFees, tx.fee, tx.fee, map[], map[]);
    var split := CheckTxFee(tx.fee, taxes, refundable, gasFees, IsOracleTx(tx.msgs));
    if split.None? {
      return None;
    }
    if IsOracleTx(tx.msgs) {
      OracleChosen(tx, gasFees);
    } else {
      DecisionChosen(tx, gasFees);
    }
    if !split.value.refund {
      refundable := map[];
    }
    if split.value.reverseCharge {
      taxes := map[];
    }
    r := Some((split.value.reverseCharge, taxes, refundable));
  }

  lemma OracleChosen(tx: Tx, gasFees: Coins)
    requires tx.WellFormed() && IsOracleTx(tx.msgs)
    ensures ComputeTaxes(tx.msgs) == (map[], map[])
    ensures Chosen(tx, gasFees, false, map[], map[])
  {
    OracleTxUntaxed(tx.msgs);
    NothingToSplit(tx.fee);
  }

  lemma DecisionChosen(tx: Tx, gasFees: Coins)
    requires tx.WellFormed() && !IsOracleTx(tx.msgs)
    requires CoversGas(Decide(tx.fee, ComputeTaxes(tx.msgs).0, ComputeTaxes(tx.msgs).1, gasFees).remaining, gasFees)
    ensures var (taxes, refundable) := ComputeTaxes(tx.msgs);
      var split := Decide(tx.fee, taxes, refundable, gasFees);
      Chosen(tx, gasFees, split.reverseCharge,
             if split.reverseCharge then map[] else taxes, if split.refund then refundable else map[])
  {
    hide Decide, ComputeTaxes, DeductedFrom, CoversGas, IsOracleTx;
    TaxesAreValid(tx);
    var (taxes, refundable) := ComputeTaxes(tx.msgs);
    DecisionDeducts(tx.fee, taxes, refundable, gasFees);
  }

  lemma NothingToSplit(fee: Coins)
    requires Valid(fee)
    ensures DeductedFrom(fee, map[], map[]) == fee
  {
    CoinsEqual(DeductedFrom(fee, map[], map[]), fee);
  }

  lemma DecisionDeducts(fee: Coins, taxes: Coins, refundable: Coins, gasFees: Coins)
    requires Valid(fee) && Valid(taxes) && Valid(refundable)
    ensures var split := Decide(fee, taxes, refundable, gasFees);
      var due, back := if split.reverseCharge then map[] else taxes, if split.refund then refundable else map[];
      AllGTE(fee, due) && Refunded(Sub(fee, due), back) == back && DeductedFrom(fee, due, back) == split.remaining
  {
    hide Decide;
    PassesAgree(fee, taxes, refundable, gasFees);
    var split := Decide(fee, taxes, refundable, gasFees);
    CoinsEqual(Sub(fee, map[]), fee);
    if split.refund {
      RefundInFull(Sub(fee, if split.reverseCharge then map[] else taxes), refundable);
    }
  }
}
