/**
 The virtual pool in exact arithmetic (x/market/keeper/swap.go:15-131,
 x/market/keeper/msg_server.go:65-85, x/market/keeper/keeper.go:82-93): the law the constant
 product stands for, over every run of swaps at arbitrary positive oracle prices and of
 end-of-block replenishments. Market has the same computations in fixed point.
 */
module MarketExact {
  import opened Decimals
  import opened Wrappers
  import opened Market

  datatype Pool = Pool(base: real, recoveryPeriod: nat, minSpread: real)
  {
    predicate Valid() {
      base > 0.0 && recoveryPeriod > 0 && 0.0 <= minSpread <= 1.0
    }
  }

  function Times(a: real, b: real): real {
    a * b
  }

  lemma TimesPositive(a: real, b: real)
    requires a > 0.0 && b > 0.0
    ensures Times(a, b) > 0.0
  {
  }

  /** The constant product, the square of the base pool. */
  function ConstantProduct(p: Pool): real {
    Times(p.base, p.base)
  }

  lemma ConstantProductPositive(p: Pool)
    requires p.Valid()
    ensures ConstantProduct(p) > 0.0
  {
    hide Times;
    TimesPositive(p.base, p.base);
  }

  type Prices = map<Denom, real>

  predicate Priced(prices: Prices, d: Denom) {
    d == LUNA || (d in prices && prices[d] > 0.0)
  }

  function Price(prices: Prices, d: Denom): real
    requires Priced(prices, d)
  {
    if d == LUNA then 1.0 else prices[d]
  }

  function Convert(prices: Prices, amount: real, source: Denom, target: Denom): real
    requires Priced(prices, source) && Priced(prices, target)
  {
    if source == target then amount else amount * Price(prices, target) / Price(prices, source)
  }

  datatype Step =
    | SwapStep(prices: Prices, offer: real, offerDenom: Denom, askDenom: Denom)
    | EndBlockStep

  /** A swap the market accepts: positive offer, different denoms, effective prices. */
  predicate Accepted(step: Step) {
    && step.SwapStep? && step.offer > 0.0 && step.offerDenom != step.askDenom
    && Priced(step.prices, step.offerDenom) && Priced(step.prices, step.askDenom) && Priced(step.prices, SDR)
  }

  function TerraPool(p: Pool, delta: real): real {
    p.base + delta
  }

  function LunaPool(p: Pool, delta: real): real
    requires TerraPool(p, delta) != 0.0
  {
    ConstantProduct(p) / TerraPool(p, delta)
  }

  /** Base amount the constant product pays for a base offer into the Luna pool (swap.go:119). */
  function AskBase(p: Pool, delta: real, x: real): real
    requires TerraPool(p, delta) > 0.0 && LunaPool(p, delta) + x > 0.0
  {
    TerraPool(p, delta) - ConstantProduct(p) / (LunaPool(p, delta) + x)
  }

  /** Spread of a Luna to Terra swap (swap.go:121-128). */
  function Spread(p: Pool, delta: real, x: real): real
    requires x > 0.0 && TerraPool(p, delta) > 0.0 && LunaPool(p, delta) + x > 0.0
  {
    var s := (x - AskBase(p, delta, x)) / x;
    if s < p.minSpread then p.minSpread else s
  }

  /** An amount after the spread fee (msg_server.go:70-79). */
  function AfterFee(amount: real, spread: real): real {
    amount - spread * amount
  }

  /** The pool delta after a step; None where the source would divide by zero. */
  function Next(p: Pool, delta: real, step: Step): Option<real>
    requires p.Valid()
  {
    match step
    case EndBlockStep => Some(delta - delta / (p.recoveryPeriod as real))
    case SwapStep(prices, offer, offerDenom, askDenom) =>
      if !Accepted(step) || (offerDenom != LUNA && askDenom != LUNA) then Some(delta)
      else if TerraPool(p, delta) == 0.0 then None
      else if askDenom == LUNA then Some(delta + Convert(prices, offer, offerDenom, SDR))
      else
        var x := Convert(prices, offer, offerDenom, SDR);
        if TerraPool(p, delta) <= 0.0 || x <= 0.0 || LunaPool(p, delta) + x <= 0.0 then None
        else
          var ret := Convert(prices, x, SDR, askDenom);
          var swapped := AfterFee(ret, Spread(p, delta, x));
          Some(delta - Convert(prices, swapped, askDenom, SDR))
  }

  lemma ConvertPositive(prices: Prices, amount: real, source: Denom, target: Denom)
    requires Priced(prices, source) && Priced(prices, target) && amount > 0.0
    ensures Convert(prices, amount, source, target) > 0.0
  {
    var a, b := Price(prices, target), Price(prices, source);
    assert amount * a > 0.0;
    assert amount * a / b > 0.0;
  }

  /** Converting out of the base denom, keeping a part, and converting back scales the base amount. */
  lemma ConvertBack(prices: Prices, x: real, s: real, d: Denom)
    requires Priced(prices, SDR) && Priced(prices, d)
    ensures var ret := Convert(prices, x, SDR, d);
      Convert(prices, AfterFee(ret, s), d, SDR) == AfterFee(x, s)
  {
    var ret, a, b := Convert(prices, x, SDR, d), Price(prices, d), Price(prices, SDR);
    if d != SDR {
      assert ret == x * (a / b);
      assert ret - s * ret == (x - s * x) * (a / b);
      assert (x - s * x) * (a / b) * b == (x - s * x) * a;
      assert (x - s * x) * a / a == x - s * x;
    }
  }

  /** The spread charges at least what the constant product demands. */
  lemma SpreadCovers(p: Pool, delta: real, x: real)
    requires p.Valid() && x > 0.0 && TerraPool(p, delta) > 0.0 && LunaPool(p, delta) + x > 0.0
    ensures AfterFee(x, Spread(p, delta, x)) <= AskBase(p, delta, x)
  {
    var ask := AskBase(p, delta, x);
    var s := (x - ask) / x;
    assert s * x == x - ask;
    assert Spread(p, delta, x) * x >= s * x;
  }

  lemma LunaPoolPositive(p: Pool, delta: real)
    requires p.Valid() && TerraPool(p, delta) > 0.0
    ensures LunaPool(p, delta) > 0.0
  {
    hide ConstantProduct;
    ConstantProductPositive(p);
    QuotientPositive(ConstantProduct(p), TerraPool(p, delta));
  }

  lemma ProductNonNegative(a: real, b: real)
    requires a >= 0.0 && b >= 0.0
    ensures a * b >= 0.0 && (a > 0.0 && b > 0.0 ==> a * b > 0.0)
  {
  }

  lemma QuotientPositive(a: real, b: real)
    requires a > 0.0 && b > 0.0
    ensures a / b > 0.0
  {
  }

  /** A Luna to Terra swap never takes the Terra pool below cp / (lunaPool + offer). */
  lemma LunaToTerra(p: Pool, delta: real, step: Step)
    requires p.Valid() && TerraPool(p, delta) > 0.0
    requires Accepted(step) && step.offerDenom == LUNA
    ensures var x, next := Convert(step.prices, step.offer, LUNA, SDR), Next(p, delta, step);
      && x > 0.0 && LunaPool(p, delta) + x > 0.0 && next.Some?
      && TerraPool(p, next.value) >= ConstantProduct(p) / (LunaPool(p, delta) + x) > 0.0
  {
    hide Spread, AskBase, LunaPool, Convert, ConstantProduct, AfterFee;
    var x := Convert(step.prices, step.offer, LUNA, SDR);
    ConvertPositive(step.prices, step.offer, LUNA, SDR);
    LunaPoolPositive(p, delta);
    var s, ret := Spread(p, delta, x), Convert(step.prices, x, SDR, step.askDenom);
    ConvertBack(step.prices, x, s, step.askDenom);
    assert Next(p, delta, step) == Some(delta - Convert(step.prices, AfterFee(ret, s), step.askDenom, SDR));
    SpreadCovers(p, delta, x);
    ConstantProductPositive(p);
    AskBaseUnfolded(p, delta, x);
    QuotientPositive(ConstantProduct(p), LunaPool(p, delta) + x);
  }

  /** Above the minimum spread a Luna to Terra swap leaves exactly cp / (lunaPool + offer) in the Terra pool. */
  lemma LunaToTerraExact(p: Pool, delta: real, step: Step)
    requires p.Valid() && TerraPool(p, delta) > 0.0
    requires Accepted(step) && step.offerDenom == LUNA
    ensures var x, next := Convert(step.prices, step.offer, LUNA, SDR), Next(p, delta, step);
      && x > 0.0 && LunaPool(p, delta) + x > 0.0 && next.Some?
      && (Spread(p, delta, x) > p.minSpread ==>
            TerraPool(p, next.value) == ConstantProduct(p) / (LunaPool(p, delta) + x))
  {
    hide AskBase, LunaPool, Convert, ConstantProduct, AfterFee, Spread;
    var x := Convert(step.prices, step.offer, LUNA, SDR);
    ConvertPositive(step.prices, step.offer, LUNA, SDR);
    LunaPoolPositive(p, delta);
    var s, ret := Spread(p, delta, x), Convert(step.prices, x, SDR, step.askDenom);
    ConvertBack(step.prices, x, s, step.askDenom);
    assert Next(p, delta, step) == Some(delta - Convert(step.prices, AfterFee(ret, s), step.askDenom, SDR));
    AskBaseUnfolded(p, delta, x);
    SpreadExact(p, delta, x);
  }

  lemma SpreadExact(p: Pool, delta: real, x: real)
    requires p.Valid() && x > 0.0 && TerraPool(p, delta) > 0.0 && LunaPool(p, delta) + x > 0.0
    ensures Spread(p, delta, x) > p.minSpread ==> AfterFee(x, Spread(p, delta, x)) == AskBase(p, delta, x)
  {
    hide AskBase;
    var ask := AskBase(p, delta, x);
    var s := (x - ask) / x;
    assert s * x == x - ask;
  }

  /** A Terra to Luna swap adds exactly the base value of its offer to the Terra pool. */
  lemma TerraToLunaExact(p: Pool, delta: real, step: Step)
    requires p.Valid() && TerraPool(p, delta) > 0.0 && Accepted(step) && step.askDenom == LUNA
    ensures Next(p, delta, step).Some?
    ensures TerraPool(p, Next(p, delta, step).value)
         == TerraPool(p, delta) + Convert(step.prices, step.offer, step.offerDenom, SDR)
  {
    hide Convert, LunaPool, Spread;
  }

  lemma AskBaseUnfolded(p: Pool, delta: real, x: real)
    requires TerraPool(p, delta) > 0.0 && LunaPool(p, delta) + x > 0.0
    ensures AskBase(p, delta, x) == TerraPool(p, delta) - ConstantProduct(p) / (LunaPool(p, delta) + x)
  {
  }

  /** Replenishing moves the pool towards its base size and never across it. */
  lemma ReplenishExact(p: Pool, delta: real)
    requires p.Valid()
    ensures var next := Next(p, delta, EndBlockStep).value;
      && (delta >= 0.0 ==> 0.0 <= next <= delta) && (delta <= 0.0 ==> delta <= next <= 0.0)
      && (delta - next) * (p.recoveryPeriod as real) == delta
  {
    var n := p.recoveryPeriod as real;
    if delta >= 0.0 {
      QuotientWithin(delta, n);
    } else {
      QuotientWithin(-delta, n);
      assert (-delta) / n == -(delta / n);
    }
  }

  lemma QuotientWithin(a: real, n: real)
    requires a >= 0.0 && n >= 1.0
    ensures 0.0 <= a / n <= a
  {
    var q := a / n;
    assert q * n == a;
    if q < 0.0 {
      ProductNonNegative(-q, n);
    } else {
      ProductNonNegative(q, n - 1.0);
      assert q * (n - 1.0) == a - q;
    }
  }

  lemma PositiveStep(p: Pool, delta: real, step: Step)
    requires p.Valid() && TerraPool(p, delta) > 0.0
    ensures Next(p, delta, step).Some? && TerraPool(p, Next(p, delta, step).value) > 0.0
  {
    hide Spread, LunaPool, Convert;
    if step.EndBlockStep? {
      ReplenishExact(p, delta);
    } else if Accepted(step) && step.offerDenom == LUNA {
      LunaToTerra(p, delta, step);
    } else if Accepted(step) && step.askDenom == LUNA {
      ConvertPositive(step.prices, step.offer, step.offerDenom, SDR);
    }
  }

  /** The delta after a sequence of steps from zero. */
  function After(p: Pool, steps: seq<Step>): Option<real>
    requires p.Valid()
  {
    if steps == [] then Some(0.0)
    else
      var before := After(p, steps[..|steps| - 1]);
      if before.None? then None else Next(p, before.value, steps[|steps| - 1])
  }

  /**
   In every run of swaps and replenishments from delta zero both virtual pools stay positive,
   so no division of the pool arithmetic is ever undefined.
   */
  lemma {:induction false} PoolStaysPositive(p: Pool, steps: seq<Step>)
    requires p.Valid()
    ensures After(p, steps).Some? && TerraPool(p, After(p, steps).value) > 0.0
    ensures LunaPool(p, After(p, steps).value) > 0.0
  {
    if steps != [] {
      PoolStaysPositive(p, steps[..|steps| - 1]);
      PositiveStep(p, After(p, steps[..|steps| - 1]).value, steps[|steps| - 1]);
    }
    LunaPoolPositive(p, After(p, steps).value);
  }
}
