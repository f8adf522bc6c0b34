/**
 What rounding does to the pool law of MarketExact when Luna is swapped for a Terra denom
 (x/market/keeper/swap.go:15-131): the spread, the fee and the conversions are each rounded
 half to even, so a swap may take a little more than the constant product allows. Up to an
 explicit bound the pool stays positive over every run; two concrete swaps beyond it overdraw
 the pool, one through a very large offer and one through very small rates.
 */
module MarketRounding {
  import opened Decimals
  import opened Wrappers
  import opened Market

  /** The spread before the minimum applies is the rounded relative shortfall. */
  function RawSpread(x: Dec, ask: Dec): Dec
    requires x != 0
  {
    Quo(x - ask, x)
  }

  lemma TruncDivClose(n: int, d: int)
    requires d > 0
    ensures TruncDiv(n, d) * d > n - d
  {
    if n >= 0 {
      assert n == d * (n / d) + n % d;
    } else {
      assert -n == d * ((-n) / d) + (-n) % d;
    }
  }

  lemma SpreadLowerBound(x: Dec, ask: Dec)
    requires x > 0
    ensures RawSpread(x, ask) * ONE * x > (x - ask) * (ONE * ONE) - x - HALF * x
  {
    var n := (x - ask) * (ONE * ONE);
    var y := TruncDiv(n, x);
    TruncDivClose(n, x);
    ChopRoundNearest(y);
    var s := ChopRound(y);
    ScaleBound(s * ONE, y - HALF, x);
    assert (y - HALF) * x == y * x - HALF * x;
  }

  lemma ScaleBound(a: int, b: int, x: int)
    requires a >= b && x > 0
    ensures a * x >= b * x
  {
  }

  lemma FeeLowerBound(spread: Dec, x: Dec)
    ensures Mul(spread, x) * ONE >= spread * x - HALF
  {
    ChopRoundNearest(spread * x);
  }

  /** A payout after the fee exceeds the constant-product amount by at most the rounding. */
  lemma PayoutBound(x: Dec, ask: Dec, spread: Dec)
    requires x > 0 && spread >= RawSpread(x, ask)
    ensures (x - Mul(spread, x)) * (ONE * ONE) < ask * (ONE * ONE) + x + HALF * x + HALF * ONE
  {
    hide Mul, RawSpread;
    SpreadLowerBound(x, ask);
    var raw := RawSpread(x, ask);
    ScaleBound(spread, raw, x);
    FeeLowerBound(spread, x);
    Reassociate(raw, x);
    Arithmetic(x, ask, raw * x, Mul(spread, x));
  }

  lemma Reassociate(a: int, x: int)
    ensures a * ONE * x == (a * x) * ONE
  {
  }

  lemma Arithmetic(x: int, ask: int, rawx: int, fee: int)
    requires fee * ONE >= rawx - HALF
    requires rawx * ONE > (x - ask) * (ONE * ONE) - x - HALF * x
    ensures (x - fee) * (ONE * ONE) < ask * (ONE * ONE) + x + HALF * x + HALF * ONE
  {
  }

  function LunaPool(p: Params, delta: Dec): (r: Dec)
    requires p.Valid() && p.basePool + delta > 0
    ensures r >= 0
  {
    MulNonNegative(p.basePool, p.basePool);
    QuoNonNegative(Mul(p.basePool, p.basePool), p.basePool + delta);
    Quo(Mul(p.basePool, p.basePool), p.basePool + delta)
  }

  /** What the constant product leaves in the Terra pool when Luna worth x comes in. */
  function PoolLeft(p: Params, delta: Dec, x: Dec): Dec
    requires p.Valid() && p.basePool + delta > 0 && x > 0
  {
    Quo(Mul(p.basePool, p.basePool), LunaPool(p, delta) + x)
  }

  // ---------- conversions at the oracle price

  lemma QuoUpper(m: Dec, q: Dec)
    requires m >= 0 && q > 0
    ensures Quo(m, q) * ONE * q <= m * (ONE * ONE) + HALF * q
  {
    var n := m * (ONE * ONE);
    var t := n / q;
    assert n == q * t + n % q;
    DivAtLeast(n, q, 0);
    ChopRoundNearest(t);
    ScaleBound(t + HALF, ChopRound(t) * ONE, q);
    assert (t + HALF) * q == t * q + HALF * q;
  }

  /** A conversion from a rate of q to a rate of p gains at most half a unit at each of its two roundings. */
  lemma ConvertUpper(amount: Dec, p: Dec, q: Dec)
    requires Mul(amount, p) >= 0 && q > 0
    ensures Quo(Mul(amount, p), q) * ONE * q <= amount * p * ONE + HALF * ONE + HALF * q
  {
    hide Quo;
    ChopRoundNearest(amount * p);
    QuoUpper(Mul(amount, p), q);
  }

  /** Only a positive rate of the base denom, and of the denom asked, makes a Luna swap quoted. */
  lemma RatesPositive(v: View, delta: Dec, offer: nat, askDenom: Denom)
    requires askDenom != LUNA && ComputeSwap(v, delta, offer, LUNA, askDenom).Ok?
    ensures v.RateOf(SDR).Some? && v.RateOf(SDR).value > 0
    ensures v.RateOf(askDenom).Some? && v.RateOf(askDenom).value > 0
    ensures BaseOffer(v, offer) == offer * v.RateOf(SDR).value > 0
    ensures InternalSwap(v, FromInt(offer), LUNA, SDR) == Ok(BaseOffer(v, offer))
  {
    hide PoolSpread, Mul, Quo;
    assert v.RateOf(SDR).Some? && v.RateOf(askDenom).Some?;
    var s, a := v.RateOf(SDR).value, v.RateOf(askDenom).value;
    MulWhole(offer, s);
    QuoByOne(offer * s);
    assert offer * s > 0;
    SignOfFactor(offer, s);
    if askDenom != SDR {
      var x := offer * s;
      assert Quo(Mul(x, a), s) > 0;
      SignOfQuotient(Mul(x, a), s);
      SignOfProduct(x, a);
    }
  }

  lemma QuoByOne(m: Dec)
    ensures Quo(m, ONE) == m
  {
    DivExact(m * ONE, ONE);
    DivExact(-m * ONE, ONE);
    assert m * (ONE * ONE) == (m * ONE) * ONE && -m * (ONE * ONE) == (-m * ONE) * ONE;
    assert TruncDiv(m * (ONE * ONE), ONE) == m * ONE;
    ChopRoundExact(m);
  }

  lemma SignOfFactor(n: nat, s: int)
    requires n * s > 0
    ensures s > 0
  {
  }

  lemma SignOfQuotient(m: Dec, q: Dec)
    requires q > 0 && Quo(m, q) > 0
    ensures m > 0
  {
    hide Quo;
    if m <= 0 {
      QuoMonotone(m, 0, q);
      QuoZero(q);
      assert false;
    }
  }

  lemma SignOfProduct(x: Dec, a: Dec)
    requires x > 0 && Mul(x, a) > 0
    ensures a > 0
  {
    if a <= 0 {
      assert x * a <= 0;
      ChopRoundNearest(x * a);
      assert false;
    }
  }

  // ---------- the pool after a swap

  /** What an offer of Luna is worth in the base denom. */
  function BaseOffer(v: View, offer: nat): Dec
    requires v.RateOf(SDR).Some?
  {
    offer * v.RateOf(SDR).value
  }

  /**
   What rounding can overpay in a swap of Luna worth x, scaled by the rate of the denom asked and
   by 10^36: one and a half parts in 10^18 of the offer through the spread, half a unit through the
   fee, and for any denom but the base the two conversions.
   */
  function Overpay(v: View, x: Dec, askDenom: Denom): int
    requires v.RateOf(SDR).Some? && v.RateOf(askDenom).Some?
  {
    v.RateOf(askDenom).value * (x + HALF * x + HALF * ONE)
      + if askDenom == SDR then 0 else (ONE * ONE) * (ONE + v.RateOf(SDR).value)
  }

  /** What leaves the pool when the base amount x is quoted as ret, reduced by the fee and converted back. */
  lemma TakenBound(x: Dec, ask: Dec, spread: Dec, ret: Dec, taken: Dec, a: Dec, s: Dec)
    requires x > 0 && a > 0 && s > 0 && spread >= RawSpread(x, ask) && spread >= 0
    requires ret == Quo(Mul(x, a), s) > 0 && taken == Quo(Mul(ret - Mul(spread, ret), s), a) > 0
    ensures taken * a * (ONE * ONE) < a * (ask * (ONE * ONE) + x + HALF * x + HALF * ONE) + (ONE * ONE) * (ONE + s)
  {
    hide Mul, Quo, RawSpread;
    var y, kept := ret - Mul(spread, ret), ONE - spread;
    SignOfQuotient(Mul(x, a), s);
    SignOfQuotient(Mul(y, s), a);
    KeptFraction(spread, ret, s);
    RetBound(x, a, s, ret, kept);
    SoldBound(spread, ret, s);
    KeptBound(x, ask, spread, a);
    BackBound(y, s, a, taken);
    TakenArithmetic(x * a * kept, ret * s * kept, y * s, taken * a, a, s, ask * (ONE * ONE) + x + HALF * x);
  }

  lemma BackBound(y: Dec, s: Dec, a: Dec, taken: Dec)
    requires Mul(y, s) >= 0 && a > 0 && taken == Quo(Mul(y, s), a)
    ensures (taken * a) * ONE <= (y * s) * ONE + HALF * ONE + HALF * a
  {
    hide Mul, Quo;
    ConvertUpper(y, s, a);
    assert taken * ONE * a == (taken * a) * ONE;
  }

  /** Something is left to convert back only if the spread is below one. */
  lemma KeptFraction(spread: Dec, ret: Dec, s: Dec)
    requires ret > 0 && s > 0 && spread >= 0 && Mul(ret - Mul(spread, ret), s) > 0
    ensures 0 < ONE - spread <= ONE
  {
    hide Mul;
    if spread >= ONE {
      MulMonotone(ONE, spread, ret);
      MulOne(ret);
      MulMonotone(ret - Mul(spread, ret), 0, s);
      MulWhole(0, s);
      assert false;
    }
  }

  lemma KeptBound(x: Dec, ask: Dec, spread: Dec, a: Dec)
    requires x > 0 && a > 0 && spread >= RawSpread(x, ask)
    ensures (x * a * (ONE - spread)) * ONE < a * (ask * (ONE * ONE) + x + HALF * x)
  {
    hide RawSpread;
    SpreadLowerBound(x, ask);
    var raw, kept := RawSpread(x, ask), ONE - spread;
    ScaleBound(spread * ONE, raw * ONE, x);
    assert kept * ONE * x == x * (ONE * ONE) - spread * ONE * x;
    MulStrict(kept * ONE * x, ask * (ONE * ONE) + x + HALF * x, a);
    assert (x * a * kept) * ONE == a * (kept * ONE * x);
  }

  lemma MulStrict(n: int, m: int, a: int)
    requires n < m && a > 0
    ensures a * n < a * m
  {
  }

  lemma RetBound(x: Dec, a: Dec, s: Dec, ret: Dec, kept: int)
    requires Mul(x, a) >= 0 && s > 0 && ret == Quo(Mul(x, a), s) && 0 < kept <= ONE
    ensures (ret * s * kept) * ONE <= (x * a * kept) * ONE + (HALF * ONE + HALF * s) * ONE
  {
    hide Mul, Quo;
    ConvertUpper(x, a, s);
    ScaleBound(x * a * ONE + HALF * ONE + HALF * s, ret * ONE * s, kept);
    assert ret * ONE * s * kept == (ret * s * kept) * ONE;
    var e := HALF * ONE + HALF * s;
    assert (x * a * ONE + e) * kept == (x * a * kept) * ONE + e * kept;
    assert e * kept <= e * ONE;
  }

  lemma SoldBound(spread: Dec, ret: Dec, s: Dec)
    requires s > 0
    ensures ((ret - Mul(spread, ret)) * s) * ONE <= ret * s * (ONE - spread) + HALF * s
  {
    hide Mul;
    FeeLowerBound(spread, ret);
    var y, kept := ret - Mul(spread, ret), ONE - spread;
    assert ret * kept == ret * ONE - spread * ret;
    ScaleBound(ret * kept + HALF, y * ONE, s);
    assert y * ONE * s == (y * s) * ONE;
    assert (ret * kept + HALF) * s == ret * s * kept + HALF * s;
  }

  lemma TakenArithmetic(w: int, p: int, v: int, z: int, a: int, s: int, b: int)
    requires v * ONE <= p + HALF * s && p * ONE <= w * ONE + (HALF * ONE + HALF * s) * ONE && w * ONE < a * b
    requires z * ONE <= v * ONE + HALF * ONE + HALF * a
    ensures z * (ONE * ONE) < a * (b + HALF * ONE) + (ONE * ONE) * (ONE + s)
  {
    assert a * (b + HALF * ONE) == a * b + a * (HALF * ONE);
  }

  /**
   A quoted swap of Luna for any Terra denom leaves the pool of the constant product, short of
   at most what rounding overpays; so the pool stays positive in fixed point too as long as what
   the constant product leaves outweighs that.
   */
  lemma PoolAfterSwap(v: View, delta: Dec, offer: nat, askDenom: Denom)
    requires v.Valid() && v.params.basePool + delta > 0 && askDenom != LUNA
    requires SwapDelta(v, delta, offer, askDenom).Ok?
    ensures v.RateOf(SDR).Some? && v.RateOf(askDenom).Some? && v.RateOf(askDenom).value > 0
    ensures var x, a := BaseOffer(v, offer), v.RateOf(askDenom).value;
      x > 0 && (v.params.basePool + SwapDelta(v, delta, offer, askDenom).value) * a * (ONE * ONE)
      > PoolLeft(v.params, delta, x) * a * (ONE * ONE) - Overpay(v, x, askDenom)
  {
    hide Mul, Quo, FeeOf, PoolSpread;
    RatesPositive(v, delta, offer, askDenom);
    var x, a, s := BaseOffer(v, offer), v.RateOf(askDenom).value, v.RateOf(SDR).value;
    var quote := ComputeSwap(v, delta, offer, LUNA, askDenom).value;
    var terraPool, left := v.params.basePool + delta, PoolLeft(v.params, delta, x);
    LunaSpread(v.params, delta, x);
    FeeIsProduct(quote);
    var taken := terraPool - (v.params.basePool + SwapDelta(v, delta, offer, askDenom).value);
    if askDenom == SDR {
      PayoutBound(x, terraPool - left, quote.spread);
      DirectArithmetic(terraPool, left, taken, a, x);
    } else {
      TakenBound(x, terraPool - left, quote.spread, quote.amount, taken, a, s);
      ConvertedArithmetic(terraPool, left, taken, a, x, (ONE * ONE) * (ONE + s));
    }
  }

  /** The pool delta after a quoted swap of Luna; an error if it is not quoted, or not settled. */
  function SwapDelta(v: View, delta: Dec, offer: nat, askDenom: Denom): Result<Dec, Error> {
    var quote := ComputeSwap(v, delta, offer, LUNA, askDenom);
    if quote.Err? then Err(quote.error)
    else DeltaAfterSwap(v, delta, offer, LUNA, quote.value.amount - FeeOf(quote.value), askDenom)
  }

  lemma LunaSpread(p: Params, delta: Dec, x: Dec)
    requires p.Valid() && p.basePool + delta > 0 && x > 0
    ensures PoolSpread(p, delta, x, false).Ok? && PoolSpread(p, delta, x, false).value >= 0
    ensures PoolSpread(p, delta, x, false).value >= RawSpread(x, p.basePool + delta - PoolLeft(p, delta, x))
  {
    hide Mul, Quo;
    assert LunaPool(p, delta) >= 0;
  }

  lemma FeeIsProduct(q: Quote)
    requires q.spread >= 0
    ensures FeeOf(q) == Mul(q.spread, q.amount)
  {
    if q.spread == 0 {
      MulWhole(0, q.amount);
      assert FromInt(0) == 0;
    }
  }

  lemma DirectArithmetic(pool: int, left: int, taken: int, a: int, x: int)
    requires a > 0 && taken * (ONE * ONE) < (pool - left) * (ONE * ONE) + x + HALF * x + HALF * ONE
    ensures (pool - taken) * a * (ONE * ONE) > left * a * (ONE * ONE) - a * (x + HALF * x + HALF * ONE)
  {
    var gap := (pool - taken - left) * (ONE * ONE) + x + HALF * x + HALF * ONE;
    assert gap * a > 0;
    assert gap * a == (pool - taken) * a * (ONE * ONE) - left * a * (ONE * ONE) + a * (x + HALF * x + HALF * ONE);
  }

  lemma ConvertedArithmetic(pool: int, left: int, taken: int, a: int, x: int, e: int)
    requires taken * a * (ONE * ONE) < a * ((pool - left) * (ONE * ONE) + x + HALF * x + HALF * ONE) + e
    ensures (pool - taken) * a * (ONE * ONE) > left * a * (ONE * ONE) - (a * (x + HALF * x + HALF * ONE) + e)
  {
    assert (pool - taken) * a * (ONE * ONE) == pool * a * (ONE * ONE) - taken * a * (ONE * ONE);
    assert a * ((pool - left) * (ONE * ONE) + x + HALF * x + HALF * ONE)
      == pool * a * (ONE * ONE) - left * a * (ONE * ONE) + a * (x + HALF * x + HALF * ONE);
  }

  /** The pool that the constant product would leave outweighs the rounding. */
  predicate WithinBound(v: View, delta: Dec, offer: nat, askDenom: Denom)
    requires v.Valid() && v.params.basePool + delta > 0
  {
    && v.RateOf(SDR).Some? && v.RateOf(askDenom).Some? && BaseOffer(v, offer) > 0
    && PoolLeft(v.params, delta, BaseOffer(v, offer)) * v.RateOf(askDenom).value * (ONE * ONE)
       >= Overpay(v, BaseOffer(v, offer), askDenom)
  }

  lemma PoolPositiveWithinBound(v: View, delta: Dec, offer: nat, askDenom: Denom)
    requires v.Valid() && v.params.basePool + delta > 0 && askDenom != LUNA
    requires SwapDelta(v, delta, offer, askDenom).Ok? && WithinBound(v, delta, offer, askDenom)
    ensures v.params.basePool + SwapDelta(v, delta, offer, askDenom).value > 0
  {
    hide SwapDelta, PoolLeft, Overpay, BaseOffer;
    PoolAfterSwap(v, delta, offer, askDenom);
    var a := v.RateOf(askDenom).value;
    PositiveFactor(v.params.basePool + SwapDelta(v, delta, offer, askDenom).value, a);
  }

  lemma PositiveFactor(n: int, a: int)
    requires a > 0 && n * a * (ONE * ONE) > 0
    ensures n > 0
  {
    assert n <= 0 ==> n * a <= 0;
  }

  // ---------- runs in fixed point

  datatype Step =
    | Swapping(view: View, offer: nat, offerDenom: Denom, askDenom: Denom)
    | BlockEnd

  /** The pool delta after a step; a swap that is not quoted or not settled leaves it. */
  function NextDelta(p: Params, delta: Dec, step: Step): Dec
    requires p.Valid()
  {
    match step
    case BlockEnd => Replenished(delta, p.poolRecoveryPeriod)
    case Swapping(v, offer, offerDenom, askDenom) =>
      var quote := ComputeSwap(v, delta, offer, offerDenom, askDenom);
      if quote.Err? then delta
      else
        var after := DeltaAfterSwap(v, delta, offer, offerDenom, quote.value.amount - FeeOf(quote.value), askDenom);
        if after.Err? then delta else after.value
  }

  /** Steps at the parameters p whose swaps of Luna for Terra stay within the bound. */
  predicate StepWithinBound(p: Params, delta: Dec, step: Step)
    requires p.basePool + delta > 0
  {
    step.Swapping? ==>
      && step.view.Valid() && step.view.params == p
      && (step.offerDenom == LUNA && step.askDenom != LUNA ==> WithinBound(step.view, delta, step.offer, step.askDenom))
  }

  lemma PositiveNext(p: Params, delta: Dec, step: Step)
    requires p.Valid() && p.basePool > 0 && p.basePool + delta > 0 && StepWithinBound(p, delta, step)
    ensures p.basePool + NextDelta(p, delta, step) > 0
  {
    hide ComputeSwap, FeeOf, WithinBound, Mul, Quo;
    match step
    case BlockEnd =>
      ReplenishStep(delta, p.poolRecoveryPeriod);
    case Swapping(v, offer, offerDenom, askDenom) =>
      if offerDenom == LUNA && askDenom != LUNA && SwapDelta(v, delta, offer, askDenom).Ok? {
        PoolPositiveWithinBound(v, delta, offer, askDenom);
      }
  }

  function DeltaAfter(p: Params, steps: seq<Step>): Dec
    requires p.Valid()
  {
    if steps == [] then 0 else NextDelta(p, DeltaAfter(p, steps[..|steps| - 1]), steps[|steps| - 1])
  }

  /** In every run from delta zero whose Luna swaps stay within the bound, the fixed-point pool stays positive. */
  lemma {:induction false} FixedPoolStaysPositive(p: Params, steps: seq<Step>)
    requires p.Valid() && p.basePool > 0
    requires forall i :: 0 <= i < |steps| && p.basePool + DeltaAfter(p, steps[..i]) > 0 ==>
      StepWithinBound(p, DeltaAfter(p, steps[..i]), steps[i])
    ensures p.basePool + DeltaAfter(p, steps) > 0
  {
    hide NextDelta, StepWithinBound;
    if steps != [] {
      var n := |steps| - 1;
      var front := steps[..n];
      assert forall i :: 0 <= i <= n ==> front[..i] == steps[..i];
      FixedPoolStaysPositive(p, front);
      PositiveNext(p, DeltaAfter(p, front), steps[n]);
    }
  }

  // ---------- swaps beyond the bound

  const BASE: Params := Params(FromInt(1_000_000_000_000), 14_400, 0)
  const DELTA: Dec := FromInt(600_000_000_000)
  const OFFER: nat := 1_000_000_000_000_000_000_000_000_000_000
  const VIEW: View := View(BASE, map[SDR := ONE], map[])

  lemma OverdrawnSpread()
    ensures PoolSpread(BASE, DELTA, FromInt(OFFER), false) == Ok(ONE - 2)
  {
    var cp := Mul(BASE.basePool, BASE.basePool);
    assert cp == FromInt(1_000_000_000_000_000_000_000_000);
    var lunaPool := Quo(cp, BASE.basePool + DELTA);
    assert lunaPool == FromInt(625_000_000_000);
    assert Quo(cp, lunaPool + FromInt(OFFER)) == 1_000_000_000_000;
    var x := FromInt(OFFER);
    assert Quo(x - (BASE.basePool + DELTA - 1_000_000_000_000), x) == ONE - 2;
  }

  /** Luna worth 10^30 base units swapped into a pool of 1.6 * 10^12 is paid 2 * 10^12. */
  lemma OverdrawnPool()
    ensures VIEW.Valid() && BASE.basePool + DELTA > 0 && OFFER < LIMIT
    ensures var quote := Quote(FromInt(OFFER), ONE - 2);
      ComputeSwap(VIEW, DELTA, OFFER, LUNA, SDR) == Ok(quote) && SwapCoin(quote) == 2_000_000_000_000
    ensures var after := SwapDelta(VIEW, DELTA, OFFER, SDR); after.Ok? && BASE.basePool + after.value < 0
  {
    hide PoolSpread;
    OverdrawnSpread();
    MulOne(FromInt(OFFER));
    assert Quo(FromInt(OFFER), ONE) == FromInt(OFFER);
    assert Mul(ONE - 2, FromInt(OFFER)) == FromInt(OFFER) - FromInt(2_000_000_000_000);
    assert 2_000_000_000_000 * ONE / ONE == 2_000_000_000_000;
  }

  const SMALL_BASE: Params := Params(400_000_000_000_000_000, 14_400, 20_000_000_000_000_000)
  const SMALL_DELTA: Dec := 1_200_000_000_000_000_000
  const SMALL_OFFER: nat := 2_500_000_000_000_000_001
  const USD: Denom := "uusd"
  const SMALL_VIEW: View := View(SMALL_BASE, map[SDR := 1, USD := 1], map[])

  lemma ConvertedSpread()
    ensures PoolSpread(SMALL_BASE, SMALL_DELTA, SMALL_OFFER, false) == Ok(384_615_384_615_384_615)
  {
    var cp := Mul(SMALL_BASE.basePool, SMALL_BASE.basePool);
    assert cp == 160_000_000_000_000_000;
    var lunaPool := Quo(cp, SMALL_BASE.basePool + SMALL_DELTA);
    assert lunaPool == 100_000_000_000_000_000;
    var left := Quo(cp, lunaPool + SMALL_OFFER);
    assert left == 61_538_461_538_461_538;
    assert Quo(SMALL_OFFER - (SMALL_BASE.basePool + SMALL_DELTA - left), SMALL_OFFER) == 384_615_384_615_384_615;
  }

  /**
   Luna worth 2.5 base units swapped into a pool of 1.6 is quoted as 3 of a denom of the
   smallest rate, and what is delivered counts as 2 on the way back: the offer need not be large.
   */
  lemma OverdrawnByConversion()
    ensures SMALL_VIEW.Valid() && SMALL_BASE.basePool + SMALL_DELTA > 0 && SMALL_OFFER < LIMIT
    ensures var quote := Quote(3 * ONE, 384_615_384_615_384_615);
      ComputeSwap(SMALL_VIEW, SMALL_DELTA, SMALL_OFFER, LUNA, USD) == Ok(quote) && SwapCoin(quote) == 1
    ensures var after := SwapDelta(SMALL_VIEW, SMALL_DELTA, SMALL_OFFER, USD);
      after.Ok? && SMALL_BASE.basePool + after.value < 0
  {
    hide PoolSpread;
    ConvertedSpread();
    MulWhole(SMALL_OFFER, 1);
    QuoByOne(SMALL_OFFER);
    assert Mul(SMALL_OFFER, 1) == 3 && Quo(3, 1) == 3 * ONE;
    var spread := 384_615_384_615_384_615;
    MulWhole(3, spread);
    MulCommutes(3 * ONE, spread);
    assert Mul(1_846_153_846_153_846_155, 1) == 2 && Quo(2, 1) == 2 * ONE;
  }
}
