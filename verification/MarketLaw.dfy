/**
 What swaps amount to in the fixed point of the source, up to explicit rounding
 (x/market/keeper/swap.go, x/market/keeper/msg_server.go:60-85): conversions follow the oracle
 price, the spread follows the constant product in both directions, and the pool moves by what
 was swapped. Market defines the computations; nothing here repeats them.
 */
module MarketLaw {
  import opened Decimals
  import opened Wrappers
  import opened Market

  // ---------- conversions

  /** ret is amount * p / q, up to the rounding of product and quotient. */
  predicate IsConverted(ret: Dec, amount: Dec, p: Dec, q: Dec) {
    q > 0 && -(q * (ONE + 2) + ONE * ONE) <= 2 * ONE * (ret * q - amount * p) <= q * (ONE + 2) + ONE * ONE
  }

  /** ret is what an amount of one denom is worth in another at the oracle price. */
  predicate IsWorth(v: View, ret: Dec, amount: Dec, offerDenom: Denom, askDenom: Denom) {
    if offerDenom == askDenom then ret == amount
    else
      && v.RateOf(offerDenom).Some? && v.RateOf(askDenom).Some?
      && (v.RateOf(offerDenom).value > 0 ==>
            IsConverted(ret, amount, v.RateOf(askDenom).value, v.RateOf(offerDenom).value))
  }

  lemma ConvertedExact(amount: Dec, p: Dec, q: Dec)
    requires q > 0
    ensures IsConverted(Quo(Mul(amount, p), q), amount, p, q)
  {
    hide Mul, Quo;
    MulNearest(amount, p);
    QuoNearest(Mul(amount, p), q);
  }

  /** Internal conversions follow the oracle price, and only fail without one, or with nothing to show for it. */
  lemma InternalExact(v: View, amount: Dec, offerDenom: Denom, askDenom: Denom)
    ensures var r := InternalSwap(v, amount, offerDenom, askDenom);
      && (r.Ok? ==> IsWorth(v, r.value, amount, offerDenom, askDenom))
      && (r.Ok? && offerDenom != askDenom ==> r.value > 0)
  {
    hide Mul, Quo, IsConverted;
    var offered, asked := v.RateOf(offerDenom), v.RateOf(askDenom);
    if offerDenom != askDenom && offered.Some? && asked.Some? && offered.value > 0 {
      ConvertedExact(amount, asked.value, offered.value);
    }
  }

  /** A conversion of one denom into another works exactly if both have a price and the result does not round away. */
  lemma InternalOkIff(v: View, amount: Dec, offerDenom: Denom, askDenom: Denom)
    ensures InternalSwap(v, amount, offerDenom, askDenom).Ok? <==>
      || offerDenom == askDenom
      || (&& v.RateOf(offerDenom).Some? && v.RateOf(askDenom).Some? && v.RateOf(offerDenom).value != 0
          && Quo(Mul(amount, v.RateOf(askDenom).value), v.RateOf(offerDenom).value) > 0)
  {
    hide Mul, Quo;
  }

  /** With a positive pool a swap is quoted exactly if its denoms differ, both conversions work and taxes are known. */
  lemma QuotedIff(v: View, delta: Dec, offer: nat, offerDenom: Denom, askDenom: Denom)
    requires v.Valid() && offer > 0 && v.params.basePool + delta > 0
    ensures ComputeSwap(v, delta, offer, offerDenom, askDenom).Ok? <==>
      && offerDenom != askDenom
      && InternalSwap(v, FromInt(offer), offerDenom, SDR).Ok?
      && InternalSwap(v, InternalSwap(v, FromInt(offer), offerDenom, SDR).value, SDR, askDenom).Ok?
      && (offerDenom != LUNA && askDenom != LUNA ==> offerDenom in v.tobinTaxes && askDenom in v.tobinTaxes)
  {
    hide PoolSpread, InternalSwap;
    var base := InternalSwap(v, FromInt(offer), offerDenom, SDR);
    if base.Ok? {
      InternalExact(v, FromInt(offer), offerDenom, SDR);
      SameDenom(v, FromInt(offer), SDR);
      var s := PoolSpreadExact(v.params, delta, base.value, offerDenom != LUNA);
    }
  }

  // ---------- the constant product

  /** The constant product, the Luna pool, and what the product leaves in the pool asked for. */
  datatype Pools = Pools(product: Dec, luna: Dec, left: Dec)

  /** The pool offered to, and the pool asked for. */
  function OfferPool(p: Params, delta: Dec, s: Pools, terraOffered: bool): Dec {
    if terraOffered then p.basePool + delta else s.luna
  }

  function AskPool(p: Params, delta: Dec, s: Pools, terraOffered: bool): Dec {
    if terraOffered then s.luna else p.basePool + delta
  }

  /** product = basePool^2, luna = product / terra, left = product / (offerPool + x), each rounded once. */
  predicate ArePools(p: Params, delta: Dec, x: Dec, terraOffered: bool, s: Pools) {
    && IsProduct(s.product, p.basePool, p.basePool)
    && IsQuotient(s.luna, s.product, p.basePool + delta)
    && IsQuotient(s.left, s.product, OfferPool(p, delta, s, terraOffered) + x)
  }

  /** Base amount the constant product pays for a base offer x. */
  function Asked(p: Params, delta: Dec, terraOffered: bool, s: Pools): Dec {
    AskPool(p, delta, s, terraOffered) - s.left
  }

  /**
   What a spread leaves of x exceeds what the constant product pays by at most the rounding of the
   spread, and unless the spread is the minimum falls short of it by no more.
   */
  predicate FollowsProduct(p: Params, spread: Dec, x: Dec, asked: Dec) {
    && spread >= p.minStabilitySpread
    && 2 * ONE * ((ONE - spread) * x - asked * ONE) <= x * (ONE + 2)
    && (spread > p.minStabilitySpread ==> 2 * ONE * ((ONE - spread) * x - asked * ONE) >= -(x * (ONE + 2)))
  }

  lemma SpreadLaw(p: Params, x: Dec, asked: Dec, raw: Dec, spread: Dec)
    requires x > 0 && IsQuotient(raw, x - asked, x)
    requires spread == if raw < p.minStabilitySpread then p.minStabilitySpread else raw
    ensures FollowsProduct(p, spread, x, asked)
  {
    assert (ONE - raw) * x - asked * ONE == -(raw * x - (x - asked) * ONE);
    assert (ONE - spread) * x == (ONE - raw) * x - (spread - raw) * x;
    ScaleMonotone(x, 0, spread - raw);
  }

  /** The spread of either direction follows the constant product. */
  lemma PoolSpreadExact(p: Params, delta: Dec, x: Dec, terraOffered: bool) returns (s: Pools)
    requires p.Valid() && p.basePool + delta > 0 && x > 0
    ensures ArePools(p, delta, x, terraOffered, s) && s.luna >= 0
    ensures PoolSpread(p, delta, x, terraOffered).Ok?
    ensures FollowsProduct(p, PoolSpread(p, delta, x, terraOffered).value, x, Asked(p, delta, terraOffered, s))
  {
    hide Mul, Quo, IsQuotient, IsProduct, FollowsProduct;
    var product, terra := Mul(p.basePool, p.basePool), p.basePool + delta;
    MulNearest(p.basePool, p.basePool);
    MulNonNegative(p.basePool, p.basePool);
    QuoNearest(product, terra);
    QuoNonNegative(product, terra);
    var luna := Quo(product, terra);
    var offerPool := if terraOffered then terra else luna;
    QuoNearest(product, offerPool + x);
    s := Pools(product, luna, Quo(product, offerPool + x));
    var asked := Asked(p, delta, terraOffered, s);
    QuoNearest(x - asked, x);
    SpreadLaw(p, x, asked, Quo(x - asked, x), PoolSpread(p, delta, x, terraOffered).value);
  }

  // ---------- quotes

  /** The fee is the spread's part of the amount to the nearest unit; at no spread there is none. */
  lemma FeeExact(q: Quote)
    requires q.spread >= 0
    ensures IsProduct(FeeOf(q), q.spread, q.amount)
  {
    hide Mul;
    MulNearest(q.spread, q.amount);
  }

  /**
   A swap is quoted at the oracle price through the base denom, and its spread is the larger
   tobin tax between Terra denoms and follows the constant product against Luna.
   */
  lemma QuoteExact(v: View, delta: Dec, offer: nat, offerDenom: Denom, askDenom: Denom) returns (x: Dec, s: Pools)
    requires v.Valid() && offer > 0 && ComputeSwap(v, delta, offer, offerDenom, askDenom).Ok?
    ensures var q := ComputeSwap(v, delta, offer, offerDenom, askDenom).value;
      && x > 0 && IsWorth(v, x, FromInt(offer), offerDenom, SDR) && IsWorth(v, q.amount, x, SDR, askDenom)
      && IsProduct(FeeOf(q), q.spread, q.amount)
      && ((offerDenom == LUNA || askDenom == LUNA) && v.params.basePool + delta > 0 ==>
            && ArePools(v.params, delta, x, offerDenom != LUNA, s)
            && FollowsProduct(v.params, q.spread, x, Asked(v.params, delta, offerDenom != LUNA, s)))
      && (offerDenom != LUNA && askDenom != LUNA ==>
            && offerDenom in v.tobinTaxes && askDenom in v.tobinTaxes
            && q.spread >= v.tobinTaxes[offerDenom] && q.spread >= v.tobinTaxes[askDenom]
            && q.spread in {v.tobinTaxes[offerDenom], v.tobinTaxes[askDenom]})
  {
    hide PoolSpread, InternalSwap, IsWorth, ArePools, FollowsProduct, FeeOf, IsProduct;
    var q := ComputeSwap(v, delta, offer, offerDenom, askDenom).value;
    x := InternalSwap(v, FromInt(offer), offerDenom, SDR).value;
    InternalExact(v, FromInt(offer), offerDenom, SDR);
    InternalExact(v, x, SDR, askDenom);
    QuotePositive(v, delta, offer, offerDenom, askDenom);
    FeeExact(q);
    assert x > 0 by {
      SameDenom(v, FromInt(offer), SDR);
    }
    s := Pools(0, 0, 0);
    if (offerDenom == LUNA || askDenom == LUNA) && v.params.basePool + delta > 0 {
      s := PoolSpreadExact(v.params, delta, x, offerDenom != LUNA);
    }
  }

  lemma SameDenom(v: View, amount: Dec, d: Denom)
    ensures InternalSwap(v, amount, d, d) == Ok(amount)
  {
  }

  // ---------- what a swap delivers

  /** The roundings of spread, conversion and fee, at the scale of the law below. */
  function Slack(x: Dec, a: Dec, s: Dec, spread: Dec): int {
    a * (x * (ONE + 2)) + Magnitude(ONE - spread) * (s * (ONE + 2) + ONE * ONE) + (ONE * ONE) * s
  }

  /**
   The amount after the fee, at the oracle price of the base denom, against what the constant
   product pays: it exceeds that by at most the roundings, and unless the spread is the minimum
   falls short of it by no more.
   */
  predicate Delivers(p: Params, q: Quote, x: Dec, asked: Dec, a: Dec, s: Dec) {
    var gap := 2 * ONE * (ONE * ((q.amount - FeeOf(q)) * s) - ONE * (a * asked));
    gap <= Slack(x, a, s, q.spread) && (q.spread > p.minStabilitySpread ==> gap >= -Slack(x, a, s, q.spread))
  }

  lemma DeliveredValue(p: Params, q: Quote, x: Dec, asked: Dec, a: Dec, s: Dec)
    requires x > 0 && a > 0 && s > 0
    requires IsConverted(q.amount, x, a, s) && FollowsProduct(p, q.spread, x, asked)
    requires IsProduct(FeeOf(q), q.spread, q.amount)
    ensures Delivers(p, q, x, asked, a, s)
  {
    hide FeeOf;
    var kept, e := ONE - q.spread, q.amount * s - x * a;
    var err := s * (ONE + 2) + ONE * ONE;
    KeptError(kept, 2 * ONE * e, err);
    FeeTerm(q.amount, FeeOf(q), q.spread, s);
    ValueTerms(q.amount, kept, x, a, s, asked);
    var g := kept * x - asked * ONE;
    ScaleMonotone(a, 2 * ONE * g, x * (ONE + 2));
    if q.spread > p.minStabilitySpread {
      ScaleMonotone(a, -(x * (ONE + 2)), 2 * ONE * g);
    }
    GapTerms(a, g, x, kept, e);
  }

  lemma KeptError(kept: int, e: int, err: int)
    requires -err <= e <= err
    ensures -(Magnitude(kept) * err) <= kept * e <= Magnitude(kept) * err
  {
    var m := Magnitude(kept);
    ScaleMonotone(m, e, err);
    ScaleMonotone(m, -err, e);
    assert m * -err == -(m * err) && kept * e in {m * e, -(m * e)};
  }

  lemma FeeTerm(amount: int, fee: int, spread: int, s: int)
    requires s > 0 && IsProduct(fee, spread, amount)
    ensures -(HALF * s) <= ONE * ((amount - fee) * s) - (ONE - spread) * (amount * s) <= HALF * s
  {
    var g := fee * ONE - spread * amount;
    ScaleMonotone(s, g, HALF);
    ScaleMonotone(s, -HALF, g);
    assert ONE * ((amount - fee) * s) - (ONE - spread) * (amount * s) == -(s * g) by {
      assert (ONE - spread) * (amount * s) == ONE * (amount * s) - spread * amount * s;
      assert s * g == fee * s * ONE - spread * amount * s;
      assert (amount - fee) * s == amount * s - fee * s;
    }
  }

  lemma ValueTerms(amount: int, kept: int, x: int, a: int, s: int, asked: int)
    ensures kept * (amount * s) - ONE * (a * asked) == a * (kept * x - asked * ONE) + kept * (amount * s - x * a)
  {
    assert kept * (amount * s - x * a) == kept * (amount * s) - kept * (x * a);
    assert a * (kept * x - asked * ONE) == kept * (x * a) - ONE * (a * asked);
  }

  lemma GapTerms(a: int, g: int, x: int, kept: int, e: int)
    ensures a * (2 * ONE * g) == 2 * ONE * (a * g)
    ensures kept * (2 * ONE * e) == 2 * ONE * (kept * e)
    ensures a * -(x * (ONE + 2)) == -(a * (x * (ONE + 2)))
  {
  }

  /** The rate of a denom at the oracle; the price of Luna in itself is one. */
  function RateFor(v: View, d: Denom): Dec {
    if v.RateOf(d).Some? then v.RateOf(d).value else 0
  }

  /** A positive amount converts to a positive one only at rates of the same sign. */
  lemma SameSign(amount: Dec, p: Dec, q: Dec)
    requires amount > 0 && q != 0 && Quo(Mul(amount, p), q) > 0
    ensures p > 0 <==> q > 0
  {
    hide ChopRound, TruncDiv;
    assert p >= 0 ==> amount * p >= 0;
    assert p <= 0 ==> amount * p <= 0;
    ChopRoundNearest(amount * p);
    var m := Mul(amount, p);
    QuotientSign(m * (ONE * ONE), q);
    ChopRoundNearest(TruncDiv(m * (ONE * ONE), q));
  }

  lemma QuotientSign(n: int, q: int)
    requires q != 0
    ensures n <= 0 && q > 0 ==> TruncDiv(n, q) <= 0
    ensures n >= 0 && q < 0 ==> TruncDiv(n, q) <= 0
  {
    if n <= 0 && q > 0 {
      TruncDivMonotone(n, 0, q);
    }
  }

  lemma ConvertedRates(v: View, amount: Dec, offerDenom: Denom, askDenom: Denom)
    requires amount > 0 && offerDenom != askDenom && InternalSwap(v, amount, offerDenom, askDenom).Ok?
    ensures RateFor(v, askDenom) > 0 <==> RateFor(v, offerDenom) > 0
    ensures InternalSwap(v, amount, offerDenom, askDenom).value > 0
  {
    hide Mul, Quo;
    SameSign(amount, RateFor(v, askDenom), RateFor(v, offerDenom));
  }

  /** The rates a swap against Luna is quoted at are positive. */
  lemma QuotedRates(v: View, delta: Dec, offer: nat, offerDenom: Denom, askDenom: Denom)
    requires offer > 0 && (offerDenom == LUNA || askDenom == LUNA)
    requires ComputeSwap(v, delta, offer, offerDenom, askDenom).Ok?
    ensures RateFor(v, askDenom) > 0 && RateFor(v, SDR) > 0
  {
    hide InternalSwap, PoolSpread;
    SameDenom(v, FromInt(offer), SDR);
    if offerDenom != SDR {
      ConvertedRates(v, FromInt(offer), offerDenom, SDR);
    }
    if askDenom != SDR {
      ConvertedRates(v, InternalSwap(v, FromInt(offer), offerDenom, SDR).value, SDR, askDenom);
    }
  }

  /** A swap against Luna delivers what the constant product pays, in either direction, up to rounding. */
  lemma SwapLaw(v: View, delta: Dec, offer: nat, offerDenom: Denom, askDenom: Denom) returns (x: Dec, s: Pools)
    requires v.Valid() && offer > 0 && v.params.basePool + delta > 0 && (offerDenom == LUNA || askDenom == LUNA)
    requires ComputeSwap(v, delta, offer, offerDenom, askDenom).Ok?
    ensures x > 0 && IsWorth(v, x, FromInt(offer), offerDenom, SDR) && RateFor(v, askDenom) > 0 && RateFor(v, SDR) > 0
    ensures ArePools(v.params, delta, x, offerDenom != LUNA, s)
    ensures Delivers(v.params, ComputeSwap(v, delta, offer, offerDenom, askDenom).value, x,
                     Asked(v.params, delta, offerDenom != LUNA, s), RateFor(v, askDenom), RateFor(v, SDR))
  {
    hide ComputeSwap, ArePools, FollowsProduct, FeeOf, IsProduct, IsConverted, Delivers;
    var q := ComputeSwap(v, delta, offer, offerDenom, askDenom).value;
    x, s := QuoteExact(v, delta, offer, offerDenom, askDenom);
    QuotePositive(v, delta, offer, offerDenom, askDenom);
    var a, sdr := RateFor(v, askDenom), RateFor(v, SDR);
    QuotedRates(v, delta, offer, offerDenom, askDenom);
    if askDenom == SDR {
      SameRate(x, a);
    }
    DeliveredValue(v.params, q, x, Asked(v.params, delta, offerDenom != LUNA, s), a, sdr);
  }

  lemma SameRate(x: Dec, a: Dec)
    requires a > 0
    ensures IsConverted(x, x, a, a)
  {
  }

  // ---------- what a swap does to the pool

  /**
   The pool delta moves by the base value of the Terra side of a swap: up by the offer, down by
   what is delivered, and not at all between Terra denoms.
   */
  lemma DeltaExact(v: View, delta: Dec, offer: nat, offerDenom: Denom, ask: Dec, askDenom: Denom)
    requires offerDenom != askDenom
    ensures var r := DeltaAfterSwap(v, delta, offer, offerDenom, ask, askDenom);
      if askDenom == LUNA then
        && (r.Ok? <==> InternalSwap(v, FromInt(offer), offerDenom, SDR).Ok?)
        && (r.Ok? ==> IsWorth(v, r.value - delta, FromInt(offer), offerDenom, SDR))
      else if offerDenom == LUNA then
        && (r.Ok? <==> InternalSwap(v, ask, askDenom, SDR).Ok?)
        && (r.Ok? ==> IsWorth(v, delta - r.value, ask, askDenom, SDR))
      else r == Ok(delta)
  {
    hide InternalSwap, IsWorth;
    InternalExact(v, FromInt(offer), offerDenom, SDR);
    InternalExact(v, ask, askDenom, SDR);
  }
}
