/**
 Swaps against the virtual liquidity pool (x/market/keeper/swap.go,
 x/market/keeper/msg_server.go, x/market/keeper/keeper.go) in the 18-digit fixed point of
 the source. This module holds what the keeper computes from what it reads; MarketKeeper
 holds the steps that change the store.
 */
module Market {
  import opened Decimals
  import opened Wrappers

  type Denom = string

  const LUNA: Denom := "uluna"
  const SDR: Denom := "usdr"

  /** More than 100 bits (msgs.go:61, swap.go:165). */
  const LIMIT: int := 0x10_0000_0000_0000_0000_0000_0000

  datatype Params = Params(basePool: Dec, poolRecoveryPeriod: nat, minStabilitySpread: Dec)
  {
    /** Params.Validate (x/market/types/params.go). */
    predicate Valid() {
      basePool >= 0 && poolRecoveryPeriod > 0 && 0 <= minStabilitySpread <= ONE
    }
  }

  /** What the market reads: its parameters, and the rates and tobin taxes of the oracle. */
  datatype View = View(params: Params, rates: map<Denom, Dec>, tobinTaxes: map<Denom, Dec>)
  {
    predicate Valid() {
      && params.Valid()
      && forall d :: d in tobinTaxes ==> 0 <= tobinTaxes[d] <= ONE
    }

    /** GetLunaExchangeRate (x/oracle/keeper/keeper.go). */
    function RateOf(d: Denom): Option<Dec> {
      if d == LUNA then Some(ONE) else if d in rates then Some(rates[d]) else None
    }
  }

  datatype Error =
    | RecursiveSwap | NoEffectivePrice | InvalidCoins | NoTobinTax | ZeroSwapCoin
    | InsufficientFunds | BlockedAddress | Panic

  datatype Quote = Quote(amount: Dec, spread: Dec)

  // ---------- quotes

  /** ComputeInternalSwap (swap.go:136-157): conversion at the oracle price, free of spread. */
  function InternalSwap(v: View, amount: Dec, offerDenom: Denom, askDenom: Denom): Result<Dec, Error> {
    if offerDenom == askDenom then Ok(amount)
    else if v.RateOf(offerDenom).None? || v.RateOf(askDenom).None? then Err(NoEffectivePrice)
    else if v.RateOf(offerDenom).value == 0 then Err(Panic)
    else
      var ret := Quo(Mul(amount, v.RateOf(askDenom).value), v.RateOf(offerDenom).value);
      if ret <= 0 then Err(InvalidCoins) else Ok(ret)
  }

  /** The larger tobin tax of the two denoms (swap.go:73-92). */
  function TobinSpread(v: View, offerDenom: Denom, askDenom: Denom): Result<Dec, Error> {
    if offerDenom !in v.tobinTaxes || askDenom !in v.tobinTaxes then Err(NoTobinTax)
    else if v.tobinTaxes[askDenom] > v.tobinTaxes[offerDenom] then Ok(v.tobinTaxes[askDenom])
    else Ok(v.tobinTaxes[offerDenom])
  }

  /** The constant-product spread (swap.go:95-130). */
  function PoolSpread(p: Params, delta: Dec, baseOffer: Dec, terraOffered: bool): Result<Dec, Error> {
    var cp := Mul(p.basePool, p.basePool);
    var terraPool := p.basePool + delta;
    if terraPool == 0 then Err(Panic)
    else
      var lunaPool := Quo(cp, terraPool);
      var offerPool := if terraOffered then terraPool else lunaPool;
      var askPool := if terraOffered then lunaPool else terraPool;
      if offerPool + baseOffer == 0 || baseOffer == 0 then Err(Panic)
      else
        var askBase := askPool - Quo(cp, offerPool + baseOffer);
        var spread := Quo(baseOffer - askBase, baseOffer);
        Ok(if spread < p.minStabilitySpread then p.minStabilitySpread else spread)
  }

  /** ComputeSwap (swap.go:52-131). */
  function ComputeSwap(v: View, delta: Dec, offer: nat, offerDenom: Denom, askDenom: Denom): Result<Quote, Error> {
    if offerDenom == askDenom then Err(RecursiveSwap)
    else
      var base := InternalSwap(v, FromInt(offer), offerDenom, SDR);
      if base.Err? then Err(base.error)
      else
        var ret := InternalSwap(v, base.value, SDR, askDenom);
        if ret.Err? then Err(ret.error)
        else
          var spread :=
            if offerDenom != LUNA && askDenom != LUNA then TobinSpread(v, offerDenom, askDenom)
            else PoolSpread(v.params, delta, base.value, offerDenom != LUNA);
          if spread.Err? then Err(spread.error) else Ok(Quote(ret.value, spread.value))
  }

  /** The fee held back from a quoted amount (msg_server.go:70-76). */
  function FeeOf(q: Quote): Dec {
    if q.spread > 0 then Mul(q.spread, q.amount) else 0
  }

  /** simulateSwap (swap.go:160-184); a negative coin amount is a panic. */
  function SimulateSwap(v: View, delta: Dec, offer: nat, offerDenom: Denom, askDenom: Denom): Result<nat, Error> {
    if askDenom == offerDenom then Err(RecursiveSwap)
    else if offer >= LIMIT then Err(InvalidCoins)
    else
      var q := ComputeSwap(v, delta, offer, offerDenom, askDenom);
      if q.Err? then Err(Panic)
      else if q.value.spread > 0 && FeeOf(q.value) > 0 then
        if q.value.amount < FeeOf(q.value) then Err(Panic)
        else
          TruncateNonNegative(q.value.amount - FeeOf(q.value));
          Ok(Truncate(q.value.amount - FeeOf(q.value)))
      else if q.value.amount < 0 then Err(Panic)
      else
        TruncateNonNegative(q.value.amount);
        Ok(Truncate(q.value.amount))
  }

  /** ApplySwapToPool (swap.go:15-46): the pool delta after a swap. */
  function DeltaAfterSwap(v: View, delta: Dec, offer: nat, offerDenom: Denom, ask: Dec, askDenom: Denom)
    : Result<Dec, Error>
  {
    if offerDenom != LUNA && askDenom != LUNA then Ok(delta)
    else if offerDenom != LUNA && askDenom == LUNA then
      var base := InternalSwap(v, FromInt(offer), offerDenom, SDR);
      if base.Err? then Err(base.error) else Ok(delta + base.value)
    else if offerDenom == LUNA && askDenom != LUNA then
      var base := InternalSwap(v, ask, askDenom, SDR);
      if base.Err? then Err(base.error) else Ok(delta - base.value)
    else Ok(delta)
  }

  // ---------- facts about quotes

  lemma TruncateNonNegative(x: Dec)
    requires x >= 0
    ensures Truncate(x) >= 0 && Truncate(x) * ONE <= x < (Truncate(x) + 1) * ONE
  {
  }

  /**
   A Terra to Luna swap with a positive Terra pool and a positive offer is always quoted, with
   a spread between the minimum and one: the rounded constant product cannot pay out a
   negative amount.
   */
  lemma TerraToLunaSpread(p: Params, delta: Dec, baseOffer: Dec)
    requires p.Valid() && p.basePool + delta > 0 && baseOffer > 0
    ensures PoolSpread(p, delta, baseOffer, true).Ok?
    ensures p.minStabilitySpread <= PoolSpread(p, delta, baseOffer, true).value <= ONE
  {
    hide Quo, Mul;
    var cp, terraPool := Mul(p.basePool, p.basePool), p.basePool + delta;
    MulNonNegative(p.basePool, p.basePool);
    QuoAntitone(cp, terraPool, terraPool + baseOffer);
    var askBase := Quo(cp, terraPool) - Quo(cp, terraPool + baseOffer);
    QuoMonotone(baseOffer - askBase, baseOffer, baseOffer);
    QuoSelf(baseOffer);
  }

  /** With a spread of at most one, the fee never exceeds the quoted amount. */
  lemma FeeWithinAmount(q: Quote)
    requires 0 <= q.spread <= ONE && q.amount >= 0
    ensures 0 <= FeeOf(q) <= q.amount
  {
    MulNonNegative(q.spread, q.amount);
    MulMonotone(q.spread, ONE, q.amount);
    MulOne(q.amount);
  }

  /** With a spread of at least one, the fee is at least the quoted amount. */
  lemma FeeExceedsAmount(q: Quote)
    requires q.spread >= ONE && q.amount >= 0
    ensures FeeOf(q) >= q.amount
  {
    MulMonotone(ONE, q.spread, q.amount);
    MulOne(q.amount);
  }

  /**
   Quoted amounts are positive, and no spread is negative: between Terra denoms it is the
   larger tobin tax of the two, against Luna it is at least the minimum.
   */
  lemma QuotePositive(v: View, delta: Dec, offer: nat, offerDenom: Denom, askDenom: Denom)
    requires v.Valid() && offer > 0 && ComputeSwap(v, delta, offer, offerDenom, askDenom).Ok?
    ensures ComputeSwap(v, delta, offer, offerDenom, askDenom).value.amount > 0
    ensures var spread := ComputeSwap(v, delta, offer, offerDenom, askDenom).value.spread;
      && spread >= 0
      && if offerDenom == LUNA || askDenom == LUNA then spread >= v.params.minStabilitySpread
         else
           && offerDenom in v.tobinTaxes && askDenom in v.tobinTaxes
           && v.tobinTaxes[offerDenom] <= spread && v.tobinTaxes[askDenom] <= spread
           && spread in {v.tobinTaxes[offerDenom], v.tobinTaxes[askDenom]}
  {
    hide Quo, Mul;
  }

  /** A Terra to Luna swap delivers between nothing and the full oracle-price amount. */
  lemma TerraToLunaFee(v: View, delta: Dec, offer: nat, offerDenom: Denom)
    requires v.Valid() && offer > 0 && offerDenom != LUNA && v.params.basePool + delta > 0
    requires InternalSwap(v, FromInt(offer), offerDenom, SDR).Ok?
    requires InternalSwap(v, InternalSwap(v, FromInt(offer), offerDenom, SDR).value, SDR, LUNA).Ok?
    ensures ComputeSwap(v, delta, offer, offerDenom, LUNA).Ok?
    ensures var q := ComputeSwap(v, delta, offer, offerDenom, LUNA).value;
      v.params.minStabilitySpread <= q.spread <= ONE && 0 <= FeeOf(q) <= q.amount
  {
    hide Quo, Mul, PoolSpread, FeeOf;
    var base := InternalSwap(v, FromInt(offer), offerDenom, SDR).value;
    TerraToLunaSpread(v.params, delta, base);
    FeeWithinAmount(ComputeSwap(v, delta, offer, offerDenom, LUNA).value);
  }

  // ---------- how a quoted amount is divided

  /** The coin delivered and the coin kept as fee (msg_server.go:78-109). */
  function SwapCoin(q: Quote): int {
    Truncate(q.amount - FeeOf(q))
  }

  function FeeCoin(q: Quote): int {
    var rest := q.amount - FeeOf(q) - FromInt(SwapCoin(q));
    Truncate(FeeOf(q) + rest)
  }

  /** Nothing is lost to rounding: the two coins add up to the whole part of the quoted amount. */
  lemma CoinsAddUp(q: Quote)
    requires 0 <= FeeOf(q) <= q.amount
    ensures SwapCoin(q) >= 0 && FeeCoin(q) >= 0
    ensures SwapCoin(q) + FeeCoin(q) == Truncate(q.amount)
    ensures FromInt(SwapCoin(q)) <= q.amount - FeeOf(q) < FromInt(SwapCoin(q) + 1)
  {
    hide FeeOf;
    TruncateNonNegative(q.amount - FeeOf(q));
    TruncateNonNegative(q.amount);
    TruncateNonNegative(q.amount - FromInt(SwapCoin(q)));
  }

  /** A positive coin is only delivered if the fee stayed below the amount. */
  lemma PositiveCoinMeansFee(q: Quote)
    requires q.spread >= 0 && q.amount > 0 && SwapCoin(q) > 0
    ensures 0 <= FeeOf(q) <= q.amount && q.spread < ONE
  {
    if q.spread >= ONE {
      FeeExceedsAmount(q);
      assert false;
    } else {
      FeeWithinAmount(q);
    }
  }

  // ---------- replenishing

  /** ReplenishPools (keeper.go:82-93). */
  function Replenished(delta: Dec, period: nat): Dec
    requires period > 0
  {
    delta - QuoInt(delta, period)
  }

  function Magnitude(x: int): nat {
    if x < 0 then -x else x
  }

  lemma TruncDivMagnitude(x: int, d: nat)
    requires d > 0
    ensures Magnitude(TruncDiv(x, d)) == Magnitude(x) / d
    ensures Magnitude(x) / d <= Magnitude(x)
    ensures d >= 2 && x != 0 ==> Magnitude(x) / d < Magnitude(x)
    ensures Magnitude(x) / d == 0 <==> Magnitude(x) < d
  {
    QuotientOf(Magnitude(x), d);
  }

  lemma SmallQuotient(m: nat, d: nat)
    requires m < d
    ensures m / d == 0
  {
  }

  lemma QuotientOf(m: nat, d: nat)
    requires d > 0
    ensures 0 <= m / d <= m && (d >= 2 && m > 0 ==> m / d < m) && (m / d == 0 <==> m < d)
  {
    DivAtLeast(m, d, 0);
    DivAntitone(m, 1, d);
    if d >= 2 && m > 0 {
      DivAntitone(m, 2, d);
    }
    if m >= d {
      DivAtLeast(m, d, 1);
    } else {
      SmallQuotient(m, d);
    }
  }

  /**
   One block moves the delta towards zero without crossing it. It leaves a non-zero delta
   non-zero exactly if the recovery period is not one, and unchanged exactly if the scaled
   magnitude is below the period; what it takes off is one part of the period, cut off.
   */
  lemma ReplenishStep(delta: Dec, period: nat)
    requires period > 0
    ensures delta >= 0 ==> 0 <= Replenished(delta, period) <= delta
    ensures delta <= 0 ==> delta <= Replenished(delta, period) <= 0
    ensures delta != 0 ==> (Replenished(delta, period) == 0 <==> period == 1)
    ensures Replenished(delta, period) == delta <==> Magnitude(delta) < period
    ensures IsCutQuotient(delta - Replenished(delta, period), delta, period)
  {
    QuoIntCut(delta, period);
    TruncDivMagnitude(delta, period);
    DivAtLeast(Magnitude(delta), period, 0);
    if period == 1 {
      assert delta / 1 == delta && (-delta) / 1 == -delta;
    }
  }

  function ReplenishedAfter(delta: Dec, period: nat, blocks: nat): Dec
    requires period > 0
    decreases blocks
  {
    if blocks == 0 then delta else Replenished(ReplenishedAfter(delta, period, blocks - 1), period)
  }

  /** Over any number of blocks the delta only shrinks and keeps its sign. */
  lemma {:induction false} ReplenishMonotone(delta: Dec, period: nat, m: nat, n: nat)
    requires period > 0 && m <= n
    ensures var x, y := ReplenishedAfter(delta, period, m), ReplenishedAfter(delta, period, n);
      Magnitude(y) <= Magnitude(x) && (x >= 0 ==> y >= 0) && (x <= 0 ==> y <= 0)
    ensures period >= 2 && delta != 0 ==> ReplenishedAfter(delta, period, n) != 0
    decreases n
  {
    if n > 0 {
      ReplenishMonotone(delta, period, if m < n then m else n - 1, n - 1);
      ReplenishStep(ReplenishedAfter(delta, period, n - 1), period);
    }
  }

  /** After finitely many blocks the delta is below the period, and stays where it is for ever. */
  lemma ReplenishSettles(delta: Dec, period: nat) returns (n: nat)
    requires period > 0
    ensures Magnitude(ReplenishedAfter(delta, period, n)) < period
    ensures forall k :: k >= n ==> ReplenishedAfter(delta, period, k) == ReplenishedAfter(delta, period, n)
  {
    n := 0;
    while Magnitude(ReplenishedAfter(delta, period, n)) >= period
      decreases Magnitude(ReplenishedAfter(delta, period, n))
    {
      ReplenishStep(ReplenishedAfter(delta, period, n), period);
      n := n + 1;
    }
    forall k | k >= n ensures ReplenishedAfter(delta, period, k) == ReplenishedAfter(delta, period, n) {
      StaysSettled(delta, period, n, k);
    }
  }

  lemma {:induction false} StaysSettled(delta: Dec, period: nat, n: nat, k: nat)
    requires period > 0 && n <= k && Magnitude(ReplenishedAfter(delta, period, n)) < period
    ensures ReplenishedAfter(delta, period, k) == ReplenishedAfter(delta, period, n)
    decreases k
  {
    if n < k {
      StaysSettled(delta, period, n, k - 1);
      ReplenishStep(ReplenishedAfter(delta, period, n), period);
    }
  }
}
