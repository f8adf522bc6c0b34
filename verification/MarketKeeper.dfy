/**
 The market keeper as it changes the store (x/market/keeper/msg_server.go,
 x/market/keeper/keeper.go, x/market/keeper/swap.go): a swap moves, burns and mints coins
 one step after the other and updates the pool delta.
 */
module MarketKeeper {
  import opened Decimals
  import opened Wrappers
  import opened Market

  type Addr = string
  type Account = (Addr, Denom)
  type Balances = map<Account, nat>

  const MARKET: Addr := "market"
  const ORACLE: Addr := "oracle"

  function BalanceOf(b: Balances, a: Addr, d: Denom): nat {
    if (a, d) in b then b[(a, d)] else 0
  }

  function SupplyOf(s: map<Denom, int>, d: Denom): int {
    if d in s then s[d] else 0
  }

  datatype Receipt = Receipt(swapCoin: nat, feeCoin: nat)

  datatype Request = Request(trader: Addr, receiver: Addr, offer: nat, offerDenom: Denom, askDenom: Denom)
  {
    /** ValidateBasic (msgs.go:55-70), and a signer is not the market's own account. */
    predicate Valid() {
      0 < offer < LIMIT && offerDenom != askDenom && trader != MARKET
    }
  }

  /** What an account of a denom gains in a swap. */
  function Gain(q: Request, r: Receipt, a: Addr, d: Denom): int {
    (if a == q.receiver && d == q.askDenom then r.swapCoin else 0)
    + (if a == ORACLE && d == q.askDenom then r.feeCoin else 0)
    - (if a == q.trader && d == q.offerDenom then q.offer else 0)
  }

  /** What the supply of a denom gains in a swap. */
  function Issued(q: Request, r: Receipt, d: Denom): int {
    (if d == q.askDenom then r.swapCoin + r.feeCoin else 0) - (if d == q.offerDenom then q.offer else 0)
  }

  /** All balances and supplies moved by exactly the swap. */
  ghost predicate Settled(b: Balances, s: map<Denom, int>, b': Balances, s': map<Denom, int>, q: Request, r: Receipt) {
    && (forall a, d :: BalanceOf(b', a, d) == BalanceOf(b, a, d) + Gain(q, r, a, d))
    && (forall d :: SupplyOf(s', d) == SupplyOf(s, d) + Issued(q, r, d))
  }

  /** When a request succeeds: what the caller can see in advance of it. */
  predicate Succeeds(v: View, delta: Dec, balances: Balances, blocked: set<Addr>, q: Request) {
    && ComputeSwap(v, delta, q.offer, q.offerDenom, q.askDenom).Ok?
    && SimulateSwap(v, delta, q.offer, q.offerDenom, q.askDenom).Ok?
    && SimulateSwap(v, delta, q.offer, q.offerDenom, q.askDenom).value > 0
    && (var quote := ComputeSwap(v, delta, q.offer, q.offerDenom, q.askDenom).value;
        DeltaAfterSwap(v, delta, q.offer, q.offerDenom, quote.amount - FeeOf(quote), q.askDenom).Ok?)
    && BalanceOf(balances, q.trader, q.offerDenom) >= q.offer
    && q.receiver !in blocked
  }

  /** The quote, the coins and the simulation of a request agree. */
  lemma QuoteMatchesSimulation(v: View, delta: Dec, q: Request)
    requires v.Valid() && q.Valid() && ComputeSwap(v, delta, q.offer, q.offerDenom, q.askDenom).Ok?
    ensures var quote, sim := ComputeSwap(v, delta, q.offer, q.offerDenom, q.askDenom).value,
                              SimulateSwap(v, delta, q.offer, q.offerDenom, q.askDenom);
      && (sim.Ok? && sim.value > 0 <==> SwapCoin(quote) > 0)
      && (SwapCoin(quote) > 0 ==>
            && sim.value == SwapCoin(quote) && FeeCoin(quote) >= 0
            && SwapCoin(quote) + FeeCoin(quote) == Truncate(quote.amount))
  {
    hide ComputeSwap, FeeCoin, Mul;
    var quote := ComputeSwap(v, delta, q.offer, q.offerDenom, q.askDenom).value;
    QuotePositive(v, delta, q.offer, q.offerDenom, q.askDenom);
    if SwapCoin(quote) > 0 {
      PositiveCoinMeansFee(quote);
      CoinsAddUp(quote);
    } else if quote.spread <= 0 || FeeOf(quote) <= 0 {
      TruncateNonNegative(quote.amount);
    }
  }

  function QuoteFor(v: View, delta: Dec, balances: Balances, blocked: set<Addr>, q: Request): Quote
    requires Succeeds(v, delta, balances, blocked, q)
  {
    ComputeSwap(v, delta, q.offer, q.offerDenom, q.askDenom).value
  }

  /** The pool delta after a successful request. */
  function DeltaFor(v: View, delta: Dec, balances: Balances, blocked: set<Addr>, q: Request): Dec
    requires Succeeds(v, delta, balances, blocked, q)
  {
    var quote := QuoteFor(v, delta, balances, blocked, q);
    DeltaAfterSwap(v, delta, q.offer, q.offerDenom, quote.amount - FeeOf(quote), q.askDenom).value
  }

  lemma SucceedsUnfolded(v: View, delta: Dec, balances: Balances, blocked: set<Addr>, q: Request)
    ensures var computed := ComputeSwap(v, delta, q.offer, q.offerDenom, q.askDenom);
      Succeeds(v, delta, balances, blocked, q) <==>
      && computed.Ok?
      && SimulateSwap(v, delta, q.offer, q.offerDenom, q.askDenom).Ok?
      && SimulateSwap(v, delta, q.offer, q.offerDenom, q.askDenom).value > 0
      && DeltaAfterSwap(v, delta, q.offer, q.offerDenom, computed.value.amount - FeeOf(computed.value), q.askDenom).Ok?
      && BalanceOf(balances, q.trader, q.offerDenom) >= q.offer
      && q.receiver !in blocked
    ensures Succeeds(v, delta, balances, blocked, q) ==>
      var quote := QuoteFor(v, delta, balances, blocked, q);
      && Ok(quote) == ComputeSwap(v, delta, q.offer, q.offerDenom, q.askDenom)
      && Ok(DeltaFor(v, delta, balances, blocked, q))
         == DeltaAfterSwap(v, delta, q.offer, q.offerDenom, quote.amount - FeeOf(quote), q.askDenom)
  {
    hide ComputeSwap, SimulateSwap, DeltaAfterSwap, FeeOf;
  }

  /** The error of a request, in the order in which the source meets its failures. */
  function SwapError(v: View, delta: Dec, balances: Balances, blocked: set<Addr>, q: Request): Option<Error> {
    var computed := ComputeSwap(v, delta, q.offer, q.offerDenom, q.askDenom);
    if computed.Err? then Some(computed.error)
    else
      var swapDec := computed.value.amount - FeeOf(computed.value);
      var after := DeltaAfterSwap(v, delta, q.offer, q.offerDenom, swapDec, q.askDenom);
      if after.Err? then Some(after.error) else SettleError(balances, blocked, q, swapDec)
  }

  /** The error of the transfers; a negative amount makes the truncation panic. */
  function SettleError(balances: Balances, blocked: set<Addr>, q: Request, swapDec: Dec): Option<Error> {
    if BalanceOf(balances, q.trader, q.offerDenom) < q.offer then Some(InsufficientFunds)
    else if swapDec < 0 then Some(Panic)
    else if Truncate(swapDec) == 0 then Some(ZeroSwapCoin)
    else if q.receiver in blocked then Some(BlockedAddress)
    else None
  }

  /** A request is without error exactly if it succeeds. */
  lemma SucceedsIffNoError(v: View, delta: Dec, balances: Balances, blocked: set<Addr>, q: Request)
    requires v.Valid() && q.Valid()
    ensures Succeeds(v, delta, balances, blocked, q) <==> SwapError(v, delta, balances, blocked, q).None?
  {
    hide ComputeSwap, SimulateSwap, DeltaAfterSwap, FeeOf, Truncate, Succeeds;
    SucceedsUnfolded(v, delta, balances, blocked, q);
    var computed := ComputeSwap(v, delta, q.offer, q.offerDenom, q.askDenom);
    if computed.Ok? {
      QuoteMatchesSimulation(v, delta, q);
      TruncateSign(computed.value.amount - FeeOf(computed.value));
    }
  }

  lemma SwapErrorUnfolded(v: View, delta: Dec, balances: Balances, blocked: set<Addr>, q: Request)
    ensures var computed, e := ComputeSwap(v, delta, q.offer, q.offerDenom, q.askDenom),
                               SwapError(v, delta, balances, blocked, q);
      && (computed.Err? ==> e == Some(computed.error))
      && (computed.Ok? ==>
            var swapDec := computed.value.amount - FeeOf(computed.value);
            var after := DeltaAfterSwap(v, delta, q.offer, q.offerDenom, swapDec, q.askDenom);
            && SwapCoin(computed.value) == Truncate(swapDec)
            && e == if after.Err? then Some(after.error) else SettleError(balances, blocked, q, swapDec))
  {
    hide ComputeSwap, DeltaAfterSwap, FeeOf, SettleError, Truncate;
  }

  lemma TruncateSign(x: Dec)
    ensures Truncate(x) > 0 <==> x >= 0 && Truncate(x) != 0
  {
  }

  /**
   Fee, delivered coin and remainder of a quote (msg_server.go:69-79, 101-109): unless the fee
   exceeds the amount, nothing is lost to rounding.
   */
  method DivideQuote(quote: Quote) returns (swapDec: Dec, swapCoin: int, feeCoin: int)
    ensures swapDec == quote.amount - FeeOf(quote)
    ensures swapCoin == SwapCoin(quote) && feeCoin == FeeCoin(quote)
    ensures 0 <= FeeOf(quote) <= quote.amount ==>
      swapCoin >= 0 && feeCoin >= 0 && swapCoin + feeCoin == Truncate(quote.amount)
  {
    hide FeeOf, Truncate;
    if 0 <= FeeOf(quote) <= quote.amount {
      CoinsAddUp(quote);
    }
    var feeDec := FeeOf(quote);
    swapDec := quote.amount - feeDec;
    swapCoin := Truncate(swapDec);
    var decimals := swapDec - FromInt(swapCoin);
    feeDec := feeDec + decimals;
    feeCoin := Truncate(feeDec);
  }

  class Keeper {
    const blocked: set<Addr>
    var view: View
    var delta: Dec
    var balances: Balances
    var supply: map<Denom, int>

    constructor (view: View, blocked: set<Addr>, delta: Dec, balances: Balances, supply: map<Denom, int>)
      ensures this.view == view && this.blocked == blocked && this.delta == delta
      ensures this.balances == balances && this.supply == supply
    {
      this.view, this.blocked, this.delta, this.balances, this.supply := view, blocked, delta, balances, supply;
    }

    // ---------- the bank

    method Send(source: Addr, target: Addr, d: Denom, n: nat) returns (ok: bool)
      modifies this`balances
      ensures ok <==> BalanceOf(old(balances), source, d) >= n
      ensures !ok ==> balances == old(balances)
      ensures ok ==> forall a, e ::
        BalanceOf(balances, a, e) == BalanceOf(old(balances), a, e)
          - (if a == source && e == d then n else 0) + (if a == target && e == d then n else 0)
    {
      ok := BalanceOf(balances, source, d) >= n;
      if ok {
        balances := balances[(source, d) := BalanceOf(balances, source, d) - n];
        balances := balances[(target, d) := BalanceOf(balances, target, d) + n];
      }
    }

    method Burn(source: Addr, d: Denom, n: nat) returns (ok: bool)
      modifies this`balances, this`supply
      ensures ok <==> BalanceOf(old(balances), source, d) >= n
      ensures !ok ==> balances == old(balances) && supply == old(supply)
      ensures ok ==> forall a, e ::
        BalanceOf(balances, a, e) == BalanceOf(old(balances), a, e) - (if a == source && e == d then n else 0)
      ensures ok ==> forall e :: SupplyOf(supply, e) == SupplyOf(old(supply), e) - (if e == d then n else 0)
    {
      ok := BalanceOf(balances, source, d) >= n;
      if ok {
        balances := balances[(source, d) := BalanceOf(balances, source, d) - n];
        supply := supply[d := SupplyOf(supply, d) - n];
      }
    }

    method Mint(target: Addr, d: Denom, n: nat)
      modifies this`balances, this`supply
      ensures forall a, e ::
        BalanceOf(balances, a, e) == BalanceOf(old(balances), a, e) + (if a == target && e == d then n else 0)
      ensures forall e :: SupplyOf(supply, e) == SupplyOf(old(supply), e) + (if e == d then n else 0)
    {
      balances := balances[(target, d) := BalanceOf(balances, target, d) + n];
      supply := supply[d := SupplyOf(supply, d) + n];
    }

    // ---------- swaps

    /** ApplySwapToPool (swap.go:15-46). */
    method ApplySwapToPool(offer: nat, offerDenom: Denom, ask: Dec, askDenom: Denom) returns (err: Option<Error>)
      modifies this`delta
      ensures var after := DeltaAfterSwap(view, old(delta), offer, offerDenom, ask, askDenom);
        err == if after.Err? then Some(after.error) else None
      ensures err.None? ==> delta == DeltaAfterSwap(view, old(delta), offer, offerDenom, ask, askDenom).value
      ensures err.Some? ==> delta == old(delta)
    {
      hide InternalSwap;
      if offerDenom != LUNA && askDenom != LUNA {
        return None;
      }
      var terraPoolDelta := delta;
      if offerDenom != LUNA && askDenom == LUNA {
        var base := InternalSwap(view, FromInt(offer), offerDenom, SDR);
        if base.Err? {
          return Some(base.error);
        }
        terraPoolDelta := terraPoolDelta + base.value;
      }
      if offerDenom == LUNA && askDenom != LUNA {
        var base := InternalSwap(view, ask, askDenom, SDR);
        if base.Err? {
          return Some(base.error);
        }
        terraPoolDelta := terraPoolDelta - base.value;
      }
      delta := terraPoolDelta;
      err := None;
    }

    /** The offer is sent to the market account and burned (msg_server.go:87-98). */
    method BurnOffer(q: Request) returns (ok: bool)
      requires q.Valid()
      modifies this`balances, this`supply
      ensures ok <==> BalanceOf(old(balances), q.trader, q.offerDenom) >= q.offer
      ensures ok ==> forall a, d ::
        BalanceOf(balances, a, d) == BalanceOf(old(balances), a, d)
          - (if a == q.trader && d == q.offerDenom then q.offer else 0)
      ensures ok ==> forall d ::
        SupplyOf(supply, d) == SupplyOf(old(supply), d) - (if d == q.offerDenom then q.offer else 0)
    {
      ok := Send(q.trader, MARKET, q.offerDenom, q.offer);
      if ok {
        var burned := Burn(MARKET, q.offerDenom, q.offer);
      }
    }

    /** What is asked is minted and shared between receiver and oracle account (msg_server.go:111-131). */
    method PayAsked(q: Request, swapCoin: nat, feeCoin: nat)
      requires q.Valid() && MARKET in blocked && q.receiver !in blocked
      modifies this`balances, this`supply
      ensures forall a, d ::
        BalanceOf(balances, a, d) == BalanceOf(old(balances), a, d)
          + (if a == q.receiver && d == q.askDenom then swapCoin else 0)
          + (if a == ORACLE && d == q.askDenom then feeCoin else 0)
      ensures forall d ::
        SupplyOf(supply, d) == SupplyOf(old(supply), d) + (if d == q.askDenom then swapCoin + feeCoin else 0)
    {
      Mint(MARKET, q.askDenom, swapCoin + feeCoin);
      var ok := Send(MARKET, q.receiver, q.askDenom, swapCoin);
      if feeCoin > 0 {
        ok := Send(MARKET, ORACLE, q.askDenom, feeCoin);
      }
    }

    /** The transfers of a swap (msg_server.go:87-131), from the offer to the fee. */
    method SettleSwap(q: Request, swapDec: Dec, swapCoin: int, feeCoin: int) returns (err: Option<Error>)
      requires q.Valid() && MARKET in blocked && swapCoin == Truncate(swapDec) && (swapCoin > 0 ==> feeCoin >= 0)
      modifies this`balances, this`supply
      ensures err == SettleError(old(balances), blocked, q, swapDec)
      ensures err.None? ==>
        swapCoin > 0 && Settled(old(balances), old(supply), balances, supply, q, Receipt(swapCoin, feeCoin))
    {
      hide Truncate, BalanceOf, SupplyOf;
      TruncateSign(swapDec);
      var ok := BurnOffer(q);
      if !ok {
        return Some(InsufficientFunds);
      }
      if swapDec < 0 {
        return Some(Panic);
      }
      if swapCoin == 0 {
        return Some(ZeroSwapCoin);
      }
      if q.receiver in blocked {
        return Some(BlockedAddress);
      }
      PayAsked(q, swapCoin, feeCoin);
      err := None;
    }

    /** handleSwapRequest (msg_server.go:60-152). A failed request leaves the store to be rolled back. */
    method HandleSwapRequest(q: Request) returns (r: Result<Receipt, Error>)
      requires view.Valid() && q.Valid() && MARKET in blocked
      modifies this`delta, this`balances, this`supply
      ensures r.Ok? <==> Succeeds(view, old(delta), old(balances), blocked, q)
      ensures r.Err? ==> SwapError(view, old(delta), old(balances), blocked, q) == Some(r.error)
      ensures r.Ok? ==>
        var quote := QuoteFor(view, old(delta), old(balances), blocked, q);
        && r.value.swapCoin == SwapCoin(quote) && r.value.feeCoin == FeeCoin(quote)
        && delta == DeltaFor(view, old(delta), old(balances), blocked, q)
      ensures r.Ok? ==> Settled(old(balances), old(supply), balances, supply, q, r.value)
    {
      hide *;
      var computed := ComputeSwap(view, delta, q.offer, q.offerDenom, q.askDenom);
      SucceedsUnfolded(view, delta, balances, blocked, q);
      SucceedsIffNoError(view, delta, balances, blocked, q);
      SwapErrorUnfolded(view, delta, balances, blocked, q);
      if computed.Err? {
        return Err(computed.error);
      }
      QuoteMatchesSimulation(view, delta, q);
      var quote := computed.value;
      var swapDec, swapCoin, feeCoin := DivideQuote(quote);
      var err := ApplySwapToPool(q.offer, q.offerDenom, swapDec, q.askDenom);
      if err.Some? {
        return Err(err.value);
      }
      err := SettleSwap(q, swapDec, swapCoin, feeCoin);
      if err.Some? {
        return Err(err.value);
      }
      r := Ok(Receipt(swapCoin, feeCoin));
    }

    /**
     A swap transaction: the handler with the roll-back of a failed transaction. It burns
     exactly the offer, mints exactly the whole part of the spread-free amount, split between
     receiver and oracle account, leaves the market account as it was, and delivers exactly
     the coin the simulation announced.
     */
    method Swap(q: Request) returns (r: Result<Receipt, Error>)
      requires view.Valid() && q.Valid() && MARKET in blocked
      modifies this`delta, this`balances, this`supply
      ensures r.Ok? <==> Succeeds(view, old(delta), old(balances), blocked, q)
      ensures r.Err? ==> SwapError(view, old(delta), old(balances), blocked, q) == Some(r.error)
      ensures r.Err? ==> delta == old(delta) && balances == old(balances) && supply == old(supply)
      ensures r.Ok? ==>
        && SimulateSwap(view, old(delta), q.offer, q.offerDenom, q.askDenom) == Ok(r.value.swapCoin)
        && r.value.swapCoin + r.value.feeCoin
             == Truncate(QuoteFor(view, old(delta), old(balances), blocked, q).amount)
        && SupplyOf(supply, q.offerDenom) == SupplyOf(old(supply), q.offerDenom) - q.offer
        && SupplyOf(supply, q.askDenom) == SupplyOf(old(supply), q.askDenom) + r.value.swapCoin + r.value.feeCoin
        && (forall d :: d != q.offerDenom && d != q.askDenom ==> SupplyOf(supply, d) == SupplyOf(old(supply), d))
        && (forall d :: BalanceOf(balances, MARKET, d) == BalanceOf(old(balances), MARKET, d))
        && Settled(old(balances), old(supply), balances, supply, q, r.value)
    {
      hide ComputeSwap, SimulateSwap, DeltaAfterSwap, FeeOf, SwapCoin, FeeCoin, Truncate, SwapError;
      var savedDelta, savedBalances, savedSupply := delta, balances, supply;
      r := HandleSwapRequest(q);
      if r.Err? {
        delta, balances, supply := savedDelta, savedBalances, savedSupply;
      } else {
        SucceedsUnfolded(view, old(delta), old(balances), blocked, q);
        QuoteMatchesSimulation(view, old(delta), q);
      }
    }

    /** ReplenishPools (keeper.go:82-93), at the end of every block (x/market/abci.go). */
    method ReplenishPools()
      requires view.Valid()
      modifies this`delta
      ensures delta == Replenished(old(delta), view.params.poolRecoveryPeriod)
      ensures old(delta) >= 0 ==> 0 <= delta <= old(delta)
      ensures old(delta) <= 0 ==> old(delta) <= delta <= 0
      ensures delta == old(delta) <==> Magnitude(old(delta)) < view.params.poolRecoveryPeriod
    {
      ReplenishStep(delta, view.params.poolRecoveryPeriod);
      var poolRegressionAmt := QuoInt(delta, view.params.poolRecoveryPeriod);
      delta := delta - poolRegressionAmt;
    }
  }
}
