/** Exactly when an auction begins and when token prices are accepted, and what is then stored, in plain numbers. */
module AuctionBegin {
  import opened AuctionInvariant
  import opened AuctionRuns
  import opened AuctionSpec
  import opened AuctionTypes
  import opened Bank
  import opened Decimal
  import opened Integers
  import opened Outcomes
  import opened Rounding

  // ----- the starting price -----

  /** A power of ten. */
  function Tens(n: nat): (p: int)
    ensures p >= 1
  {
    if n == 0 then 1 else 10 * Tens(n - 1)
  }

  lemma {:induction false} PowerIsTens(n: nat)
    ensures PowerOfTen(n) == 1_000_000_000_000_000_000 * Tens(n)
  {
    if n > 0 { PowerIsTens(n - 1); }
  }

  lemma SixTens()
    ensures Tens(6) == 1_000_000
  {
    assert Tens(2) == 100 && Tens(4) == 10_000;
  }

  /** The value of the sale token's smallest unit, that of a usomm, and their ratio, none of more than 315 bits. */
  ghost predicate Ratio(sale: TokenPrice, usomm: TokenPrice, saleValue: int, usommValue: int, price: int) {
    && QuotientOf(saleValue, sale.usdPrice, 1_000_000_000_000_000_000 * Tens(sale.exponent))
    && QuotientOf(usommValue, usomm.usdPrice, 1_000_000_000_000_000_000 * 1_000_000)
    && usommValue > 0 && QuotientOf(price, saleValue, usommValue)
    && saleValue < DEC_LIMIT && usommValue < DEC_LIMIT && price < DEC_LIMIT
  }

  /** The prices give this number of usomm for a smallest unit of the sale token. */
  ghost predicate Costs(sale: TokenPrice, usomm: TokenPrice, price: int) {
    exists saleValue, usommValue :: Ratio(sale, usomm, saleValue, usommValue, price)
  }

  /** The starting price is that ratio, and there is none exactly if a value does not fit or a usomm is worth nothing. */
  lemma StartingPriceExactly(sale: TokenPrice, usomm: TokenPrice, price: int)
    requires sale.usdPrice > 0 && usomm.usdPrice > 0
    ensures StartingPrice(sale, usomm) == Ok(price) <==> Costs(sale, usomm, price)
    ensures !StartingPrice(sale, usomm).Fail?
    ensures StartingPrice(sale, usomm).Panic? ==> StartingPrice(sale, usomm).reason == DivisionByZero || StartingPrice(sale, usomm).reason == DecimalOverflow
  {
    hide Quo, QuotientOf, PowerOfTen;
    PowerIsTens(sale.exponent);
    PowerIsTens(COIN_EXPONENT);
    SixTens();
    var x, y := Quo(sale.usdPrice, PowerOfTen(sale.exponent)), Quo(usomm.usdPrice, PowerOfTen(COIN_EXPONENT));
    QuoIsQuotient(sale.usdPrice, PowerOfTen(sale.exponent));
    QuoIsQuotient(usomm.usdPrice, PowerOfTen(COIN_EXPONENT));
    if y > 0 { QuoIsQuotient(x, y); }
    if StartingPrice(sale, usomm) == Ok(price) { assert Ratio(sale, usomm, x, y, price); }
    if Costs(sale, usomm, price) {
      var v, w :| Ratio(sale, usomm, v, w, price);
      QuotientUnique(v, x, sale.usdPrice, PowerOfTen(sale.exponent));
      QuotientUnique(w, y, usomm.usdPrice, PowerOfTen(COIN_EXPONENT));
      QuotientUnique(price, Quo(x, y), x, y);
    }
  }

  // ----- recorded prices -----

  /** Prices are positive and were recorded by now. */
  ghost predicate PricesRecorded(s: State) {
    forall d :: d in s.prices ==> s.prices[d].usdPrice > 0 && s.prices[d].lastUpdatedBlock <= s.height
  }

  // ----- beginning -----

  /** Everything that beginning an auction at `price` needs. */
  ghost predicate CanBegin(s: State, starting: Coin, rate: int, interval: uint64, funding: string, proceeds: string, price: int) {
    && s.height > s.params.minimumAuctionHeight
    && starting.amount > 0 && starting.denom != "usomm"
    && funding in s.fundingModules && proceeds in s.proceedsModules && funding != "" && proceeds != ""
    && starting.denom in s.prices && "usomm" in s.prices
    && s.height - s.prices[starting.denom].lastUpdatedBlock <= s.params.priceMaxBlockAge
    && s.height - s.prices["usomm"].lastUpdatedBlock <= s.params.priceMaxBlockAge
    && Costs(s.prices[starting.denom], s.prices["usomm"], price) && price > 0
    && s.lastAuctionId + 1 < 0x1_0000_0000
    && 0 < rate < 1_000_000_000_000_000_000 && interval > 0
    && (forall id :: id in s.active ==> s.active[id].starting.denom != starting.denom)
    && Balance(s.bank, Module(funding), starting.denom) >= starting.amount
  }

  /** The state after it began, up to the ledger. */
  function Begun(s: State, starting: Coin, rate: int, interval: uint64, funding: string, proceeds: string, price: int, bank: Balances): State
    requires s.lastAuctionId + 1 < 0x1_0000_0000
  {
    var id := s.lastAuctionId + 1;
    s.(bank := bank, lastAuctionId := id,
       active := s.active[id as nat := Auction(id, starting, s.height, 0, rate, rate, interval, price, price, starting, funding, proceeds)])
  }

  /** An auction begins exactly if some price allows it, and is then recorded at that price. */
  lemma BeginExactly(s: State, starting: Coin, rate: int, interval: uint64, funding: string, proceeds: string)
    requires PricesRecorded(s)
    ensures var r := BeginAuction(s, starting, rate, interval, funding, proceeds);
            && (r.Ok? <==> exists price :: CanBegin(s, starting, rate, interval, funding, proceeds, price))
            && (r.Ok? ==> exists price ::
                  CanBegin(s, starting, rate, interval, funding, proceeds, price)
                  && r.value == Begun(s, starting, rate, interval, funding, proceeds, price, r.value.bank))
  {
    hide StartingPrice, Costs, OpenAuction, PricesRecorded;
    var r := BeginAuction(s, starting, rate, interval, funding, proceeds);
    if PricesFresh(s, starting.denom) {
      FreshPrices(s, starting.denom);
      var sale, usomm := s.prices[starting.denom], s.prices["usomm"];
      var p := StartingPrice(sale, usomm);
      if p.Ok? {
        StartingPriceExactly(sale, usomm, p.value);
        if s.height > s.params.minimumAuctionHeight {
          OpensExactly(s, NewAuction(s, starting, rate, interval, funding, proceeds, p.value));
        }
        assert r.Ok? ==> CanBegin(s, starting, rate, interval, funding, proceeds, p.value);
      }
      forall price | CanBegin(s, starting, rate, interval, funding, proceeds, price) ensures r.Ok? {
        StartingPriceExactly(sale, usomm, price);
      }
    } else {
      NotFresh(s, starting.denom);
    }
  }

  /** Both prices are there and young enough. */
  predicate PricesFresh(s: State, denom: string) {
    && denom in s.prices && !TokenPriceTooOld(s, s.prices[denom])
    && USOMM in s.prices && !TokenPriceTooOld(s, s.prices[USOMM])
  }

  lemma FreshPrices(s: State, denom: string)
    requires PricesRecorded(s) && PricesFresh(s, denom)
    ensures denom in s.prices && "usomm" in s.prices
    ensures s.prices[denom].usdPrice > 0 && s.prices["usomm"].usdPrice > 0
    ensures s.height - s.prices[denom].lastUpdatedBlock <= s.params.priceMaxBlockAge
    ensures s.height - s.prices["usomm"].lastUpdatedBlock <= s.params.priceMaxBlockAge
  {}

  lemma NotFresh(s: State, denom: string)
    requires PricesRecorded(s) && !PricesFresh(s, denom)
    ensures !(denom in s.prices && "usomm" in s.prices
              && s.height - s.prices[denom].lastUpdatedBlock <= s.params.priceMaxBlockAge
              && s.height - s.prices["usomm"].lastUpdatedBlock <= s.params.priceMaxBlockAge)
  {}

  /** When a new record is accepted and stored. */
  lemma OpensExactly(s: State, a: Auction)
    requires a.id == WrapUint32(s.lastAuctionId + 1) && a.currentRate == a.initialRate && a.currentPrice == a.initialPrice && a.startBlock > 0
    ensures OpenAuction(s, a).Ok? <==>
              && s.lastAuctionId + 1 < 0x1_0000_0000 && a.starting.amount > 0 && a.starting.denom != "usomm"
              && 0 < a.initialRate < 1_000_000_000_000_000_000 && a.interval > 0 && a.initialPrice > 0
              && a.fundingModule != "" && a.proceedsModule != ""
              && (forall id :: id in s.active ==> s.active[id].starting.denom != a.starting.denom)
              && Balance(s.bank, Module(a.fundingModule), a.starting.denom) >= a.starting.amount
    ensures OpenAuction(s, a).Ok? ==>
              OpenAuction(s, a).value ==
              s.(bank := OpenAuction(s, a).value.bank, active := s.active[a.id as nat := a], lastAuctionId := a.id)
  {
    hide Balance;
  }

  /** What each error of beginning an auction says. */
  ghost predicate BeginCause(s: State, starting: Coin, funding: string, proceeds: string, e: Error) {
    match e
    case AuctionBelowMinimumHeight => s.height <= s.params.minimumAuctionHeight
    case AuctionStartingAmountMustBePositive => starting.amount <= 0
    case UnauthorizedFundingModule => funding !in s.fundingModules
    case UnauthorizedProceedsModule => proceeds !in s.proceedsModules
    case CouldNotFindSaleTokenPrice => starting.denom !in s.prices
    case LastSaleTokenPriceTooOld =>
      starting.denom in s.prices && s.height - s.prices[starting.denom].lastUpdatedBlock > s.params.priceMaxBlockAge
    case CouldNotFindSommTokenPrice => "usomm" !in s.prices
    case LastSommTokenPriceTooOld => "usomm" in s.prices && s.height - s.prices["usomm"].lastUpdatedBlock > s.params.priceMaxBlockAge
    case CannotStartTwoAuctionsForSameDenomSimultaneously => exists id :: id in s.active && s.active[id].starting.denom == starting.denom
    case InsufficientFunds => Balance(s.bank, Module(funding), starting.denom) < starting.amount
    case _ => false
  }

  /** What each rejected record had. */
  predicate RecordCause(s: State, starting: Coin, rate: int, interval: uint64, funding: string, proceeds: string, price: int, e: Error) {
    match e
    case AuctionIDMustBeNonZero => s.lastAuctionId + 1 == 0x1_0000_0000
    case AuctionStartingAmountMustBePositive => starting.amount <= 0
    case CannotAuctionUsomm => starting.denom == "usomm"
    case InvalidStartBlock => s.height == 0
    case InvalidInitialDecreaseRate => rate <= 0 || rate >= 1_000_000_000_000_000_000
    case InvalidBlockDecreaseInterval => interval == 0
    case PriceMustBePositive => price <= 0
    case UnauthorizedFundingModule => funding == "" || proceeds == ""
    case _ => false
  }

  lemma BeginErrors(s: State, starting: Coin, rate: int, interval: uint64, funding: string, proceeds: string)
    requires PricesRecorded(s)
    ensures var r := BeginAuction(s, starting, rate, interval, funding, proceeds);
            && (r.Fail? ==> BeginCause(s, starting, funding, proceeds, r.error))
            && (r.Panic? ==> PricesFresh(s, starting.denom))
            && (r.Panic? && r.reason.InvalidAuction? ==> exists price ::
                  Costs(s.prices[starting.denom], s.prices["usomm"], price)
                  && RecordCause(s, starting, rate, interval, funding, proceeds, price, r.reason.error))
            && (r.Panic? && !r.reason.InvalidAuction? ==> forall price :: !Costs(s.prices[starting.denom], s.prices["usomm"], price))
  {
    hide StartingPrice, Costs, Balance;
    var r := BeginAuction(s, starting, rate, interval, funding, proceeds);
    if PricesFresh(s, starting.denom) {
      FreshPrices(s, starting.denom);
      var p := StartingPrice(s.prices[starting.denom], s.prices["usomm"]);
      StartingPriceExactly(s.prices[starting.denom], s.prices["usomm"], if p.Ok? then p.value else 0);
      forall price ensures Costs(s.prices[starting.denom], s.prices["usomm"], price) <==> p == Ok(price) {
        StartingPriceExactly(s.prices[starting.denom], s.prices["usomm"], price);
      }
    }
  }

  // ----- proposed prices -----

  /** A price that may be proposed. */
  predicate Proposable(p: ProposedTokenPrice) {
    p.denom != "" && p.usdPrice > 0 && ("gravity" <= p.denom || p.denom == "usomm") && p.exponent <= 18
  }

  lemma ProposableExactly(p: ProposedTokenPrice)
    ensures p.ValidateBasic().Ok? <==> Proposable(p)
    ensures !p.ValidateBasic().Panic? && p.ValidateBasic() != Fail(TokenPriceProposalAttemptsToUpdateTokenPriceMoreThanOnce)
  {}

  ghost predicate DistinctDenoms(ps: seq<ProposedTokenPrice>) {
    forall i, j :: 0 <= i < j < |ps| ==> ps[i].denom != ps[j].denom
  }

  ghost predicate AllProposable(ps: seq<ProposedTokenPrice>) {
    forall i :: 0 <= i < |ps| ==> Proposable(ps[i])
  }

  /** A list is that of its first entries and the last one. */
  lemma LastPrice(ps: seq<ProposedTokenPrice>)
    requires ps != []
    ensures var n := |ps| - 1;
            && (DistinctDenoms(ps) <==> DistinctDenoms(ps[..n]) && forall p :: p in ps[..n] ==> p.denom != ps[n].denom)
            && (AllProposable(ps) <==> AllProposable(ps[..n]) && Proposable(ps[n]))
  {
    hide Proposable;
    var n := |ps| - 1;
    var before := ps[..n];
    assert forall i :: 0 <= i < n ==> before[i] == ps[i] && before[i] in before;
    if DistinctDenoms(ps) {
      forall p | p in before ensures p.denom != ps[n].denom {
        var i :| 0 <= i < n && before[i] == p;
        assert ps[i] == p;
      }
    }
  }

  lemma {:induction false} CheckPricesExactly(ps: seq<ProposedTokenPrice>)
    ensures CheckPrices(ps).Ok? <==> DistinctDenoms(ps) && AllProposable(ps)
    ensures CheckPrices(ps) == Fail(TokenPriceProposalAttemptsToUpdateTokenPriceMoreThanOnce) ==> !DistinctDenoms(ps)
    ensures !CheckPrices(ps).Panic?
  {
    hide ProposedTokenPrice.ValidateBasic, DistinctDenoms, AllProposable, Proposable;
    if ps == [] {
      NoPrices();
    } else {
      CheckPricesExactly(ps[..|ps| - 1]);
      LastPrice(ps);
      ProposableExactly(ps[|ps| - 1]);
    }
  }

  lemma NoPrices()
    ensures DistinctDenoms([]) && AllProposable([])
  {}

  /** The last proposed price of a denomination. */
  ghost predicate LastProposed(ps: seq<ProposedTokenPrice>, denom: string, i: int) {
    0 <= i < |ps| && ps[i].denom == denom && forall j :: i < j < |ps| ==> ps[j].denom != denom
  }

  ghost predicate Proposed(ps: seq<ProposedTokenPrice>, denom: string) { exists p :: p in ps && p.denom == denom }

  ghost predicate SamePrice(a: map<string, TokenPrice>, b: map<string, TokenPrice>, d: string) {
    (d in a <==> d in b) && (d in a ==> b[d] == a[d])
  }

  lemma {:induction false} StorePricesExactly(prices: map<string, TokenPrice>, ps: seq<ProposedTokenPrice>, height: Height, denom: string)
    ensures forall i :: LastProposed(ps, denom, i) ==>
              denom in StorePrices(prices, ps, height) && StorePrices(prices, ps, height)[denom] == TokenPrice(denom, 0, ps[i].usdPrice, height)
    ensures !Proposed(ps, denom) ==> SamePrice(prices, StorePrices(prices, ps, height), denom)
  {
    hide LastProposed, Proposed, SamePrice;
    if ps == [] {
      NoneStored(prices, denom);
    } else {
      var n := |ps| - 1;
      StorePricesExactly(prices, ps[..n], height, denom);
      LastStored(ps, denom);
      OneStored(prices, StorePrices(prices, ps[..n], height), TokenPrice(ps[n].denom, 0, ps[n].usdPrice, height), denom);
    }
  }

  lemma NoneStored(prices: map<string, TokenPrice>, denom: string)
    ensures SamePrice(prices, prices, denom) && forall i :: !LastProposed([], denom, i)
  {}

  lemma OneStored(prices: map<string, TokenPrice>, before: map<string, TokenPrice>, p: TokenPrice, denom: string)
    ensures p.denom != denom && SamePrice(prices, before, denom) ==> SamePrice(prices, before[p.denom := p], denom)
  {}

  lemma LastStored(ps: seq<ProposedTokenPrice>, denom: string)
    requires ps != []
    ensures var n := |ps| - 1;
            && (ps[n].denom == denom ==> forall i :: LastProposed(ps, denom, i) ==> i == n)
            && (ps[n].denom != denom ==> forall i :: LastProposed(ps, denom, i) ==> i < n && LastProposed(ps[..n], denom, i))
            && (!Proposed(ps, denom) ==> ps[n].denom != denom && !Proposed(ps[..n], denom))
            && (forall i :: LastProposed(ps, denom, i) ==> 0 <= i < |ps|)
  {
    var n := |ps| - 1;
    assert ps[n] in ps;
    assert forall p :: p in ps[..n] ==> p in ps;
    forall i | LastProposed(ps, denom, i) && ps[n].denom != denom ensures i < n && LastProposed(ps[..n], denom, i) {
      assert forall j :: i < j < n ==> ps[..n][j] == ps[j];
    }
  }

  /** A proposal of prices is accepted exactly if it has some, each valid and no denomination twice; then each proposed
      price is recorded at the current height without its exponent, and every other price stays. */
  lemma SetPricesExactly(s: State, ps: seq<ProposedTokenPrice>)
    ensures var r := SetTokenPrices(s, ps);
            && (r.Ok? <==> ps != [] && DistinctDenoms(ps) && AllProposable(ps))
            && (r.Ok? ==>
                  && r.value == s.(prices := r.value.prices)
                  && (forall i :: 0 <= i < |ps| ==>
                        ps[i].denom in r.value.prices && r.value.prices[ps[i].denom] == TokenPrice(ps[i].denom, 0, ps[i].usdPrice, s.height))
                  && (forall d :: !Proposed(ps, d) ==> SamePrice(s.prices, r.value.prices, d)))
            && (r == Fail(TokenPriceProposalAttemptsToUpdateTokenPriceMoreThanOnce) ==> !DistinctDenoms(ps))
            && !r.Panic?
  {
    hide CheckPrices, StorePrices;
    CheckPricesExactly(ps);
    var r := SetTokenPrices(s, ps);
    if r.Ok? {
      forall i | 0 <= i < |ps|
        ensures ps[i].denom in r.value.prices && r.value.prices[ps[i].denom] == TokenPrice(ps[i].denom, 0, ps[i].usdPrice, s.height)
      {
        StorePricesExactly(s.prices, ps, s.height, ps[i].denom);
        assert LastProposed(ps, ps[i].denom, i);
      }
      forall d | !Proposed(ps, d) ensures SamePrice(s.prices, r.value.prices, d) {
        StorePricesExactly(s.prices, ps, s.height, d);
      }
    }
  }

  // ----- prices over runs -----

  lemma SetKeepsRecorded(s: State, ps: seq<ProposedTokenPrice>)
    requires PricesRecorded(s) && SetTokenPrices(s, ps).Ok?
    ensures PricesRecorded(SetTokenPrices(s, ps).value)
  {
    hide SetTokenPrices;
    SetPricesExactly(s, ps);
    var t := SetTokenPrices(s, ps).value;
    forall d | d in t.prices ensures t.prices[d].usdPrice > 0 && t.prices[d].lastUpdatedBlock <= t.height {
      if Proposed(ps, d) {
        var p :| p in ps && p.denom == d;
        var i :| 0 <= i < |ps| && ps[i] == p;
        assert Proposable(ps[i]);
      }
    }
  }

  lemma OnlyPricesChange(s: State, step: Step)
    requires !step.SetPrices? && Inv(s) && Supplied(s)
    ensures Next(s, step).prices == s.prices && s.height <= Next(s, step).height
  {
    hide Inv, Supplied, Quote, PriceTicks, StartingPrice, Send, FinishAuction;
    match step
    case EndBlock => BlockKeepsPrices(s);
    case Submit(m) => BidKeepsPriceList(s, m);
    case _ =>
  }

  lemma {:induction false} TicksKeepPrices(s: State, auctions: seq<Auction>)
    requires PriceTicks(s, auctions).Ok?
    ensures PriceTicks(s, auctions).value.prices == s.prices
    decreases |auctions|
  {
    hide Mul, Due, NextRate, Send;
    if auctions != [] { TicksKeepPrices(PriceTick(s, auctions[0]).value, auctions[1..]); }
  }

  lemma BlockKeepsPrices(s: State)
    ensures Next(s, EndBlock).prices == s.prices && s.height <= Next(s, EndBlock).height
  {
    hide PriceTicks, Survives;
    if EndBlocker(s).Ok? { TicksKeepPrices(s, Auctions(s.active)); }
  }

  lemma BidKeepsPriceList(s: State, m: MsgSubmitBid)
    ensures Next(s, Submit(m)).prices == s.prices && Next(s, Submit(m)).height == s.height
  {
    hide PrepareBid, Send, Balance, Proceeds;
  }

  /** In every state of a run whose first prices are recorded properly, for one from no prices, they are. */
  lemma {:induction false} RunKeepsRecorded(s: State, steps: seq<Step>)
    requires Genesis(s) && PricesRecorded(s)
    ensures PricesRecorded(Run(s, steps))
  {
    hide Next, Inv, Supplied, Genesis;
    if steps != [] {
      var before, step := steps[..|steps| - 1], steps[|steps| - 1];
      RunKeepsRecorded(s, before);
      RunKeepsInv(s, before);
      StepKeepsRecorded(Run(s, before), step);
    }
  }

  lemma StepKeepsRecorded(s: State, step: Step)
    requires PricesRecorded(s) && Inv(s) && Supplied(s)
    ensures PricesRecorded(Next(s, step))
  {
    hide Inv, Supplied, BeginAuction, SubmitBid, EndBlocker, SetTokenPrices;
    if step.SetPrices? {
      if SetTokenPrices(s, step.proposed).Ok? { SetKeepsRecorded(s, step.proposed); }
    } else {
      OnlyPricesChange(s, step);
    }
  }
}
