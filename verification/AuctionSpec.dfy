/** The auction module's transitions as functions on its state. `AuctionKeeper` implements them step by step. */
module AuctionSpec {
  import opened AuctionTypes
  import opened Bank
  import opened Collections
  import opened Decimal
  import opened Integers
  import opened Outcomes

  /** The module account that holds tokens for sale and bidders' payments. */
  const ESCROW := Module(MODULE_NAME)

  /** Bids are stored by auction id, then bid id. */
  type BidKey = (nat, nat)

  datatype State = State(
    height: Height,
    params: Params,
    fundingModules: set<string>,
    proceedsModules: set<string>,
    bank: Balances,
    active: map<nat, Auction>,
    ended: map<nat, Auction>,
    bids: map<BidKey, Bid>,
    prices: map<string, TokenPrice>,
    lastAuctionId: uint32,
    lastBidId: uint64)

  // ----- store iteration -----

  /** All auctions of a store in ascending id. */
  function Auctions(auctions: map<nat, Auction>): seq<Auction> {
    Values(auctions, Sorted(auctions.Keys))
  }

  function BidIds(bids: map<BidKey, Bid>, auctionId: nat): (ids: set<nat>)
    ensures forall id: nat :: id in ids <==> (auctionId, id) in bids
  {
    var ids := set k | k in bids && k.0 == auctionId :: k.1;
    assert forall id: nat :: (auctionId, id) in bids ==> (auctionId, id).1 in ids;
    ids
  }

  function Gather(bids: map<BidKey, Bid>, auctionId: nat, ids: seq<nat>): (r: seq<Bid>)
    requires forall id :: id in ids ==> (auctionId, id) in bids
    ensures |r| == |ids| && forall i :: 0 <= i < |ids| ==> r[i] == bids[(auctionId, ids[i])]
  {
    seq(|ids|, i requires 0 <= i < |ids| => bids[(auctionId, ids[i])])
  }

  /** All bids of an auction in ascending id. */
  function BidsOf(bids: map<BidKey, Bid>, auctionId: nat): seq<Bid> {
    Gather(bids, auctionId, Sorted(BidIds(bids, auctionId)))
  }

  function SumPaid(bids: seq<Bid>): int {
    if bids == [] then 0 else SumPaid(bids[..|bids| - 1]) + bids[|bids| - 1].paid.amount
  }

  function Proceeds(bids: map<BidKey, Bid>, auctionId: nat): int {
    SumPaid(BidsOf(bids, auctionId))
  }

  // ----- bidding -----

  /** What a bid buys and what it costs. */
  datatype Fill = Fill(tokens: int, payment: int)

  function TruncateInt64(x: int): Checked<int> {
    var n := Truncate(x);
    if -INT64_LIMIT <= n < INT64_LIMIT then Ok(n) else Panic(Int64Overflow)
  }

  /** A product or quotient that fits the decimal type. */
  function Fits(x: int): Checked<int> {
    if -DEC_LIMIT < x < DEC_LIMIT then Ok(x) else Panic(DecimalOverflow)
  }

  /** Price a bid of at most `maxBid` usomm for at least `minimum` of the `remaining` tokens. */
  function Quote(remaining: int, price: int, maxBid: int, minimum: int, minimumBid: int): Checked<Fill> {
    var remainingValue :- Fits(Mul(FromInt(remaining), price));
    var smallestBid :- if remainingValue < FromInt(minimumBid) then TruncateInt64(remainingValue) else Ok(minimumBid);
    var _ :- Require(maxBid >= smallestBid, BidAmountIsTooSmall);
    var minimumCost :- Fits(Mul(price, FromInt(minimum)));
    var minimumPayment :- TruncateInt64(Ceil(minimumCost));
    var _ :- Require(minimumPayment <= maxBid, InsufficientBid);
    if price == 0 then Panic(DivisionByZero) else
      var quotient :- Fits(Quo(FromInt(maxBid), price));
      var affordable := Truncate(quotient);
      var _ :- Require(remaining >= affordable || remaining >= minimum, MinimumPurchaseAmountLargerThanTokensRemaining);
      var tokens := if remaining >= affordable then affordable else remaining;
      var cost :- Fits(Mul(FromInt(tokens), price));
      var payment :- TruncateInt64(Ceil(cost));
      Ok(Fill(tokens, payment))
  }

  function NewBid(s: State, a: Auction, m: MsgSubmitBid, fill: Fill): Bid {
    Bid(WrapUint64(s.lastBidId + 1), m.auctionId, m.signer, m.maxBid, m.minimum,
        Coin(a.starting.denom, fill.tokens), a.currentPrice, Coin(USOMM, fill.payment), s.height)
  }

  /** The state after the coins moved: the auction record, the bid and the bid counter are updated. */
  function RecordBid(s: State, a: Auction, bid: Bid, bank: Balances): State {
    s.(bank := bank, active := s.active[a.id as nat := a], bids := s.bids[(bid.auctionId as nat, bid.id as nat) := bid], lastBidId := bid.id)
  }

  /** All checks up to the transfers: the bid that is about to be settled. */
  function PrepareBid(s: State, m: MsgSubmitBid): (r: Checked<Bid>)
    ensures r.Ok? ==> r.value.auctionId == m.auctionId && m.auctionId in s.active
  {
    var _ :- Require(m.auctionId in s.active, AuctionNotFound);
    var a := s.active[m.auctionId];
    var _ :- Require(a.starting.denom == m.minimum.denom, BidAuctionDenomMismatch);
    var balance := Balance(s.bank, ESCROW, a.starting.denom);
    var fill :- Quote(balance, a.currentPrice, m.maxBid.amount, m.minimum.amount, s.params.minimumBidInUsomm);
    var bid := NewBid(s, a, m, fill);
    var _ :- bid.ValidateBasic();
    Ok(bid)
  }

  /** Payment in, purchase out, and the records that follow; a sold-out auction finishes. */
  function SettleBid(s: State, bid: Bid): Checked<State>
    requires bid.auctionId in s.active
  {
    var a := s.active[bid.auctionId];
    match Send(s.bank, User(bid.bidder), ESCROW, USOMM, bid.paid.amount)
    case None => Fail(InsufficientFunds)
    case Some(paid) =>
      match Send(paid, ESCROW, User(bid.bidder), a.starting.denom, bid.fulfilled.amount)
      case None => Panic(PurchaseNotTransferred)
      case Some(bank) =>
        var balance := Balance(s.bank, ESCROW, a.starting.denom);
        var a' := a.(remaining := Coin(a.starting.denom, balance - bid.fulfilled.amount));
        Conclude(RecordBid(s, a', bid, bank), a')
  }

  function Conclude(s: State, a: Auction): Checked<State> {
    if a.remaining.amount == 0 then MustFinish(s, a) else Ok(s)
  }

  function SubmitBid(s: State, m: MsgSubmitBid): Checked<State> {
    var bid :- PrepareBid(s, m);
    SettleBid(s, bid)
  }

  // ----- finishing -----

  function FinishAuction(s: State, a: Auction): Checked<State> {
    var unsold := Balance(s.bank, ESCROW, a.starting.denom);
    match if unsold > 0 then Send(s.bank, ESCROW, Module(a.fundingModule), a.starting.denom, unsold) else Some(s.bank)
    case None => Fail(InsufficientFunds)
    case Some(returned) =>
      var proceeds := Proceeds(s.bids, a.id);
      match if proceeds > 0 then Send(returned, ESCROW, Module(a.proceedsModule), USOMM, proceeds) else Some(returned)
      case None => Fail(InsufficientFunds)
      case Some(bank) => Ok(Close(s, a, bank))
  }

  function Close(s: State, a: Auction, bank: Balances): State {
    s.(bank := bank, active := s.active - {a.id as nat}, ended := s.ended[a.id as nat := a.(endBlock := s.height)])
  }

  /** The callers of `FinishAuction` panic on its error. */
  function MustFinish(s: State, a: Auction): Checked<State> {
    match FinishAuction(s, a)
    case Fail(e) => Panic(FinishFailed(e))
    case r => r
  }

  // ----- beginning -----

  function PowerOfTen(n: nat): (r: int)
    ensures r >= ONE
  {
    if n == 0 then ONE else 10 * PowerOfTen(n - 1)
  }

  predicate TokenPriceTooOld(s: State, p: TokenPrice) {
    WrapUint64(s.height - p.lastUpdatedBlock) > s.params.priceMaxBlockAge
  }

  /** usomm per smallest unit of the sale token. */
  function StartingPrice(sale: TokenPrice, usomm: TokenPrice): Checked<int> {
    var saleValue :- Fits(Quo(sale.usdPrice, PowerOfTen(sale.exponent)));
    var usommValue :- Fits(Quo(usomm.usdPrice, PowerOfTen(COIN_EXPONENT)));
    if usommValue == 0 then Panic(DivisionByZero) else Fits(Quo(saleValue, usommValue))
  }

  function NewAuction(s: State, starting: Coin, rate: int, interval: uint64, funding: string, proceeds: string, price: int): Auction {
    Auction(WrapUint32(s.lastAuctionId + 1), starting, s.height, 0, rate, rate, interval, price, price, starting, funding, proceeds)
  }

  predicate DenomOnSale(active: map<nat, Auction>, denom: string) {
    exists id :: id in active && active[id].starting.denom == denom
  }

  function BeginAuction(s: State, starting: Coin, rate: int, interval: uint64, funding: string, proceeds: string): Checked<State> {
    if s.height <= s.params.minimumAuctionHeight then Fail(AuctionBelowMinimumHeight)
    else if starting.amount <= 0 then Fail(AuctionStartingAmountMustBePositive)
    else if funding !in s.fundingModules then Fail(UnauthorizedFundingModule)
    else if proceeds !in s.proceedsModules then Fail(UnauthorizedProceedsModule)
    else if starting.denom !in s.prices then Fail(CouldNotFindSaleTokenPrice)
    else if TokenPriceTooOld(s, s.prices[starting.denom]) then Fail(LastSaleTokenPriceTooOld)
    else if USOMM !in s.prices then Fail(CouldNotFindSommTokenPrice)
    else if TokenPriceTooOld(s, s.prices[USOMM]) then Fail(LastSommTokenPriceTooOld)
    else
      var price :- StartingPrice(s.prices[starting.denom], s.prices[USOMM]);
      OpenAuction(s, NewAuction(s, starting, rate, interval, funding, proceeds, price))
  }

  /** Validate the new record, escrow its tokens and store it. */
  function OpenAuction(s: State, a: Auction): Checked<State> {
    match a.ValidateBasic()
    case Fail(e) => Panic(InvalidAuction(e))
    case Panic(p) => Panic(p)
    case Ok(_) =>
      if DenomOnSale(s.active, a.starting.denom) then Fail(CannotStartTwoAuctionsForSameDenomSimultaneously) else
      match Send(s.bank, Module(a.fundingModule), ESCROW, a.starting.denom, a.starting.amount)
      case None => Fail(InsufficientFunds)
      case Some(bank) => Ok(Opened(s, a, bank))
  }

  function Opened(s: State, a: Auction, bank: Balances): State {
    s.(bank := bank, active := s.active[a.id as nat := a], lastAuctionId := a.id)
  }

  // ----- end of block -----

  /** The blocks from one price decrease to the next: the interval is read as an int64, and its sign does not matter. */
  function Spacing(a: Auction): (n: nat)
    ensures n == 0 <==> a.interval == 0
    ensures a.interval < INT64_LIMIT ==> n == a.interval
  {
    Abs(AsInt64(a.interval))
  }

  /** A price decrease falls on this height. A truncating remainder is zero exactly when the divisor's magnitude divides
      the other's. */
  predicate Due(height: Height, a: Auction) {
    height != AsInt64(a.startBlock) && a.interval != 0
    && Abs(height - AsInt64(a.startBlock)) % Spacing(a) == 0
  }

  /** The last bid listed for the auction was placed within the last interval. */
  predicate RecentBid(s: State, a: Auction) {
    var bids := BidsOf(s.bids, a.id);
    bids != [] && bids[|bids| - 1].blockHeight >= WrapUint64(s.height - a.interval)
  }

  function NextRate(s: State, a: Auction): int {
    if RecentBid(s, a) then a.initialRate else Mul(a.currentRate, ONE + s.params.acceleration)
  }

  function PriceTick(s: State, a: Auction): Checked<State> {
    if s.height != AsInt64(a.startBlock) && a.interval == 0 then Panic(DivisionByZero) else
    if !Due(s.height, a) then Ok(s) else
      var rate := NextRate(s, a);
      var price := a.currentPrice - Mul(a.initialPrice, rate);
      if price <= 0 then
        MustFinish(s, a.(currentRate := rate))
      else
        Ok(s.(active := s.active[a.id as nat := a.(currentRate := rate, currentPrice := price)]))
  }

  function PriceTicks(s: State, auctions: seq<Auction>): Checked<State>
    decreases |auctions|
  {
    if auctions == [] then Ok(s) else
      var s' :- PriceTick(s, auctions[0]);
      PriceTicks(s', auctions[1..])
  }

  function Cutoff(s: State): uint64 { WrapUint64(s.height - s.params.auctionMaxBlockAge) }

  /** A later auction of the same denomination has ended too. */
  predicate Superseded(s: State, id: nat)
    requires id in s.ended
  {
    exists j :: j in s.ended && j > id && s.ended[j].starting.denom == s.ended[id].starting.denom
  }

  /** An ended auction outlives pruning: it ended at the cutoff or later, or it is the latest of its denomination. */
  predicate Survives(s: State, id: nat)
    requires id in s.ended
  {
    s.ended[id].endBlock >= Cutoff(s) || !Superseded(s, id)
  }

  /** Keep the surviving auctions, and the bids of every auction that is kept. */
  function Prune(s: State): State {
    Drop(s, set id | id in s.ended && !Survives(s, id))
  }

  /** Remove the ended auctions `ids` and their bids. */
  function Drop(s: State, ids: set<nat>): State {
    s.(ended := s.ended - ids, bids := map k | k in s.bids && k.0 !in ids :: s.bids[k])
  }

  function EndBlocker(s: State): Checked<State> {
    var s' :- PriceTicks(s, Auctions(s.active));
    if s'.params.auctionMaxBlockAge == 0 then Ok(s') else Ok(Prune(s'))
  }

  // ----- governance -----

  /** Each price in turn: no denomination twice, and each price valid. */
  function CheckPrices(ps: seq<ProposedTokenPrice>): Checked<()> {
    if ps == [] then Ok(()) else
      var last := ps[|ps| - 1];
      var before := ps[..|ps| - 1];
      var _ :- CheckPrices(before);
      var _ :- Require(forall p :: p in before ==> p.denom != last.denom, TokenPriceProposalAttemptsToUpdateTokenPriceMoreThanOnce);
      last.ValidateBasic()
  }

  /** Record each proposed price at the current height; the proposed exponent is not stored. */
  function StorePrices(prices: map<string, TokenPrice>, ps: seq<ProposedTokenPrice>, height: Height): map<string, TokenPrice> {
    if ps == [] then prices else
      var p := ps[|ps| - 1];
      StorePrices(prices, ps[..|ps| - 1], height)[p.denom := TokenPrice(p.denom, 0, p.usdPrice, height)]
  }

  function SetTokenPrices(s: State, ps: seq<ProposedTokenPrice>): Checked<State> {
    var _ :- Require(ps != [], TokenPriceProposalMustHaveAtLeastOnePrice);
    var _ :- CheckPrices(ps);
    Ok(s.(prices := StorePrices(s.prices, ps, s.height)))
  }
}
