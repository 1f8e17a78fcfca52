/** Whole runs of the auction module: every step keeps the invariant, whatever the order of the steps. */
module AuctionRuns {
  import opened AuctionBid
  import opened AuctionBlock
  import opened AuctionInvariant
  import opened AuctionSpec
  import opened AuctionTypes
  import opened Bank
  import opened Integers

  // ----- beginning an auction -----

  /** The record of a new auction that passed its checks. */
  ghost predicate Fresh(s: State, a: Auction) {
    && a.ValidateBasic().Ok? && a.id == s.lastAuctionId + 1
    && Terms(s, a) && a.endBlock == 0 && a.startBlock == s.height
    && a.remaining == a.starting
    && !DenomOnSale(s.active, a.starting.denom)
  }

  lemma OpenShapes(s: State, a: Auction, bank: Balances)
    requires Ids(s) && ActiveShape(s) && EndedShape(s) && OneAuctionPerDenom(s) && DenomOrder(s) && Fresh(s, a)
    ensures var t := Opened(s, a, bank);
            Ids(t) && ActiveShape(t) && EndedShape(t) && OneAuctionPerDenom(t) && DenomOrder(t)
  {
    hide Ids, ActiveShape, EndedShape, DenomOrder, Fresh;
    OpenStored(s, a, bank);
    OpenTerms(s, a, bank);
    OpenDenoms(s, a, bank);
  }

  lemma OpenStored(s: State, a: Auction, bank: Balances)
    requires Ids(s) && Fresh(s, a)
    ensures Ids(Opened(s, a, bank))
    ensures forall i :: i in s.ended ==> i < a.id
  {
    var t := Opened(s, a, bank);
    assert !Stored(s, a.id);
    forall id: nat | Stored(t, id) && id != a.id ensures Stored(s, id) && AuctionOf(t, id) == AuctionOf(s, id) {}
    forall i | i in s.ended ensures i < a.id { assert Stored(s, i); }
  }

  lemma OpenTerms(s: State, a: Auction, bank: Balances)
    requires ActiveShape(s) && EndedShape(s) && Fresh(s, a)
    ensures ActiveShape(Opened(s, a, bank)) && EndedShape(Opened(s, a, bank))
  {}

  lemma OpenDenoms(s: State, a: Auction, bank: Balances)
    requires EndedShape(s) && OneAuctionPerDenom(s) && DenomOrder(s) && Fresh(s, a)
    requires forall i :: i in s.ended ==> i < a.id
    ensures OneAuctionPerDenom(Opened(s, a, bank)) && DenomOrder(Opened(s, a, bank))
  {
    assert forall id :: id in s.active ==> s.active[id].starting.denom != a.starting.denom;
  }

  lemma OpenBids(s: State, a: Auction, bank: Balances)
    requires Ids(s) && Bids(s) && Fresh(s, a)
    ensures Bids(Opened(s, a, bank))
  {
    var t := Opened(s, a, bank);
    assert !Stored(s, a.id);
    forall k | k in t.bids ensures Stored(t, k.0) && BidShape(t, t.bids[k], AuctionOf(t, k.0)) {
      assert Stored(s, k.0) && BidShape(s, s.bids[k], AuctionOf(s, k.0));
    }
  }

  lemma OpenSold(s: State, a: Auction, bank: Balances)
    requires Ids(s) && Bids(s) && SoldTokens(s) && Fresh(s, a)
    ensures SoldTokens(Opened(s, a, bank)) && BidsOf(s.bids, a.id) == []
  {
    var t := Opened(s, a, bank);
    assert !Stored(s, a.id);
    assert forall k :: k in s.bids ==> Stored(s, k.0);
    assert BidIds(s.bids, a.id) == {} by {
      forall id: nat ensures id !in BidIds(s.bids, a.id) {
        assert (a.id as nat, id).0 == a.id;
      }
    }
    forall id: nat | Stored(t, id)
      ensures AuctionOf(t, id).remaining.amount == AuctionOf(t, id).starting.amount - Sold(t, id)
    {
      if id != a.id { assert Stored(s, id); }
    }
  }

  /** The ledger gained the escrowed tokens and nothing else in escrow moved. */
  ghost predicate Escrowed(s: State, a: Auction, bank: Balances) {
    forall d :: Balance(bank, ESCROW, d) == Balance(s.bank, ESCROW, d) + (if d == a.starting.denom then a.starting.amount else 0)
  }

  lemma OpenUnsold(s: State, a: Auction, bank: Balances, d: string)
    requires Escrow(s) && a.id !in s.active && Escrowed(s, a, bank)
    requires d != USOMM && !DenomOnSale(Opened(s, a, bank).active, d)
    ensures Balance(bank, ESCROW, d) == 0
  {
    var t := Opened(s, a, bank);
    assert t.active[a.id] == a;
    forall id | id in s.active ensures s.active[id].starting.denom != d {
      assert t.active[id] == s.active[id];
    }
  }

  lemma OpenHeld(s: State, a: Auction, bank: Balances, id: nat)
    requires Escrow(s) && a.id !in s.active && Escrowed(s, a, bank)
    requires a.starting.denom != USOMM && !DenomOnSale(s.active, a.starting.denom) && a.remaining == a.starting
    requires id in Opened(s, a, bank).active
    ensures var b := Opened(s, a, bank).active[id]; Balance(bank, ESCROW, b.starting.denom) == b.remaining.amount
  {
    if id != a.id { assert s.active[id].starting.denom != a.starting.denom; }
  }

  lemma OpenOwed(s: State, a: Auction, bank: Balances)
    requires a.id !in s.active && BidsOf(s.bids, a.id) == []
    ensures Owed(Opened(s, a, bank).active.Keys, s.bids) == Owed(s.active.Keys, s.bids)
  {
    hide BidsOf, Owed;
    var t := Opened(s, a, bank);
    OwedSplit(t.active.Keys, a.id, s.bids);
    assert t.active.Keys - {a.id as nat} == s.active.Keys;
  }

  lemma OpenEscrow(s: State, a: Auction, bank: Balances)
    requires Escrow(s) && a.id !in s.active && BidsOf(s.bids, a.id) == [] && Escrowed(s, a, bank)
    requires a.starting.denom != USOMM && !DenomOnSale(s.active, a.starting.denom) && a.remaining == a.starting
    ensures Escrow(Opened(s, a, bank))
  {
    var t := Opened(s, a, bank);
    OpenOwed(s, a, bank);
    forall d | d != USOMM && !DenomOnSale(t.active, d) ensures Balance(t.bank, ESCROW, d) == 0 {
      OpenUnsold(s, a, bank, d);
    }
    forall id | id in t.active ensures Balance(t.bank, ESCROW, t.active[id].starting.denom) == t.active[id].remaining.amount {
      OpenHeld(s, a, bank, id);
    }
  }

  lemma OpenKeepsInv(s: State, a: Auction)
    requires Inv(s) && Supplied(s)
    requires a.id == WrapUint32(s.lastAuctionId + 1) && a.startBlock == s.height && a.endBlock == 0
    requires a.currentRate == a.initialRate && a.currentPrice == a.initialPrice && a.remaining == a.starting
    requires a.fundingModule in s.fundingModules && a.proceedsModule in s.proceedsModules
    ensures OpenAuction(s, a).Ok? ==> Inv(OpenAuction(s, a).value) && Supplied(OpenAuction(s, a).value)
  {
    hide Supplied, OpenAuction, Ids, ActiveShape, EndedShape, OneAuctionPerDenom, DenomOrder, Bids, BidOrder, SoldTokens, Escrow;
    if OpenAuction(s, a).Ok? {
      OpensFresh(s, a);
      OpenedKeepsInv(s, a, OpenAuction(s, a).value.bank);
    }
  }

  lemma OpensFresh(s: State, a: Auction)
    requires OpenAuction(s, a).Ok?
    requires a.id == WrapUint32(s.lastAuctionId + 1) && a.startBlock == s.height && a.endBlock == 0
    requires a.currentRate == a.initialRate && a.currentPrice == a.initialPrice && a.remaining == a.starting
    requires a.fundingModule in s.fundingModules && a.proceedsModule in s.proceedsModules
    requires MODULE_NAME !in s.fundingModules
    ensures Fresh(s, a)
    ensures var bank := OpenAuction(s, a).value.bank; OpenAuction(s, a).value == Opened(s, a, bank) && Escrowed(s, a, bank)
  {
    hide DenomOnSale, Balance;
  }

  lemma OpenedKeepsInv(s: State, a: Auction, bank: Balances)
    requires Inv(s) && Supplied(s) && Fresh(s, a) && Escrowed(s, a, bank)
    ensures Inv(Opened(s, a, bank)) && Supplied(Opened(s, a, bank))
  {
    hide ActiveShape, EndedShape, OneAuctionPerDenom, DenomOrder, Bids, BidOrder, SoldTokens, Escrow, Terms, Escrowed, DenomOnSale;
    assert !Stored(s, a.id);
    OpenShapes(s, a, bank);
    OpenBids(s, a, bank);
    OpenSold(s, a, bank);
    OpenOrder(s, a, bank);
    FreshTerms(s, a);
    OpenEscrow(s, a, bank);
  }

  lemma OpenOrder(s: State, a: Auction, bank: Balances)
    requires BidOrder(s)
    ensures BidOrder(Opened(s, a, bank))
  {}

  lemma FreshTerms(s: State, a: Auction)
    requires Fresh(s, a)
    ensures a.starting.denom != USOMM && a.starting.amount > 0
  {}

  /** A begun auction keeps the invariant. Its panics reject the proposed record or its prices. */
  lemma BeginKeepsInv(s: State, starting: Coin, rate: int, interval: uint64, funding: string, proceeds: string)
    requires Inv(s) && Supplied(s)
    ensures var r := BeginAuction(s, starting, rate, interval, funding, proceeds);
            r.Ok? ==> Inv(r.value) && Supplied(r.value)
  {
    var r := BeginAuction(s, starting, rate, interval, funding, proceeds);
    if r.Ok? {
      var price := StartingPrice(s.prices[starting.denom], s.prices[USOMM]).value;
      OpenKeepsInv(s, NewAuction(s, starting, rate, interval, funding, proceeds, price));
    }
  }

  // ----- runs -----

  datatype Step =
    | Begin(starting: Coin, rate: int, interval: uint64, funding: string, proceeds: string)
    | Submit(msg: MsgSubmitBid)
    | SetPrices(proposed: seq<ProposedTokenPrice>)
    | SetParams(params: Params)
    | Transfers(bank: Balances)
    | EndBlock

  /** A handler's writes survive only if it returns without an error. */
  function Commit(s: State, r: Checked<State>): State {
    if r.Ok? then r.value else s
  }

  /** Transfers outside the module leave the escrow alone: its account accepts no deposits and signs nothing. */
  ghost predicate SameEscrow(b: Balances, c: Balances) {
    forall d :: Balance(b, ESCROW, d) == Balance(c, ESCROW, d)
  }

  ghost function Next(s: State, step: Step): State {
    match step
    case Begin(starting, rate, interval, funding, proceeds) => Commit(s, BeginAuction(s, starting, rate, interval, funding, proceeds))
    case Submit(m) => if m.ValidateBasic().Ok? then Commit(s, SubmitBid(s, m)) else s
    case SetPrices(ps) => Commit(s, SetTokenPrices(s, ps))
    case SetParams(p) => if p.Valid() then s.(params := p) else s
    case Transfers(bank) => if SameEscrow(bank, s.bank) then s.(bank := bank) else s
    case EndBlock => if s.height + 1 < INT64_LIMIT then Commit(s, EndBlocker(s)).(height := s.height + 1) else s
  }

  ghost function Run(s: State, steps: seq<Step>): State {
    if steps == [] then s else Next(Run(s, steps[..|steps| - 1]), steps[|steps| - 1])
  }

  /** The module before its first auction, at any positive height. */
  ghost predicate Genesis(s: State) {
    && Modules(s) && s.height > 0
    && s.active == map[] && s.ended == map[] && s.bids == map[]
    && s.lastAuctionId == 0 && s.lastBidId == 0
    && forall d :: Balance(s.bank, ESCROW, d) == 0
  }

  lemma GenesisInv(s: State)
    requires Genesis(s)
    ensures Inv(s) && Supplied(s)
  {}

  /** Updates of prices, parameters, outside balances and the height do not touch what the invariant speaks of. */
  lemma QuietKeepsInv(s: State, t: State)
    requires Inv(s) && Supplied(s)
    requires t == s.(params := t.params, bank := t.bank, prices := t.prices, height := t.height)
    requires t.params.Valid() && s.height <= t.height && SameEscrow(t.bank, s.bank)
    ensures Inv(t) && Supplied(t)
  {
    hide ActiveShape, EndedShape, Bids, SoldTokens, BidOrder, Owed;
    assert forall id: nat :: Stored(t, id) <==> Stored(s, id);
    QuietShapes(s, t);
    QuietBids(s, t);
    QuietOrder(s, t);
  }

  lemma QuietOrder(s: State, t: State)
    requires BidOrder(s) && t.bids == s.bids
    ensures BidOrder(t)
  {}

  lemma QuietShapes(s: State, t: State)
    requires ActiveShape(s) && EndedShape(s) && s.height <= t.height
    requires t.active == s.active && t.ended == s.ended && t.fundingModules == s.fundingModules && t.proceedsModules == s.proceedsModules
    ensures ActiveShape(t) && EndedShape(t)
  {}

  lemma QuietBids(s: State, t: State)
    requires Bids(s) && SoldTokens(s) && s.height <= t.height
    requires t.active == s.active && t.ended == s.ended && t.bids == s.bids && t.lastBidId == s.lastBidId
    ensures Bids(t) && SoldTokens(t)
  {
    forall k | k in t.bids ensures Stored(t, k.0) && BidShape(t, t.bids[k], AuctionOf(t, k.0)) {
      assert Stored(s, k.0) && BidShape(s, s.bids[k], AuctionOf(s, k.0));
    }
    forall id: nat | Stored(t, id)
      ensures AuctionOf(t, id).remaining.amount == AuctionOf(t, id).starting.amount - Sold(t, id)
    {
      assert Stored(s, id);
    }
  }

  lemma QuietStepKeepsInv(s: State, step: Step)
    requires Inv(s) && Supplied(s) && (step.SetPrices? || step.SetParams? || step.Transfers?)
    ensures Inv(Next(s, step)) && Supplied(Next(s, step))
  {
    hide Inv, Supplied, BeginAuction, SubmitBid, EndBlocker, CheckPrices, StorePrices;
    InvModules(s);
    QuietKeepsInv(s, Next(s, step));
  }

  lemma InvModules(s: State)
    requires Inv(s)
    ensures s.params.Valid()
  {}

  lemma BidStepKeepsInv(s: State, m: MsgSubmitBid)
    requires Inv(s) && Supplied(s)
    ensures Inv(Next(s, Submit(m))) && Supplied(Next(s, Submit(m)))
  {
    SubmitBidKeepsInv(s, m);
  }

  /** Every step keeps the invariant. */
  lemma NextKeepsInv(s: State, step: Step)
    requires Inv(s) && Supplied(s)
    ensures Inv(Next(s, step)) && Supplied(Next(s, step))
  {
    match step
    case Begin(starting, rate, interval, funding, proceeds) => BeginKeepsInv(s, starting, rate, interval, funding, proceeds);
    case Submit(m) => BidStepKeepsInv(s, m);
    case EndBlock => EndBlockKeepsInv(s);
    case _ => QuietStepKeepsInv(s, step);
  }

  lemma EndBlockKeepsInv(s: State)
    requires Inv(s) && Supplied(s)
    ensures Inv(Next(s, EndBlock)) && Supplied(Next(s, EndBlock))
  {
    hide Inv, Supplied, EndBlocker, BeginAuction, SubmitBid, SetTokenPrices;
    EndBlockerKeepsInv(s);
    EndBlockerHeight(s);
    InvModules(EndBlocker(s).value);
    if s.height + 1 < INT64_LIMIT {
      QuietKeepsInv(EndBlocker(s).value, Next(s, EndBlock));
    }
  }

  lemma {:induction false} PriceTicksHeight(s: State, auctions: seq<Auction>)
    requires PriceTicks(s, auctions).Ok?
    ensures PriceTicks(s, auctions).value.height == s.height
    decreases |auctions|
  {
    if auctions != [] { PriceTicksHeight(PriceTick(s, auctions[0]).value, auctions[1..]); }
  }

  lemma EndBlockerHeight(s: State)
    requires EndBlocker(s).Ok?
    ensures EndBlocker(s).value.height == s.height
  {
    PriceTicksHeight(s, Auctions(s.active));
  }

  /** Every state of every run satisfies the invariant. */
  lemma {:induction false} RunKeepsInv(s: State, steps: seq<Step>)
    requires Genesis(s)
    ensures Inv(Run(s, steps)) && Supplied(Run(s, steps))
  {
    if steps == [] {
      GenesisInv(s);
    } else {
      RunKeepsInv(s, steps[..|steps| - 1]);
      NextKeepsInv(Run(s, steps[..|steps| - 1]), steps[|steps| - 1]);
    }
  }

  /** Some run from an empty module leads here. */
  ghost predicate Reachable(s: State) {
    exists genesis, steps :: Genesis(genesis) && s == Run(genesis, steps)
  }

  lemma ReachableInv(s: State)
    requires Reachable(s)
    ensures Inv(s) && Supplied(s)
  {
    var genesis, steps :| Genesis(genesis) && s == Run(genesis, steps);
    RunKeepsInv(genesis, steps);
  }
}
