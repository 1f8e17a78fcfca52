/** `SubmitBid` keeps the invariant, and its two panics after payment cannot happen. */
module AuctionBid {
  import opened AuctionFinish
  import opened AuctionInvariant
  import opened AuctionPricing
  import opened AuctionSpec
  import opened AuctionTypes
  import opened Bank
  import opened Integers
  import opened Outcomes

  /** The auction record once `tokens` are sold. */
  function AfterSale(a: Auction, tokens: int): Auction {
    a.(remaining := Coin(a.starting.denom, a.remaining.amount - tokens))
  }

  /** A bid on the stored auction `a` that the escrow can fill. */
  ghost predicate Offered(s: State, a: Auction, bid: Bid) {
    && a.id in s.active && a == s.active[a.id]
    && bid.auctionId == a.id && bid.id == s.lastBidId + 1
    && bid.unitPrice == a.currentPrice && bid.blockHeight == s.height
    && BidShape(s, bid, a) && bid.fulfilled.amount <= a.remaining.amount
    && Balance(s.bank, ESCROW, a.starting.denom) == a.remaining.amount
  }

  /** The bid is offered, and `bank` is the ledger once its coins moved. */
  ghost predicate Accepted(s: State, a: Auction, bid: Bid, bank: Balances) {
    && Offered(s, a, bid)
    && Balance(bank, ESCROW, a.starting.denom) == a.remaining.amount - bid.fulfilled.amount
    && Balance(bank, ESCROW, USOMM) == Balance(s.bank, ESCROW, USOMM) + bid.paid.amount
    && (forall d :: d != USOMM && d != a.starting.denom ==> Balance(bank, ESCROW, d) == Balance(s.bank, ESCROW, d))
  }

  function Recorded(s: State, a: Auction, bid: Bid, bank: Balances): State {
    RecordBid(s, AfterSale(a, bid.fulfilled.amount), bid, bank)
  }

  // ----- recording an accepted bid -----

  lemma RecordShapes(s: State, a: Auction, bid: Bid, bank: Balances)
    requires Ids(s) && ActiveShape(s) && EndedShape(s) && OneAuctionPerDenom(s) && DenomOrder(s)
    requires Accepted(s, a, bid, bank)
    ensures var t := Recorded(s, a, bid, bank);
            Ids(t) && ActiveShape(t) && EndedShape(t) && OneAuctionPerDenom(t) && DenomOrder(t)
  {
    hide BidShape, Balance;
    var t := Recorded(s, a, bid, bank);
    assert forall id: nat :: Stored(t, id) <==> Stored(s, id);
    assert 0 <= a.remaining.amount - bid.fulfilled.amount <= a.remaining.amount by { SoldAmount(s, a, bid); }
    RecordIdsAndOrder(s, a, bid, bank);
  }

  lemma SoldAmount(s: State, a: Auction, bid: Bid)
    requires Offered(s, a, bid)
    ensures 0 <= a.remaining.amount - bid.fulfilled.amount <= a.remaining.amount
  {}

  lemma RecordIdsAndOrder(s: State, a: Auction, bid: Bid, bank: Balances)
    requires Ids(s) && OneAuctionPerDenom(s) && DenomOrder(s) && Accepted(s, a, bid, bank)
    ensures var t := Recorded(s, a, bid, bank); Ids(t) && OneAuctionPerDenom(t) && DenomOrder(t)
  {
    hide BidShape, Balance;
    var t := Recorded(s, a, bid, bank);
    assert forall id: nat :: Stored(t, id) <==> Stored(s, id);
  }

  /** A bid's shape depends on its auction's price and start only. */
  lemma ShapeKept(s: State, t: State, bid: Bid, a: Auction, b: Auction)
    requires BidShape(s, bid, a) && s.height <= t.height
    requires b.starting == a.starting && b.currentPrice == a.currentPrice && b.initialPrice == a.initialPrice && b.startBlock == a.startBlock
    ensures BidShape(t, bid, b)
  {}

  lemma RecordBids(s: State, a: Auction, bid: Bid, bank: Balances)
    requires Bids(s) && Accepted(s, a, bid, bank)
    ensures Bids(Recorded(s, a, bid, bank))
  {
    hide BidShape, Balance;
    var t := Recorded(s, a, bid, bank);
    forall k | k in t.bids
      ensures Stored(t, k.0) && t.bids[k].auctionId == k.0 && t.bids[k].id == k.1 && 0 < k.1 <= t.lastBidId
      ensures BidShape(t, t.bids[k], AuctionOf(t, k.0))
    {
      if k != (a.id as nat, bid.id as nat) {
        assert k in s.bids && BidShape(s, s.bids[k], AuctionOf(s, k.0));
        ShapeKept(s, t, s.bids[k], AuctionOf(s, k.0), AuctionOf(t, k.0));
      } else {
        ShapeKept(s, t, bid, a, AuctionOf(t, k.0));
      }
    }
  }

  lemma RecordOrder(s: State, a: Auction, bid: Bid, bank: Balances)
    requires Bids(s) && BidOrder(s) && Accepted(s, a, bid, bank)
    ensures BidOrder(Recorded(s, a, bid, bank))
  {
    forall k | k in s.bids && k.0 == a.id ensures k.1 < bid.id && BidShape(s, s.bids[k], a) {
      assert Stored(s, k.0);
    }
  }

  /** The new bid is listed last for its auction, and no other listing changes. */
  lemma RecordListing(s: State, a: Auction, bid: Bid, bank: Balances, id: nat)
    requires Bids(s) && Accepted(s, a, bid, bank)
    ensures BidsOf(Recorded(s, a, bid, bank).bids, id) == BidsOf(s.bids, id) + (if id == a.id then [bid] else [])
  {
    if id == a.id {
      BidsOfAppend(s.bids, a.id, bid.id, bid);
    } else {
      BidsOfFrame(s.bids, Recorded(s, a, bid, bank).bids, id);
    }
  }

  lemma RecordSoldOne(s: State, a: Auction, bid: Bid, bank: Balances, id: nat)
    requires Bids(s) && Accepted(s, a, bid, bank)
    ensures Sold(Recorded(s, a, bid, bank), id) == Sold(s, id) + (if id == a.id then bid.fulfilled.amount else 0)
  {
    RecordListing(s, a, bid, bank, id);
    SumAppend(BidsOf(s.bids, id), bid);
    assert BidsOf(s.bids, id) + [] == BidsOf(s.bids, id);
  }

  lemma RecordSold(s: State, a: Auction, bid: Bid, bank: Balances)
    requires Ids(s) && Bids(s) && SoldTokens(s) && Accepted(s, a, bid, bank)
    ensures SoldTokens(Recorded(s, a, bid, bank))
  {
    var t := Recorded(s, a, bid, bank);
    forall id: nat | Stored(t, id)
      ensures AuctionOf(t, id).remaining.amount == AuctionOf(t, id).starting.amount - Sold(t, id)
    {
      RecordSoldOne(s, a, bid, bank, id);
      assert Stored(s, id);
    }
  }

  lemma RecordOwed(s: State, a: Auction, bid: Bid, bank: Balances)
    requires Bids(s) && Accepted(s, a, bid, bank)
    ensures Owed(s.active.Keys, Recorded(s, a, bid, bank).bids) == Owed(s.active.Keys, s.bids) + bid.paid.amount
  {
    var after := Recorded(s, a, bid, bank).bids;
    OwedSplit(s.active.Keys, a.id, s.bids);
    OwedSplit(s.active.Keys, a.id, after);
    forall id | id in s.active.Keys - {a.id as nat} ensures BidsOf(s.bids, id) == BidsOf(after, id) {
      RecordListing(s, a, bid, bank, id);
    }
    OwedFrame(s.active.Keys - {a.id as nat}, s.bids, after);
    RecordListing(s, a, bid, bank, a.id);
    SumAppend(BidsOf(s.bids, a.id), bid);
  }

  lemma RecordHeld(s: State, a: Auction, bid: Bid, bank: Balances, id: nat)
    requires Escrow(s) && OneAuctionPerDenom(s) && Accepted(s, a, bid, bank)
    requires id in s.active && s.active[id].starting.denom != USOMM
    ensures var b := Recorded(s, a, bid, bank).active[id]; Balance(bank, ESCROW, b.starting.denom) == b.remaining.amount
  {}

  lemma RecordUnsold(s: State, a: Auction, bid: Bid, bank: Balances, d: string)
    requires Escrow(s) && Accepted(s, a, bid, bank)
    requires d != USOMM && !DenomOnSale(Recorded(s, a, bid, bank).active, d)
    ensures Balance(bank, ESCROW, d) == 0
  {
    SameOnSale(s.active, Recorded(s, a, bid, bank).active, d);
    assert a.id in s.active;
  }

  lemma RecordEscrow(s: State, a: Auction, bid: Bid, bank: Balances)
    requires Escrow(s) && OneAuctionPerDenom(s) && Accepted(s, a, bid, bank)
    requires forall id :: id in s.active ==> s.active[id].starting.denom != USOMM
    requires Owed(s.active.Keys, Recorded(s, a, bid, bank).bids) == Owed(s.active.Keys, s.bids) + bid.paid.amount
    ensures Escrow(Recorded(s, a, bid, bank))
  {
    var t := Recorded(s, a, bid, bank);
    assert t.active.Keys == s.active.Keys;
    forall d | d != USOMM && !DenomOnSale(t.active, d) ensures Balance(t.bank, ESCROW, d) == 0 {
      RecordUnsold(s, a, bid, bank, d);
    }
    forall id | id in t.active ensures Balance(t.bank, ESCROW, t.active[id].starting.denom) == t.active[id].remaining.amount {
      RecordHeld(s, a, bid, bank, id);
    }
  }

  lemma RecordKeepsInv(s: State, a: Auction, bid: Bid, bank: Balances)
    requires Inv(s) && Accepted(s, a, bid, bank)
    ensures Inv(Recorded(s, a, bid, bank))
  {
    RecordShapes(s, a, bid, bank);
    RecordBids(s, a, bid, bank);
    RecordOrder(s, a, bid, bank);
    RecordSold(s, a, bid, bank);
    RecordOwed(s, a, bid, bank);
    RecordEscrow(s, a, bid, bank);
  }

  // ----- submitting -----

  /** What the checks of a prepared bid established. */
  lemma PreparedFields(s: State, m: MsgSubmitBid)
    requires PrepareBid(s, m).Ok?
    ensures m.auctionId in s.active
    ensures var bid, a := PrepareBid(s, m).value, s.active[m.auctionId];
            var quote := Quote(Balance(s.bank, ESCROW, a.starting.denom), a.currentPrice, m.maxBid.amount, m.minimum.amount, s.params.minimumBidInUsomm);
            && quote.Ok? && bid == NewBid(s, a, m, quote.value)
            && m.maxBid.amount > 0 && m.minimum.amount > 0
            && bid.paid.amount >= 0 && bid.id == s.lastBidId + 1
  {
    hide Quote;
  }

  /** A quoted bid sells part of what is left, on the terms of its auction. */
  lemma QuotedBid(s: State, a: Auction, m: MsgSubmitBid, fill: Fill)
    requires a.id in s.active && a == s.active[a.id] && a.id == m.auctionId
    requires Terms(s, a) && Balance(s.bank, ESCROW, a.starting.denom) == a.remaining.amount
    requires m.maxBid.amount > 0 && m.minimum.amount > 0
    requires Quote(a.remaining.amount, a.currentPrice, m.maxBid.amount, m.minimum.amount, s.params.minimumBidInUsomm) == Ok(fill)
    requires fill.payment >= 0 && WrapUint64(s.lastBidId + 1) != 0
    ensures Offered(s, a, NewBid(s, a, m, fill))
  {
    hide Quote, RoundedUpCost;
    AcceptedBid(a.remaining.amount, a.currentPrice, m.maxBid.amount, m.minimum.amount, s.params.minimumBidInUsomm);
  }

  /** The transfers of an offered bid: only the bidder's own funds can be short. */
  lemma Settled(s: State, a: Auction, bid: Bid)
    requires Offered(s, a, bid) && a.starting.denom != USOMM
    ensures var pay := Send(s.bank, User(bid.bidder), ESCROW, USOMM, bid.paid.amount);
            pay.Some? ==>
              var buy := Send(pay.value, ESCROW, User(bid.bidder), a.starting.denom, bid.fulfilled.amount);
              buy.Some? && Accepted(s, a, bid, buy.value)
  {}

  /** A settled bid either lacked the bidder's funds or recorded the bid. */
  lemma SettledState(s: State, a: Auction, bid: Bid)
    requires Offered(s, a, bid) && a.starting.denom != USOMM && a.remaining.denom == a.starting.denom
    ensures SettleBid(s, bid) == Fail(InsufficientFunds) || exists bank ::
              Accepted(s, a, bid, bank) && SettleBid(s, bid) == Conclude(Recorded(s, a, bid, bank), AfterSale(a, bid.fulfilled.amount))
  {
    Settled(s, a, bid);
    var pay := Send(s.bank, User(bid.bidder), ESCROW, USOMM, bid.paid.amount);
    if pay.Some? {
      var bank := Send(pay.value, ESCROW, User(bid.bidder), a.starting.denom, bid.fulfilled.amount).value;
      assert Accepted(s, a, bid, bank);
      assert SettleBid(s, bid) == Conclude(Recorded(s, a, bid, bank), AfterSale(a, bid.fulfilled.amount));
    }
  }

  lemma ConcludeKeepsInv(s: State, t: State, a: Auction)
    requires Supplied(s) && a.id in s.active && t.active == s.active[a.id as nat := a]
    requires Inv(t)
    ensures Conclude(t, a).Ok? && Inv(Conclude(t, a).value) && Supplied(Conclude(t, a).value)
  {
    assert Terms(t, t.active[a.id]);
    if a.remaining.amount == 0 {
      FinishKeepsInv(t, a);
    }
  }

  lemma SettleKeepsInv(s: State, a: Auction, bid: Bid)
    requires Inv(s) && Supplied(s) && Offered(s, a, bid)
    ensures SettleBid(s, bid).Ok? ==> Inv(SettleBid(s, bid).value) && Supplied(SettleBid(s, bid).value)
    ensures !SettleBid(s, bid).Panic?
  {
    assert Terms(s, a);
    SettledState(s, a, bid);
    if !SettleBid(s, bid).Fail? {
      var bank :| Accepted(s, a, bid, bank) && SettleBid(s, bid) == Conclude(Recorded(s, a, bid, bank), AfterSale(a, bid.fulfilled.amount));
      RecordKeepsInv(s, a, bid, bank);
      ConcludeKeepsInv(s, Recorded(s, a, bid, bank), AfterSale(a, bid.fulfilled.amount));
    }
  }

  lemma ActiveEscrow(s: State, id: nat)
    requires Inv(s) && id in s.active
    ensures s.active[id].id == id && Terms(s, s.active[id])
    ensures Balance(s.bank, ESCROW, s.active[id].starting.denom) == s.active[id].remaining.amount
  {
    assert Stored(s, id);
  }

  /** Every check passed, so the bid is one that the escrow can fill. */
  lemma PreparedIsOffered(s: State, m: MsgSubmitBid)
    requires Inv(s) && PrepareBid(s, m).Ok?
    ensures Offered(s, s.active[m.auctionId], PrepareBid(s, m).value)
  {
    PreparedFields(s, m);
    var bid, a := PrepareBid(s, m).value, s.active[m.auctionId];
    ActiveEscrow(s, m.auctionId);
    hide Inv, Quote, PrepareBid, Terms, Offered, Balance;
    QuotedBid(s, a, m, Fill(bid.fulfilled.amount, bid.paid.amount));
  }

  /** A submitted bid commits to a state that satisfies the invariant and has nothing sold out; it never panics
      after the payment is taken. */
  lemma SubmitBidKeepsInv(s: State, m: MsgSubmitBid)
    requires Inv(s) && Supplied(s)
    ensures SubmitBid(s, m).Ok? ==> Inv(SubmitBid(s, m).value) && Supplied(SubmitBid(s, m).value)
    ensures SubmitBid(s, m).Panic? ==> SubmitBid(s, m).reason == Int64Overflow || SubmitBid(s, m).reason == DecimalOverflow
  {
    PreparePanics(s, m);
    if PrepareBid(s, m).Ok? {
      PreparedIsOffered(s, m);
      SettleKeepsInv(s, s.active[m.auctionId], PrepareBid(s, m).value);
    }
  }

  lemma PreparePanics(s: State, m: MsgSubmitBid)
    requires ActiveShape(s)
    ensures PrepareBid(s, m).Panic? ==> PrepareBid(s, m).reason == Int64Overflow || PrepareBid(s, m).reason == DecimalOverflow
  {}
}
