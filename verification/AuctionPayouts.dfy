/** Where the coins go: every account's balance after beginning, bidding and finishing. */
module AuctionPayouts {
  import opened AuctionBid
  import opened AuctionFinish
  import opened AuctionInvariant
  import opened AuctionRuns
  import opened AuctionSpec
  import opened AuctionTypes
  import opened Bank
  import opened Integers
  import opened Outcomes

  /** What a transfer adds to an account's balance in a denomination. */
  function Moved(who: Account, d: string, from: Account, to: Account, denom: string, amount: int): int {
    if d != denom then 0 else (if who == to then amount else 0) - (if who == from then amount else 0)
  }

  lemma SendMoves(b: Balances, from: Account, to: Account, denom: string, amount: int, who: Account, d: string)
    requires Send(b, from, to, denom, amount).Some?
    ensures Balance(Send(b, from, to, denom, amount).value, who, d) == Balance(b, who, d) + Moved(who, d, from, to, denom, amount)
  {}

  /** What finishing adds to an account: the unsold tokens go back to the funding module, the proceeds to the
      proceeds module, both out of the escrow. */
  function Payout(a: Auction, unsold: int, proceeds: int, who: Account, d: string): int {
    Moved(who, d, ESCROW, Module(a.fundingModule), a.starting.denom, unsold)
    + Moved(who, d, ESCROW, Module(a.proceedsModule), USOMM, proceeds)
  }

  lemma FinishMoves(s: State, a: Auction, who: Account, d: string)
    requires FinishAuction(s, a).Ok? && Proceeds(s.bids, a.id) >= 0
    ensures Balance(FinishAuction(s, a).value.bank, who, d) ==
            Balance(s.bank, who, d) + Payout(a, Balance(s.bank, ESCROW, a.starting.denom), Proceeds(s.bids, a.id), who, d)
  {
    hide Balance, Send;
    var unsold, proceeds := Balance(s.bank, ESCROW, a.starting.denom), Proceeds(s.bids, a.id);
    var returned := s.bank;
    UnsoldNonNegative(s.bank, a.starting.denom);
    if unsold > 0 {
      SendMoves(s.bank, ESCROW, Module(a.fundingModule), a.starting.denom, unsold, who, d);
      returned := Send(s.bank, ESCROW, Module(a.fundingModule), a.starting.denom, unsold).value;
    }
    if proceeds > 0 { SendMoves(returned, ESCROW, Module(a.proceedsModule), USOMM, proceeds, who, d); }
  }

  lemma UnsoldNonNegative(b: Balances, d: string)
    ensures Balance(b, ESCROW, d) >= 0
  {}

  /** In every reachable state, finishing pays the tokens that are left to the funding module and what the auction's
      bids paid to the proceeds module; no other account changes. */
  lemma FinishPaysOut(s: State, id: nat, who: Account, d: string)
    requires Reachable(s) && id in s.active
    ensures FinishAuction(s, s.active[id]).Ok?
    ensures Balance(FinishAuction(s, s.active[id]).value.bank, who, d) ==
            Balance(s.bank, who, d) + Payout(s.active[id], s.active[id].remaining.amount, Proceeds(s.bids, id), who, d)
  {
    ReachableInv(s);
    var a := s.active[id];
    assert Stored(s, id) && Terms(s, a);
    FinishKeepsInv(s, a);
    ProceedsOf(s, id);
    FinishMoves(s, a, who, d);
  }

  lemma ProceedsOf(s: State, id: nat)
    requires Bids(s)
    ensures Proceeds(s.bids, id) >= 0
  {
    ProceedsNonNegative(s.bids, id);
  }

  /** What a bid adds to an account: the bidder pays into the escrow and receives tokens from it. */
  function Exchange(bid: Bid, who: Account, d: string): int {
    Moved(who, d, User(bid.bidder), ESCROW, USOMM, bid.paid.amount)
    + Moved(who, d, ESCROW, User(bid.bidder), bid.fulfilled.denom, bid.fulfilled.amount)
  }

  /** The coins of an accepted bid before a possible finish. */
  lemma ExchangeMoves(s: State, bid: Bid, who: Account, d: string)
    requires bid.auctionId in s.active && bid.fulfilled.denom == s.active[bid.auctionId].starting.denom
    requires SettleBid(s, bid).Ok?
    ensures var paid := Send(s.bank, User(bid.bidder), ESCROW, USOMM, bid.paid.amount);
            && paid.Some?
            && var bought := Send(paid.value, ESCROW, User(bid.bidder), bid.fulfilled.denom, bid.fulfilled.amount);
               && bought.Some?
               && Balance(bought.value, who, d) == Balance(s.bank, who, d) + Exchange(bid, who, d)
  {
    hide Send, Conclude, Balance;
    var paid := Send(s.bank, User(bid.bidder), ESCROW, USOMM, bid.paid.amount).value;
    SendMoves(s.bank, User(bid.bidder), ESCROW, USOMM, bid.paid.amount, who, d);
    SendMoves(paid, ESCROW, User(bid.bidder), bid.fulfilled.denom, bid.fulfilled.amount, who, d);
  }

  /** What a sold-out auction pays on top: everything its bids paid, this one included. */
  function LastPayout(s: State, a: Auction, bid: Bid, who: Account, d: string): int {
    if bid.fulfilled.amount == a.remaining.amount then Payout(a, 0, Proceeds(s.bids, a.id) + bid.paid.amount, who, d) else 0
  }

  lemma SoldOutMoves(s: State, a: Auction, bid: Bid, bank: Balances, who: Account, d: string)
    requires Inv(s) && Accepted(s, a, bid, bank) && a.starting.denom != USOMM && bid.fulfilled.amount == a.remaining.amount
    requires Conclude(Recorded(s, a, bid, bank), AfterSale(a, bid.fulfilled.amount)).Ok?
    ensures Balance(Conclude(Recorded(s, a, bid, bank), AfterSale(a, bid.fulfilled.amount)).value.bank, who, d) ==
            Balance(bank, who, d) + Payout(a, 0, Proceeds(s.bids, a.id) + bid.paid.amount, who, d)
  {
    hide Inv, FinishAuction, Proceeds, Payout, Balance, BidsOf;
    var t, b := Recorded(s, a, bid, bank), AfterSale(a, bid.fulfilled.amount);
    BidsPart(s);
    RecordedProceeds(s, a, bid, bank);
    ProceedsOf(s, a.id);
    FinishMoves(t, b, who, d);
    SamePayout(a, b, 0, Proceeds(s.bids, a.id) + bid.paid.amount, who, d);
  }

  lemma SamePayout(a: Auction, b: Auction, unsold: int, proceeds: int, who: Account, d: string)
    requires a.fundingModule == b.fundingModule && a.proceedsModule == b.proceedsModule && a.starting == b.starting
    ensures Payout(a, unsold, proceeds, who, d) == Payout(b, unsold, proceeds, who, d)
  {}

  lemma BidsPart(s: State)
    requires Inv(s)
    ensures Bids(s)
  {}

  lemma RecordedProceeds(s: State, a: Auction, bid: Bid, bank: Balances)
    requires Bids(s) && Accepted(s, a, bid, bank)
    ensures Proceeds(Recorded(s, a, bid, bank).bids, a.id) == Proceeds(s.bids, a.id) + bid.paid.amount
  {
    RecordListing(s, a, bid, bank, a.id);
    SumAppend(BidsOf(s.bids, a.id), bid);
  }

  /** A settled bid exchanges coins with the bidder, and, if it sells the auction out, pays out the proceeds; no other
      account changes. */
  lemma SettleMoves(s: State, a: Auction, bid: Bid, who: Account, d: string)
    requires Inv(s) && Offered(s, a, bid) && a.starting.denom != USOMM && SettleBid(s, bid).Ok?
    ensures Balance(SettleBid(s, bid).value.bank, who, d) ==
            Balance(s.bank, who, d) + Exchange(bid, who, d) + LastPayout(s, a, bid, who, d)
  {
    hide Send, Balance, Inv, Conclude, Payout, Exchange, BidShape;
    assert BidDenom(bid, a) by { ShapeDenom(s, bid, a); }
    ExchangeMoves(s, bid, who, d);
    var paid := Send(s.bank, User(bid.bidder), ESCROW, USOMM, bid.paid.amount).value;
    var bank := Send(paid, ESCROW, User(bid.bidder), bid.fulfilled.denom, bid.fulfilled.amount).value;
    BankAccepted(s, a, bid);
    if bid.fulfilled.amount == a.remaining.amount {
      SoldOutMoves(s, a, bid, bank, who, d);
    } else {
      NotSoldOut(Recorded(s, a, bid, bank), AfterSale(a, bid.fulfilled.amount));
    }
  }

  ghost predicate BidDenom(bid: Bid, a: Auction) { bid.fulfilled.denom == a.starting.denom }

  lemma ShapeDenom(s: State, bid: Bid, a: Auction)
    requires BidShape(s, bid, a)
    ensures BidDenom(bid, a)
  {}

  lemma NotSoldOut(t: State, b: Auction)
    requires b.remaining.amount != 0
    ensures Conclude(t, b) == Ok(t)
  {}

  lemma BankAccepted(s: State, a: Auction, bid: Bid)
    requires Offered(s, a, bid) && a.starting.denom != USOMM && SettleBid(s, bid).Ok?
    ensures var paid := Send(s.bank, User(bid.bidder), ESCROW, USOMM, bid.paid.amount);
            && paid.Some?
            && var bank := Send(paid.value, ESCROW, User(bid.bidder), bid.fulfilled.denom, bid.fulfilled.amount);
               && bank.Some? && Accepted(s, a, bid, bank.value)
               && SettleBid(s, bid) == Conclude(Recorded(s, a, bid, bank.value), AfterSale(a, bid.fulfilled.amount))
  {
    hide Conclude;
  }

  /** Every account after an accepted bid, in every reachable state. */
  lemma BidMovesCoins(s: State, m: MsgSubmitBid, who: Account, d: string)
    requires Reachable(s) && SubmitBid(s, m).Ok?
    ensures PrepareBid(s, m).Ok?
    ensures var bid, a := PrepareBid(s, m).value, s.active[m.auctionId];
            && bid.bidder == m.signer && bid.fulfilled.denom == a.starting.denom
            && Balance(SubmitBid(s, m).value.bank, who, d) ==
               Balance(s.bank, who, d) + Exchange(bid, who, d) + LastPayout(s, a, bid, who, d)
  {
    ReachableInv(s);
    PreparedIsOffered(s, m);
    PreparedFields(s, m);
    var a := s.active[m.auctionId];
    ActiveSells(s, m.auctionId);
    hide PrepareBid, SettleBid, Quote, Inv, Exchange, LastPayout;
    SettleMoves(s, a, PrepareBid(s, m).value, who, d);
  }

  lemma ActiveSells(s: State, id: nat)
    requires Inv(s) && id in s.active
    ensures s.active[id].starting.denom != USOMM
  {
    assert Stored(s, id) && Terms(s, s.active[id]);
  }

  /** A new auction moves its tokens from the funding module into the escrow, and is stored under the next id with the
      ratio of the two prices. */
  lemma BeginMovesTokens(s: State, starting: Coin, rate: int, interval: uint64, funding: string, proceeds: string, who: Account, d: string)
    requires BeginAuction(s, starting, rate, interval, funding, proceeds).Ok?
    ensures var t := BeginAuction(s, starting, rate, interval, funding, proceeds).value;
            && Balance(t.bank, who, d) == Balance(s.bank, who, d) + Moved(who, d, Module(funding), ESCROW, starting.denom, starting.amount)
            && t.lastAuctionId == WrapUint32(s.lastAuctionId + 1)
            && t.active.Keys == s.active.Keys + {t.lastAuctionId as nat}
            && !DenomOnSale(s.active, starting.denom)
            && var a := t.active[t.lastAuctionId];
               && a.starting == a.remaining == starting && a.startBlock == s.height && a.endBlock == 0
               && a.initialRate == a.currentRate == rate && a.interval == interval
               && a.fundingModule == funding && a.proceedsModule == proceeds
               && StartingPrice(s.prices[starting.denom], s.prices[USOMM]) == Ok(a.initialPrice) && a.currentPrice == a.initialPrice
  {
    hide Balance, Send, StartingPrice;
    SendMoves(s.bank, Module(funding), ESCROW, starting.denom, starting.amount, who, d);
  }
}
