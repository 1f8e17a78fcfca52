/** `FinishAuction` always has the funds it pays out, and keeps the invariant. */
module AuctionFinish {
  import opened AuctionInvariant
  import opened AuctionSpec
  import opened AuctionTypes
  import opened Bank

  /** The record that a caller passes on: the stored one, up to its current decrease rate. */
  ghost predicate Finishing(s: State, a: Auction) {
    && a.id in s.active
    && a == s.active[a.id].(currentRate := a.currentRate)
    && a.initialRate <= a.currentRate
  }

  /** What the escrow holds once the auction is paid out. */
  ghost predicate PaidOut(s: State, a: Auction, bank: Balances) {
    && Balance(bank, ESCROW, a.starting.denom) == 0
    && Balance(bank, ESCROW, USOMM) == Balance(s.bank, ESCROW, USOMM) - Proceeds(s.bids, a.id)
    && (forall d :: d != USOMM && d != a.starting.denom ==> Balance(bank, ESCROW, d) == Balance(s.bank, ESCROW, d))
  }

  lemma ProceedsCovered(bank: Balances, ids: set<nat>, bids: map<BidKey, Bid>, id: nat)
    requires id in ids && Balance(bank, ESCROW, USOMM) == Owed(ids, bids)
    requires forall k :: k in bids ==> bids[k].paid.amount >= 0
    ensures 0 <= Proceeds(bids, id) <= Balance(bank, ESCROW, USOMM)
  {
    OwedSplit(ids, id, bids);
    OwedNonNegative(ids - {id}, bids);
    ProceedsNonNegative(bids, id);
  }

  /** Both transfers succeed. */
  lemma FinishPays(s: State, a: Auction)
    requires a.starting.denom != USOMM && a.fundingModule != MODULE_NAME && a.proceedsModule != MODULE_NAME
    requires 0 <= Proceeds(s.bids, a.id) <= Balance(s.bank, ESCROW, USOMM)
    ensures FinishAuction(s, a).Ok?
    ensures PaidOut(s, a, FinishAuction(s, a).value.bank)
    ensures FinishAuction(s, a).value == Close(s, a, FinishAuction(s, a).value.bank)
  {}

  lemma CloseIds(s: State, a: Auction, bank: Balances)
    requires Ids(s) && Finishing(s, a)
    ensures Ids(Close(s, a, bank))
  {
    var t := Close(s, a, bank);
    forall id: nat | Stored(t, id) ensures 0 < id <= t.lastAuctionId && AuctionOf(t, id).id == id {
      assert Stored(s, id);
    }
  }

  lemma CloseActive(s: State, a: Auction, bank: Balances)
    requires ActiveShape(s) && OneAuctionPerDenom(s) && Finishing(s, a)
    ensures ActiveShape(Close(s, a, bank)) && OneAuctionPerDenom(Close(s, a, bank))
  {}

  lemma CloseEnded(s: State, a: Auction, bank: Balances)
    requires ActiveShape(s) && EndedShape(s) && Finishing(s, a)
    ensures EndedShape(Close(s, a, bank))
  {
  }

  lemma CloseOrder(s: State, a: Auction, bank: Balances)
    requires ActiveShape(s) && EndedShape(s) && OneAuctionPerDenom(s) && DenomOrder(s) && Finishing(s, a)
    ensures DenomOrder(Close(s, a, bank))
  {
  }

  lemma CloseBids(s: State, a: Auction, bank: Balances)
    requires Bids(s) && Finishing(s, a)
    ensures Bids(Close(s, a, bank))
  {
    var t := Close(s, a, bank);
    forall k | k in t.bids ensures Stored(t, k.0) && BidShape(t, t.bids[k], AuctionOf(t, k.0)) {
      assert BidShape(s, s.bids[k], AuctionOf(s, k.0));
    }
  }

  lemma CloseSold(s: State, a: Auction, bank: Balances)
    requires SoldTokens(s) && Finishing(s, a)
    ensures SoldTokens(Close(s, a, bank))
  {
    var t := Close(s, a, bank);
    forall id: nat | Stored(t, id)
      ensures AuctionOf(t, id).remaining.amount == AuctionOf(t, id).starting.amount - Sold(t, id)
    {
      assert Stored(s, id);
    }
  }

  /** A denomination is on sale after closing exactly when another active auction sells it. */
  lemma CloseOnSale(s: State, a: Auction, bank: Balances, d: string)
    requires Finishing(s, a) && OneAuctionPerDenom(s)
    ensures DenomOnSale(Close(s, a, bank).active, d) <==> DenomOnSale(s.active, d) && d != a.starting.denom
  {
    var t := Close(s, a, bank);
    if DenomOnSale(s.active, d) && d != a.starting.denom {
      var id :| id in s.active && s.active[id].starting.denom == d;
      assert id in t.active;
    }
  }

  lemma CloseEscrow(s: State, a: Auction, bank: Balances)
    requires Escrow(s) && OneAuctionPerDenom(s) && Finishing(s, a) && PaidOut(s, a, bank)
    requires forall id :: id in s.active ==> s.active[id].starting.denom != USOMM
    ensures Escrow(Close(s, a, bank))
  {
    var t := Close(s, a, bank);
    OwedSplit(s.active.Keys, a.id, s.bids);
    assert t.active.Keys == s.active.Keys - {a.id as nat};
    forall d | d != USOMM && !DenomOnSale(t.active, d) ensures Balance(t.bank, ESCROW, d) == 0 {
      CloseOnSale(s, a, bank, d);
    }
    forall id | id in t.active ensures Balance(t.bank, ESCROW, t.active[id].starting.denom) == t.active[id].remaining.amount {
      assert id in s.active && t.active[id] == s.active[id] && id != a.id;
      assert s.active[id].starting.denom != a.starting.denom;
    }
  }

  lemma CloseKeepsInv(s: State, a: Auction, bank: Balances)
    requires Inv(s) && Finishing(s, a) && PaidOut(s, a, bank)
    ensures Inv(Close(s, a, bank))
  {
    CloseIds(s, a, bank);
    CloseActive(s, a, bank);
    CloseEnded(s, a, bank);
    CloseOrder(s, a, bank);
    CloseBids(s, a, bank);
    CloseSold(s, a, bank);
    CloseEscrow(s, a, bank);
  }

  lemma FinishFunded(s: State, a: Auction)
    requires ActiveShape(s) && Bids(s) && Escrow(s) && Modules(s) && Finishing(s, a)
    ensures FinishAuction(s, a).Ok?
    ensures PaidOut(s, a, FinishAuction(s, a).value.bank)
    ensures FinishAuction(s, a).value == Close(s, a, FinishAuction(s, a).value.bank)
  {
    assert Terms(s, s.active[a.id]);
    assert forall k :: k in s.bids ==> s.bids[k].paid.amount >= 0;
    ProceedsCovered(s.bank, s.active.Keys, s.bids, a.id);
    FinishPays(s, a);
  }

  /** Finishing an active auction never fails and keeps the invariant. */
  lemma FinishKeepsInv(s: State, a: Auction)
    requires Inv(s) && Finishing(s, a)
    ensures FinishAuction(s, a).Ok? && Inv(FinishAuction(s, a).value)
    ensures FinishAuction(s, a).value == Close(s, a, FinishAuction(s, a).value.bank)
  {
    FinishFunded(s, a);
    CloseKeepsInv(s, a, FinishAuction(s, a).value.bank);
  }
}
