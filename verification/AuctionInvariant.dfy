/** What every reachable state of the auction module satisfies. */
module AuctionInvariant {
  import opened AuctionPricing
  import opened AuctionSpec
  import opened AuctionTypes
  import opened Bank
  import opened Collections
  import opened Decimal

  // ----- the invariant -----

  ghost predicate Stored(s: State, id: nat) { id in s.active || id in s.ended }

  function AuctionOf(s: State, id: nat): Auction
    requires id in s.active || id in s.ended
  {
    if id in s.active then s.active[id] else s.ended[id]
  }

  ghost predicate Ids(s: State) {
    && s.active.Keys !! s.ended.Keys
    && (forall id: nat :: Stored(s, id) ==> 0 < id <= s.lastAuctionId && AuctionOf(s, id).id == id)
  }

  /** Terms that hold from the beginning of an auction to its end. */
  ghost predicate Terms(s: State, a: Auction) {
    && a.starting.denom != USOMM
    && a.remaining.denom == a.starting.denom
    && 0 <= a.remaining.amount <= a.starting.amount
    && 0 < a.startBlock <= s.height
    && 0 < a.currentPrice <= a.initialPrice
    && 0 < a.initialRate < ONE
    && a.initialRate <= a.currentRate
    && a.interval != 0
    && a.fundingModule in s.fundingModules && a.proceedsModule in s.proceedsModules
  }

  ghost predicate ActiveShape(s: State) {
    forall id :: id in s.active ==> Terms(s, s.active[id]) && s.active[id].ValidateBasic().Ok? && s.active[id].endBlock == 0
  }

  ghost predicate EndedShape(s: State) {
    forall id :: id in s.ended ==> Terms(s, s.ended[id]) && s.ended[id].startBlock <= s.ended[id].endBlock <= s.height
  }

  ghost predicate OneAuctionPerDenom(s: State) {
    forall i, j :: i in s.active && j in s.active && s.active[i].starting.denom == s.active[j].starting.denom ==> i == j
  }

  /** Auctions of one denomination run one after the other, in the order of their ids. */
  ghost predicate DenomOrder(s: State) {
    && (forall i, j :: i in s.ended && j in s.ended && s.ended[i].starting.denom == s.ended[j].starting.denom && i < j ==>
          s.ended[i].endBlock <= s.ended[j].startBlock)
    && (forall i, j :: i in s.ended && j in s.active && s.ended[i].starting.denom == s.active[j].starting.denom ==>
          i < j && s.ended[i].endBlock <= s.active[j].startBlock)
  }

  ghost predicate BidShape(s: State, b: Bid, a: Auction) {
    && b.fulfilled.denom == a.starting.denom
    && b.paid.denom == USOMM && 0 <= b.paid.amount
    && 0 < b.minimum.amount <= b.fulfilled.amount
    && RoundedUpCost(b.paid.amount, b.fulfilled.amount, b.unitPrice)
    && a.currentPrice <= b.unitPrice <= a.initialPrice
    && a.startBlock <= b.blockHeight <= s.height
  }

  ghost predicate Bids(s: State) {
    forall k :: k in s.bids ==>
      && Stored(s, k.0)
      && s.bids[k].auctionId == k.0 && s.bids[k].id == k.1 && 0 < k.1 <= s.lastBidId
      && BidShape(s, s.bids[k], AuctionOf(s, k.0))
  }

  /** Bid ids ascend with block height, and prices do not rise with them. */
  ghost predicate BidOrder(s: State) {
    forall k, l :: k in s.bids && l in s.bids && k.0 == l.0 && k.1 <= l.1 ==>
      s.bids[k].blockHeight <= s.bids[l].blockHeight && s.bids[k].unitPrice >= s.bids[l].unitPrice
  }

  function SumTokens(bids: seq<Bid>): int {
    if bids == [] then 0 else SumTokens(bids[..|bids| - 1]) + bids[|bids| - 1].fulfilled.amount
  }

  function Sold(s: State, id: nat): int { SumTokens(BidsOf(s.bids, id)) }

  ghost predicate SoldTokens(s: State) {
    forall id: nat :: Stored(s, id) ==> AuctionOf(s, id).remaining.amount == AuctionOf(s, id).starting.amount - Sold(s, id)
  }

  /** usomm owed to the proceeds accounts of the auctions `ids`. */
  ghost function Owed(ids: set<nat>, bids: map<BidKey, Bid>): int {
    if ids == {} then 0 else Owed(ids - {Max(ids)}, bids) + Proceeds(bids, Max(ids))
  }

  ghost predicate Escrow(s: State) {
    && (forall id :: id in s.active ==> Balance(s.bank, ESCROW, s.active[id].starting.denom) == s.active[id].remaining.amount)
    && (forall d :: d != USOMM && !DenomOnSale(s.active, d) ==> Balance(s.bank, ESCROW, d) == 0)
    && Balance(s.bank, ESCROW, USOMM) == Owed(s.active.Keys, s.bids)
  }

  ghost predicate Modules(s: State) {
    && MODULE_NAME !in s.fundingModules && MODULE_NAME !in s.proceedsModules
    && s.params.Valid()
  }

  ghost predicate Inv(s: State) {
    && Modules(s) && Ids(s)
    && ActiveShape(s) && EndedShape(s) && OneAuctionPerDenom(s) && DenomOrder(s)
    && Bids(s) && BidOrder(s) && SoldTokens(s)
    && Escrow(s)
  }

  /** Every active auction still has something to sell. */
  ghost predicate Supplied(s: State) {
    forall id :: id in s.active ==> s.active[id].remaining.amount > 0
  }

  // ----- sums over bids -----

  lemma BidsOfFrame(b: map<BidKey, Bid>, c: map<BidKey, Bid>, a: nat)
    requires forall k: BidKey :: k.0 == a ==> (k in b <==> k in c) && (k in b ==> b[k] == c[k])
    ensures BidsOf(b, a) == BidsOf(c, a)
  {
    assert BidIds(b, a) == BidIds(c, a) by {
      forall id: nat ensures id in BidIds(b, a) <==> id in BidIds(c, a) {
        assert (a, id).0 == a;
      }
    }
    var ids := Sorted(BidIds(b, a));
    forall i | 0 <= i < |ids| ensures b[(a, ids[i])] == c[(a, ids[i])] {
      assert (a, ids[i]).0 == a;
    }
  }

  lemma BidIdsAppend(b: map<BidKey, Bid>, a: nat, id: nat, bid: Bid)
    requires forall k :: k in b && k.0 == a ==> k.1 < id
    ensures Sorted(BidIds(b[(a, id) := bid], a)) == Sorted(BidIds(b, a)) + [id]
    ensures id !in Sorted(BidIds(b, a))
  {
    var c := b[(a, id) := bid];
    assert BidIds(c, a) == BidIds(b, a) + {id};
    forall x | x in BidIds(b, a) ensures x < id { assert (a, x).0 == a; }
    SortedAppend(BidIds(b, a), id);
  }

  lemma BidsOfAppend(b: map<BidKey, Bid>, a: nat, id: nat, bid: Bid)
    requires forall k :: k in b && k.0 == a ==> k.1 < id
    ensures BidsOf(b[(a, id) := bid], a) == BidsOf(b, a) + [bid]
  {
    BidIdsAppend(b, a, id, bid);
    GatherAppend(b, a, Sorted(BidIds(b, a)), id, bid);
  }

  lemma GatherAppend(b: map<BidKey, Bid>, a: nat, ids: seq<nat>, id: nat, bid: Bid)
    requires forall x :: x in ids ==> (a, x) in b && x != id
    ensures var c := b[(a, id) := bid]; Gather(c, a, ids + [id]) == Gather(b, a, ids) + [bid]
  {}

  lemma {:induction false} PaidNonNegative(bids: seq<Bid>)
    requires forall b :: b in bids ==> b.paid.amount >= 0
    ensures SumPaid(bids) >= 0
  {
    if bids != [] { PaidNonNegative(bids[..|bids| - 1]); }
  }

  lemma SumAppend(bids: seq<Bid>, b: Bid)
    ensures SumPaid(bids + [b]) == SumPaid(bids) + b.paid.amount
    ensures SumTokens(bids + [b]) == SumTokens(bids) + b.fulfilled.amount
  {
    assert (bids + [b])[..|bids|] == bids;
  }

  lemma {:induction false} OwedFrame(ids: set<nat>, b: map<BidKey, Bid>, c: map<BidKey, Bid>)
    requires forall id :: id in ids ==> BidsOf(b, id) == BidsOf(c, id)
    ensures Owed(ids, b) == Owed(ids, c)
  {
    if ids != {} { OwedFrame(ids - {Max(ids)}, b, c); }
  }

  lemma {:induction false} OwedSplit(ids: set<nat>, id: nat, bids: map<BidKey, Bid>)
    requires id in ids
    ensures Owed(ids, bids) == Owed(ids - {id}, bids) + Proceeds(bids, id)
  {
    var m := Max(ids);
    if id != m {
      OwedSplit(ids - {m}, id, bids);
      assert ids - {m} - {id} == ids - {id} - {m};
      assert Max(ids - {id}) == m;
    }
  }

  lemma {:induction false} OwedNonNegative(ids: set<nat>, bids: map<BidKey, Bid>)
    requires forall k :: k in bids ==> bids[k].paid.amount >= 0
    ensures Owed(ids, bids) >= 0
  {
    if ids != {} {
      OwedNonNegative(ids - {Max(ids)}, bids);
      ProceedsNonNegative(bids, Max(ids));
    }
  }

  lemma ProceedsNonNegative(bids: map<BidKey, Bid>, id: nat)
    requires forall k :: k in bids ==> bids[k].paid.amount >= 0
    ensures Proceeds(bids, id) >= 0
  {
    var ids := Sorted(BidIds(bids, id));
    forall b | b in BidsOf(bids, id) ensures b.paid.amount >= 0 {
      var i :| 0 <= i < |ids| && b == bids[(id, ids[i])];
    }
    PaidNonNegative(BidsOf(bids, id));
  }

  /** Updating records without renaming their denominations leaves the same denominations on sale. */
  lemma SameOnSale(x: map<nat, Auction>, y: map<nat, Auction>, d: string)
    requires x.Keys == y.Keys
    requires forall id :: id in x ==> x[id].starting.denom == y[id].starting.denom
    ensures DenomOnSale(x, d) <==> DenomOnSale(y, d)
  {
    if DenomOnSale(x, d) {
      var id :| id in x && x[id].starting.denom == d;
      assert id in y;
    }
    if DenomOnSale(y, d) {
      var id :| id in y && y[id].starting.denom == d;
      assert id in x;
    }
  }
}
