/** `EndBlocker` never panics and keeps the invariant. */
module AuctionBlock {
  import opened AuctionFinish
  import opened AuctionInvariant
  import opened AuctionSpec
  import opened AuctionTypes
  import opened Bank
  import opened Collections
  import opened Decimal
  import opened Outcomes

  // ----- price ticks -----

  /** A decrease rate never falls below the initial one. */
  lemma NextRateAtLeastInitial(s: State, a: Auction)
    requires s.params.Valid() && 0 < a.initialRate <= a.currentRate
    ensures a.initialRate <= NextRate(s, a)
  {
    if !RecentBid(s, a) {
      MulMonotone(a.currentRate, ONE, ONE + s.params.acceleration);
      MulInt(1, a.currentRate);
    }
  }

  /** A rate of one or more takes off at least the whole initial price. */
  lemma FullRate(price: nat, rate: int)
    requires rate >= ONE
    ensures Mul(price, rate) >= price
  {
    MulMonotone(price, ONE, rate);
    MulInt(1, price);
  }

  function Repriced(a: Auction, rate: int): Auction {
    a.(currentRate := rate, currentPrice := a.currentPrice - Mul(a.initialPrice, rate))
  }

  /** A record that a tick writes back. */
  ghost predicate Reprices(s: State, a: Auction, b: Auction) {
    && a.id in s.active && a == s.active[a.id]
    && b == a.(currentRate := b.currentRate, currentPrice := b.currentPrice)
    && a.initialRate <= b.currentRate < ONE
    && 0 < b.currentPrice <= a.currentPrice
  }

  lemma RepriceKeepsInv(s: State, a: Auction, b: Auction)
    requires Inv(s) && Reprices(s, a, b)
    ensures Inv(s.(active := s.active[a.id as nat := b]))
  {
    RepriceIds(s, a, b);
    RepriceShapes(s, a, b);
    RepriceBids(s, a, b);
    RepriceSold(s, a, b);
    RepriceEscrow(s, a, b);
  }

  lemma RepriceShapes(s: State, a: Auction, b: Auction)
    requires ActiveShape(s) && EndedShape(s) && OneAuctionPerDenom(s) && DenomOrder(s) && Reprices(s, a, b)
    ensures var t := s.(active := s.active[a.id as nat := b]);
            ActiveShape(t) && EndedShape(t) && OneAuctionPerDenom(t) && DenomOrder(t)
  {}

  lemma RepriceIds(s: State, a: Auction, b: Auction)
    requires Ids(s) && Reprices(s, a, b)
    ensures Ids(s.(active := s.active[a.id as nat := b]))
  {
    var t := s.(active := s.active[a.id as nat := b]);
    assert forall id: nat :: Stored(t, id) <==> Stored(s, id);
  }

  lemma RepriceBids(s: State, a: Auction, b: Auction)
    requires Bids(s) && Reprices(s, a, b)
    ensures Bids(s.(active := s.active[a.id as nat := b]))
  {
    var t := s.(active := s.active[a.id as nat := b]);
    forall k | k in t.bids ensures Stored(t, k.0) && BidShape(t, t.bids[k], AuctionOf(t, k.0)) {
      assert BidShape(s, s.bids[k], AuctionOf(s, k.0));
    }
  }

  lemma RepriceSold(s: State, a: Auction, b: Auction)
    requires SoldTokens(s) && Reprices(s, a, b)
    ensures SoldTokens(s.(active := s.active[a.id as nat := b]))
  {
    var t := s.(active := s.active[a.id as nat := b]);
    forall id: nat | Stored(t, id)
      ensures AuctionOf(t, id).remaining.amount == AuctionOf(t, id).starting.amount - Sold(t, id)
    {
      assert Stored(s, id);
    }
  }

  lemma RepriceEscrow(s: State, a: Auction, b: Auction)
    requires Escrow(s) && Reprices(s, a, b)
    ensures Escrow(s.(active := s.active[a.id as nat := b]))
  {
    var t := s.(active := s.active[a.id as nat := b]);
    assert t.active.Keys == s.active.Keys;
    forall d | d != USOMM && !DenomOnSale(t.active, d) ensures Balance(t.bank, ESCROW, d) == 0 {
      SameOnSale(s.active, t.active, d);
    }
  }

  /** A tick's new record is either due to finish or keeps its rate below one and its price positive. */
  lemma TickRecord(s: State, a: Auction)
    requires s.params.Valid() && 0 < a.initialRate <= a.currentRate && 0 < a.currentPrice <= a.initialPrice
    ensures var b := Repriced(a, NextRate(s, a));
            && a.initialRate <= b.currentRate
            && b.currentPrice <= a.currentPrice - Mul(a.initialPrice, a.initialRate) <= a.currentPrice
            && (b.currentPrice > 0 ==> b.currentRate < ONE)
  {
    var rate := NextRate(s, a);
    NextRateAtLeastInitial(s, a);
    MulMonotone(a.initialPrice, a.initialRate, rate);
    MulMonotone(a.initialPrice, 0, a.initialRate);
    if rate >= ONE { FullRate(a.initialPrice, rate); }
  }

  /** The record that the end of this block leaves, if its price is still positive. */
  function Ticked(s: State, a: Auction): Auction {
    if Due(s.height, a) then Repriced(a, NextRate(s, a)) else a
  }

  /** The three ways a tick goes. */
  lemma PriceTickCases(s: State, a: Auction)
    requires a.interval != 0
    ensures !Due(s.height, a) ==> PriceTick(s, a) == Ok(s)
    ensures Due(s.height, a) && Ticked(s, a).currentPrice <= 0 ==> PriceTick(s, a) == MustFinish(s, a.(currentRate := NextRate(s, a)))
    ensures Due(s.height, a) && Ticked(s, a).currentPrice > 0 ==>
              PriceTick(s, a) == Ok(s.(active := s.active[a.id as nat := Ticked(s, a)]))
  {
    hide Mul, Due, NextRate, MustFinish;
  }

  /** The other auctions keep their records. */
  ghost predicate OthersKept(s: State, t: State, changed: nat) {
    forall id :: id in s.active && id != changed ==> id in t.active && t.active[id] == s.active[id]
  }

  lemma TickFinishes(s: State, a: Auction)
    requires Inv(s) && Supplied(s) && Finishing(s, a)
    ensures MustFinish(s, a).Ok?
    ensures var t := MustFinish(s, a).value; Inv(t) && Supplied(t) && OthersKept(s, t, a.id)
  {
    FinishKeepsInv(s, a);
  }

  /** A tick on one auction succeeds, keeps the invariant and leaves the other auctions alone. */
  lemma PriceTickKeepsInv(s: State, a: Auction)
    requires Inv(s) && Supplied(s) && a.id in s.active && s.active[a.id] == a
    ensures PriceTick(s, a).Ok?
    ensures var t := PriceTick(s, a).value; Inv(t) && Supplied(t) && OthersKept(s, t, a.id)
  {
    hide PriceTick, Due, NextRate, Mul, MustFinish, Ids, EndedShape, OneAuctionPerDenom, DenomOrder, Bids, BidOrder, SoldTokens, Escrow;
    assert Terms(s, a);
    PriceTickCases(s, a);
    if Due(s.height, a) {
      TickRecord(s, a);
      if Ticked(s, a).currentPrice <= 0 {
        TickFinishes(s, a.(currentRate := NextRate(s, a)));
      } else {
        RepriceKeepsInv(s, a, Ticked(s, a));
      }
    }
  }

  /** A listing of stored active auctions, each once. */
  ghost predicate Listed(s: State, auctions: seq<Auction>) {
    && (forall i :: 0 <= i < |auctions| ==> auctions[i].id in s.active && s.active[auctions[i].id] == auctions[i])
    && (forall i, j :: 0 <= i < j < |auctions| ==> auctions[i].id != auctions[j].id)
  }

  lemma ActiveListed(s: State)
    requires Ids(s)
    ensures Listed(s, Auctions(s.active))
  {
    var ids := Sorted(s.active.Keys);
    forall i | 0 <= i < |ids| ensures s.active[ids[i]].id == ids[i] {
      assert ids[i] in s.active && Stored(s, ids[i]);
    }
  }

  lemma {:induction false} PriceTicksKeepInv(s: State, auctions: seq<Auction>)
    requires Inv(s) && Supplied(s) && Listed(s, auctions)
    ensures PriceTicks(s, auctions).Ok?
    ensures Inv(PriceTicks(s, auctions).value) && Supplied(PriceTicks(s, auctions).value)
    decreases |auctions|
  {
    if auctions != [] {
      PriceTickKeepsInv(s, auctions[0]);
      var t := PriceTick(s, auctions[0]).value;
      ListedTail(s, t, auctions);
      PriceTicksKeepInv(t, auctions[1..]);
    }
  }

  lemma ListedTail(s: State, t: State, auctions: seq<Auction>)
    requires auctions != [] && Listed(s, auctions) && OthersKept(s, t, auctions[0].id)
    ensures Listed(t, auctions[1..])
  {
    forall i | 0 <= i < |auctions[1..]|
      ensures auctions[1..][i].id in t.active && t.active[auctions[1..][i].id] == auctions[1..][i]
    {
      assert auctions[1..][i] == auctions[i + 1];
    }
  }

  // ----- what the whole pass does to one auction -----

  /** What ticks read, besides the record itself. */
  ghost predicate SameBackground(s: State, t: State) {
    s.height == t.height && s.params == t.params && s.bids == t.bids
  }

  ghost predicate SameRecord(s: State, t: State, id: nat) {
    (id in t.active <==> id in s.active) && (id in s.active ==> t.active[id] == s.active[id])
  }

  ghost predicate HasTicked(s: State, t: State, a: Auction) {
    var b := Ticked(s, a);
    (a.id in t.active <==> b.currentPrice > 0) && (a.id in t.active ==> t.active[a.id] == b)
  }

  ghost predicate Priced(s: State) {
    forall id :: id in s.active ==> s.active[id].currentPrice > 0
  }

  lemma PriceTickOn(s: State, a: Auction)
    requires a.id in s.active && s.active[a.id] == a && a.currentPrice > 0
    requires PriceTick(s, a).Ok?
    ensures var t := PriceTick(s, a).value;
            && SameBackground(s, t) && HasTicked(s, t, a)
            && (forall id: nat :: id != a.id ==> SameRecord(s, t, id))
  {
    hide Mul, Due, NextRate, Balance, Proceeds, Send;
  }

  ghost predicate Lists(auctions: seq<Auction>, id: nat) {
    exists i :: 0 <= i < |auctions| && auctions[i].id == id
  }

  lemma ListsStep(auctions: seq<Auction>, id: nat)
    requires auctions != []
    ensures Lists(auctions, id) <==> auctions[0].id == id || Lists(auctions[1..], id)
  {
    if i :| 0 < i < |auctions| && auctions[i].id == id {
      assert auctions[1..][i - 1].id == id;
    }
    if Lists(auctions[1..], id) {
      var i :| 0 <= i < |auctions[1..]| && auctions[1..][i].id == id;
      assert auctions[i + 1].id == id;
    }
  }

  /** The pass gives a listed auction exactly one tick and leaves the others alone. */
  lemma {:induction false} PriceTicksOn(s: State, auctions: seq<Auction>, id: nat)
    requires Priced(s) && Listed(s, auctions)
    requires PriceTicks(s, auctions).Ok?
    ensures var t := PriceTicks(s, auctions).value;
            && SameBackground(s, t)
            && (!Lists(auctions, id) ==> SameRecord(s, t, id))
            && (Lists(auctions, id) ==> id in s.active && s.active[id].id == id && HasTicked(s, t, s.active[id]))
    decreases |auctions|
  {
    if auctions != [] {
      var a := auctions[0];
      PriceTickOn(s, a);
      var t := PriceTick(s, a).value;
      assert Priced(t) by {
        forall i | i in t.active ensures t.active[i].currentPrice > 0 {
          if i != a.id { assert SameRecord(s, t, i); }
        }
      }
      ListedStays(s, t, auctions);
      PriceTicksOn(t, auctions[1..], id);
      TickComposes(s, t, PriceTicks(t, auctions[1..]).value, auctions, id);
    }
  }

  lemma ListedStays(s: State, t: State, auctions: seq<Auction>)
    requires auctions != [] && Listed(s, auctions)
    requires forall id: nat :: id != auctions[0].id ==> SameRecord(s, t, id)
    ensures Listed(t, auctions[1..])
  {
    assert OthersKept(s, t, auctions[0].id) by {
      forall id | id in s.active && id != auctions[0].id ensures id in t.active && t.active[id] == s.active[id] {
        assert SameRecord(s, t, id);
      }
    }
    ListedTail(s, t, auctions);
  }

  /** The first tick, then the rest of the pass. */
  lemma TickComposes(s: State, t: State, u: State, auctions: seq<Auction>, id: nat)
    requires auctions != [] && Listed(s, auctions)
    requires SameBackground(s, t) && HasTicked(s, t, auctions[0])
    requires forall i: nat :: i != auctions[0].id ==> SameRecord(s, t, i)
    requires !Lists(auctions[1..], id) ==> SameRecord(t, u, id)
    requires Lists(auctions[1..], id) ==> id in t.active && t.active[id].id == id && HasTicked(t, u, t.active[id])
    ensures !Lists(auctions, id) ==> SameRecord(s, u, id)
    ensures Lists(auctions, id) ==> id in s.active && s.active[id].id == id && HasTicked(s, u, s.active[id])
  {
    hide Mul, Due, BidsOf;
    ListsStep(auctions, id);
    if Lists(auctions[1..], id) {
      var i :| 0 <= i < |auctions[1..]| && auctions[1..][i].id == id;
      assert auctions[i + 1].id == id && id != auctions[0].id;
      assert SameRecord(s, t, id);
    } else if id != auctions[0].id {
      assert SameRecord(s, t, id);
    }
  }

  lemma ActiveListsExactly(s: State, id: nat)
    requires Ids(s)
    ensures Lists(Auctions(s.active), id) <==> id in s.active
  {
    ActiveListed(s);
    var ids, list := Sorted(s.active.Keys), Auctions(s.active);
    if id in s.active {
      assert id in ids;
      var i :| 0 <= i < |ids| && ids[i] == id;
      assert Stored(s, id) && list[i].id == id;
    }
  }

  /** The end of a block keeps exactly the active auctions whose price stays positive, each after its one tick. */
  lemma EndBlockerOn(s: State, id: nat)
    requires Ids(s) && Priced(s) && EndBlocker(s).Ok?
    ensures var t := EndBlocker(s).value;
            && SameRecordOrTicked(s, t, id)
            && t.height == s.height && t.params == s.params
  {
    PriceTicksOnActive(s, id);
    PruneKeepsActive(s);
  }

  lemma PriceTicksOnActive(s: State, id: nat)
    requires Ids(s) && Priced(s) && PriceTicks(s, Auctions(s.active)).Ok?
    ensures var t := PriceTicks(s, Auctions(s.active)).value;
            SameRecordOrTicked(s, t, id) && SameBackground(s, t)
  {
    ActiveListed(s);
    ActiveListsExactly(s, id);
    PriceTicksOn(s, Auctions(s.active), id);
  }

  lemma PruneKeepsActive(s: State)
    requires EndBlocker(s).Ok?
    ensures PriceTicks(s, Auctions(s.active)).Ok?
    ensures var t, u := PriceTicks(s, Auctions(s.active)).value, EndBlocker(s).value;
            u.active == t.active && u.height == t.height && u.params == t.params
  {
    hide PriceTicks, Survives;
  }

  ghost predicate SameRecordOrTicked(s: State, t: State, id: nat) {
    if id in s.active then HasTicked(s, t, s.active[id]) && s.active[id].id == id else id !in t.active
  }

  // ----- pruning -----

  lemma DropKeepsInv(s: State, ids: set<nat>)
    requires Inv(s) && ids <= s.ended.Keys
    ensures Inv(Drop(s, ids))
  {
    DropShapes(s, ids);
    DropBids(s, ids);
    DropSold(s, ids);
    DropEscrow(s, ids);
  }

  lemma DropShapes(s: State, ids: set<nat>)
    requires Ids(s) && ActiveShape(s) && EndedShape(s) && OneAuctionPerDenom(s) && DenomOrder(s)
    ensures var t := Drop(s, ids);
            Ids(t) && ActiveShape(t) && EndedShape(t) && OneAuctionPerDenom(t) && DenomOrder(t)
  {
    var t := Drop(s, ids);
    assert forall id: nat :: Stored(t, id) ==> Stored(s, id);
  }

  lemma DropBids(s: State, ids: set<nat>)
    requires Ids(s) && Bids(s) && BidOrder(s)
    ensures Bids(Drop(s, ids)) && BidOrder(Drop(s, ids))
  {
    var t := Drop(s, ids);
    forall k | k in t.bids ensures Stored(t, k.0) && BidShape(t, t.bids[k], AuctionOf(t, k.0)) {
      assert Stored(s, k.0) && BidShape(s, s.bids[k], AuctionOf(s, k.0));
    }
  }

  lemma DropSold(s: State, ids: set<nat>)
    requires Ids(s) && SoldTokens(s) && ids <= s.ended.Keys
    ensures SoldTokens(Drop(s, ids))
  {
    var t := Drop(s, ids);
    forall id: nat | Stored(t, id)
      ensures AuctionOf(t, id).remaining.amount == AuctionOf(t, id).starting.amount - Sold(t, id)
    {
      assert Stored(s, id) && id !in ids;
      BidsOfFrame(s.bids, t.bids, id);
    }
  }

  lemma DropEscrow(s: State, ids: set<nat>)
    requires Ids(s) && Escrow(s) && ids <= s.ended.Keys
    ensures Escrow(Drop(s, ids))
  {
    var t := Drop(s, ids);
    forall id | id in s.active.Keys ensures BidsOf(s.bids, id) == BidsOf(t.bids, id) {
      assert id !in ids;
      BidsOfFrame(s.bids, t.bids, id);
    }
    OwedFrame(s.active.Keys, s.bids, t.bids);
  }

  /** The end of a block never panics and keeps the invariant. */
  lemma EndBlockerKeepsInv(s: State)
    requires Inv(s) && Supplied(s)
    ensures EndBlocker(s).Ok? && Inv(EndBlocker(s).value) && Supplied(EndBlocker(s).value)
  {
    ActiveListed(s);
    PriceTicksKeepInv(s, Auctions(s.active));
    var t := PriceTicks(s, Auctions(s.active)).value;
    if t.params.auctionMaxBlockAge != 0 {
      var gone := set id | id in t.ended && !Survives(t, id);
      DropKeepsInv(t, gone);
    }
  }
}
