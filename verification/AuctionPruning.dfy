/** Which auctions and bids the end of a block keeps, in every reachable state. */
module AuctionPruning {
  import opened AuctionBlock
  import opened AuctionInvariant
  import opened AuctionProgress
  import opened AuctionRuns
  import opened AuctionSpec
  import opened AuctionTypes
  import opened Bank
  import opened Decimal
  import opened Outcomes

  /** The auction had ended before, or ends in this block because its price runs out. */
  predicate Over(s: State, id: nat) {
    id in s.ended || (id in s.active && Ticked(s, s.active[id]).currentPrice <= 0)
  }

  /** The record with which it ended. */
  function Final(s: State, id: nat): Auction
    requires Over(s, id)
  {
    if id in s.ended then s.ended[id] else s.active[id].(currentRate := NextRate(s, s.active[id]), endBlock := s.height)
  }

  /** It ended within the maximum age. */
  predicate Recent(s: State, id: nat)
    requires Over(s, id)
  {
    s.params.auctionMaxBlockAge <= s.height && Final(s, id).endBlock >= s.height - s.params.auctionMaxBlockAge
  }

  /** No auction of its denomination that is over has a higher id. */
  ghost predicate LatestOfDenom(s: State, id: nat)
    requires Over(s, id)
  {
    forall j: nat :: Over(s, j) && Final(s, j).starting.denom == Final(s, id).starting.denom ==> j <= id
  }

  // ----- what the price decreases end -----

  ghost predicate SameEnded(s: State, t: State, id: nat) {
    (id in t.ended <==> id in s.ended) && (id in s.ended ==> t.ended[id] == s.ended[id])
  }

  ghost predicate HasEnded(s: State, t: State, a: Auction) {
    if Ticked(s, a).currentPrice <= 0
    then a.id in t.ended && t.ended[a.id] == a.(currentRate := NextRate(s, a), endBlock := s.height)
    else SameEnded(s, t, a.id)
  }

  lemma PriceTickEnds(s: State, a: Auction)
    requires Ids(s) && a.id in s.active && s.active[a.id] == a && a.currentPrice > 0
    requires PriceTick(s, a).Ok?
    ensures var t := PriceTick(s, a).value;
            HasEnded(s, t, a) && (forall id: nat :: id != a.id ==> SameEnded(s, t, id))
  {
    hide Mul, Due, NextRate, Balance, Proceeds, Send;
  }

  /** The pass ends exactly the listed auctions whose price runs out. */
  lemma {:induction false} PriceTicksEnd(s: State, auctions: seq<Auction>, id: nat)
    requires Inv(s) && Supplied(s) && Listed(s, auctions)
    requires PriceTicks(s, auctions).Ok?
    ensures var t := PriceTicks(s, auctions).value;
            && (!Lists(auctions, id) ==> SameEnded(s, t, id))
            && (Lists(auctions, id) ==> id in s.active && s.active[id].id == id && HasEnded(s, t, s.active[id]))
    decreases |auctions|
  {
    hide Inv, Supplied, PriceTick, Ticked;
    if auctions != [] {
      var a := auctions[0];
      PriceTickKeepsInv(s, a);
      InvActive(s);
      PriceTickOn(s, a);
      PriceTickEnds(s, a);
      var t := PriceTick(s, a).value;
      ListedStays(s, t, auctions);
      PriceTicksEnd(t, auctions[1..], id);
      EndsCompose(s, t, PriceTicks(t, auctions[1..]).value, auctions, id);
    }
  }

  lemma InvActive(s: State)
    requires Inv(s)
    ensures Ids(s) && Priced(s)
  {
    ActivePriced(s);
  }

  lemma EndsCompose(s: State, t: State, u: State, auctions: seq<Auction>, id: nat)
    requires auctions != [] && Listed(s, auctions) && SameBackground(s, t)
    requires HasEnded(s, t, auctions[0])
    requires forall i: nat :: i != auctions[0].id ==> SameRecord(s, t, i) && SameEnded(s, t, i)
    requires !Lists(auctions[1..], id) ==> SameEnded(t, u, id)
    requires Lists(auctions[1..], id) ==> id in t.active && t.active[id].id == id && HasEnded(t, u, t.active[id])
    ensures !Lists(auctions, id) ==> SameEnded(s, u, id)
    ensures Lists(auctions, id) ==> id in s.active && s.active[id].id == id && HasEnded(s, u, s.active[id])
  {
    hide Mul, Due, BidsOf;
    ListsStep(auctions, id);
    if Lists(auctions[1..], id) {
      var i :| 0 <= i < |auctions[1..]| && auctions[1..][i].id == id;
      assert auctions[i + 1].id == id && id != auctions[0].id;
      assert SameRecord(s, t, id) && SameEnded(s, t, id);
    } else if id != auctions[0].id {
      assert SameRecord(s, t, id) && SameEnded(s, t, id);
    }
  }

  /** Exactly what is over is in the ended store before pruning, with its final record. */
  ghost predicate Ended(s: State, t: State, id: nat) {
    (id in t.ended <==> Over(s, id)) && (id in t.ended ==> t.ended[id] == Final(s, id))
  }

  lemma TicksEndOne(s: State, id: nat)
    requires Inv(s) && Supplied(s) && PriceTicks(s, Auctions(s.active)).Ok?
    ensures Ended(s, PriceTicks(s, Auctions(s.active)).value, id)
  {
    hide Inv, Supplied, Ticked, NextRate;
    InvActive(s);
    ActiveListed(s);
    ActiveListsExactly(s, id);
    PriceTicksEnd(s, Auctions(s.active), id);
  }

  lemma TicksEnd(s: State)
    requires Inv(s) && Supplied(s)
    ensures PriceTicks(s, Auctions(s.active)).Ok?
    ensures var t := PriceTicks(s, Auctions(s.active)).value;
            Inv(t) && SameBackground(s, t) && forall id: nat :: Ended(s, t, id)
  {
    hide Inv, Supplied, Ended;
    InvActive(s);
    ActiveListed(s);
    PriceTicksKeepInv(s, Auctions(s.active));
    PriceTicksOnActive(s, 0);
    forall id: nat ensures Ended(s, PriceTicks(s, Auctions(s.active)).value, id) {
      TicksEndOne(s, id);
    }
  }

  // ----- pruning -----

  /** The cutoff is read as a uint64. When the maximum age exceeds the height it wraps past every height. */
  lemma CutoffReached(s: State, endBlock: int)
    requires 0 <= endBlock <= s.height
    ensures endBlock >= Cutoff(s) <==> s.params.auctionMaxBlockAge <= s.height && endBlock >= s.height - s.params.auctionMaxBlockAge
  {}

  lemma SurvivesExactly(s: State, t: State, id: nat)
    requires SameBackground(s, t) && EndedShape(t) && (forall j: nat :: Ended(s, t, j)) && id in t.ended
    ensures Over(s, id) && (Survives(t, id) <==> Recent(s, id) || LatestOfDenom(s, id))
  {
    hide Cutoff, Ticked, NextRate;
    assert Ended(s, t, id);
    CutoffReached(t, t.ended[id].endBlock);
    if !Superseded(t, id) {
      forall j: nat | Over(s, j) && Final(s, j).starting.denom == Final(s, id).starting.denom ensures j <= id {
        assert Ended(s, t, j);
      }
    } else {
      var j :| j in t.ended && j > id && t.ended[j].starting.denom == t.ended[id].starting.denom;
      assert Ended(s, t, j);
    }
  }

  /** A bid stays exactly when its auction stays. */
  ghost predicate BidsFollow(s: State, u: State) {
    forall k :: if k in s.bids && Stored(u, k.0) then k in u.bids && u.bids[k] == s.bids[k] else k !in u.bids
  }

  /** The state after the price decreases, pruned unless there is no maximum age. */
  function Pruned(t: State): State { if t.params.auctionMaxBlockAge == 0 then t else Prune(t) }

  lemma EndBlockerPrunes(s: State, t: State)
    requires PriceTicks(s, Auctions(s.active)) == Ok(t)
    ensures EndBlocker(s) == Ok(Pruned(t))
  {
    hide PriceTicks, Prune;
  }

  lemma PrunedBids(t: State)
    requires Ids(t) && Bids(t)
    ensures BidsFollow(t, Pruned(t))
  {
    hide BidShape, Survives;
    var u := Pruned(t);
    forall k ensures if k in t.bids && Stored(u, k.0) then k in u.bids && u.bids[k] == t.bids[k] else k !in u.bids {
      if k in t.bids { assert Stored(t, k.0); }
    }
  }

  lemma BlockBids(s: State)
    requires Inv(s) && Supplied(s)
    ensures EndBlocker(s).Ok? && BidsFollow(s, EndBlocker(s).value)
  {
    hide Inv, Supplied, PriceTicks, EndBlocker, EndedShape, DenomOrder, Bids, Ids, Ended, Pruned;
    TicksEnd(s);
    var t := PriceTicks(s, Auctions(s.active)).value;
    InvRecords(t);
    EndBlockerPrunes(s, t);
    PrunedBids(t);
  }

  /** What the end of a block keeps, in every reachable state and for every parameter: an auction that is over stays
      exactly when there is no maximum age, when it ended within that age, or when it is the latest of its
      denomination; the latest is also the last to have ended. An auction that ends in this very block stays, if the
      maximum age does not exceed the height. A bid stays exactly when its auction stays. */
  lemma BlockKeepsLatest(s: State, id: nat)
    requires Reachable(s)
    ensures EndBlocker(s).Ok?
    ensures var u := EndBlocker(s).value;
            && (id in u.ended <==> Over(s, id) && (s.params.auctionMaxBlockAge == 0 || Recent(s, id) || LatestOfDenom(s, id)))
            && (id in u.ended ==> u.ended[id] == Final(s, id))
    ensures Over(s, id) && LatestOfDenom(s, id) ==>
              forall j: nat :: Over(s, j) && Final(s, j).starting.denom == Final(s, id).starting.denom ==>
                Final(s, j).endBlock <= Final(s, id).endBlock
    ensures BidsFollow(s, EndBlocker(s).value)
  {
    hide Inv, Supplied, PriceTicks, EndBlocker, Survives, Over, Final, Recent, LatestOfDenom, EndedShape, DenomOrder, Bids, Ids, Ended, Pruned;
    ReachableInv(s);
    TicksEnd(s);
    var t := PriceTicks(s, Auctions(s.active)).value;
    InvRecords(t);
    EndBlockerPrunes(s, t);
    PrunedEnded(s, t, id);
    PrunedBids(t);
    LatestEndsLast(s, t, id);
  }

  lemma InvRecords(t: State)
    requires Inv(t)
    ensures Ids(t) && Bids(t) && EndedShape(t) && DenomOrder(t)
  {}

  lemma PrunedEnded(s: State, t: State, id: nat)
    requires SameBackground(s, t) && EndedShape(t) && forall j: nat :: Ended(s, t, j)
    ensures id in Pruned(t).ended <==>
              Over(s, id) && (s.params.auctionMaxBlockAge == 0 || Recent(s, id) || LatestOfDenom(s, id))
    ensures id in Pruned(t).ended ==> Over(s, id) && Pruned(t).ended[id] == Final(s, id)
  {
    hide Survives, Over, Final, Recent, LatestOfDenom, Terms;
    assert Ended(s, t, id);
    if id in t.ended { SurvivesExactly(s, t, id); }
  }

  lemma LatestEndsLast(s: State, t: State, id: nat)
    requires EndedShape(t) && DenomOrder(t) && forall j: nat :: Ended(s, t, j)
    ensures Over(s, id) && LatestOfDenom(s, id) ==>
              forall j: nat :: Over(s, j) && Final(s, j).starting.denom == Final(s, id).starting.denom ==>
                Final(s, j).endBlock <= Final(s, id).endBlock
  {
    hide Ticked, NextRate;
    if Over(s, id) && LatestOfDenom(s, id) {
      assert Ended(s, t, id);
      forall j: nat | Over(s, j) && Final(s, j).starting.denom == Final(s, id).starting.denom
        ensures Final(s, j).endBlock <= Final(s, id).endBlock
      {
        assert Ended(s, t, j);
        assert j == id || j < id;
      }
    }
  }
}
