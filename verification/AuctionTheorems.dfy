/** What a reader of the auction module may rely on, for every run from an empty module. */
module AuctionTheorems {
  import opened Arithmetic
  import opened AuctionBid
  import opened AuctionBlock
  import opened AuctionFinish
  import opened AuctionInvariant
  import opened AuctionPricing
  import opened AuctionRuns
  import opened AuctionSpec
  import opened AuctionTypes
  import opened Bank
  import opened Collections
  import opened Decimal
  import opened Integers
  import opened Outcomes

  /** The escrow of every run: an active auction's tokens are what it started with less what its bids bought, no
      other tokens are held, and the usomm held is what the bids of active auctions paid. */
  lemma EscrowConservation(s: State)
    requires Reachable(s)
    ensures (forall id :: id in s.active ==>
                  Balance(s.bank, ESCROW, s.active[id].starting.denom)
                  == s.active[id].remaining.amount
                  == s.active[id].starting.amount - SumTokens(BidsOf(s.bids, id)))
            && (forall d :: d != USOMM && !DenomOnSale(s.active, d) ==> Balance(s.bank, ESCROW, d) == 0)
            && Balance(s.bank, ESCROW, USOMM) == Owed(s.active.Keys, s.bids)
  {
    ReachableInv(s);
    forall id | id in s.active ensures s.active[id].remaining.amount == s.active[id].starting.amount - SumTokens(BidsOf(s.bids, id)) {
      assert Stored(s, id);
    }
  }

  /** Paying out never fails: no end of block panics, no active auction fails to finish, and a bid panics on an
      amount outside int64 only. */
  lemma PayoutsNeverFail(s: State, m: MsgSubmitBid)
    requires Reachable(s)
    ensures EndBlocker(s).Ok?
            && (forall id :: id in s.active ==> FinishAuction(s, s.active[id]).Ok?)
            && (SubmitBid(s, m).Panic? ==> SubmitBid(s, m).reason == Int64Overflow || SubmitBid(s, m).reason == DecimalOverflow)
  {
    ReachableInv(s);
    EndBlockerKeepsInv(s);
    SubmitBidKeepsInv(s, m);
    forall id | id in s.active ensures FinishAuction(s, s.active[id]).Ok? {
      assert Stored(s, id) && Terms(s, s.active[id]);
      FinishKeepsInv(s, s.active[id]);
    }
  }

  /** What a price decrease computes: the rate never exceeds two and the decrease never exceeds twice the initial price. So an
      auction that starts below 2^314 never takes the end of a block out of the decimal type. */
  lemma DecreaseFits(s: State, id: nat)
    requires Reachable(s) && id in s.active
    ensures var a := s.active[id];
            && 0 < NextRate(s, a) <= 2 * ONE
            && 0 <= Mul(a.initialPrice, NextRate(s, a)) <= 2 * a.initialPrice
            && (2 * a.initialPrice < DEC_LIMIT ==> NextRate(s, a) < DEC_LIMIT && Mul(a.initialPrice, NextRate(s, a)) < DEC_LIMIT)
  {
    ReachableInv(s);
    ActiveRate(s, id);
    hide Inv, Supplied, Terms, RecentBid, Mul;
    var a := s.active[id];
    NextRateAtLeastInitial(s, a);
    if !RecentBid(s, a) { MulAtMostDouble(a.currentRate, ONE + s.params.acceleration); }
    MulMonotone(a.initialPrice, 0, NextRate(s, a));
    MulMonotone(a.initialPrice, NextRate(s, a), 2 * ONE);
    MulInt(2, a.initialPrice);
    MulInt(0, a.initialPrice);
  }

  lemma ActiveRate(s: State, id: nat)
    requires Inv(s) && id in s.active
    ensures s.params.Valid() && 0 < s.active[id].initialRate <= s.active[id].currentRate < ONE && s.active[id].initialPrice > 0
  {
    assert Terms(s, s.active[id]);
  }

  /** A rate below one at most doubles. */
  lemma MulAtMostDouble(rate: nat, factor: int)
    requires rate < ONE && ONE <= factor <= 2 * ONE
    ensures Mul(rate, factor) <= 2 * ONE
  {
    MulMonotone(rate, factor, 2 * ONE);
    MulInt(2, rate);
  }

  /** Exactly which valid messages make `SubmitBid` panic: those on an active auction of their denomination whose
      pricing overflows. Nothing that follows pricing panics. */
  lemma BidPanicsExactly(s: State, m: MsgSubmitBid)
    requires Reachable(s) && m.ValidateBasic().Ok?
    ensures SubmitBid(s, m).Panic? <==>
              && m.auctionId in s.active && s.active[m.auctionId].starting.denom == m.minimum.denom
              && var a := s.active[m.auctionId];
              && a.currentPrice > 0 && a.remaining.amount > 0
              && Overflows(a.remaining.amount, a.currentPrice, m.maxBid.amount, m.minimum.amount, s.params.minimumBidInUsomm)
  {
    hide Inv, Supplied, Overflows, Quote, SettleBid;
    ReachableInv(s);
    if m.auctionId in s.active {
      var a := s.active[m.auctionId];
      ActiveEscrow(s, m.auctionId);
      ActiveSupplied(s, m.auctionId);
      PanicsOnOverflow(a.remaining.amount, a.currentPrice, m.maxBid.amount, m.minimum.amount, s.params.minimumBidInUsomm);
      if PrepareBid(s, m).Ok? {
        PreparedIsOffered(s, m);
        SettleKeepsInv(s, a, PrepareBid(s, m).value);
      }
    }
  }

  lemma ActiveSupplied(s: State, id: nat)
    requires Supplied(s) && id in s.active
    ensures s.active[id].remaining.amount > 0
  {}

  /** Stored records are consistent: active auctions pass their validation and are open, ended ones are closed, no
      id is in both stores, a denomination is sold by one auction at a time, and a bid names a stored auction. */
  lemma RecordsConsistent(s: State)
    requires Reachable(s)
    ensures forall id :: id in s.active ==>
              && s.active[id].id == id && s.active[id].ValidateBasic().Ok? && s.active[id].endBlock == 0
              && id !in s.ended && s.active[id].remaining.amount > 0
    ensures forall id :: id in s.ended ==> s.ended[id].id == id && 0 < s.ended[id].startBlock <= s.ended[id].endBlock <= s.height
    ensures OneAuctionPerDenom(s)
    ensures forall k :: k in s.bids ==>
              && Stored(s, k.0) && (s.bids[k].auctionId, s.bids[k].id) == k
              && s.bids[k].minimum.amount <= s.bids[k].fulfilled.amount
  {
    ReachableInv(s);
    forall id | id in s.active ensures s.active[id].id == id && id !in s.ended {
      assert Stored(s, id);
    }
    forall id | id in s.ended ensures s.ended[id].id == id && 0 < s.ended[id].startBlock {
      assert Stored(s, id) && Terms(s, s.ended[id]);
    }
  }

  /** Within an auction, a later bid id means a height that is no lower and a unit price that is no higher. */
  lemma BidsInOrder(s: State, id: nat, x: nat, y: nat)
    requires Reachable(s) && (id, x) in s.bids && (id, y) in s.bids && x < y
    ensures s.bids[(id, x)].blockHeight <= s.bids[(id, y)].blockHeight
    ensures s.bids[(id, x)].unitPrice >= s.bids[(id, y)].unitPrice
  {
    ReachableInv(s);
    InvOrder(s);
    assert (id, x).0 == (id, y).0 && (id, x).1 <= (id, y).1;
  }

  lemma InvOrder(s: State)
    requires Inv(s)
    ensures BidOrder(s)
  {}

  // ----- proceeds -----

  /** Bids that paid the rounded-up cost at prices from `low` to `high`. */
  ghost predicate PaidWithin(bids: seq<Bid>, low: int, high: int) {
    forall b :: b in bids ==>
      && low <= b.unitPrice <= high && b.fulfilled.amount >= 0
      && RoundedUpCost(b.paid.amount, b.fulfilled.amount, b.unitPrice)
  }

  lemma {:induction false} ProceedsBounds(bids: seq<Bid>, low: int, high: int)
    requires PaidWithin(bids, low, high)
    ensures SumTokens(bids) * low <= ONE * SumPaid(bids) <= SumTokens(bids) * high + ONE * |bids|
  {
    if bids != [] {
      var init, last := bids[..|bids| - 1], bids[|bids| - 1];
      ProceedsBounds(init, low, high);
      assert last in bids;
      OneBidBounds(last, low, high);
      AddProduct(SumTokens(init), last.fulfilled.amount, low);
      AddProduct(SumTokens(init), last.fulfilled.amount, high);
    }
  }

  lemma AddProduct(x: int, y: int, k: int)
    ensures (x + y) * k == x * k + y * k
  {}

  lemma OneBidBounds(b: Bid, low: int, high: int)
    requires low <= b.unitPrice <= high && b.fulfilled.amount >= 0
    requires RoundedUpCost(b.paid.amount, b.fulfilled.amount, b.unitPrice)
    ensures b.fulfilled.amount * low <= ONE * b.paid.amount <= b.fulfilled.amount * high + ONE
  {
    assert b.fulfilled.amount * low <= b.fulfilled.amount * b.unitPrice <= b.fulfilled.amount * high by {
      MulMono(low, b.unitPrice, b.fulfilled.amount);
      MulMono(b.unitPrice, high, b.fulfilled.amount);
    }
  }

  /** What an auction has taken in lies between the tokens sold at its last price and the tokens sold at its
      initial price plus one usomm for each bid. */
  lemma ProceedsWithinPrices(s: State, id: nat)
    requires Reachable(s)
    ensures Stored(s, id) ==>
              var a, sold := AuctionOf(s, id), SumTokens(BidsOf(s.bids, id));
              && sold == a.starting.amount - a.remaining.amount
              && sold * a.currentPrice <= ONE * Proceeds(s.bids, id) <= sold * a.initialPrice + ONE * |BidsOf(s.bids, id)|
  {
    ReachableInv(s);
    if Stored(s, id) {
      AuctionBidsWithin(s, id);
      ProceedsBounds(BidsOf(s.bids, id), AuctionOf(s, id).currentPrice, AuctionOf(s, id).initialPrice);
    }
  }

  lemma AuctionBidsWithin(s: State, id: nat)
    requires Bids(s) && Stored(s, id)
    ensures PaidWithin(BidsOf(s.bids, id), AuctionOf(s, id).currentPrice, AuctionOf(s, id).initialPrice)
  {
    var ids := Sorted(BidIds(s.bids, id));
    forall b | b in BidsOf(s.bids, id) ensures BidShape(s, b, AuctionOf(s, id)) {
      var i :| 0 <= i < |ids| && b == s.bids[(id, ids[i])];
      assert (id, ids[i]).0 == id;
    }
  }

  // ----- the last interval -----

  /** Some bid of the auction was placed at or after height `since`. */
  ghost predicate BidSince(s: State, id: nat, since: int) {
    exists k :: k in s.bids && k.0 == id && s.bids[k].blockHeight >= since
  }

  /** Looking at the last listed bid tells exactly whether any bid of the auction fell within the last interval. Before
      the height reaches the interval the subtraction wraps past every height, and no bid counts. */
  lemma LastBidDecides(s: State, a: Auction)
    requires Reachable(s) && a.id in s.active && a == s.active[a.id]
    ensures RecentBid(s, a) <==> a.interval <= s.height && BidSince(s, a.id, s.height - a.interval)
  {
    ReachableTerms(s, a);
    RecentIffWithin(s, a);
  }

  lemma RecentIffWithin(s: State, a: Auction)
    requires BidOrder(s) && NoLaterBids(s, a.id)
    ensures RecentBid(s, a) <==> a.interval <= s.height && BidSince(s, a.id, s.height - a.interval)
  {
    hide BidOrder, BidSince, BidsOf;
    LastIsLatest(s, a.id, WrapUint64(s.height - a.interval));
    if a.interval > s.height {
      assert WrapUint64(s.height - a.interval) > s.height by { DivUnique(s.height - a.interval, UINT64_LIMIT, -1, UINT64_LIMIT + s.height - a.interval); }
      NoneAfterHeight(s, a.id, WrapUint64(s.height - a.interval));
    }
  }

  /** The auction's bids were placed by now. */
  ghost predicate NoLaterBids(s: State, id: nat) {
    forall k :: k in s.bids && k.0 == id ==> s.bids[k].blockHeight <= s.height
  }

  lemma NoneAfterHeight(s: State, id: nat, since: int)
    requires NoLaterBids(s, id) && since > s.height
    ensures !BidSince(s, id, since)
  {}

  lemma ReachableTerms(s: State, a: Auction)
    requires Reachable(s) && a.id in s.active && a == s.active[a.id]
    ensures Terms(s, a) && BidOrder(s) && NoLaterBids(s, a.id)
  {
    ReachableInv(s);
    PlacedBids(s, a.id);
  }

  lemma PlacedBids(s: State, id: nat)
    requires Bids(s)
    ensures NoLaterBids(s, id)
  {
    forall k | k in s.bids && k.0 == id ensures s.bids[k].blockHeight <= s.height {
      assert BidShape(s, s.bids[k], AuctionOf(s, k.0));
    }
  }

  /** A decrease is due only a whole spacing after the start; for an interval below 2^63 the height minus the interval does
      not wrap then. */
  lemma DueAfterInterval(s: State, a: Auction)
    requires 0 < a.startBlock <= s.height && a.interval != 0 && Due(s.height, a)
    ensures s.height - a.startBlock >= Spacing(a)
    ensures a.interval < INT64_LIMIT ==> a.interval < s.height
  {
    var elapsed := s.height - a.startBlock;
    if elapsed < Spacing(a) { DivUnique(elapsed, Spacing(a), 0, elapsed); }
  }

  lemma LastIsLatest(s: State, id: nat, since: int)
    requires BidOrder(s)
    ensures var bids := BidsOf(s.bids, id);
            (bids != [] && bids[|bids| - 1].blockHeight >= since)
            <==> BidSince(s, id, since)
  {
    var ids, bids := Sorted(BidIds(s.bids, id)), BidsOf(s.bids, id);
    if bids != [] {
      assert ids[|ids| - 1] in BidIds(s.bids, id);
      assert (id, ids[|ids| - 1]).0 == id;
    }
    if BidSince(s, id, since) {
      var k :| k in s.bids && k.0 == id && s.bids[k].blockHeight >= since;
      assert k == (id, k.1);
      assert k.1 in ids;
      var i :| 0 <= i < |ids| && ids[i] == k.1;
      var last := (id, ids[|ids| - 1]);
      assert last in s.bids && k.1 <= last.1;
    }
  }

  // ----- ids and records -----

  /** From `s` to `t` ids are only handed out upwards, and the record of an ended auction is final. */
  ghost predicate IdsGrow(s: State, t: State) {
    && s.lastAuctionId <= t.lastAuctionId && s.lastBidId <= t.lastBidId
    && forall id: nat :: Stored(t, id) ==>
         && (!Stored(s, id) ==> id > s.lastAuctionId)
         && (id in s.ended ==> id in t.ended && t.ended[id] == s.ended[id])
  }

  lemma IdsGrowTransitive(s: State, t: State, u: State)
    requires Ids(s) && IdsGrow(s, t) && IdsGrow(t, u)
    ensures IdsGrow(s, u)
  {
    forall id: nat | Stored(u, id)
      ensures !Stored(s, id) ==> id > s.lastAuctionId
      ensures id in s.ended ==> id in u.ended && u.ended[id] == s.ended[id]
    {
      assert Stored(s, id) ==> id <= s.lastAuctionId;
      assert Stored(t, id) || id > t.lastAuctionId;
    }
  }

  lemma FinishIds(s: State, a: Auction)
    requires Ids(s) && Finishing(s, a) && FinishAuction(s, a).Ok?
    ensures IdsGrow(s, FinishAuction(s, a).value)
  {
    assert FinishAuction(s, a).value == Close(s, a, FinishAuction(s, a).value.bank);
    assert a.id !in s.ended;
  }

  lemma TickIds(s: State, a: Auction)
    requires Inv(s) && a.id in s.active && s.active[a.id] == a && PriceTick(s, a).Ok?
    ensures IdsGrow(s, PriceTick(s, a).value)
  {
    assert Terms(s, a);
    PriceTickCases(s, a);
    NextRateAtLeastInitial(s, a);
    hide PriceTick, Due, NextRate, Mul;
    if Due(s.height, a) && Ticked(s, a).currentPrice <= 0 {
      FinishIds(s, a.(currentRate := NextRate(s, a)));
    }
  }

  lemma {:induction false} TicksIds(s: State, auctions: seq<Auction>)
    requires Inv(s) && Supplied(s) && Listed(s, auctions) && PriceTicks(s, auctions).Ok?
    ensures IdsGrow(s, PriceTicks(s, auctions).value)
    decreases |auctions|
  {
    if auctions != [] {
      TickIds(s, auctions[0]);
      PriceTickKeepsInv(s, auctions[0]);
      var t := PriceTick(s, auctions[0]).value;
      ListedTail(s, t, auctions);
      TicksIds(t, auctions[1..]);
      IdsGrowTransitive(s, t, PriceTicks(t, auctions[1..]).value);
    }
  }

  lemma BlockIds(s: State)
    requires Inv(s) && Supplied(s)
    ensures EndBlocker(s).Ok? && IdsGrow(s, EndBlocker(s).value)
  {
    EndBlockerKeepsInv(s);
    ActiveListed(s);
    PriceTicksKeepInv(s, Auctions(s.active));
    TicksIds(s, Auctions(s.active));
    EndBlockerIds(s, PriceTicks(s, Auctions(s.active)).value);
  }

  lemma EndBlockerIds(s: State, t: State)
    requires PriceTicks(s, Auctions(s.active)) == Ok(t) && Ids(t) && IdsGrow(s, t)
    ensures IdsGrow(s, EndBlocker(s).value)
  {
    PrunedIds(s, t, set id | id in t.ended && !Survives(t, id));
  }

  /** Dropping records hands out no id. */
  lemma PrunedIds(s: State, t: State, gone: set<nat>)
    requires IdsGrow(s, t) && Ids(t)
    ensures IdsGrow(s, Drop(t, gone))
  {
    var u := Drop(t, gone);
    forall id: nat | Stored(u, id)
      ensures !Stored(s, id) ==> id > s.lastAuctionId
      ensures id in s.ended ==> id in u.ended && u.ended[id] == s.ended[id]
    {
      assert Stored(t, id);
    }
  }

  lemma RecordIds(s: State, a: Auction, bid: Bid, bank: Balances)
    requires Ids(s) && a.id in s.active && bid.id >= s.lastBidId
    ensures IdsGrow(s, RecordBid(s, a, bid, bank))
  {
    assert a.id !in s.ended;
  }

  lemma SettleIds(s: State, bid: Bid)
    requires Ids(s) && ActiveShape(s) && bid.auctionId in s.active && bid.id >= s.lastBidId
    ensures IdsGrow(s, Commit(s, SettleBid(s, bid)))
  {
    hide Send, Balance, FinishAuction, Proceeds;
    var a := s.active[bid.auctionId];
    assert Stored(s, bid.auctionId) && Terms(s, a);
    hide Ids, ActiveShape, Terms, IdsGrow;
    var pay := Send(s.bank, User(bid.bidder), ESCROW, USOMM, bid.paid.amount);
    if pay.Some? {
      var buy := Send(pay.value, ESCROW, User(bid.bidder), a.starting.denom, bid.fulfilled.amount);
      if buy.Some? {
        ConcludeIds(s, a.(remaining := Coin(a.starting.denom, Balance(s.bank, ESCROW, a.starting.denom) - bid.fulfilled.amount)), bid, buy.value);
      }
    }
  }

  lemma SubmitIds(s: State, m: MsgSubmitBid)
    requires Ids(s) && ActiveShape(s)
    ensures IdsGrow(s, Commit(s, SubmitBid(s, m)))
  {
    if PrepareBid(s, m).Ok? {
      PreparedFields(s, m);
      SettleIds(s, PrepareBid(s, m).value);
    }
  }

  lemma ConcludeIds(s: State, b: Auction, bid: Bid, bank: Balances)
    requires Ids(s) && b.id in s.active && bid.id >= s.lastBidId && b.initialRate <= b.currentRate
    ensures var r := Conclude(RecordBid(s, b, bid, bank), b); r.Ok? ==> IdsGrow(s, r.value)
  {
    var t := RecordBid(s, b, bid, bank);
    RecordIds(s, b, bid, bank);
    assert Ids(t) by { assert forall id: nat :: Stored(t, id) <==> Stored(s, id); }
    if b.remaining.amount == 0 && FinishAuction(t, b).Ok? {
      FinishIds(t, b);
      IdsGrowTransitive(s, t, FinishAuction(t, b).value);
    }
  }

  lemma OpenIds(s: State, a: Auction)
    requires Ids(s) && a.id == WrapUint32(s.lastAuctionId + 1)
    ensures IdsGrow(s, Commit(s, OpenAuction(s, a)))
  {}

  lemma BeginIds(s: State, starting: Coin, rate: int, interval: uint64, funding: string, proceeds: string)
    requires Ids(s)
    ensures IdsGrow(s, Commit(s, BeginAuction(s, starting, rate, interval, funding, proceeds)))
  {
    var r := BeginAuction(s, starting, rate, interval, funding, proceeds);
    if r.Ok? {
      OpenIds(s, NewAuction(s, starting, rate, interval, funding, proceeds, StartingPrice(s.prices[starting.denom], s.prices[USOMM]).value));
    }
  }

  lemma NextIds(s: State, step: Step)
    requires Inv(s) && Supplied(s)
    ensures IdsGrow(s, Next(s, step))
  {
    hide BeginAuction, SubmitBid, EndBlocker, CheckPrices, StorePrices, Inv, Supplied;
    match step
    case Begin(starting, rate, interval, funding, proceeds) => InvIds(s); BeginIds(s, starting, rate, interval, funding, proceeds);
    case Submit(m) => InvIds(s); SubmitIds(s, m);
    case EndBlock => BlockIds(s); LaterHeight(s, EndBlocker(s).value);
    case _ => QuietIds(s, Next(s, step));
  }

  lemma InvIds(s: State)
    requires Inv(s)
    ensures Ids(s) && ActiveShape(s)
  {}

  lemma QuietIds(s: State, t: State)
    requires t.active == s.active && t.ended == s.ended && t.lastAuctionId == s.lastAuctionId && t.lastBidId == s.lastBidId
    ensures IdsGrow(s, t)
  {}

  lemma LaterHeight(s: State, t: State)
    requires IdsGrow(s, t)
    ensures s.height + 1 < INT64_LIMIT ==> IdsGrow(s, t.(height := s.height + 1))
  {}

  /** Later in a run an id that is gone never returns, and an ended auction is never changed or sold again. */
  lemma {:induction false} IdsNeverReused(s: State, steps: seq<Step>)
    requires Inv(s) && Supplied(s)
    ensures IdsGrow(s, Run(s, steps))
  {
    if steps != [] {
      var before, step := steps[..|steps| - 1], steps[|steps| - 1];
      IdsNeverReused(s, before);
      LaterInv(s, before);
      NextIds(Run(s, before), step);
      IdsGrowTransitive(s, Run(s, before), Run(s, steps));
    }
  }

  lemma {:induction false} LaterInv(s: State, steps: seq<Step>)
    requires Inv(s) && Supplied(s)
    ensures Inv(Run(s, steps)) && Supplied(Run(s, steps))
  {
    if steps != [] {
      LaterInv(s, steps[..|steps| - 1]);
      NextKeepsInv(Run(s, steps[..|steps| - 1]), steps[|steps| - 1]);
    }
  }

  // ----- clearing an auction -----

  /** A valid, funded bid that offers the cost of everything that is left. */
  ghost predicate Clearing(s: State, m: MsgSubmitBid) {
    && m.ValidateBasic().Ok? && m.auctionId in s.active
    && m.maxBid.amount < INT64_LIMIT && s.lastBidId + 1 < UINT64_LIMIT
    && var a := s.active[m.auctionId];
    && m.minimum.denom == a.starting.denom && m.minimum.amount <= a.remaining.amount
    && a.remaining.amount * a.currentPrice <= FromInt(m.maxBid.amount)
    && Balance(s.bank, User(m.signer), USOMM) >= m.maxBid.amount
  }

  lemma ClearingPrepares(s: State, m: MsgSubmitBid, a: Auction)
    requires Clearing(s, m) && a == s.active[m.auctionId] && Terms(s, a)
    requires Balance(s.bank, ESCROW, a.starting.denom) == a.remaining.amount
    ensures PrepareBid(s, m).Ok?
    ensures var bid := PrepareBid(s, m).value;
            && bid.id == s.lastBidId + 1 && bid.fulfilled.amount == a.remaining.amount
            && RoundedUpCost(bid.paid.amount, a.remaining.amount, a.currentPrice) && bid.paid.amount <= m.maxBid.amount
            && bid.bidder == m.signer
  {
    hide Quote;
    ClearingBid(a.remaining.amount, a.currentPrice, m.maxBid.amount, m.minimum.amount, s.params.minimumBidInUsomm);
    var fill := Quote(a.remaining.amount, a.currentPrice, m.maxBid.amount, m.minimum.amount, s.params.minimumBidInUsomm).value;
    assert ONE * (fill.payment - 1) < ONE * m.maxBid.amount;
    MulMono(0, a.remaining.amount, a.currentPrice);
    assert GRAVITY_DENOM_PREFIX <= BRIDGED_DENOM_PREFIX <= m.minimum.denom;
    assert NewBid(s, a, m, fill).ValidateBasic().Ok?;
  }

  /** Any active auction can be cleared: such a bid is accepted, buys everything for the rounded-up cost, and ends
      the auction in the same step. */
  lemma ClearingBidEndsAuction(s: State, m: MsgSubmitBid)
    requires Reachable(s) && Clearing(s, m)
    ensures SubmitBid(s, m).Ok?
    ensures var t, a, key := SubmitBid(s, m).value, s.active[m.auctionId], (m.auctionId as nat, s.lastBidId + 1);
            && m.auctionId !in t.active
            && m.auctionId in t.ended && t.ended[m.auctionId].endBlock == s.height && t.ended[m.auctionId].remaining.amount == 0
            && key in t.bids && t.bids[key].fulfilled.amount == a.remaining.amount
            && RoundedUpCost(t.bids[key].paid.amount, a.remaining.amount, a.currentPrice)
  {
    ReachableInv(s);
    ClearedInv(s, m);
  }

  lemma ClearedInv(s: State, m: MsgSubmitBid)
    requires Inv(s) && Supplied(s) && Clearing(s, m)
    ensures SubmitBid(s, m).Ok?
    ensures var t, a, key := SubmitBid(s, m).value, s.active[m.auctionId], (m.auctionId as nat, s.lastBidId + 1);
            && m.auctionId !in t.active
            && m.auctionId in t.ended && t.ended[m.auctionId].endBlock == s.height && t.ended[m.auctionId].remaining.amount == 0
            && key in t.bids && t.bids[key].fulfilled.amount == a.remaining.amount
            && RoundedUpCost(t.bids[key].paid.amount, a.remaining.amount, a.currentPrice)
  {
    var a := s.active[m.auctionId];
    assert Stored(s, m.auctionId) && Terms(s, a);
    ClearingPrepares(s, m, a);
    PreparedIsOffered(s, m);
    hide PrepareBid, Quote, RoundedUpCost;
    ClearingSettles(s, a, PrepareBid(s, m).value);
  }

  lemma ClearingSettles(s: State, a: Auction, bid: Bid)
    requires Inv(s) && Supplied(s) && Offered(s, a, bid)
    requires bid.fulfilled.amount == a.remaining.amount && bid.paid.amount <= Balance(s.bank, User(bid.bidder), USOMM)
    ensures SettleBid(s, bid).Ok?
    ensures var t, key := SettleBid(s, bid).value, (a.id as nat, bid.id as nat);
            && a.id !in t.active && a.id in t.ended && t.ended[a.id].endBlock == s.height && t.ended[a.id].remaining.amount == 0
            && key in t.bids && t.bids[key] == bid
  {
    assert Terms(s, a);
    hide Inv, Supplied, Conclude, Balance, BidShape;
    assert bid.paid.amount >= 0 by { OfferedPays(s, a, bid); }
    FundedSettles(s, bid);
    SettledState(s, a, bid);
    var bank :| Accepted(s, a, bid, bank) && SettleBid(s, bid) == Conclude(Recorded(s, a, bid, bank), AfterSale(a, bid.fulfilled.amount));
    hide SettleBid, Accepted, Offered, Recorded, AfterSale;
    ClearedBy(s, a, bid, bank);
  }

  lemma ClearedBy(s: State, a: Auction, bid: Bid, bank: Balances)
    requires Inv(s) && Accepted(s, a, bid, bank) && bid.fulfilled.amount == a.remaining.amount
    ensures var r, key := Conclude(Recorded(s, a, bid, bank), AfterSale(a, bid.fulfilled.amount)), (a.id as nat, bid.id as nat);
            && r.Ok?
            && a.id !in r.value.active && a.id in r.value.ended
            && r.value.ended[a.id].endBlock == s.height && r.value.ended[a.id].remaining.amount == 0
            && key in r.value.bids && r.value.bids[key] == bid
  {
    hide Inv, Conclude, BidShape, Balance;
    RecordKeepsInv(s, a, bid, bank);
    SoldOutFinishes(Recorded(s, a, bid, bank), AfterSale(a, bid.fulfilled.amount));
  }

  lemma OfferedPays(s: State, a: Auction, bid: Bid)
    requires Offered(s, a, bid)
    ensures bid.paid.amount >= 0
  {}

  lemma FundedSettles(s: State, bid: Bid)
    requires bid.auctionId in s.active && 0 <= bid.paid.amount <= Balance(s.bank, User(bid.bidder), USOMM)
    ensures !SettleBid(s, bid).Fail?
  {
    hide FinishAuction, Balance;
  }

  lemma SoldOutFinishes(t: State, b: Auction)
    requires Inv(t) && b.id in t.active && t.active[b.id] == b && b.remaining.amount == 0
    ensures Conclude(t, b).Ok?
    ensures var u := Conclude(t, b).value;
            && b.id !in u.active && b.id in u.ended && u.ended[b.id] == b.(endBlock := t.height)
            && u.bids == t.bids
  {
    assert Terms(t, t.active[b.id]);
    FinishKeepsInv(t, b);
  }
}
