/** What becomes of an auction whose first decrease rounds to zero: it keeps its price in a run in which the
    accelerated rate rounds back to the rate, and is over within a bound when the rate grows. */
module AuctionStall {
  import opened Arithmetic
  import opened AuctionBlock
  import opened AuctionInvariant
  import opened AuctionProgress
  import opened AuctionPruning
  import opened AuctionRuns
  import opened AuctionSpec
  import opened AuctionTheorems
  import opened AuctionTypes
  import opened Bank
  import opened Collections
  import opened Decimal
  import opened Integers

  // ----- how much a rate gains -----

  /** The accelerated rate rounds back to the rate. */
  predicate Flat(rate: int, acceleration: int) { Mul(rate, ONE + acceleration) == rate }

  /** What one acceleration adds to a rate. */
  function Gain(rate: int, acceleration: int): int { Mul(rate, ONE + acceleration) - rate }

  /** A higher rate gains no less. */
  lemma GainGrows(x: nat, y: nat, acceleration: nat)
    requires x <= y
    ensures 0 <= Gain(x, acceleration) <= Gain(y, acceleration)
  {
    hide ChopRound;
    var u, v := x * acceleration, y * acceleration;
    MulMono(x, y, acceleration);
    assert x * (ONE + acceleration) == x * ONE + u;
    assert y * (ONE + acceleration) == y * ONE + v;
    RoundedStep(x, u);
    RoundedStep(y, v);
    if Gain(y, acceleration) < Gain(x, acceleration) {
      assert u == v && 2 * (ONE * Gain(x, acceleration)) == 2 * u + ONE;
      if acceleration > 0 && x < y { MulMono(x + 1, y, acceleration); }
    }
  }

  /** The whole part passes through, and the rest is rounded to the nearest. */
  lemma RoundedStep(x: nat, u: nat)
    ensures var gain := ChopRound(x * ONE + u) - x; 0 <= gain && 2 * u - ONE <= 2 * (ONE * gain) <= 2 * u + ONE
  {
    assert ONE * ChopRound(x * ONE + u) == ONE * x + ONE * (ChopRound(x * ONE + u) - x);
  }

  // ----- steps that are not about the auction -----

  /** No bid of the run names the auction. */
  ghost predicate NoBids(steps: seq<Step>, id: nat) {
    forall i :: 0 <= i < |steps| ==> !BidsOn(steps[i], id)
  }

  ghost predicate BidsOn(step: Step, id: nat) { step.Submit? && step.msg.auctionId == id }

  /** The bids of the auction are ones it had. */
  ghost predicate BidsFrom(s: State, t: State, id: nat) {
    forall k :: k in t.bids && k.0 == id ==> k in s.bids && t.bids[k] == s.bids[k]
  }

  /** The auction and its bids are as they were. */
  ghost predicate Untouched(s: State, t: State, id: nat) {
    id in s.active && id in t.active && t.active[id] == s.active[id] && BidsFrom(s, t, id) && t.height == s.height
  }

  lemma OtherBid(s: State, m: MsgSubmitBid, id: nat)
    requires Ids(s) && id in s.active && m.auctionId != id
    ensures Untouched(s, Commit(s, SubmitBid(s, m)), id)
  {
    hide Quote, Send, Balance, Proceeds;
    if PrepareBid(s, m).Ok? { OtherSettled(s, PrepareBid(s, m).value, id); }
  }

  lemma OtherSettled(s: State, bid: Bid, id: nat)
    requires Ids(s) && id in s.active && bid.auctionId in s.active && bid.auctionId != id
    ensures Untouched(s, Commit(s, SettleBid(s, bid)), id)
  {
    hide Send, Balance, Proceeds;
    assert Stored(s, bid.auctionId) && AuctionOf(s, bid.auctionId) == s.active[bid.auctionId];
  }

  lemma OtherBegun(s: State, a: Auction, id: nat)
    requires Ids(s) && id in s.active && a.id == WrapUint32(s.lastAuctionId + 1)
    ensures Untouched(s, Commit(s, OpenAuction(s, a)), id)
  {
    hide Send;
    assert Stored(s, id);
  }

  /** Between blocks only bids on an auction touch it. */
  lemma StepUntouched(s: State, step: Step, id: nat)
    requires Ids(s) && id in s.active && !step.EndBlock? && !BidsOn(step, id)
    ensures Untouched(s, Next(s, step), id)
  {
    hide SubmitBid, OpenAuction, StartingPrice, CheckPrices, StorePrices;
    match step
    case Submit(m) => OtherBid(s, m, id);
    case Begin(starting, rate, interval, funding, proceeds) =>
      var r := BeginAuction(s, starting, rate, interval, funding, proceeds);
      if r.Ok? {
        var price := StartingPrice(s.prices[starting.denom], s.prices[USOMM]).value;
        OtherBegun(s, NewAuction(s, starting, rate, interval, funding, proceeds, price), id);
      }
    case _ =>
  }

  // ----- a bid that removes its auction sold everything -----

  lemma GoneIsSoldOut(s: State, bid: Bid, id: nat)
    requires Ids(s) && id in s.active && bid.auctionId in s.active
    requires id !in Commit(s, SettleBid(s, bid)).active
    ensures var t := Commit(s, SettleBid(s, bid)); id in t.ended && t.ended[id].remaining.amount == 0
  {
    hide Send, Balance, Proceeds;
    assert Stored(s, bid.auctionId) && AuctionOf(s, bid.auctionId) == s.active[bid.auctionId];
  }

  lemma StepSoldOut(s: State, step: Step, id: nat)
    requires Ids(s) && id in s.active && !step.EndBlock? && id !in Next(s, step).active
    ensures var t := Next(s, step); id in t.ended && t.ended[id].remaining.amount == 0
  {
    hide SettleBid, PrepareBid, BeginAuction, SetTokenPrices;
    if !BidsOn(step, id) {
      StepUntouched(s, step, id);
    } else if PrepareBid(s, step.msg).Ok? {
      GoneIsSoldOut(s, PrepareBid(s, step.msg).value, id);
    }
  }

  // ----- the stall -----

  /** At every end of a block of the run the rate is flat. */
  ghost predicate FlatBlocks(s: State, steps: seq<Step>, rate: int) {
    steps == [] ||
    (var before := steps[..|steps| - 1];
     FlatBlocks(s, before, rate) && (steps[|steps| - 1].EndBlock? ==> Flat(rate, Run(s, before).params.acceleration)))
  }

  /** Where a stalled record may go: its price stays, and its rate is between the initial one and the one it had. */
  ghost predicate Stalls(a: Auction, b: Auction) {
    SameTerms(a, b) && b.currentPrice == a.currentPrice && a.initialRate <= b.currentRate <= a.currentRate
  }

  /** The auction has stalled, or sold out. */
  ghost predicate StalledOrSoldOut(s: State, t: State, id: nat) {
    && id in s.active && id <= t.lastAuctionId
    && if id in t.active then Stalls(s.active[id], t.active[id])
       else id in t.ended ==> t.ended[id].remaining.amount == 0
  }

  /** Price and rate of a stalled record survive a tick. */
  lemma TickStalls(s: State, a: Auction, b: Auction)
    requires s.params.Valid() && 0 < a.initialRate && 0 <= a.initialPrice && Stalls(a, b)
    requires Flat(a.currentRate, s.params.acceleration) && Mul(a.initialPrice, a.currentRate) == 0
    ensures Stalls(a, Ticked(s, b)) && Ticked(s, b).remaining == b.remaining
    ensures b.currentRate == b.initialRate ==> Ticked(s, b) == b
  {
    hide RecentBid, Due, Mul;
    GainGrows(b.currentRate, a.currentRate, s.params.acceleration);
    MulMonotone(a.initialPrice, 0, b.currentRate);
    MulMonotone(a.initialPrice, b.currentRate, a.currentRate);
    MulMonotone(a.initialPrice, 0, b.initialRate);
    MulMonotone(a.initialPrice, b.initialRate, b.currentRate);
    MulInt(0, a.initialPrice);
  }

  /** Once an auction has left the active store it does not come back, and its ended record is final. */
  lemma StaysGone(t: State, step: Step, id: nat)
    requires Inv(t) && Supplied(t) && id !in t.active && id <= t.lastAuctionId
    ensures var u := Next(t, step);
            id !in u.active && (id in u.ended ==> id in t.ended && u.ended[id] == t.ended[id])
  {
    hide Next, Supplied;
    NextIds(t, step);
    NextKeepsInv(t, step);
    var u := Next(t, step);
    InvIds(t);
    InvIds(u);
    if Stored(u, id) { assert Stored(t, id); }
  }

  lemma LastIdGrows(t: State, step: Step)
    requires Inv(t) && Supplied(t)
    ensures t.lastAuctionId <= Next(t, step).lastAuctionId
  {
    hide Next, Supplied, Inv;
    NextIds(t, step);
  }

  lemma StallStep(s: State, t: State, step: Step, id: nat)
    requires Inv(t) && Supplied(t) && StalledOrSoldOut(s, t, id)
    requires 0 < s.active[id].initialRate && Mul(s.active[id].initialPrice, s.active[id].currentRate) == 0
    requires step.EndBlock? ==> Flat(s.active[id].currentRate, t.params.acceleration)
    ensures StalledOrSoldOut(s, Next(t, step), id)
    ensures id in t.active && !BidsOn(step, id) ==>
              id in Next(t, step).active && Next(t, step).active[id].remaining == t.active[id].remaining
  {
    hide Inv, Supplied, Next, Mul;
    LastIdGrows(t, step);
    if id !in t.active {
      StaysGone(t, step, id);
    } else if step.EndBlock? {
      StallBlock(s, t, id);
    } else {
      InvIds(t);
      StallBetween(s, t, step, id);
    }
  }

  lemma StallBetween(s: State, t: State, step: Step, id: nat)
    requires Ids(t) && id in s.active && id in t.active && Stalls(s.active[id], t.active[id]) && !step.EndBlock?
    ensures var u := Next(t, step); if id in u.active then Stalls(s.active[id], u.active[id])
            else id in u.ended && u.ended[id].remaining.amount == 0
    ensures !BidsOn(step, id) ==> id in Next(t, step).active && Next(t, step).active[id] == t.active[id]
  {
    hide Next;
    StepKeepsPrices(t, step);
    if !BidsOn(step, id) { StepUntouched(t, step, id); }
    if id !in Next(t, step).active { StepSoldOut(t, step, id); }
  }

  lemma StallBlock(s: State, t: State, id: nat)
    requires Inv(t) && Supplied(t) && id in s.active && id in t.active && Stalls(s.active[id], t.active[id])
    requires 0 < s.active[id].initialRate && Mul(s.active[id].initialPrice, s.active[id].currentRate) == 0
    requires Flat(s.active[id].currentRate, t.params.acceleration)
    ensures var u := Next(t, EndBlock);
            id in u.active && Stalls(s.active[id], u.active[id]) && u.active[id].remaining == t.active[id].remaining
  {
    hide Inv, Supplied, Mul, EndBlocker, BeginAuction, SubmitBid, SetTokenPrices, Ticked, Flat;
    EndBlockOn(t, id);
    TickStalls(t, s.active[id], t.active[id]);
  }

  /** The stall, over whole runs: if nothing comes off the price at an auction's current rate, and that rate is flat
      at every end of a block, then the price stays where it is whatever else happens, and the auction ends by
      selling out only. */
  lemma {:induction false} FlatRateStalls(s: State, steps: seq<Step>, id: nat)
    requires Reachable(s) && id in s.active
    requires Mul(s.active[id].initialPrice, s.active[id].currentRate) == 0
    requires FlatBlocks(s, steps, s.active[id].currentRate)
    ensures var t := Run(s, steps);
            if id in t.active then Stalls(s.active[id], t.active[id]) else id in t.ended ==> t.ended[id].remaining.amount == 0
    ensures NoBids(steps, id) ==>
              id in Run(s, steps).active && Run(s, steps).active[id].remaining == s.active[id].remaining
  {
    ReachableInv(s);
    ActiveTerms(s, id);
    StalledRun(s, steps, id);
  }

  lemma ActiveTerms(s: State, id: nat)
    requires Inv(s) && id in s.active
    ensures Terms(s, s.active[id]) && id <= s.lastAuctionId && s.active[id].id == id
    ensures s.params.Valid() && s.active[id].currentRate < ONE
  {
    assert Stored(s, id);
  }

  lemma {:induction false} StalledRun(s: State, steps: seq<Step>, id: nat)
    requires Inv(s) && Supplied(s) && id in s.active
    requires Terms(s, s.active[id]) && id <= s.lastAuctionId
    requires Mul(s.active[id].initialPrice, s.active[id].currentRate) == 0
    requires FlatBlocks(s, steps, s.active[id].currentRate)
    ensures StalledOrSoldOut(s, Run(s, steps), id)
    ensures NoBids(steps, id) ==>
              id in Run(s, steps).active && Run(s, steps).active[id].remaining == s.active[id].remaining
  {
    hide Inv, Supplied, Next, Mul, Flat;
    if steps != [] {
      var before, step := steps[..|steps| - 1], steps[|steps| - 1];
      StalledRun(s, before, id);
      LaterInv(s, before);
      StallStep(s, Run(s, before), step, id);
    }
  }

  // ----- growth -----

  /** At every end of a block the acceleration adds at least `gain` to the rate `low`. */
  ghost predicate GainingBlocks(s: State, steps: seq<Step>, low: int, gain: int) {
    steps == [] ||
    (var before := steps[..|steps| - 1];
     && GainingBlocks(s, before, low, gain)
     && (steps[|steps| - 1].EndBlock? ==> Gain(low, Run(s, before).params.acceleration) >= gain))
  }

  /** Decreases that fell due at heights from `since` on and before `height`. */
  function DecreasesSince(a: Auction, since: int, height: int): nat
    requires a.interval != 0
  {
    if height > since && Decreases(a, height) > Decreases(a, since) then Decreases(a, height) - Decreases(a, since) else 0
  }

  lemma NextDecreasesSince(a: Auction, since: int, height: Height)
    requires a.interval != 0 && a.startBlock <= height
    ensures DecreasesSince(a, since, height + 1)
         <= DecreasesSince(a, since, height) + (if Due(height, a) && height >= since then 1 else 0)
  {
    NextDecreases(a, height);
  }

  lemma SameDecreases(a: Auction, b: Auction, since: int, height: int)
    requires a.interval != 0 && SameTerms(a, b)
    ensures DecreasesSince(a, since, height) == DecreasesSince(b, since, height)
  {}

  /** Every decrease since then raised the rate by `gain`, from `low`. */
  ghost predicate RatePace(a: Auction, since: int, height: int, low: int, gain: int)
    requires a.interval != 0
  {
    low + DecreasesSince(a, since, height) * gain <= a.currentRate
  }

  /** A bid before this height is no recent one at any due height from `since` on. */
  function Horizon(a: Auction, since: int): int {
    if a.interval < INT64_LIMIT then since - a.interval else since + 1
  }

  ghost predicate Quiet(s: State, id: nat, horizon: int) {
    forall k :: k in s.bids && k.0 == id ==> s.bids[k].blockHeight < horizon
  }

  lemma NotRecent(s: State, a: Auction, since: int)
    requires Terms(s, a) && Due(s.height, a)
    requires Quiet(s, a.id, Horizon(a, since)) && s.height >= since
    ensures !RecentBid(s, a)
  {
    hide Due;
    DueAfterInterval(s, a);
    if a.interval > s.height {
      DivUnique(s.height - a.interval, UINT64_LIMIT, -1, UINT64_LIMIT + s.height - a.interval);
    }
    QuietLast(s, a.id, Horizon(a, since));
  }

  lemma QuietLast(s: State, id: nat, horizon: int)
    requires Quiet(s, id, horizon)
    ensures var bids := BidsOf(s.bids, id); bids != [] ==> bids[|bids| - 1].blockHeight < horizon
  {
    var ids, bids := Sorted(BidIds(s.bids, id)), BidsOf(s.bids, id);
    if bids != [] {
      assert ids[|ids| - 1] in BidIds(s.bids, id);
      assert (id, ids[|ids| - 1]).0 == id;
    }
  }

  lemma TickGains(s: State, a: Auction, since: int, low: nat, gain: nat)
    requires s.params.Valid() && Terms(s, a)
    requires Quiet(s, a.id, Horizon(a, since)) && RatePace(a, since, s.height, low, gain)
    requires low == a.initialRate || since <= s.height
    requires Gain(low, s.params.acceleration) >= gain
    ensures var b := Ticked(s, a); SameTerms(a, b) && RatePace(b, since, s.height + 1, low, gain)
  {
    hide Due, RecentBid, Mul, Decreases;
    var b := Ticked(s, a);
    NextRateAtLeastInitial(s, a);
    NextDecreasesSince(a, since, s.height);
    var n, m := DecreasesSince(a, since, s.height), DecreasesSince(a, since, s.height + 1);
    MulMono(0, n, gain);
    GainGrows(low, a.currentRate, s.params.acceleration);
    if Due(s.height, a) && s.height >= since { NotRecent(s, a, since); }
    SameDecreases(a, b, since, s.height + 1);
    OneMoreGain(n, m, gain, a.currentRate - low, b.currentRate - low);
  }

  lemma OneMoreGain(n: nat, m: nat, gain: nat, up: int, raised: int)
    requires n * gain <= up && 0 <= raised
    requires m == 0 || (m <= n && up <= raised) || (m <= n + 1 && up + gain <= raised)
    ensures m * gain <= raised
  {
    assert (n + 1) * gain == n * gain + gain;
    if 0 < m <= n { MulMono(m, n, gain); }
    if 0 < m <= n + 1 && up + gain <= raised { MulMono(m, n + 1, gain); }
  }

  /** What a run without bids on the auction keeps, counting decreases and gains from height `since` and rate `low`. */
  ghost predicate OnRise(s: State, t: State, id: nat, since: int, low: nat, gain: nat) {
    && id in s.active && id <= t.lastAuctionId
    && (id in t.active ==> RisingRecord(s, t, id, since, low, gain))
  }

  ghost predicate RisingRecord(s: State, t: State, id: nat, since: int, low: nat, gain: nat)
    requires id in s.active && id in t.active
  {
    var a, b := s.active[id], t.active[id];
    && SameTerms(a, b) && Quiet(t, id, Horizon(b, since))
    && b.interval != 0 && RatePace(b, since, t.height, low, gain)
    && (low == b.initialRate || since <= t.height)
  }

  lemma RiseStep(s: State, t: State, step: Step, id: nat, since: int, low: nat, gain: nat)
    requires Inv(t) && Supplied(t) && OnRise(s, t, id, since, low, gain) && !BidsOn(step, id)
    requires step.EndBlock? ==> Gain(low, t.params.acceleration) >= gain
    ensures OnRise(s, Next(t, step), id, since, low, gain)
  {
    hide Inv, Supplied, Next, RisingRecord, Gain;
    LastIdGrows(t, step);
    if id !in t.active {
      StaysGone(t, step, id);
    } else if step.EndBlock? {
      RiseBlock(s, t, id, since, low, gain);
    } else {
      InvIds(t);
      StepUntouched(t, step, id);
      SameRise(s, t, Next(t, step), id, since, low, gain);
    }
  }

  lemma SameRise(s: State, t: State, u: State, id: nat, since: int, low: nat, gain: nat)
    requires id in s.active && id in t.active && RisingRecord(s, t, id, since, low, gain) && Untouched(t, u, id)
    ensures RisingRecord(s, u, id, since, low, gain)
  {}

  lemma RiseBlock(s: State, t: State, id: nat, since: int, low: nat, gain: nat)
    requires Inv(t) && Supplied(t) && id in s.active && id in t.active && RisingRecord(s, t, id, since, low, gain)
    requires Gain(low, t.params.acceleration) >= gain
    ensures id in Next(t, EndBlock).active ==> RisingRecord(s, Next(t, EndBlock), id, since, low, gain)
  {
    hide Inv, Supplied, EndBlocker, BeginAuction, SubmitBid, SetTokenPrices, Ticked, Gain, RatePace;
    if t.height + 1 < INT64_LIMIT {
      EndBlockOn(t, id);
      BlockBids(t);
      TickGains(t, t.active[id], since, low, gain);
    }
  }

  lemma {:induction false} RiseRun(s: State, steps: seq<Step>, id: nat, since: int, low: nat, gain: nat)
    requires Inv(s) && Supplied(s) && OnRise(s, s, id, since, low, gain)
    requires NoBids(steps, id) && GainingBlocks(s, steps, low, gain)
    ensures OnRise(s, Run(s, steps), id, since, low, gain)
  {
    hide Inv, Supplied, Next, Gain, OnRise;
    if steps != [] {
      var before, step := steps[..|steps| - 1], steps[|steps| - 1];
      RiseRun(s, before, id, since, low, gain);
      LaterInv(s, before);
      RiseStep(s, Run(s, before), step, id, since, low, gain);
    }
  }

  /** A rate below one has gained a bounded number of times. */
  lemma RiseBound(s: State, t: State, id: nat, since: int, low: nat, gain: nat)
    requires Inv(t) && gain > 0 && OnRise(s, t, id, since, low, gain) && id in t.active
    requires since > s.active[id].startBlock
    ensures t.height < since + Spacing(s.active[id]) * (1 + (ONE - 1 - low) / gain)
  {
    hide Inv, Supplied, Quiet, Decreases, Spacing;
    ActiveTerms(t, id);
    var n := DecreasesSince(t.active[id], since, t.height);
    DivAtLeast(ONE - 1 - low, gain, n);
    SameDecreases(s.active[id], t.active[id], since, t.height);
    CountedBound(s.active[id], since, t.height, (ONE - 1 - low) / gain);
  }

  lemma CountedBound(a: Auction, since: int, height: int, top: int)
    requires a.interval != 0 && since > a.startBlock && DecreasesSince(a, since, height) <= top
    ensures height < since + Spacing(a) * (1 + top)
  {
    var i, d := Spacing(a), Decreases(a, since);
    assert i * (1 + top) == (1 + top) * i;
    MulMono(1, 1 + top, i);
    if height > since {
      DivAtLeast(since - 1 - a.startBlock, i, d);
      DivAtLeast(height - 1 - a.startBlock, i, d + top + 1);
      assert (d + top + 1) * i == d * i + (1 + top) * i;
    }
  }

  /** Blocks after which an auction without bids has ended, from the rate `low`: one spacing during which an earlier bid
      may still hold the rate down, one until the next decrease, and one for each gain until the rate reaches one. */
  function BlocksToEnd(a: Auction, low: int, gain: int): int
    requires gain > 0
  {
    Spacing(a) * (2 + (ONE - 1 - low) / gain)
  }

  lemma BlocksSplit(a: Auction, low: int, gain: int)
    requires gain > 0
    ensures BlocksToEnd(a, low, gain) == Spacing(a) + Spacing(a) * (1 + (ONE - 1 - low) / gain)
  {
    hide Spacing;
    Distribute(1, Spacing(a), Spacing(a), 1);
    var k := 1 + (ONE - 1 - low) / gain;
    assert Spacing(a) * (1 + k) == Spacing(a) + Spacing(a) * k;
  }

  /** The converse of the stall, over whole runs without bids: while every acceleration adds at least `gain` to the
      initial rate, the rate rises with every decrease, and the auction ends within the bound, even if its first
      decreases round to zero. */
  lemma GrowingRateEnds(s: State, steps: seq<Step>, id: nat, gain: int)
    requires Reachable(s) && id in s.active
    requires gain > 0 && NoBids(steps, id) && GainingBlocks(s, steps, s.active[id].initialRate, gain)
    ensures Run(s, steps).height > s.height + BlocksToEnd(s.active[id], s.active[id].initialRate, gain) ==> id !in Run(s, steps).active
  {
    hide Inv, Supplied, Terms, Next, Run, BlocksToEnd, GainingBlocks, OnRise, Spacing;
    ReachableInv(s);
    ActiveTerms(s, id);
    var a := s.active[id];
    var since := s.height + 1 + Spacing(a);
    RiseStarts(s, id, gain);
    RiseRun(s, steps, id, since, a.initialRate, gain);
    LaterInv(s, steps);
    BlocksSplit(a, a.initialRate, gain);
    if id in Run(s, steps).active {
      StartsBefore(s, a);
      RiseBound(s, Run(s, steps), id, since, a.initialRate, gain);
    }
  }

  lemma StartsBefore(s: State, a: Auction)
    requires Terms(s, a)
    ensures a.startBlock <= s.height && 0 < a.initialRate <= a.currentRate && a.interval != 0
  {}

  lemma RiseStarts(s: State, id: nat, gain: nat)
    requires Inv(s) && id in s.active && Terms(s, s.active[id]) && id <= s.lastAuctionId
    ensures s.active[id].initialRate > 0
    ensures OnRise(s, s, id, s.height + 1 + Spacing(s.active[id]), s.active[id].initialRate, gain)
  {
    hide Inv, Decreases;
    InvPlaced(s, id);
  }

  lemma InvPlaced(s: State, id: nat)
    requires Inv(s)
    ensures NoLaterBids(s, id)
  {
    PlacedBids(s, id);
  }

  // ----- runs of blocks -----

  function Blocks(n: nat): seq<Step> { seq(n, i => EndBlock) }

  lemma BlocksPrefix(n: nat)
    requires n > 0
    ensures Blocks(n)[..|Blocks(n)| - 1] == Blocks(n - 1) && Blocks(n)[|Blocks(n)| - 1] == EndBlock
  {}

  lemma {:induction false} BlocksOnly(s: State, n: nat)
    requires Inv(s) && Supplied(s) && s.height + n < INT64_LIMIT
    ensures Run(s, Blocks(n)).height == s.height + n && Run(s, Blocks(n)).params == s.params
  {
    hide Inv, Supplied, EndBlocker, BeginAuction, SubmitBid, SetTokenPrices;
    if n > 0 {
      BlocksPrefix(n);
      BlocksOnly(s, n - 1);
      var t := Run(s, Blocks(n - 1));
      LaterInv(s, Blocks(n - 1));
      EndBlockerKeepsInv(t);
      InvIds(t);
      ActivePriced(t);
      EndBlockerOn(t, 0);
    }
  }

  lemma {:induction false} ConstantBlocks(s: State, n: nat, rate: int, gain: int)
    requires Inv(s) && Supplied(s) && s.height + n < INT64_LIMIT
    ensures Flat(rate, s.params.acceleration) ==> FlatBlocks(s, Blocks(n), rate)
    ensures Gain(rate, s.params.acceleration) >= gain ==> GainingBlocks(s, Blocks(n), rate, gain)
  {
    hide Inv, Supplied, Next, Flat, Gain;
    if n > 0 {
      BlocksPrefix(n);
      ConstantBlocks(s, n - 1, rate, gain);
      BlocksOnly(s, n - 1);
    }
  }

  lemma {:induction false} BlocksAdd(s: State, j: nat, k: nat)
    ensures Run(Run(s, Blocks(j)), Blocks(k)) == Run(s, Blocks(j + k))
  {
    hide Next;
    if k > 0 {
      BlocksPrefix(k);
      BlocksPrefix(j + k);
      BlocksAdd(s, j, k - 1);
    }
  }

  /** Without bids nobody else's price rises either: an auction that is still active costs at most what it did. */
  lemma {:induction false} BlocksOnlyLower(s: State, n: nat, id: nat)
    requires Inv(s) && Supplied(s) && id <= s.lastAuctionId
    ensures id <= Run(s, Blocks(n)).lastAuctionId
    ensures id in Run(s, Blocks(n)).active ==>
              id in s.active && Run(s, Blocks(n)).active[id].currentPrice <= s.active[id].currentPrice
  {
    hide Inv, Supplied, Next;
    if n > 0 {
      BlocksPrefix(n);
      BlocksOnlyLower(s, n - 1, id);
      LaterInv(s, Blocks(n - 1));
      var t := Run(s, Blocks(n - 1));
      LastIdGrows(t, EndBlock);
      if id !in t.active {
        StaysGone(t, EndBlock, id);
      } else if id in Next(t, EndBlock).active {
        StepPrice(t, EndBlock, id);
      }
    }
  }

  // ----- the next decrease -----

  /** The first height from `height` on at which a decrease falls due. */
  function NextDue(a: Auction, height: int): int
    requires a.interval != 0
  {
    a.startBlock + Spacing(a) * (Decreases(a, height) + 1)
  }

  lemma NextDueIs(a: Auction, height: Height)
    requires a.interval != 0 && a.startBlock <= height
    ensures height <= NextDue(a, height) <= height + Spacing(a) && a.startBlock < NextDue(a, height)
    ensures NextDue(a, height) < INT64_LIMIT ==> Due(NextDue(a, height), a)
  {
    var i, d := Spacing(a), Decreases(a, height);
    assert i * (d + 1) == (d + 1) * i == d * i + i;
    if height > a.startBlock {
      DivAtLeast(height - 1 - a.startBlock, i, d);
      DivAtLeast(height - 1 - a.startBlock, i, d + 1);
    }
    MulMono(1, d + 1, i);
    DivUnique(NextDue(a, height) - a.startBlock, i, d + 1, 0);
  }

  lemma NotDueBefore(a: Auction, height: Height, h: Height)
    requires a.interval != 0 && a.startBlock <= height <= h < NextDue(a, height)
    ensures !Due(h, a)
  {
    var i, d := Spacing(a), Decreases(a, height);
    assert i * (d + 1) == (d + 1) * i;
    if Due(h, a) {
      var q := (h - a.startBlock) / i;
      assert h - a.startBlock == q * i;
      if q >= d + 1 { MulMono(d + 1, q, i); } else { MulMono(q, d, i); }
      if height > a.startBlock { DivAtLeast(height - 1 - a.startBlock, i, d); }
      assert false;
    }
  }

  /** The bids of the auction are the same. */
  ghost predicate SameBids(s: State, t: State, id: nat) {
    forall k: BidKey :: k.0 == id ==> (k in s.bids <==> k in t.bids) && (k in s.bids ==> s.bids[k] == t.bids[k])
  }

  /** Until the next decrease nothing happens to an auction without bids. */
  lemma {:induction false} Waits(s: State, id: nat, n: nat)
    requires Inv(s) && Supplied(s) && id in s.active && s.active[id].interval != 0 && s.active[id].startBlock <= s.height
    requires s.height + n <= NextDue(s.active[id], s.height) && s.height + n < INT64_LIMIT
    ensures var t := Run(s, Blocks(n)); id in t.active && t.active[id] == s.active[id] && SameBids(s, t, id)
  {
    hide Inv, Supplied, NextDue, EndBlocker, BeginAuction, SubmitBid, SetTokenPrices, Due;
    if n > 0 {
      BlocksPrefix(n);
      Waits(s, id, n - 1);
      BlocksOnly(s, n - 1);
      LaterInv(s, Blocks(n - 1));
      var t := Run(s, Blocks(n - 1));
      NotDueBefore(s.active[id], s.height, t.height);
      EndBlockOn(t, id);
      BlockBids(t);
    }
  }

  /** The rate that the next decrease starts from: the initial one if a bid will be recent then, else the current one. */
  function RateFrom(s: State, a: Auction): int {
    if a.interval != 0 && 0 <= NextDue(a, s.height) < INT64_LIMIT && RecentBid(s.(height := NextDue(a, s.height)), a) then a.initialRate
    else a.currentRate
  }

  lemma SameRecent(s: State, u: State, a: Auction)
    requires SameBids(s, u, a.id)
    ensures RecentBid(s.(height := u.height), a) == RecentBid(u, a)
  {
    hide BidsOf, WrapUint64;
    BidsOfFrame(s.bids, u.bids, a.id);
  }

  /** Blocks after which an auction without bids shows whether it stalls. */
  function BlocksToTell(a: Auction, rate: int, acceleration: int): int {
    if Gain(rate, acceleration) > 0 then BlocksToEnd(a, rate, Gain(rate, acceleration)) else 2 * Spacing(a)
  }

  lemma RateFromIs(s: State, u: State, a: Auction)
    requires a.interval != 0 && u.height == NextDue(a, s.height) && SameBids(s, u, a.id)
    ensures RateFrom(s, a) == if RecentBid(u, a) then a.initialRate else a.currentRate
  {
    hide NextDue, RecentBid;
    SameRecent(s, u, a);
  }

  /** What a decrease due now leaves, if its rate starts flat. */
  lemma FlatTick(u: State, a: Auction, rate: int)
    requires Due(u.height, a) && rate == (if RecentBid(u, a) then a.initialRate else a.currentRate)
    requires Flat(rate, u.params.acceleration)
    ensures Ticked(u, a) == a.(currentRate := rate, currentPrice := a.currentPrice - Mul(a.initialPrice, rate))
  {
    hide Due, RecentBid, Mul;
  }

  /** A decrease is due now; the rate it starts from is flat. Then the price stays over all later blocks if and only if
      nothing comes off now. */
  lemma FlatFromNow(u: State, id: nat, k: nat, rate: int)
    requires Inv(u) && Supplied(u) && id in u.active && Due(u.height, u.active[id])
    requires rate == (if RecentBid(u, u.active[id]) then u.active[id].initialRate else u.active[id].currentRate)
    requires Flat(rate, u.params.acceleration) && 0 < k && u.height + k < INT64_LIMIT
    ensures id in Run(u, Blocks(k)).active && Run(u, Blocks(k)).active[id].currentPrice == u.active[id].currentPrice
       <==> Mul(u.active[id].initialPrice, rate) == 0
  {
    hide Inv, Supplied, Terms, Run, Mul, Flat, Due, RecentBid, EndBlocker, BeginAuction, SubmitBid, SetTokenPrices, Ticked;
    var a, v := u.active[id], Next(u, EndBlock);
    ActiveTerms(u, id);
    EndBlockOn(u, id);
    FlatTick(u, a, rate);
    NextKeepsInv(u, EndBlock);
    OneBlock(u, k);
    BlocksOnly(u, 1);
    LastIdGrows(u, EndBlock);
    NothingOff(a, rate);
    if Mul(a.initialPrice, rate) == 0 {
      PositivePrice(u, a);
      ActiveTerms(v, id);
      ConstantBlocks(v, k - 1, rate, 0);
      StalledRun(v, Blocks(k - 1), id);
      assert NoBids(Blocks(k - 1), id);
    } else {
      BlocksOnlyLower(v, k - 1, id);
    }
  }

  lemma OneBlock(u: State, k: nat)
    requires k > 0
    ensures Run(u, Blocks(1)) == Next(u, EndBlock)
    ensures Run(Next(u, EndBlock), Blocks(k - 1)) == Run(u, Blocks(k))
  {
    hide Next;
    BlocksPrefix(1);
    assert Blocks(0) == [];
    BlocksAdd(u, 1, k - 1);
  }

  lemma PositivePrice(s: State, a: Auction)
    requires Terms(s, a)
    ensures a.currentPrice > 0
  {}

  lemma NothingOff(a: Auction, rate: int)
    requires 0 < a.initialRate <= a.currentRate && 0 < a.initialPrice
    requires rate == a.initialRate || rate == a.currentRate
    ensures Mul(a.initialPrice, rate) >= 0
  {
    MulMonotone(a.initialPrice, 0, rate);
    MulInt(0, a.initialPrice);
  }

  /** No bid is recent at a decrease due now, so none will be at a later one. */
  lemma NoneRecent(u: State, a: Auction)
    requires Inv(u) && Terms(u, a) && Due(u.height, a) && !RecentBid(u, a)
    ensures Quiet(u, a.id, Horizon(a, u.height))
  {
    hide Due, RecentBid, Terms;
    StartsBefore(u, a);
    InvPlaced(u, a.id);
    InvOrder(u);
    TermsStart(u, a);
    DueAfterInterval(u, a);
    RecentIffWithin(u, a);
  }

  lemma TermsStart(s: State, a: Auction)
    requires Terms(s, a)
    ensures 0 < a.startBlock <= s.height && a.interval != 0
  {}

  /** A rate that gains from now on ends the auction. */
  lemma GainsFromNow(u: State, id: nat, k: nat, gain: int)
    requires Inv(u) && Supplied(u) && id in u.active && Due(u.height, u.active[id]) && !RecentBid(u, u.active[id])
    requires 0 < gain <= Gain(u.active[id].currentRate, u.params.acceleration) && u.height + k < INT64_LIMIT
    requires k >= Spacing(u.active[id]) * (1 + (ONE - 1 - u.active[id].currentRate) / gain)
    ensures id !in Run(u, Blocks(k)).active
  {
    hide Inv, Supplied, Terms, Run, Gain, Due, RecentBid, Next, Spacing, OnRise, Decreases, NoBids;
    var a := u.active[id];
    ActiveTerms(u, id);
    TermsStart(u, a);
    StartsBefore(u, a);
    NoneRecent(u, a);
    StartsRising(u, id, gain);
    ConstantBlocks(u, k, a.currentRate, gain);
    NoBidsInBlocks(k, id);
    RiseRun(u, Blocks(k), id, u.height, a.currentRate, gain);
    BlocksOnly(u, k);
    LaterInv(u, Blocks(k));
    if id in Run(u, Blocks(k)).active {
      DueLater(u, a);
      RiseBound(u, Run(u, Blocks(k)), id, u.height, a.currentRate, gain);
    }
  }

  lemma DueLater(u: State, a: Auction)
    requires 0 < a.startBlock <= u.height && Due(u.height, a)
    ensures a.startBlock < u.height
  {}

  lemma StartsRising(u: State, id: nat, gain: nat)
    requires id in u.active && id <= u.lastAuctionId && u.active[id].interval != 0 && u.active[id].currentRate >= 0
    requires Quiet(u, id, Horizon(u.active[id], u.height))
    ensures OnRise(u, u, id, u.height, u.active[id].currentRate, gain)
  {
    hide Decreases;
  }

  lemma NoBidsInBlocks(k: nat, id: nat)
    ensures NoBids(Blocks(k), id)
  {}

  // ----- both directions at once -----

  /** An auction without bids, with the parameters as they are, keeps its price for ever if the rate from which its next
      decrease starts takes nothing off and rounds back to itself when accelerated, and only then. */
  lemma StallsExactlyWhenFlat(s: State, id: nat, n: nat)
    requires Reachable(s) && id in s.active
    requires s.height + n < INT64_LIMIT
    requires n > BlocksToTell(s.active[id], RateFrom(s, s.active[id]), s.params.acceleration)
    ensures id in Run(s, Blocks(n)).active && Run(s, Blocks(n)).active[id].currentPrice == s.active[id].currentPrice
       <==> var rate := RateFrom(s, s.active[id]);
            Flat(rate, s.params.acceleration) && Mul(s.active[id].initialPrice, rate) == 0
  {
    hide Inv, Supplied, Terms, Run, Next, Mul, BlocksToEnd, BlocksToTell, RateFrom, NextDue, Spacing, Due, Gain, Flat, RecentBid, SameBids,
         NoBids, Reachable;
    ReachableInv(s);
    ActiveTerms(s, id);
    var a := s.active[id];
    StartsBefore(s, a);
    NextDueIs(a, s.height);
    var rate, m := RateFrom(s, a), NextDue(a, s.height) - s.height;
    RateBelowOne(s, a);
    TellsAfterDue(a, rate, s.params.acceleration);
    Waits(s, id, m);
    BlocksOnly(s, m);
    LaterInv(s, Blocks(m));
    var u := Run(s, Blocks(m));
    RateFromIs(s, u, a);
    BlocksAdd(s, m, n - m);
    GainIsNat(rate, s.params.acceleration);
    if Flat(rate, s.params.acceleration) {
      FlatFromNow(u, id, n - m, rate);
    } else if RecentBid(u, a) {
      ConstantBlocks(s, n, rate, Gain(rate, s.params.acceleration));
      NoBidsInBlocks(n, id);
      BlocksOnly(s, n);
      GrowingRateEnds(s, Blocks(n), id, Gain(rate, s.params.acceleration));
    } else {
      BlocksSplit(a, rate, Gain(rate, s.params.acceleration));
      GainsFromNow(u, id, n - m, Gain(rate, s.params.acceleration));
    }
  }

  lemma RateBelowOne(s: State, a: Auction)
    requires Terms(s, a) && a.currentRate < ONE
    ensures 0 < RateFrom(s, a) < ONE
  {
    hide NextDue, RecentBid;
  }

  lemma GainIsNat(rate: nat, acceleration: nat)
    ensures Gain(rate, acceleration) >= 0
    ensures Flat(rate, acceleration) <==> Gain(rate, acceleration) == 0
  {
    GainGrows(rate, rate, acceleration);
  }

  lemma TellsAfterDue(a: Auction, rate: int, acceleration: int)
    requires rate < ONE && a.interval != 0
    ensures BlocksToTell(a, rate, acceleration) >= 2 * Spacing(a)
    ensures Gain(rate, acceleration) > 0 ==> BlocksToTell(a, rate, acceleration) == BlocksToEnd(a, rate, Gain(rate, acceleration))
    ensures Spacing(a) > 0
  {
    hide Gain;
    if Gain(rate, acceleration) > 0 {
      var top := (ONE - 1 - rate) / Gain(rate, acceleration);
      assert top >= 0;
      MulMono(2, 2 + top, Spacing(a));
    }
  }

  /** A first decrease of zero alone stalls nothing: at full acceleration a rate of 0.4 takes the whole price of
      10^-18 at the first due height. */
  lemma FirstDecreaseZeroYetFalls(s: State, a: Auction)
    requires a.initialPrice == 1 && a.currentPrice == 1 && a.initialRate == a.currentRate == 2 * ONE / 5
    requires s.params.acceleration == ONE && Due(s.height, a) && !RecentBid(s, a)
    ensures Mul(a.initialPrice, a.initialRate) == 0 && Ticked(s, a).currentPrice == 0
  {
    hide Due, RecentBid;
    MulInt(2, a.currentRate);
    assert FromInt(2) == ONE + ONE;
  }
}
