/** What the end of a block makes of one auction's record, in every reachable state and in plain numbers. */
module AuctionDecrease {
  import opened AuctionBlock
  import opened AuctionInvariant
  import opened AuctionProgress
  import opened AuctionPruning
  import opened AuctionRuns
  import opened AuctionSpec
  import opened AuctionTheorems
  import opened AuctionTypes
  import opened Decimal
  import opened Integers
  import opened Rounding

  /** A decrease falls on this height: a whole number of intervals after the start, an interval from 2^63 on counting as
      its distance from 2^64. */
  predicate Falls(height: int, a: Auction) {
    var spacing := if a.interval < 0x8000_0000_0000_0000 then a.interval else 0x1_0000_0000_0000_0000 - a.interval;
    spacing > 0 && height > a.startBlock && (height - a.startBlock) % spacing == 0
  }

  lemma DueWhenFalls(height: Height, a: Auction)
    requires a.interval != 0 && a.startBlock <= height
    ensures Due(height, a) <==> Falls(height, a)
  {}

  /** The rate of a decrease: the initial one exactly if a bid was placed within the last interval, else the current one
      times one plus the acceleration, rounded. */
  ghost predicate RateAfter(s: State, a: Auction, rate: int) {
    if a.interval <= s.height && BidSince(s, a.id, s.height - a.interval) then rate == a.initialRate
    else HalfEven(rate, a.currentRate * (1_000_000_000_000_000_000 + s.params.acceleration))
  }

  /** What a decrease of `amount` at `rate` leaves: an active auction with a lower price, or an ended one with the price it
      had. */
  ghost predicate Decreased(s: State, u: State, id: nat, rate: int, amount: int)
    requires id in s.active
  {
    var a := s.active[id];
    if a.currentPrice > amount then
      id in u.active && id !in u.ended && u.active[id] == a.(currentRate := rate, currentPrice := a.currentPrice - amount)
    else
      id !in u.active && id in u.ended && u.ended[id] == a.(currentRate := rate, endBlock := s.height)
  }

  ghost predicate FallsTo(s: State, u: State, id: nat, rate: int, amount: int)
    requires id in s.active
  {
    RateAfter(s, s.active[id], rate) && HalfEven(amount, s.active[id].initialPrice * rate) && Decreased(s, u, id, rate, amount)
  }

  lemma NextRateIs(s: State, a: Auction)
    requires Reachable(s) && a.id in s.active && a == s.active[a.id]
    ensures RateAfter(s, a, NextRate(s, a))
  {
    hide Mul, RecentBid, HalfEven;
    LastBidDecides(s, a);
    MulHalfEven(a.currentRate, ONE + s.params.acceleration);
  }

  /** An auction that ends now is the latest of its denomination. */
  lemma EndingIsLatest(s: State, id: nat)
    requires OneAuctionPerDenom(s) && DenomOrder(s) && id in s.active && id !in s.ended && Over(s, id)
    ensures LatestOfDenom(s, id)
  {
    hide Ticked, NextRate;
    forall j: nat | Over(s, j) && Final(s, j).starting.denom == Final(s, id).starting.denom ensures j <= id {
      assert j in s.ended || j in s.active;
    }
  }

  /** The record of an auction after the end of a block, in every reachable state: at a height on which a decrease falls the
      rate is reset or accelerated, the initial price times that rate comes off, and the auction ends, and is kept, if
      nothing is left of the price; at any other height nothing changes. */
  lemma BlockDecreases(s: State, id: nat)
    requires Reachable(s) && id in s.active
    ensures EndBlocker(s).Ok?
    ensures var u := EndBlocker(s).value;
            if Falls(s.height, s.active[id]) then exists rate, amount :: FallsTo(s, u, id, rate, amount)
            else id in u.active && u.active[id] == s.active[id]
  {
    hide Inv, Supplied, EndBlocker, Ticked, Falls, Due, HalfEven, Mul, RateAfter, Over, LatestOfDenom, Recent, Final;
    ReachableInv(s);
    var a := s.active[id];
    StoredParts(s, id);
    EndBlockOn(s, id);
    BlockKeepsLatest(s, id);
    DueWhenFalls(s.height, a);
    var rate := NextRate(s, a);
    var amount := Mul(a.initialPrice, rate);
    var u := EndBlocker(s).value;
    TickedIs(s, a);
    OverWhen(s, id);
    if Falls(s.height, a) {
      NextRateIs(s, a);
      MulHalfEven(a.initialPrice, rate);
      if a.currentPrice <= amount { EndingIsLatest(s, id); }
      assert Decreased(s, u, id, rate, amount);
      assert FallsTo(s, u, id, rate, amount);
    }
  }

  lemma TickedIs(s: State, a: Auction)
    ensures Ticked(s, a) == if Due(s.height, a) then a.(currentRate := NextRate(s, a), currentPrice := a.currentPrice - Mul(a.initialPrice, NextRate(s, a))) else a
  {}

  lemma OverWhen(s: State, id: nat)
    requires id in s.active && id !in s.ended
    ensures Over(s, id) <==> Ticked(s, s.active[id]).currentPrice <= 0
    ensures Over(s, id) ==> Final(s, id) == s.active[id].(currentRate := NextRate(s, s.active[id]), endBlock := s.height)
  {}

  lemma StoredParts(s: State, id: nat)
    requires Inv(s) && id in s.active
    ensures OneAuctionPerDenom(s) && DenomOrder(s) && id !in s.ended
    ensures s.active[id].id == id && s.active[id].interval != 0 && s.active[id].startBlock <= s.height && s.active[id].currentPrice > 0
  {
    assert Stored(s, id) && Terms(s, s.active[id]);
  }
}
