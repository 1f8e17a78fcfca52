/** Prices only fall, and an auction whose first decrease is positive is over within a known number of intervals. */
module AuctionProgress {
  import opened Arithmetic
  import opened AuctionBlock
  import opened AuctionInvariant
  import opened AuctionRuns
  import opened AuctionSpec
  import opened AuctionTypes
  import opened Bank
  import opened Decimal
  import opened Integers

  /** The terms that no step changes. */
  ghost predicate SameTerms(a: Auction, b: Auction) {
    && a.id == b.id && a.startBlock == b.startBlock && a.interval == b.interval
    && a.initialPrice == b.initialPrice && a.initialRate == b.initialRate
    && a.starting == b.starting && a.fundingModule == b.fundingModule && a.proceedsModule == b.proceedsModule
  }

  /** Only what is left to sell may differ. */
  ghost predicate SamePricing(a: Auction, b: Auction) {
    SameTerms(a, b) && a.currentPrice == b.currentPrice && a.currentRate == b.currentRate
  }

  /** Between blocks: an active auction keeps its terms, price and rate, or has just begun. */
  ghost predicate KeepsPrices(s: State, t: State) {
    && t.height == s.height
    && forall id :: id in t.active ==>
         || (id in s.active && SamePricing(s.active[id], t.active[id]))
         || (id !in s.active && t.active[id].startBlock == s.height && t.active[id].currentPrice == t.active[id].initialPrice)
  }

  lemma SettleKeepsPrices(s: State, bid: Bid)
    requires Ids(s) && bid.auctionId in s.active
    ensures KeepsPrices(s, Commit(s, SettleBid(s, bid)))
  {
    hide Send, Balance, Proceeds;
    assert Stored(s, bid.auctionId) && AuctionOf(s, bid.auctionId) == s.active[bid.auctionId];
  }

  lemma BidKeepsPrices(s: State, m: MsgSubmitBid)
    requires Ids(s)
    ensures KeepsPrices(s, Commit(s, SubmitBid(s, m)))
  {
    if PrepareBid(s, m).Ok? { SettleKeepsPrices(s, PrepareBid(s, m).value); }
  }

  lemma OpenKeepsPrices(s: State, a: Auction)
    requires Ids(s) && a.id == WrapUint32(s.lastAuctionId + 1)
    requires a.startBlock == s.height && a.currentPrice == a.initialPrice
    ensures KeepsPrices(s, Commit(s, OpenAuction(s, a)))
  {
    assert a.id != 0 ==> !Stored(s, a.id);
  }

  lemma BeginKeepsPrices(s: State, starting: Coin, rate: int, interval: uint64, funding: string, proceeds: string)
    requires Ids(s)
    ensures KeepsPrices(s, Commit(s, BeginAuction(s, starting, rate, interval, funding, proceeds)))
  {
    var r := BeginAuction(s, starting, rate, interval, funding, proceeds);
    if r.Ok? {
      var price := StartingPrice(s.prices[starting.denom], s.prices[USOMM]).value;
      OpenKeepsPrices(s, NewAuction(s, starting, rate, interval, funding, proceeds, price));
    }
  }

  lemma StepKeepsPrices(s: State, step: Step)
    requires Ids(s) && !step.EndBlock?
    ensures KeepsPrices(s, Next(s, step))
  {
    match step
    case Begin(starting, rate, interval, funding, proceeds) => BeginKeepsPrices(s, starting, rate, interval, funding, proceeds);
    case Submit(m) => BidKeepsPrices(s, m);
    case _ =>
  }

  lemma ActivePriced(s: State)
    requires ActiveShape(s)
    ensures Priced(s)
  {
    forall id | id in s.active ensures s.active[id].currentPrice > 0 {
      assert Terms(s, s.active[id]);
    }
  }

  /** The end of the block treats the auction as `Ticked` says. */
  lemma EndBlockOn(s: State, id: nat)
    requires Inv(s) && Supplied(s)
    ensures EndBlocker(s).Ok? && EndBlocker(s).value.height == s.height
    ensures SameRecordOrTicked(s, EndBlocker(s).value, id)
    ensures id in s.active ==> Terms(s, s.active[id]) && s.params.Valid()
  {
    EndBlockerKeepsInv(s);
    ActivePriced(s);
    EndBlockerOn(s, id);
  }

  /** Until the next block, an active auction stays as it was, or lost a positive amount that is at least its first
      decrease when one was due. */
  lemma EndBlockPrices(s: State, id: nat)
    requires Inv(s) && Supplied(s) && s.height + 1 < INT64_LIMIT
    requires id in Next(s, EndBlock).active
    ensures id in s.active
    ensures var a, b := s.active[id], Next(s, EndBlock).active[id];
            && SameTerms(a, b) && a.startBlock <= s.height
            && b.currentPrice <= a.currentPrice
            && (Due(s.height, a) ==> b.currentPrice <= a.currentPrice - Mul(a.initialPrice, a.initialRate))
  {
    hide EndBlocker, BeginAuction, SubmitBid, SetTokenPrices, Ticked, Inv, Supplied, Mul, Due;
    EndBlockOn(s, id);
    TickedRecord(s, s.active[id]);
  }

  lemma TickedRecord(s: State, a: Auction)
    requires s.params.Valid() && Terms(s, a)
    ensures var b := Ticked(s, a);
            && SameTerms(a, b) && b.currentPrice <= a.currentPrice
            && (Due(s.height, a) ==> b.currentPrice <= a.currentPrice - Mul(a.initialPrice, a.initialRate))
  {
    TickRecord(s, a);
  }

  /** No step raises the price of an active auction or changes its terms. */
  lemma PricesNeverRise(s: State, step: Step, id: nat)
    requires Reachable(s)
    requires id in s.active && id in Next(s, step).active
    ensures SameTerms(s.active[id], Next(s, step).active[id])
    ensures Next(s, step).active[id].currentPrice <= s.active[id].currentPrice
  {
    ReachableInv(s);
    StepPrice(s, step, id);
  }

  lemma StepPrice(s: State, step: Step, id: nat)
    requires Inv(s) && Supplied(s)
    requires id in s.active && id in Next(s, step).active
    ensures SameTerms(s.active[id], Next(s, step).active[id])
    ensures Next(s, step).active[id].currentPrice <= s.active[id].currentPrice
  {
    if !step.EndBlock? {
      StepKeepsPrices(s, step);
    } else if s.height + 1 < INT64_LIMIT {
      EndBlockPrices(s, id);
    }
  }

  // ----- the bound on the length of an auction -----

  /** How many price decreases fell due before the current height. */
  function Decreases(a: Auction, height: int): nat
    requires a.interval != 0
  {
    if height > a.startBlock then (height - 1 - a.startBlock) / Spacing(a) else 0
  }

  ghost predicate Pace(a: Auction, height: int) {
    a.interval != 0 ==>
      Decreases(a, height) * Mul(a.initialPrice, a.initialRate) <= a.initialPrice - a.currentPrice
  }

  /** Every decrease so far took off at least the first one's amount. */
  ghost predicate OnPace(s: State) {
    forall id :: id in s.active ==> Pace(s.active[id], s.height)
  }

  /** Passing a height adds one decrease exactly when one is due there. */
  lemma NextDecreases(a: Auction, height: Height)
    requires a.interval != 0 && a.startBlock <= height
    ensures Decreases(a, height + 1) == Decreases(a, height) + (if Due(height, a) then 1 else 0)
  {
    if height > a.startBlock { OneMoreDividend(height - a.startBlock, Spacing(a)); }
  }

  lemma OneMoreDividend(n: int, i: int)
    requires n > 0 && i > 0
    ensures n / i == (n - 1) / i + (if n % i == 0 then 1 else 0)
  {
    var q, r := (n - 1) / i, (n - 1) % i;
    assert n - 1 == q * i + r;
    if r == i - 1 {
      assert (q + 1) * i == q * i + i;
      DivUnique(n, i, q + 1, 0);
    } else {
      DivUnique(n, i, q, r + 1);
    }
  }

  lemma KeepsPricesKeepsPace(s: State, t: State)
    requires OnPace(s) && KeepsPrices(s, t)
    ensures OnPace(t)
  {}

  lemma EndBlockKeepsPace(s: State, t: State)
    requires Inv(s) && Supplied(s) && OnPace(s) && s.height + 1 < INT64_LIMIT && t == Next(s, EndBlock)
    ensures OnPace(t)
  {
    forall id | id in t.active ensures Pace(t.active[id], t.height) {
      EndBlockPrices(s, id);
      StepsOnPace(s, t, id);
    }
  }

  /** What `EndBlockPrices` says of one auction keeps it on pace. */
  lemma StepsOnPace(s: State, t: State, id: nat)
    requires OnPace(s) && id in s.active && id in t.active && t.height == s.height + 1
    requires SameTerms(s.active[id], t.active[id]) && s.active[id].startBlock <= s.height
    requires t.active[id].currentPrice <= s.active[id].currentPrice
    requires Due(s.height, s.active[id]) ==>
               t.active[id].currentPrice <= s.active[id].currentPrice - Mul(s.active[id].initialPrice, s.active[id].initialRate)
    ensures Pace(t.active[id], t.height)
  {
    PaceStep(s.active[id], t.active[id], s.height);
  }

  lemma PaceStep(a: Auction, b: Auction, height: Height)
    requires a.startBlock <= height && SameTerms(a, b) && Pace(a, height)
    requires b.currentPrice <= a.currentPrice
    requires Due(height, a) ==> b.currentPrice <= a.currentPrice - Mul(a.initialPrice, a.initialRate)
    ensures Pace(b, height + 1)
  {
    if a.interval != 0 {
      NextDecreases(a, height);
      OneMore(Decreases(a, height), Decreases(b, height + 1), Mul(a.initialPrice, a.initialRate),
              a.initialPrice - a.currentPrice, b.initialPrice - b.currentPrice);
    }
  }

  lemma OneMore(n: int, m: int, d: int, gap: int, widened: int)
    requires n * d <= gap <= widened
    requires m == n || (m == n + 1 && gap + d <= widened)
    ensures m * d <= widened
  {
    assert (n + 1) * d == n * d + d;
  }

  lemma {:induction false} RunOnPace(s: State, steps: seq<Step>)
    requires Genesis(s)
    ensures OnPace(Run(s, steps))
  {
    if steps != [] {
      var before, step := steps[..|steps| - 1], steps[|steps| - 1];
      RunOnPace(s, before);
      RunKeepsInv(s, before);
      StepKeepsPace(Run(s, before), step);
    }
  }

  lemma StepKeepsPace(s: State, step: Step)
    requires Inv(s) && Supplied(s) && OnPace(s)
    ensures OnPace(Next(s, step))
  {
    if !step.EndBlock? {
      StepKeepsPrices(s, step);
      KeepsPricesKeepsPace(s, Next(s, step));
    } else if s.height + 1 < INT64_LIMIT {
      EndBlockKeepsPace(s, Next(s, step));
    }
  }

  /** An auction whose first decrease `d` is positive is no longer active after height
      `startBlock + spacing * ceil(initialPrice / d)`, whatever bids arrive. */
  lemma AuctionsEnd(s: State, id: nat)
    requires Reachable(s) && id in s.active
    requires Mul(s.active[id].initialPrice, s.active[id].initialRate) > 0
    ensures var a := s.active[id];
            var d := Mul(a.initialPrice, a.initialRate);
            s.height <= a.startBlock + Spacing(a) * ((a.initialPrice + d - 1) / d)
  {
    ReachableOnPace(s, id);
    PaceBound(s.active[id], s.height);
  }

  lemma ReachableOnPace(s: State, id: nat)
    requires Reachable(s) && id in s.active
    ensures Pace(s.active[id], s.height) && Terms(s, s.active[id])
  {
    var genesis, steps :| Genesis(genesis) && s == Run(genesis, steps);
    RunOnPace(genesis, steps);
    RunKeepsInv(genesis, steps);
  }

  lemma PaceBound(a: Auction, height: Height)
    requires a.interval != 0 && 0 < a.currentPrice && Mul(a.initialPrice, a.initialRate) > 0
    requires Pace(a, height)
    ensures var d := Mul(a.initialPrice, a.initialRate);
            height <= a.startBlock + Spacing(a) * ((a.initialPrice + d - 1) / d)
  {
    var d, n := Mul(a.initialPrice, a.initialRate), Decreases(a, height);
    DivAtLeast(a.initialPrice + d - 1, d, n + 1);
    assert (n + 1) * d == n * d + d;
    var bound := (a.initialPrice + d - 1) / d;
    MulMono(n + 1, bound, Spacing(a));
    assert Spacing(a) * bound == bound * Spacing(a);
    if height > a.startBlock {
      DivAtLeast(height - 1 - a.startBlock, Spacing(a), n + 1);
    } else {
      MulMono(0, bound, Spacing(a));
    }
  }
}
