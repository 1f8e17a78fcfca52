/** Exactly which bids are accepted, what they leave, and what finishing leaves, in every reachable state. */
module AuctionOffers {
  import opened Arithmetic
  import opened AuctionBid
  import opened AuctionFinish
  import opened AuctionInvariant
  import opened AuctionPricing
  import opened AuctionRuns
  import opened AuctionSpec
  import opened AuctionTheorems
  import opened AuctionTypes
  import opened Bank
  import opened Decimal
  import opened Outcomes

  // ----- pricing -----

  /** The bid is not too small, its maximum covers its minimum, and that much is left. */
  predicate Covers(remaining: nat, price: int, maxBid: nat, minimum: nat, minimumBid: nat)
    requires price > 0
  {
    && maxBid >= Least(remaining * price / 1_000_000_000_000_000_000, minimumBid)
    && WholeUsomm(minimum, price) <= maxBid
    && minimum <= remaining
  }

  /** What a covered bid buys. */
  function Bought(remaining: nat, price: int, maxBid: nat): nat
    requires price > 0
  {
    Least(Affordable(maxBid, price), remaining)
  }

  /** What each error of pricing says. */
  predicate QuoteCause(remaining: nat, price: int, maxBid: nat, minimum: nat, minimumBid: nat, e: Error)
    requires price > 0
  {
    match e
    case BidAmountIsTooSmall => maxBid < Least(remaining * price / 1_000_000_000_000_000_000, minimumBid)
    case InsufficientBid => WholeUsomm(minimum, price) > maxBid
    case MinimumPurchaseAmountLargerThanTokensRemaining => minimum > remaining
    case _ => false
  }

  /** Pricing succeeds exactly on a covered bid whose numbers fit, with everything it can afford or that is left. */
  lemma QuoteExactly(remaining: nat, price: int, maxBid: nat, minimum: nat, minimumBid: nat)
    requires price > 0
    ensures var r := Quote(remaining, price, maxBid, minimum, minimumBid);
            && (r.Ok? <==> !Overflows(remaining, price, maxBid, minimum, minimumBid) && Covers(remaining, price, maxBid, minimum, minimumBid))
            && (r.Ok? ==> r.value == Fill(Bought(remaining, price, maxBid), WholeUsomm(Bought(remaining, price, maxBid), price)))
            && (r.Fail? ==> QuoteCause(remaining, price, maxBid, minimum, minimumBid, r.error))
  {
    hide Quote, Overflows, Covers, QuoteCause, Bought, WholeUsomm;
    PanicsOnOverflow(remaining, price, maxBid, minimum, minimumBid);
    if Quote(remaining, price, maxBid, minimum, minimumBid).Ok? {
      QuoteCovers(remaining, price, maxBid, minimum, minimumBid);
    }
    if Quote(remaining, price, maxBid, minimum, minimumBid).Fail? {
      QuoteFails(remaining, price, maxBid, minimum, minimumBid);
    }
  }

  lemma QuoteFails(remaining: nat, price: int, maxBid: nat, minimum: nat, minimumBid: nat)
    requires price > 0 && Quote(remaining, price, maxBid, minimum, minimumBid).Fail?
    ensures QuoteCause(remaining, price, maxBid, minimum, minimumBid, Quote(remaining, price, maxBid, minimum, minimumBid).error)
    ensures !Covers(remaining, price, maxBid, minimum, minimumBid)
  {
    hide Mul, Ceil, Quo, Truncate, WholeUsomm, Affordable;
    CostOf(remaining, price);
    MulMono(0, remaining, price);
    ValueInUsomm(remaining * price, minimumBid);
    WholeUsommIsCost(minimum, price);
  }

  lemma QuoteCovers(remaining: nat, price: int, maxBid: nat, minimum: nat, minimumBid: nat)
    requires price > 0 && Quote(remaining, price, maxBid, minimum, minimumBid).Ok?
    ensures Covers(remaining, price, maxBid, minimum, minimumBid)
    ensures Quote(remaining, price, maxBid, minimum, minimumBid).value ==
            Fill(Bought(remaining, price, maxBid), WholeUsomm(Bought(remaining, price, maxBid), price))
  {
    AcceptedBid(remaining, price, maxBid, minimum, minimumBid);
    AcceptedTokens(remaining, price, maxBid, minimum, minimumBid);
    var fill := Quote(remaining, price, maxBid, minimum, minimumBid).value;
    QuoteChecks(remaining, price, maxBid, minimum, minimumBid);
    hide Quote, QuotientRoundsUp;
    DivUnique(fill.tokens * price + ONE - 1, ONE, fill.payment, fill.tokens * price + ONE - 1 - fill.payment * ONE);
  }

  lemma QuoteChecks(remaining: nat, price: int, maxBid: nat, minimum: nat, minimumBid: nat)
    requires price > 0 && Quote(remaining, price, maxBid, minimum, minimumBid).Ok?
    ensures maxBid >= Least(remaining * price / ONE, minimumBid) && WholeUsomm(minimum, price) <= maxBid
  {
    hide Mul, Ceil, Quo, Truncate, WholeUsomm;
    CostOf(remaining, price);
    MulMono(0, remaining, price);
    ValueInUsomm(remaining * price, minimumBid);
    WholeUsommIsCost(minimum, price);
  }

  // ----- messages -----

  /** A bid that passes its validation. */
  predicate ValidMessage(m: MsgSubmitBid) {
    && m.auctionId != 0
    && m.maxBid.denom == "usomm" && m.maxBid.amount > 0
    && m.minimum.amount > 0 && "gravity0x" <= m.minimum.denom
    && m.signer != ""
  }

  lemma ValidMessageExactly(m: MsgSubmitBid)
    ensures m.ValidateBasic().Ok? <==> ValidMessage(m)
  {}

  // ----- bidding -----

  /** Everything that an accepted bid needs. */
  ghost predicate Acceptable(s: State, m: MsgSubmitBid) {
    && m.auctionId in s.active && m.maxBid.amount >= 0 && m.minimum.amount >= 0
    && var a := s.active[m.auctionId];
    && a.starting.denom == m.minimum.denom && a.currentPrice > 0 && a.remaining.amount >= 0
    && !Overflows(a.remaining.amount, a.currentPrice, m.maxBid.amount, m.minimum.amount, s.params.minimumBidInUsomm)
    && Covers(a.remaining.amount, a.currentPrice, m.maxBid.amount, m.minimum.amount, s.params.minimumBidInUsomm)
    && s.lastBidId + 1 < 0x1_0000_0000_0000_0000
    && Balance(s.bank, User(m.signer), "usomm") >= WholeUsomm(Bought(a.remaining.amount, a.currentPrice, m.maxBid.amount), a.currentPrice)
  }

  /** The state after an accepted bid, up to the ledger: the next bid id holds its record, and the auction has fewer tokens
      left or, if none is left, has ended at this height. */
  function Taken(s: State, m: MsgSubmitBid, bank: Balances): State
    requires m.auctionId in s.active && s.active[m.auctionId].currentPrice > 0 && s.active[m.auctionId].remaining.amount >= 0
    requires m.maxBid.amount >= 0 && s.lastBidId + 1 < 0x1_0000_0000_0000_0000
  {
    var a, id := s.active[m.auctionId], m.auctionId as nat;
    var tokens := Bought(a.remaining.amount, a.currentPrice, m.maxBid.amount);
    var bid := Bid(s.lastBidId + 1, m.auctionId, m.signer, m.maxBid, m.minimum, Coin(a.starting.denom, tokens), a.currentPrice,
                   Coin("usomm", WholeUsomm(tokens, a.currentPrice)), s.height);
    var b := a.(remaining := Coin(a.starting.denom, a.remaining.amount - tokens));
    var t := s.(bank := bank, bids := s.bids[(id, bid.id as nat) := bid], lastBidId := bid.id);
    if b.remaining.amount == 0 then t.(active := s.active - {id}, ended := s.ended[id := b.(endBlock := s.height)])
    else t.(active := s.active[id := b])
  }

  /** What each error of bidding says. */
  ghost predicate BidCause(s: State, m: MsgSubmitBid, e: Error) {
    match e
    case AuctionNotFound => m.auctionId !in s.active
    case BidAuctionDenomMismatch => m.auctionId in s.active && s.active[m.auctionId].starting.denom != m.minimum.denom
    case BidIDMustBeNonZero => s.lastBidId + 1 == 0x1_0000_0000_0000_0000
    case InsufficientFunds =>
      && m.auctionId in s.active && s.active[m.auctionId].currentPrice > 0 && s.active[m.auctionId].remaining.amount >= 0 && m.maxBid.amount >= 0
      && var a := s.active[m.auctionId];
         Balance(s.bank, User(m.signer), "usomm") < WholeUsomm(Bought(a.remaining.amount, a.currentPrice, m.maxBid.amount), a.currentPrice)
    case _ =>
      && m.auctionId in s.active && m.maxBid.amount >= 0 && m.minimum.amount >= 0
      && s.active[m.auctionId].currentPrice > 0 && s.active[m.auctionId].remaining.amount >= 0
      && QuoteCause(s.active[m.auctionId].remaining.amount, s.active[m.auctionId].currentPrice, m.maxBid.amount, m.minimum.amount,
                    s.params.minimumBidInUsomm, e)
  }

  /** The bid that a covered message makes passes its validation unless the bid ids are used up. */
  lemma BidValid(s: State, a: Auction, m: MsgSubmitBid, fill: Fill)
    requires ValidMessage(m) && a.currentPrice > 0 && fill.tokens >= 0 && fill.payment >= 0
    ensures NewBid(s, a, m, fill).ValidateBasic() ==
            if s.lastBidId + 1 == 0x1_0000_0000_0000_0000 then Fail(BidIDMustBeNonZero) else Ok(())
  {
    assert GRAVITY_DENOM_PREFIX <= BRIDGED_DENOM_PREFIX <= m.minimum.denom;
  }

  lemma PreparesExactly(s: State, m: MsgSubmitBid, a: Auction)
    requires ValidMessage(m) && m.auctionId in s.active && a == s.active[m.auctionId]
    requires a.currentPrice > 0 && a.remaining.amount > 0 && Balance(s.bank, ESCROW, a.starting.denom) == a.remaining.amount
    ensures var tokens := Bought(a.remaining.amount, a.currentPrice, m.maxBid.amount);
            && (PrepareBid(s, m).Ok? <==>
                  && a.starting.denom == m.minimum.denom && s.lastBidId + 1 < 0x1_0000_0000_0000_0000
                  && !Overflows(a.remaining.amount, a.currentPrice, m.maxBid.amount, m.minimum.amount, s.params.minimumBidInUsomm)
                  && Covers(a.remaining.amount, a.currentPrice, m.maxBid.amount, m.minimum.amount, s.params.minimumBidInUsomm))
            && (PrepareBid(s, m).Ok? ==> PrepareBid(s, m).value == NewBid(s, a, m, Fill(tokens, WholeUsomm(tokens, a.currentPrice))))
            && (PrepareBid(s, m).Fail? ==> BidCause(s, m, PrepareBid(s, m).error))
  {
    hide Quote, Overflows, Covers, Bought, WholeUsomm, Bid.ValidateBasic, Balance;
    QuoteExactly(a.remaining.amount, a.currentPrice, m.maxBid.amount, m.minimum.amount, s.params.minimumBidInUsomm);
    var quote := Quote(a.remaining.amount, a.currentPrice, m.maxBid.amount, m.minimum.amount, s.params.minimumBidInUsomm);
    if quote.Ok? { BidValid(s, a, m, quote.value); }
  }

  /** Settling an offered bid: it needs the bidder's funds, and leaves the records of the bid and of what is left. */
  lemma SettlesExactly(s: State, a: Auction, bid: Bid)
    requires Inv(s) && Supplied(s) && Offered(s, a, bid)
    ensures var r := SettleBid(s, bid);
            && (r.Ok? <==> Balance(s.bank, User(bid.bidder), "usomm") >= bid.paid.amount)
            && (r.Fail? ==> r.error == InsufficientFunds)
            && (r.Ok? ==>
                  var b := a.(remaining := Coin(a.starting.denom, a.remaining.amount - bid.fulfilled.amount));
                  var t := s.(bank := r.value.bank, bids := s.bids[(a.id as nat, bid.id as nat) := bid], lastBidId := bid.id);
                  r.value == if b.remaining.amount == 0 then t.(active := s.active - {a.id as nat}, ended := s.ended[a.id as nat := b.(endBlock := s.height)])
                             else t.(active := s.active[a.id as nat := b]))
  {
    hide Inv, Supplied, Balance, Conclude, BidShape, SettleBid, Accepted;
    OfferedParts(s, a, bid);
    SettleKeepsInv(s, a, bid);
    SettledState(s, a, bid);
    FundsDecide(s, bid);
    if SettleBid(s, bid).Ok? {
      var bank :| Accepted(s, a, bid, bank) && SettleBid(s, bid) == Conclude(Recorded(s, a, bid, bank), AfterSale(a, bid.fulfilled.amount));
      RecordKeepsInv(s, a, bid, bank);
      Concludes(s, Recorded(s, a, bid, bank), AfterSale(a, bid.fulfilled.amount), a);
    }
  }

  lemma OfferedParts(s: State, a: Auction, bid: Bid)
    requires Inv(s) && Offered(s, a, bid)
    ensures bid.paid.amount >= 0 && a.starting.denom != USOMM && a.remaining.denom == a.starting.denom && Terms(s, a)
    ensures a.id in s.active && bid.auctionId == a.id
  {
    assert Terms(s, s.active[a.id]);
  }

  lemma FundsDecide(s: State, bid: Bid)
    requires bid.auctionId in s.active && bid.paid.amount >= 0
    ensures SettleBid(s, bid) == Fail(InsufficientFunds) <==> Balance(s.bank, User(bid.bidder), USOMM) < bid.paid.amount
    ensures SettleBid(s, bid).Fail? ==> SettleBid(s, bid).error == InsufficientFunds
  {
    hide FinishAuction, Balance;
  }

  /** Concluding a sale either leaves the state or ends the auction in it. */
  lemma Concludes(s: State, t: State, b: Auction, a: Auction)
    requires Inv(t) && b.id in t.active && t.active[b.id] == b
    requires a.id == b.id && t.active == s.active[a.id as nat := b]
    ensures Conclude(t, b).Ok?
    ensures Conclude(t, b).value ==
            if b.remaining.amount == 0
            then t.(bank := Conclude(t, b).value.bank, active := s.active - {a.id as nat}, ended := t.ended[a.id as nat := b.(endBlock := t.height)])
            else t
  {
    hide EndedShape, OneAuctionPerDenom, DenomOrder, Bids, BidOrder, SoldTokens, Escrow, FinishAuction, Inv;
    if b.remaining.amount == 0 {
      ActiveEscrow(t, b.id);
      FinishKeepsInv(t, b);
      assert t.active - {a.id as nat} == s.active - {a.id as nat};
    }
  }

  /** A valid bid is accepted exactly if it is acceptable, and then leaves exactly that state; an error says what was
      missing. `BidPanicsExactly` says when it panics instead. */
  lemma SubmitExactly(s: State, m: MsgSubmitBid)
    requires Reachable(s) && ValidMessage(m)
    ensures var r := SubmitBid(s, m);
            && (r.Ok? <==> Acceptable(s, m))
            && (r.Ok? ==> r.value == Taken(s, m, r.value.bank))
            && (r.Fail? ==> BidCause(s, m, r.error))
  {
    hide Inv, Supplied, PrepareBid, SettleBid, Overflows, Covers, Bought, WholeUsomm, Balance, Offered;
    ReachableInv(s);
    if m.auctionId in s.active {
      var a := s.active[m.auctionId];
      ActiveEscrow(s, m.auctionId);
      ActiveSupplied(s, m.auctionId);
      PricedNow(s, a);
      PreparesExactly(s, m, a);
      if PrepareBid(s, m).Ok? {
        PreparedIsOffered(s, m);
        SettlesExactly(s, a, PrepareBid(s, m).value);
      }
    } else {
      NoAuction(s, m);
    }
  }

  lemma PricedNow(s: State, a: Auction)
    requires Terms(s, a)
    ensures a.currentPrice > 0
  {}

  lemma NoAuction(s: State, m: MsgSubmitBid)
    requires m.auctionId !in s.active
    ensures SubmitBid(s, m) == Fail(AuctionNotFound)
  {}

  // ----- finishing -----

  /** In every reachable state finishing succeeds: the auction leaves the active store and is stored as ended at this height;
      besides the ledger nothing else changes. */
  lemma FinishExactly(s: State, id: nat)
    requires Reachable(s) && id in s.active
    ensures var r := FinishAuction(s, s.active[id]);
            && r.Ok?
            && r.value == s.(bank := r.value.bank, active := s.active - {id}, ended := s.ended[id := s.active[id].(endBlock := s.height)])
  {
    ReachableInv(s);
    var a := s.active[id];
    assert Stored(s, id) && Terms(s, a);
    FinishKeepsInv(s, a);
  }
}
