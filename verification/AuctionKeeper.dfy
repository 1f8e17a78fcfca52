/** The auction keeper: handlers that update the store and the bank step by step, proved against `AuctionSpec`. */
module AuctionKeeper {
  import opened AuctionSpec
  import opened AuctionTypes
  import opened Bank
  import opened Collections
  import opened Decimal
  import opened Integers
  import opened Outcomes

  /** A handler ended the way the specification says. */
  predicate Same(r: Checked<()>, spec: Checked<State>) {
    match spec
    case Ok(_) => r.Ok?
    case Fail(e) => r == Fail(e)
    case Panic(p) => r == Panic(p)
  }

  // ----- the pruning loop -----

  /** The doomed auctions among those visited, `ids[i..]`. */
  ghost function Gone(s: State, ids: seq<nat>, i: nat): set<nat>
    requires forall id :: id in ids ==> id in s.ended
  {
    set j | i <= j < |ids| && !Survives(s, ids[j]) :: ids[j]
  }

  ghost function DenomsFrom(s: State, ids: seq<nat>, i: nat): set<string>
    requires forall id :: id in ids ==> id in s.ended
  {
    set j | i <= j < |ids| :: s.ended[ids[j]].starting.denom
  }

  lemma StillListed(s: State, ids: seq<nat>, i: nat)
    requires ids == Sorted(s.ended.Keys) && i < |ids|
    ensures ids[i] !in Gone(s, ids, i + 1)
  {}

  /** The loop's test decides survival, because the ids visited so far are all the higher ones. */
  lemma LaterVisited(s: State, ids: seq<nat>, i: nat)
    requires ids == Sorted(s.ended.Keys) && i < |ids|
    ensures s.ended[ids[i]].starting.denom in DenomsFrom(s, ids, i + 1) <==> Superseded(s, ids[i])
  {
    hide Sorted;
    var denom := s.ended[ids[i]].starting.denom;
    if denom in DenomsFrom(s, ids, i + 1) {
      var j :| i + 1 <= j < |ids| && s.ended[ids[j]].starting.denom == denom;
      assert ids[j] in s.ended && ids[j] > ids[i];
    }
    if Superseded(s, ids[i]) {
      var id :| id in s.ended && id > ids[i] && s.ended[id].starting.denom == denom;
      assert id in ids;
      var n :| 0 <= n < |ids| && ids[n] == id;
      assert n >= i + 1;
    }
  }

  lemma PruneStep(s: State, ids: seq<nat>, i: nat)
    requires forall id :: id in ids ==> id in s.ended
    requires i < |ids|
    ensures DenomsFrom(s, ids, i) == DenomsFrom(s, ids, i + 1) + {s.ended[ids[i]].starting.denom}
    ensures Gone(s, ids, i) == Gone(s, ids, i + 1) + (if Survives(s, ids[i]) then {} else {ids[i]})
  {
    hide Survives;
  }

  lemma DropOneMore(s: State, ids: set<nat>, id: nat)
    ensures Drop(Drop(s, ids), {id}) == Drop(s, ids + {id})
  {
    assert s.ended - (ids + {id}) == s.ended - ids - {id};
  }

  lemma NothingVisited(s: State, ids: seq<nat>)
    requires forall id :: id in ids ==> id in s.ended
    ensures DenomsFrom(s, ids, |ids|) == {}
    ensures Drop(s, Gone(s, ids, |ids|)) == s
  {
    hide Survives, Sorted;
    assert Gone(s, ids, |ids|) == {};
    assert Drop(s, {}).bids == s.bids;
    assert Drop(s, {}).ended == s.ended;
  }

  /** What the loop knows when it reaches `ids[i]`. */
  lemma Visited(s: State, ids: seq<nat>, i: nat)
    requires ids == Sorted(s.ended.Keys) && i < |ids|
    ensures ids[i] in s.ended
    ensures var now := Drop(s, Gone(s, ids, i + 1));
            && ids[i] in now.ended && now.ended[ids[i]] == s.ended[ids[i]]
            && now.height == s.height && now.params == s.params
    ensures s.ended[ids[i]].starting.denom in DenomsFrom(s, ids, i + 1) <==> Superseded(s, ids[i])
    ensures DenomsFrom(s, ids, i) == DenomsFrom(s, ids, i + 1) + {s.ended[ids[i]].starting.denom}
    ensures Gone(s, ids, i) == Gone(s, ids, i + 1) + (if Survives(s, ids[i]) then {} else {ids[i]})
  {
    hide Survives, Superseded;
    StillListed(s, ids, i);
    LaterVisited(s, ids, i);
    PruneStep(s, ids, i);
  }

  lemma AllVisited(s: State, ids: seq<nat>)
    requires ids == Sorted(s.ended.Keys)
    ensures Drop(s, Gone(s, ids, 0)) == Prune(s)
  {
    hide Survives;
    assert Gone(s, ids, 0) == set id | id in s.ended && !Survives(s, id);
  }

  class Keeper {
    const bankKeeper: BankKeeper
    const fundingModules: set<string>
    const proceedsModules: set<string>
    var height: Height
    var params: Params
    var active: map<nat, Auction>
    var ended: map<nat, Auction>
    var bids: map<BidKey, Bid>
    var prices: map<string, TokenPrice>
    var lastAuctionId: uint32
    var lastBidId: uint64

    ghost function View(): State
      reads this, bankKeeper
    {
      State(height, params, fundingModules, proceedsModules, bankKeeper.balances, active, ended, bids, prices, lastAuctionId, lastBidId)
    }

    constructor (bankKeeper: BankKeeper, fundingModules: set<string>, proceedsModules: set<string>, height: Height, params: Params)
      ensures this.bankKeeper == bankKeeper
      ensures View() == State(height, params, fundingModules, proceedsModules, bankKeeper.balances, map[], map[], map[], map[], 0, 0)
    {
      this.bankKeeper := bankKeeper;
      this.fundingModules := fundingModules;
      this.proceedsModules := proceedsModules;
      this.height := height;
      this.params := params;
      active, ended, bids, prices := map[], map[], map[], map[];
      lastAuctionId, lastBidId := 0, 0;
    }

    /** Append every bid of the auction in the order of the store's keys. */
    method GetBidsByAuctionID(auctionId: nat) returns (r: seq<Bid>)
      ensures r == BidsOf(bids, auctionId)
    {
      var ids := Sorted(BidIds(bids, auctionId));
      r := [];
      for i := 0 to |ids|
        invariant r == Gather(bids, auctionId, ids[..i])
      {
        assert ids[i] in BidIds(bids, auctionId);
        r := r + [bids[(auctionId, ids[i])]];
      }
      assert ids[..|ids|] == ids;
    }

    method GetAuctions(store: map<nat, Auction>) returns (r: seq<Auction>)
      ensures r == Auctions(store)
    {
      var ids := Sorted(store.Keys);
      r := [];
      for i := 0 to |ids|
        invariant |r| == i && forall j :: 0 <= j < i ==> ids[j] in store && r[j] == store[ids[j]]
      {
        assert ids[i] in store.Keys;
        r := r + [store[ids[i]]];
      }
      assert r == Values(store, ids);
    }

    method SumPayments(auctionBids: seq<Bid>) returns (total: int)
      ensures total == SumPaid(auctionBids)
    {
      total := 0;
      for i := 0 to |auctionBids|
        invariant total == SumPaid(auctionBids[..i])
      {
        assert auctionBids[..i + 1][..i] == auctionBids[..i];
        total := total + auctionBids[i].paid.amount;
      }
      assert auctionBids[..|auctionBids|] == auctionBids;
    }

    /** Return what is unsold, pay out what the bids paid, and move the record to the ended auctions. */
    method FinishAuction(auction: Auction) returns (r: Checked<()>)
      modifies this`active, this`ended, bankKeeper
      ensures Same(r, AuctionSpec.FinishAuction(old(View()), auction))
      ensures r.Ok? ==> View() == AuctionSpec.FinishAuction(old(View()), auction).value
    {
      hide Send, Balance, BidsOf, SumPaid;
      var unsold := Balance(bankKeeper.balances, ESCROW, auction.starting.denom);
      if unsold > 0 {
        var ok := bankKeeper.SendCoins(ESCROW, Module(auction.fundingModule), auction.starting.denom, unsold);
        if !ok { return Fail(InsufficientFunds); }
      }
      var auctionBids := GetBidsByAuctionID(auction.id);
      var proceeds := SumPayments(auctionBids);
      if proceeds > 0 {
        var ok := bankKeeper.SendCoins(ESCROW, Module(auction.proceedsModule), USOMM, proceeds);
        if !ok { return Fail(InsufficientFunds); }
      }
      active := active - {auction.id as nat};
      ended := ended[auction.id as nat := auction.(endBlock := height)];
      return Ok(());
    }

    /** The message handler. Every error leaves the state as it was. */
    method SubmitBid(m: MsgSubmitBid) returns (r: Checked<()>)
      modifies this`active, this`ended, this`bids, this`lastBidId, bankKeeper
      ensures Same(r, AuctionSpec.SubmitBid(old(View()), m))
      ensures r.Ok? ==> View() == AuctionSpec.SubmitBid(old(View()), m).value
      ensures r.Fail? ==> View() == old(View())
    {
      hide Quote, SettleBid, Balance;
      if m.auctionId !in active { return Fail(AuctionNotFound); }
      var auction := active[m.auctionId];
      if auction.starting.denom != m.minimum.denom { return Fail(BidAuctionDenomMismatch); }
      var balance := Balance(bankKeeper.balances, ESCROW, auction.starting.denom);
      var fill := PriceBid(balance, auction.currentPrice, m.maxBid.amount, m.minimum.amount, params.minimumBidInUsomm);
      if fill.IsFailure() { return fill.PropagateFailure(); }
      var newBidId := WrapUint64(lastBidId + 1);
      var bid := Bid(newBidId, m.auctionId, m.signer, m.maxBid, m.minimum, Coin(auction.starting.denom, fill.value.tokens),
                     auction.currentPrice, Coin(USOMM, fill.value.payment), height);
      var valid := bid.ValidateBasic();
      if valid.IsFailure() { return valid.PropagateFailure(); }
      r := Settle(bid, auction, balance);
    }

    /** Take the payment, hand over the tokens, store the records, and finish a sold-out auction. */
    method Settle(bid: Bid, sold: Auction, balance: int) returns (r: Checked<()>)
      requires bid.auctionId in active && sold == active[bid.auctionId]
      requires balance == Balance(bankKeeper.balances, ESCROW, sold.starting.denom)
      modifies this`active, this`ended, this`bids, this`lastBidId, bankKeeper
      ensures Same(r, SettleBid(old(View()), bid))
      ensures r.Ok? ==> View() == SettleBid(old(View()), bid).value
      ensures r.Fail? ==> View() == old(View())
    {
      hide Send, Balance, AuctionSpec.FinishAuction;
      var paid := bankKeeper.SendCoins(User(bid.bidder), ESCROW, USOMM, bid.paid.amount);
      if !paid { return Fail(InsufficientFunds); }
      var bought := bankKeeper.SendCoins(ESCROW, User(bid.bidder), sold.starting.denom, bid.fulfilled.amount);
      if !bought { return Panic(PurchaseNotTransferred); }
      var auction := sold.(remaining := Coin(sold.starting.denom, balance - bid.fulfilled.amount));
      active := active[auction.id as nat := auction];
      bids := bids[(bid.auctionId as nat, bid.id as nat) := bid];
      lastBidId := bid.id;
      assert View() == RecordBid(old(View()), auction, bid, bankKeeper.balances);
      if auction.remaining.amount == 0 {
        var finished := FinishAuction(auction);
        if finished.Fail? { return Panic(FinishFailed(finished.error)); }
        return finished;
      }
      return Ok(());
    }

    /** The minimum-bid rule, the minimum price and the choice of how much of the bid to fill. */
    method PriceBid(remaining: int, price: int, maxBid: int, minimum: int, minimumBid: int) returns (r: Checked<Fill>)
      ensures r == Quote(remaining, price, maxBid, minimum, minimumBid)
    {
      var smallestBid := minimumBid;
      var remainingValue := Fits(Mul(FromInt(remaining), price));
      if remainingValue.IsFailure() { return remainingValue.PropagateFailure(); }
      if remainingValue.value < FromInt(minimumBid) {
        var whole := TruncateInt64(remainingValue.value);
        if whole.IsFailure() { return whole.PropagateFailure(); }
        smallestBid := whole.value;
      }
      if maxBid < smallestBid { return Fail(BidAmountIsTooSmall); }
      var minimumCost := Fits(Mul(price, FromInt(minimum)));
      if minimumCost.IsFailure() { return minimumCost.PropagateFailure(); }
      var minimumPayment := TruncateInt64(Ceil(minimumCost.value));
      if minimumPayment.IsFailure() { return minimumPayment.PropagateFailure(); }
      if minimumPayment.value > maxBid { return Fail(InsufficientBid); }
      if price == 0 { return Panic(DivisionByZero); }
      var quotient := Fits(Quo(FromInt(maxBid), price));
      if quotient.IsFailure() { return quotient.PropagateFailure(); }
      var tokens := Truncate(quotient.value);
      if remaining < tokens {
        if remaining < minimum { return Fail(MinimumPurchaseAmountLargerThanTokensRemaining); }
        tokens := remaining;
      }
      var cost := Fits(Mul(FromInt(tokens), price));
      if cost.IsFailure() { return cost.PropagateFailure(); }
      var payment := TruncateInt64(Ceil(cost.value));
      if payment.IsFailure() { return payment.PropagateFailure(); }
      return Ok(Fill(tokens, payment.value));
    }

    /** Open an auction for one denomination. Every error leaves the state as it was. */
    method BeginAuction(starting: Coin, rate: int, interval: uint64, funding: string, proceeds: string) returns (r: Checked<()>)
      modifies this`active, this`lastAuctionId, bankKeeper
      ensures Same(r, AuctionSpec.BeginAuction(old(View()), starting, rate, interval, funding, proceeds))
      ensures r.Ok? ==> View() == AuctionSpec.BeginAuction(old(View()), starting, rate, interval, funding, proceeds).value
      ensures r.Fail? ==> View() == old(View())
    {
      hide StartingPrice, Send, Auction.ValidateBasic;
      if height <= params.minimumAuctionHeight { return Fail(AuctionBelowMinimumHeight); }
      if starting.amount <= 0 { return Fail(AuctionStartingAmountMustBePositive); }
      if funding !in fundingModules { return Fail(UnauthorizedFundingModule); }
      if proceeds !in proceedsModules { return Fail(UnauthorizedProceedsModule); }
      if starting.denom !in prices { return Fail(CouldNotFindSaleTokenPrice); }
      if PriceTooOld(prices[starting.denom]) { return Fail(LastSaleTokenPriceTooOld); }
      if USOMM !in prices { return Fail(CouldNotFindSommTokenPrice); }
      if PriceTooOld(prices[USOMM]) { return Fail(LastSommTokenPriceTooOld); }
      var price := StartingPrice(prices[starting.denom], prices[USOMM]);
      if price.IsFailure() { return price.PropagateFailure(); }
      var auctionId := WrapUint32(lastAuctionId + 1);
      var auction := Auction(auctionId, starting, height, 0, rate, rate, interval, price.value, price.value, starting, funding, proceeds);
      var valid := auction.ValidateBasic();
      if valid.Fail? { return Panic(InvalidAuction(valid.error)); }
      if valid.Panic? { return Panic(valid.reason); }
      assert AuctionSpec.BeginAuction(old(View()), starting, rate, interval, funding, proceeds) == OpenAuction(old(View()), auction);
      if exists id :: id in active && active[id].starting.denom == starting.denom {
        return Fail(CannotStartTwoAuctionsForSameDenomSimultaneously);
      }
      var ok := bankKeeper.SendCoins(Module(funding), ESCROW, starting.denom, starting.amount);
      if !ok { return Fail(InsufficientFunds); }
      active := active[auction.id as nat := auction];
      lastAuctionId := auctionId;
      return Ok(());
    }

    predicate PriceTooOld(p: TokenPrice)
      reads this
    {
      WrapUint64(height - p.lastUpdatedBlock) > params.priceMaxBlockAge
    }

    /** One auction's price decrease, if this height is one of its intervals. */
    method DecreasePrice(a: Auction) returns (r: Checked<()>)
      modifies this`active, this`ended, bankKeeper
      ensures Same(r, PriceTick(old(View()), a))
      ensures r.Ok? ==> View() == PriceTick(old(View()), a).value
    {
      hide Mul, BidsOf, AuctionSpec.FinishAuction;
      if height == AsInt64(a.startBlock) { return Ok(()); }
      if a.interval == 0 { return Panic(DivisionByZero); }
      if Abs(height - AsInt64(a.startBlock)) % Spacing(a) != 0 { return Ok(()); }
      var auction := a;
      var auctionBids := GetBidsByAuctionID(auction.id);
      var total := |auctionBids|;
      if total > 0 && auctionBids[total - 1].blockHeight >= WrapUint64(height - auction.interval) {
        auction := auction.(currentRate := auction.initialRate);
      } else {
        auction := auction.(currentRate := Mul(auction.currentRate, ONE + params.acceleration));
      }
      var newPrice := auction.currentPrice - Mul(auction.initialPrice, auction.currentRate);
      if newPrice <= 0 {
        var finished := FinishAuction(auction);
        if finished.Fail? { return Panic(FinishFailed(finished.error)); }
        return finished;
      }
      auction := auction.(currentPrice := newPrice);
      active := active[auction.id as nat := auction];
      return Ok(());
    }

    /** Decrease prices, then prune. */
    method EndBlocker() returns (r: Checked<()>)
      modifies this`active, this`ended, this`bids, bankKeeper
      ensures Same(r, AuctionSpec.EndBlocker(old(View())))
      ensures r.Ok? ==> View() == AuctionSpec.EndBlocker(old(View())).value
    {
      hide PriceTicks, Prune;
      var auctions := GetAuctions(active);
      var ticked := DecreasePrices(auctions);
      if ticked.IsFailure() { return ticked; }
      if params.auctionMaxBlockAge != 0 {
        PruneEnded();
      }
      return Ok(());
    }

    method DecreasePrices(auctions: seq<Auction>) returns (r: Checked<()>)
      modifies this`active, this`ended, bankKeeper
      ensures Same(r, PriceTicks(old(View()), auctions))
      ensures r.Ok? ==> View() == PriceTicks(old(View()), auctions).value
    {
      hide PriceTick;
      for i := 0 to |auctions|
        invariant PriceTicks(old(View()), auctions) == PriceTicks(View(), auctions[i..])
      {
        assert auctions[i..][1..] == auctions[i + 1..];
        var ticked := DecreasePrice(auctions[i]);
        if ticked.IsFailure() { return ticked; }
      }
      return Ok(());
    }

    /** Walk the ended auctions from the highest id down, keeping the first of each denomination and the fresh ones. */
    method PruneEnded()
      modifies this`ended, this`bids
      ensures View() == Prune(old(View()))
    {
      hide Superseded, Sorted, Gone, DenomsFrom, Drop, Prune;
      ghost var before := View();
      var ids := Sorted(ended.Keys);
      var denomsFound := {};
      var i := |ids|;
      NothingVisited(before, ids);
      while i > 0
        invariant 0 <= i <= |ids|
        invariant denomsFound == DenomsFrom(before, ids, i)
        invariant View() == Drop(before, Gone(before, ids, i))
      {
        i := i - 1;
        Visited(before, ids, i);
        var auction := ended[ids[i]];
        var denom := auction.starting.denom;
        if denom in denomsFound && auction.endBlock < WrapUint64(height - params.auctionMaxBlockAge) {
          DeleteAuctionAndBids(ids[i]);
          DropOneMore(before, Gone(before, ids, i + 1), ids[i]);
        } else {
          assert Gone(before, ids, i) == Gone(before, ids, i + 1);
          denomsFound := denomsFound + {denom};
        }
      }
      AllVisited(before, ids);
    }

    method DeleteAuctionAndBids(id: nat)
      modifies this`ended, this`bids
      ensures View() == Drop(old(View()), {id})
    {
      bids := map k | k in bids && k.0 != id :: bids[k];
      ended := ended - {id};
    }

    /** Record each price of a passed proposal. */
    method SetTokenPrices(ps: seq<ProposedTokenPrice>) returns (r: Checked<()>)
      modifies this`prices
      ensures Same(r, AuctionSpec.SetTokenPrices(old(View()), ps))
      ensures r.Ok? ==> View() == AuctionSpec.SetTokenPrices(old(View()), ps).value
      ensures r.Fail? ==> View() == old(View())
    {
      if ps == [] { return Fail(TokenPriceProposalMustHaveAtLeastOnePrice); }
      var checked := CheckPrices(ps);
      if checked.IsFailure() { return checked; }
      for i := 0 to |ps|
        invariant prices == StorePrices(old(prices), ps[..i], height)
      {
        assert ps[..i + 1][..i] == ps[..i];
        prices := prices[ps[i].denom := TokenPrice(ps[i].denom, 0, ps[i].usdPrice, height)];
      }
      assert ps[..|ps|] == ps;
      return Ok(());
    }
  }
}
