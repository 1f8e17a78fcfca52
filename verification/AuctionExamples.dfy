/** Runs from an empty module: a bidder charged more than the maximum named in the bid, and an auction that stalls. */
module AuctionExamples {
  import opened Arithmetic
  import opened AuctionInvariant
  import opened AuctionPricing
  import opened AuctionRuns
  import opened AuctionSpec
  import opened AuctionStall
  import opened AuctionTypes
  import opened Bank
  import opened Decimal
  import opened Integers
  import opened Outcomes

  const SALE := "gravity0xsale"
  const FUND := "fund"
  const BIDDER := "bidder"

  /** The module before its first auction. */
  function Start(acceleration: int): State {
    State(100, Params(10, 1, 0, acceleration, 1), {FUND}, {FUND},
          map[(Module(FUND), SALE) := 100, (User(BIDDER), USOMM) := 10_000_000],
          map[], map[], map[], map[], 0, 0)
  }

  /** Dollars for the sale token and for usomm's whole coin. */
  function Prices(sale: int, usomm: int): seq<ProposedTokenPrice> {
    [ProposedTokenPrice(SALE, 6, sale), ProposedTokenPrice(USOMM, 6, usomm)]
  }

  /** 100 tokens at a decrease rate, every 10 blocks. */
  function Sale(rate: int): Step { Begin(Coin(SALE, 100), rate, 10, FUND, FUND) }

  /** The state in which the tokens are on sale. */
  ghost function Selling(acceleration: int, sale: int, usomm: int, rate: int): State {
    Run(Start(acceleration), [SetPrices(Prices(sale, usomm)), Sale(rate)])
  }

  // ----- beginning -----

  function StoredPrice(denom: string, price: int): TokenPrice { TokenPrice(denom, 0, price, 100) }

  /** The prices are accepted and recorded without their exponents. */
  lemma PricesStored(acceleration: int, sale: int, usomm: int)
    requires sale > 0 && usomm > 0
    ensures var t := Next(Start(acceleration), SetPrices(Prices(sale, usomm)));
            t == Start(acceleration).(prices := t.prices)
            && SALE in t.prices && t.prices[SALE] == StoredPrice(SALE, sale)
            && USOMM in t.prices && t.prices[USOMM] == StoredPrice(USOMM, usomm)
  {
    var ps := Prices(sale, usomm);
    assert ps[..1] == [ps[0]] && [ps[0]][..0] == [];
    assert CheckPrices([]).Ok? && CheckPrices([ps[0]]).Ok? && CheckPrices(ps).Ok?;
    assert StorePrices(map[], [ps[0]], 100) == StorePrices(map[], [], 100)[SALE := StoredPrice(SALE, sale)];
  }

  /** The auction as it begins, in a state in which the bidder has 10 million usomm. */
  ghost predicate OnSale(s: State, acceleration: int, price: int, rate: int) {
    && 1 in s.active && s.active[1].id == 1 && s.active[1].starting.denom == SALE && s.active[1].remaining == Coin(SALE, 100)
    && s.active[1].initialPrice == price && s.active[1].currentPrice == price
    && s.active[1].initialRate == rate && s.active[1].currentRate == rate && s.active[1].interval == 10
    && Balance(s.bank, ESCROW, SALE) == 100 && Balance(s.bank, User(BIDDER), USOMM) == 10_000_000
    && s.params == Params(10, 1, 0, acceleration, 1) && s.lastBidId == 0 && s.height == 100
  }

  lemma SellingState(acceleration: int, sale: int, usomm: int, rate: int, price: int)
    requires 0 <= acceleration <= ONE && sale > 0 && usomm > 0 && 0 < rate < ONE && price > 0
    requires StartingPrice(StoredPrice(SALE, sale), StoredPrice(USOMM, usomm)) == Ok(price)
    ensures Reachable(Selling(acceleration, sale, usomm, rate)) && OnSale(Selling(acceleration, sale, usomm, rate), acceleration, price, rate)
  {
    var g, steps := Start(acceleration), [SetPrices(Prices(sale, usomm)), Sale(rate)];
    var priced := Next(g, steps[0]);
    assert steps[..1] == [steps[0]] && [steps[0]][..0] == [];
    assert Run(g, []) == g && Run(g, [steps[0]]) == priced && Run(g, steps) == Next(priced, steps[1]);
    assert Genesis(g);
    assert Reachable(Run(g, steps));
    PricesStored(acceleration, sale, usomm);
    hide StartingPrice, SetTokenPrices, OnSale;
    Opens(priced, acceleration, rate, price);
  }

  lemma Opens(s: State, acceleration: int, rate: int, price: int)
    requires s == Start(acceleration).(prices := s.prices) && 0 < rate < ONE && price > 0
    requires SALE in s.prices && s.prices[SALE].lastUpdatedBlock == 100
    requires USOMM in s.prices && s.prices[USOMM].lastUpdatedBlock == 100
    requires StartingPrice(s.prices[SALE], s.prices[USOMM]) == Ok(price)
    ensures OnSale(Next(s, Sale(rate)), acceleration, price, rate)
  {
    hide StartingPrice;
    var a := NewAuction(s, Coin(SALE, 100), rate, 10, FUND, FUND, price);
    assert a.ValidateBasic().Ok? && a.id == 1;
    assert !DenomOnSale(s.active, SALE);
    assert Send(s.bank, Module(FUND), ESCROW, SALE, 100).Some?;
  }

  /** A quotient that needs no rounding. */
  lemma ExactQuo(x: nat, y: int, q: nat)
    requires y > 0 && x * ONE == q * y
    ensures Quo(x, y) == q
  {
    assert (x * ONE) * ONE == (q * ONE) * y;
    DivUnique(x * ONE * ONE, y, q * ONE, 0);
    MulInt(q, ONE);
    MulInt(1, q * ONE);
    assert TruncDiv(x * ONE * ONE, y) == q * ONE;
  }

  lemma TenToTheSixth()
    ensures PowerOfTen(COIN_EXPONENT) == 1_000_000 * ONE
  {
    assert PowerOfTen(2) == 100 * ONE;
    assert PowerOfTen(4) == 10_000 * ONE;
  }

  // ----- a charge above the maximum -----

  /** 4000000.000000000001 usomm a token: the price of a token at 4.000000000000000001 dollars when usomm's whole coin is at
      one dollar. */
  const PRICE := 4 * ONE * 1_000_000 + 1_000_000

  /** At most 8 million usomm for at least one token. */
  function Offer(): MsgSubmitBid { MsgSubmitBid(1, Coin(USOMM, 8_000_000), Coin(SALE, 1), BIDDER) }

  lemma PriceAtStart()
    ensures StartingPrice(StoredPrice(SALE, 4 * ONE + 1), StoredPrice(USOMM, ONE)) == Ok(PRICE)
  {
    hide Quo;
    TenToTheSixth();
    ExactQuo(4 * ONE + 1, ONE, 4 * ONE + 1);
    ExactQuo(ONE, 1_000_000 * ONE, 1_000_000_000_000);
    ExactQuo(4 * ONE + 1, 1_000_000_000_000, PRICE);
  }

  /** Two tokens cost 8000000.000000000002 usomm, but the quotient of 8000000 rounds up to them. */
  lemma OfferQuoted()
    ensures Quote(100, PRICE, 8_000_000, 1, 1) == Ok(Fill(2, 8_000_001))
  {
    MulInt(100, PRICE);
    MulInt(1, PRICE);
    MulInt(2, PRICE);
    AffordableTokens(8_000_000, PRICE);
    DivUnique(FromInt(8_000_000), PRICE, 1, FromInt(8_000_000) - PRICE);
  }

  /** The state in which the bid arrives. */
  ghost function Overcharging(): State { Selling(0, 4 * ONE + 1, ONE, ONE / 10) }

  /** From an empty module, two steps lead to an auction at which a bid of at most 8000000 usomm is charged 8000001. */
  lemma ChargedMoreThanMaximum()
    ensures Reachable(Overcharging()) && Offer().ValidateBasic().Ok?
    ensures SubmitBid(Overcharging(), Offer()).Ok?
    ensures var s, t := Overcharging(), SubmitBid(Overcharging(), Offer()).value;
            && (1, 1) in t.bids && t.bids[(1, 1)].maxBid == Coin(USOMM, 8_000_000)
            && t.bids[(1, 1)].fulfilled == Coin(SALE, 2) && t.bids[(1, 1)].paid == Coin(USOMM, 8_000_001)
            && Balance(t.bank, User(BIDDER), USOMM) == Balance(s.bank, User(BIDDER), USOMM) - 8_000_001
  {
    hide Run, Quote, StartingPrice, Reachable, Selling;
    PriceAtStart();
    SellingState(0, 4 * ONE + 1, ONE, ONE / 10, PRICE);
    OfferQuoted();
    assert BRIDGED_DENOM_PREFIX <= SALE;
    OfferSettles(Overcharging());
  }

  lemma OfferSettles(s: State)
    requires OnSale(s, 0, PRICE, ONE / 10)
    requires Quote(100, PRICE, 8_000_000, 1, 1) == Ok(Fill(2, 8_000_001))
    ensures SubmitBid(s, Offer()).Ok?
    ensures var t := SubmitBid(s, Offer()).value;
            && (1, 1) in t.bids && t.bids[(1, 1)].maxBid == Coin(USOMM, 8_000_000)
            && t.bids[(1, 1)].fulfilled == Coin(SALE, 2) && t.bids[(1, 1)].paid == Coin(USOMM, 8_000_001)
            && Balance(t.bank, User(BIDDER), USOMM) == Balance(s.bank, User(BIDDER), USOMM) - 8_000_001
  {
    hide Quote, Balance, MustFinish;
    assert GRAVITY_DENOM_PREFIX <= SALE;
    assert NewBid(s, s.active[1], Offer(), Fill(2, 8_000_001)).ValidateBasic().Ok?;
    assert PrepareBid(s, Offer()).Ok?;
  }

  // ----- a stalled auction -----

  /** At 10^-18 dollars a token and 10^6 dollars a coin of usomm a token costs 10^-18 usomm. */
  lemma TinyPrice()
    ensures StartingPrice(StoredPrice(SALE, 1), StoredPrice(USOMM, 1_000_000 * ONE)) == Ok(1)
  {
    hide Quo;
    TenToTheSixth();
    ExactQuo(1, ONE, 1);
    ExactQuo(1_000_000 * ONE, 1_000_000 * ONE, ONE);
  }

  /** Such an auction, with a decrease rate of 0.4. */
  ghost function Tiny(acceleration: int): State { Selling(acceleration, 1, 1_000_000 * ONE, 2 * ONE / 5) }

  lemma TinyState(acceleration: int)
    requires 0 <= acceleration <= ONE
    ensures Reachable(Tiny(acceleration)) && OnSale(Tiny(acceleration), acceleration, 1, 2 * ONE / 5)
    ensures Mul(1, 2 * ONE / 5) == 0
  {
    hide Selling, StartingPrice, OnSale;
    TinyPrice();
    SellingState(acceleration, 1, 1_000_000 * ONE, 2 * ONE / 5, 1);
  }

  /** Whatever the acceleration, the rate from which its next decrease starts is 0.4. */
  lemma TinyRate(s: State, acceleration: int)
    requires OnSale(s, acceleration, 1, 2 * ONE / 5)
    ensures RateFrom(s, s.active[1]) == 2 * ONE / 5
  {
    hide RecentBid, NextDue;
  }

  /** From an empty module, without acceleration: the next decrease starts from a flat rate that takes nothing off, and the
      price stays at 10^-18 over any number of blocks. */
  lemma TinyPriceStalls(n: nat)
    requires 100 + n < INT64_LIMIT
    ensures var s, t := Tiny(0), Run(Tiny(0), Blocks(n));
            && Reachable(s) && 1 in s.active && s.active[1].currentPrice == 1
            && Flat(RateFrom(s, s.active[1]), 0) && Mul(s.active[1].initialPrice, RateFrom(s, s.active[1])) == 0
            && t.height == 100 + n && 1 in t.active && t.active[1].currentPrice == 1
  {
    hide Run, Selling, RateFrom, Mul, Reachable, Inv, Supplied, FlatBlocks;
    TinyState(0);
    var s := Tiny(0);
    TinyRate(s, 0);
    MulInt(1, 2 * ONE / 5);
    assert Flat(2 * ONE / 5, 0);
    ReachableInv(s);
    ConstantBlocks(s, n, 2 * ONE / 5, 0);
    NoBidsInBlocks(n, 1);
    FlatRateStalls(s, Blocks(n), 1);
    BlocksOnly(s, n);
  }

  /** The same auction at full acceleration is over after 30 blocks. */
  lemma TinyPriceFalls(n: nat)
    requires 30 < n && 100 + n < INT64_LIMIT
    ensures Reachable(Tiny(ONE)) && 1 in Tiny(ONE).active && 1 !in Run(Tiny(ONE), Blocks(n)).active
  {
    hide Run, Selling, Mul, Reachable, Inv, Supplied;
    TinyState(ONE);
    var s := Tiny(ONE);
    MulInt(2, 2 * ONE / 5);
    assert Gain(2 * ONE / 5, ONE) == 2 * ONE / 5;
    ReachableInv(s);
    BlocksOnly(s, n);
    ConstantBlocks(s, n, 2 * ONE / 5, 2 * ONE / 5);
    NoBidsInBlocks(n, 1);
    GrowingRateEnds(s, Blocks(n), 1, 2 * ONE / 5);
  }
}
