/** What `SubmitBid` charges and sells, as arithmetic over every bid. */
module AuctionPricing {
  import opened Arithmetic
  import opened AuctionSpec
  import opened Decimal
  import opened Integers
  import opened Outcomes

  /** `maxBid / price` lies so close below a whole number of tokens that 18 digits round it up. */
  predicate QuotientRoundsUp(maxBid: int, price: int)
    requires price > 0
  {
    2 * ONE * (price - FromInt(maxBid) % price) <= price
  }

  /** The number of tokens `SubmitBid` takes as affordable: the whole quotient, or one more when it rounds up. */
  lemma AffordableTokens(maxBid: nat, price: int)
    requires price > 0
    ensures Truncate(Quo(FromInt(maxBid), price))
         == FromInt(maxBid) / price + (if QuotientRoundsUp(maxBid, price) then 1 else 0)
  {
    var x := FromInt(maxBid);
    var whole, r := x / price, x % price;
    DivAtLeast(x, price, 0);
    var tail := r * (ONE * ONE) / price;
    SplitQuotient(x, price, whole, r, tail);
    TailBound(r, price, tail);
    RoundTail(whole, tail);
  }

  /** The 36-digit quotient is `whole` tokens and a tail. */
  lemma SplitQuotient(x: nat, price: int, whole: nat, r: nat, tail: int)
    requires price > 0
    requires whole == x / price && r == x % price && tail == r * (ONE * ONE) / price
    ensures x * ONE * ONE / price == whole * (ONE * ONE) + tail
  {
    assert x == whole * price + r;
    assert x * ONE * ONE == x * (ONE * ONE);
    Distribute(whole, price, r, ONE * ONE);
    DivShift(r * (ONE * ONE), whole * (ONE * ONE), price);
  }

  /** The tail rounds up to a whole token exactly when the remainder is close enough to the price. */
  lemma TailBound(r: nat, price: int, tail: int)
    requires r < price
    requires tail == r * (ONE * ONE) / price
    ensures 0 <= tail < ONE * ONE
    ensures tail >= ONE * ONE - ONE / 2 <==> 2 * ONE * (price - r) <= price
  {
    DivAtLeast(r * (ONE * ONE), price, ONE * ONE - ONE / 2);
    DivAtLeast(r * (ONE * ONE), price, ONE * ONE);
    DivAtLeast(r * (ONE * ONE), price, 0);
  }

  /** Rounding to 18 digits and truncating keeps the whole part, or steps up when the tail is half a digit short. */
  lemma RoundTail(whole: nat, tail: nat)
    requires tail < ONE * ONE
    ensures Truncate(ChopRound(whole * (ONE * ONE) + tail)) == whole + (if tail >= ONE * ONE - ONE / 2 then 1 else 0)
  {
    hide ChopRound;
    var digits := ChopRound(tail);
    TailDigits(tail);
    ChopShift(whole * ONE, tail);
    assert ChopRound(whole * (ONE * ONE) + tail) == whole * ONE + digits;
    if digits == ONE {
      DivUnique(whole * ONE + digits, ONE, whole + 1, 0);
    } else {
      DivUnique(whole * ONE + digits, ONE, whole, digits);
    }
  }

  lemma TailDigits(tail: nat)
    requires tail < ONE * ONE
    ensures 0 <= ChopRound(tail) <= ONE
    ensures ChopRound(tail) == ONE <==> tail >= ONE * ONE - ONE / 2
  {}

  /** `payment` is the cost of `tokens` at `price`, rounded up to a whole usomm. */
  ghost predicate RoundedUpCost(payment: int, tokens: int, price: int) {
    ONE * (payment - 1) < tokens * price <= ONE * payment
  }

  lemma CostOf(tokens: nat, price: int)
    requires price > 0
    ensures RoundedUpCost(Truncate(Ceil(Mul(FromInt(tokens), price))), tokens, price)
    ensures Mul(price, FromInt(tokens)) == Mul(FromInt(tokens), price) == tokens * price
  {
    MulInt(tokens, price);
    MulMono(0, tokens, price);
    var c := Ceil(tokens * price);
    assert c >= 0;
    assert ONE * (c / ONE) == c;
  }

  /** The tokens of an accepted bid: what is affordable, or everything that is left. */
  lemma AcceptedTokens(remaining: nat, price: int, maxBid: nat, minimum: nat, minimumBid: nat)
    requires price > 0
    requires Quote(remaining, price, maxBid, minimum, minimumBid).Ok?
    ensures var affordable := FromInt(maxBid) / price + (if QuotientRoundsUp(maxBid, price) then 1 else 0);
            Quote(remaining, price, maxBid, minimum, minimumBid).value.tokens == if affordable <= remaining then affordable else remaining
  {
    hide Ceil, Mul, QuotientRoundsUp;
    AffordableTokens(maxBid, price);
  }

  /** An accepted bid buys at least its minimum and at most the escrow, and pays the rounded-up cost. */
  lemma AcceptedBid(remaining: nat, price: int, maxBid: nat, minimum: nat, minimumBid: nat)
    requires price > 0
    requires Quote(remaining, price, maxBid, minimum, minimumBid).Ok?
    ensures var fill := Quote(remaining, price, maxBid, minimum, minimumBid).value;
            minimum <= fill.tokens <= remaining && RoundedUpCost(fill.payment, fill.tokens, price)
  {
    hide Mul, Ceil, Quo, Truncate, RoundedUpCost, QuotientRoundsUp;
    var fill := Quote(remaining, price, maxBid, minimum, minimumBid).value;
    AffordableTokens(maxBid, price);
    AffordsMinimum(price, maxBid, minimum);
    CostOf(fill.tokens, price);
  }

  /** A minimum whose rounded-up cost is within `maxBid` is within the whole quotient. */
  lemma AffordsMinimum(price: int, maxBid: nat, minimum: nat)
    requires price > 0 && Truncate(Ceil(Mul(price, FromInt(minimum)))) <= maxBid
    ensures minimum <= FromInt(maxBid) / price
  {
    CostOf(minimum, price);
    DivAtLeast(FromInt(maxBid), price, minimum);
  }

  /** Exactly when an accepted bid pays more than the maximum it named: its quotient rounds up and the escrow
      still holds that extra token. */
  lemma PaysMoreThanMaxBid(remaining: nat, price: int, maxBid: nat, minimum: nat, minimumBid: nat)
    requires price > 0
    requires Quote(remaining, price, maxBid, minimum, minimumBid).Ok?
    ensures Quote(remaining, price, maxBid, minimum, minimumBid).value.payment > maxBid
       <==> QuotientRoundsUp(maxBid, price) && remaining > FromInt(maxBid) / price
  {
    AcceptedBid(remaining, price, maxBid, minimum, minimumBid);
    AcceptedTokens(remaining, price, maxBid, minimum, minimumBid);
    hide Quote, QuotientRoundsUp;
    DivAtLeast(FromInt(maxBid), price, Quote(remaining, price, maxBid, minimum, minimumBid).value.tokens);
  }

  /** The cost of what a bid buys exceeds `maxBid` by at most `price / (2 * 10^18)`. */
  lemma CostNearMaxBid(remaining: nat, price: int, maxBid: nat, minimum: nat, minimumBid: nat)
    requires price > 0
    requires Quote(remaining, price, maxBid, minimum, minimumBid).Ok?
    ensures var fill := Quote(remaining, price, maxBid, minimum, minimumBid).value;
            && 2 * ONE * (fill.tokens * price) <= 2 * ONE * FromInt(maxBid) + price
            && (price <= 2 * ONE ==> fill.payment <= maxBid)
            && (price <= 2 * ONE * ONE ==> fill.payment <= maxBid + 1)
  {
    AcceptedBid(remaining, price, maxBid, minimum, minimumBid);
    AcceptedTokens(remaining, price, maxBid, minimum, minimumBid);
    hide Quote, QuotientRoundsUp;
    AffordableCost(maxBid, price, Quote(remaining, price, maxBid, minimum, minimumBid).value);
  }

  lemma AffordableCost(maxBid: nat, price: int, fill: Fill)
    requires price > 0 && RoundedUpCost(fill.payment, fill.tokens, price)
    requires fill.tokens <= FromInt(maxBid) / price + (if QuotientRoundsUp(maxBid, price) then 1 else 0)
    ensures 2 * ONE * (fill.tokens * price) <= 2 * ONE * FromInt(maxBid) + price
    ensures price <= 2 * ONE ==> fill.payment <= maxBid
    ensures price <= 2 * ONE * ONE ==> fill.payment <= maxBid + 1
  {
    WholeCost(maxBid, price);
    if fill.tokens <= FromInt(maxBid) / price {
      MulMono(fill.tokens, FromInt(maxBid) / price, price);
    } else if price <= 2 * ONE {
      CheapNeverRoundsUp(maxBid, price);
    }
  }

  /** What the whole quotient costs, and what one more token costs when the quotient rounds up. */
  lemma WholeCost(maxBid: nat, price: int)
    requires price > 0
    ensures var whole := FromInt(maxBid) / price;
            && whole * price <= FromInt(maxBid)
            && (QuotientRoundsUp(maxBid, price) ==> 2 * ONE * ((whole + 1) * price) <= 2 * ONE * FromInt(maxBid) + price)
  {
    var whole, r := FromInt(maxBid) / price, FromInt(maxBid) % price;
    assert FromInt(maxBid) == whole * price + r;
    assert (whole + 1) * price == FromInt(maxBid) - r + price;
  }

  lemma CheapNeverRoundsUp(maxBid: nat, price: int)
    requires 0 < price <= 2 * ONE
    ensures !QuotientRoundsUp(maxBid, price)
  {
    var r := FromInt(maxBid) % price;
    assert price - r >= 1;
    if QuotientRoundsUp(maxBid, price) {
      assert price == 2 * ONE && r == 2 * ONE - 1;
      DoubleRemainder(maxBid);
    }
  }

  lemma DoubleRemainder(n: nat)
    ensures FromInt(n) % (2 * ONE) <= ONE
  {
    DivUnique(FromInt(n), 2 * ONE, n / 2, if n % 2 == 0 then 0 else ONE);
  }

  /** At a unit price of 5.000000000000000001 usomm, a bid of at most 10 usomm pays 11. */
  lemma PaysElevenForTen()
    ensures Quote(100, 5 * ONE + 1, 10, 1, 1) == Ok(Fill(2, 11))
  {
    MulInt(100, 5 * ONE + 1);
    MulInt(1, 5 * ONE + 1);
    MulInt(2, 5 * ONE + 1);
    AffordableTokens(10, 5 * ONE + 1);
    DivUnique(10 * ONE, 5 * ONE + 1, 1, 5 * ONE - 1);
  }

  /** A bid for everything that is left is never too small: it buys all of it for the rounded-up cost. */
  lemma ClearingBid(remaining: nat, price: int, maxBid: nat, minimum: nat, minimumBid: nat)
    requires price > 0 && minimum <= remaining
    requires maxBid < INT64_LIMIT && remaining * price <= FromInt(maxBid)
    ensures Quote(remaining, price, maxBid, minimum, minimumBid).Ok?
    ensures var fill := Quote(remaining, price, maxBid, minimum, minimumBid).value;
            fill.tokens == remaining && RoundedUpCost(fill.payment, remaining, price)
  {
    hide Mul, Ceil, Quo, Truncate, QuotientRoundsUp, RoundedUpCost;
    ClearingCosts(remaining, price, maxBid, minimum);
    ClearingFits(remaining, price, maxBid, minimum);
    AffordableTokens(maxBid, price);
  }

  lemma ClearingFits(remaining: nat, price: int, maxBid: nat, minimum: nat)
    requires price > 0 && minimum <= remaining && maxBid < INT64_LIMIT && remaining * price <= FromInt(maxBid)
    ensures 0 <= Mul(FromInt(remaining), price) < DEC_LIMIT && 0 <= Mul(price, FromInt(minimum)) < DEC_LIMIT
    ensures 0 <= Quo(FromInt(maxBid), price) < DEC_LIMIT
  {
    hide Mul, Quo;
    MulInt(remaining, price);
    MulInt(minimum, price);
    MulMono(0, minimum, price);
    MulMono(minimum, remaining, price);
    QuotientFits(maxBid, price);
    MulMono(1, price, 2 * DEC_LIMIT - 1);
  }

  /** Whatever `maxBid` covers, its parts do not overflow. */
  lemma ClearingCosts(remaining: nat, price: int, maxBid: nat, minimum: nat)
    requires price > 0 && minimum <= remaining && remaining * price <= FromInt(maxBid)
    ensures 0 <= Truncate(Mul(FromInt(remaining), price)) <= maxBid
    ensures 0 <= Truncate(Ceil(Mul(FromInt(remaining), price))) <= maxBid
    ensures 0 <= Truncate(Ceil(Mul(price, FromInt(minimum)))) <= maxBid
    ensures RoundedUpCost(Truncate(Ceil(Mul(FromInt(remaining), price))), remaining, price)
    ensures remaining <= FromInt(maxBid) / price
  {
    CostOf(remaining, price);
    CostOf(minimum, price);
    MulMono(minimum, remaining, price);
    MulMono(0, minimum, price);
    DivAtLeast(FromInt(maxBid), price, remaining);
  }

  // ----- exactly when pricing panics -----

  /** The cost of `tokens` in whole usomm, rounded up. */
  function WholeUsomm(tokens: nat, price: nat): nat { (tokens * price + ONE - 1) / ONE }

  lemma WholeUsommIsCost(tokens: nat, price: nat)
    requires price > 0
    ensures Truncate(Ceil(Mul(FromInt(tokens), price))) == WholeUsomm(tokens, price)
    ensures Truncate(Ceil(Mul(price, FromInt(tokens)))) == WholeUsomm(tokens, price)
  {
    hide Mul, Ceil, Truncate;
    CostOf(tokens, price);
    var payment := Truncate(Ceil(Mul(FromInt(tokens), price)));
    DivUnique(tokens * price + ONE - 1, ONE, payment, tokens * price + ONE - 1 - payment * ONE);
  }

  function Least(x: int, y: int): int { if x < y then x else y }

  function Affordable(maxBid: nat, price: int): nat
    requires price > 0
  {
    DivAtLeast(FromInt(maxBid), price, 0);
    FromInt(maxBid) / price + (if QuotientRoundsUp(maxBid, price) then 1 else 0)
  }

  /** The quotient of the maximum and the price rounds to 2^315 or more. */
  predicate QuotientTooLong(maxBid: nat, price: int) { 2 * FromInt(maxBid) * ONE >= (2 * DEC_LIMIT - 1) * price }

  /** A number that pricing computes does not fit: the value of everything that is left takes more than 315 bits, or it is
      below the minimum bid and outside int64; the cost of the named minimum is outside int64, for a bid that is not too
      small; or, for a bid that covers its minimum, the quotient takes more than 315 bits, or the payment for what it buys
      is outside int64. */
  predicate Overflows(remaining: nat, price: int, maxBid: nat, minimum: nat, minimumBid: nat)
    requires price > 0
  {
    var value := remaining * price;
    || value >= DEC_LIMIT
    || (INT64_LIMIT * ONE <= value < minimumBid * ONE)
    || (&& Least(value / ONE, minimumBid) <= maxBid
        && (|| WholeUsomm(minimum, price) >= INT64_LIMIT
            || (WholeUsomm(minimum, price) <= maxBid && TooMuch(remaining, price, maxBid, minimum))))
  }

  /** The bid covers its minimum, but its quotient or its payment does not fit. */
  predicate TooMuch(remaining: nat, price: int, maxBid: nat, minimum: nat)
    requires price > 0
  {
    || QuotientTooLong(maxBid, price)
    || (minimum <= remaining && WholeUsomm(Least(Affordable(maxBid, price), remaining), price) >= INT64_LIMIT)
  }

  lemma RoundsToLimit(tail: nat)
    ensures ChopRound(tail) >= DEC_LIMIT <==> tail >= DEC_LIMIT * ONE - ONE / 2
  {}

  lemma QuotientFits(maxBid: nat, price: int)
    requires price > 0
    ensures Quo(FromInt(maxBid), price) >= 0
    ensures Quo(FromInt(maxBid), price) >= DEC_LIMIT <==> QuotientTooLong(maxBid, price)
  {
    hide ChopRound;
    var x := FromInt(maxBid);
    DivAtLeast(x * ONE * ONE, price, 0);
    DivAtLeast(x * ONE * ONE, price, DEC_LIMIT * ONE - ONE / 2);
    RoundsToLimit(x * ONE * ONE / price);
    MulInt(0, ONE);
    ChopRoundMonotone(0, x * ONE * ONE / price);
    assert TruncDiv(x * ONE * ONE, price) == x * ONE * ONE / price;
    assert (DEC_LIMIT * ONE - ONE / 2) * price == (ONE / 2) * ((2 * DEC_LIMIT - 1) * price);
    assert x * ONE * ONE == (ONE / 2) * (2 * x * ONE);
  }

  /** A cost within int64 takes at most 315 bits. */
  lemma CostFits(tokens: nat, price: int)
    requires price > 0
    ensures 0 <= tokens * price
    ensures tokens * price >= DEC_LIMIT ==> WholeUsomm(tokens, price) >= INT64_LIMIT
  {
    MulMono(0, tokens, price);
    DivAtLeast(tokens * price + ONE - 1, ONE, INT64_LIMIT);
  }

  /** Pricing panics exactly on such an overflow. */
  lemma PanicsOnOverflow(remaining: nat, price: int, maxBid: nat, minimum: nat, minimumBid: nat)
    requires price > 0
    ensures Quote(remaining, price, maxBid, minimum, minimumBid).Panic? <==> Overflows(remaining, price, maxBid, minimum, minimumBid)
  {
    hide Mul, Ceil, Quo, Truncate, WholeUsomm, Affordable;
    var value := remaining * price;
    CostOf(remaining, price);
    MulMono(0, remaining, price);
    ValueInUsomm(value, minimumBid);
    WholeUsommIsCost(minimum, price);
    AffordableNow(maxBid, price);
    QuotientFits(maxBid, price);
    CostOf(minimum, price);
    CostFits(minimum, price);
    CostOf(Least(Affordable(maxBid, price), remaining), price);
    CostFits(Least(Affordable(maxBid, price), remaining), price);
    WholeUsommIsCost(Least(Affordable(maxBid, price), remaining), price);
    if WholeUsomm(minimum, price) <= maxBid {
      CoversMinimum(price, maxBid, minimum);
    }
  }

  lemma ValueInUsomm(value: nat, minimumBid: nat)
    ensures Truncate(value) == value / ONE
    ensures Least(value / ONE, minimumBid) == if value < FromInt(minimumBid) then value / ONE else minimumBid
    ensures INT64_LIMIT <= value / ONE <==> INT64_LIMIT * ONE <= value
    ensures FromInt(minimumBid) == minimumBid * ONE
  {
    DivAtLeast(value, ONE, minimumBid);
    DivAtLeast(value, ONE, INT64_LIMIT);
  }

  lemma AffordableNow(maxBid: nat, price: int)
    requires price > 0
    ensures Truncate(Quo(FromInt(maxBid), price)) == Affordable(maxBid, price) >= 0
  {
    AffordableTokens(maxBid, price);
    DivAtLeast(FromInt(maxBid), price, 0);
  }

  lemma CoversMinimum(price: int, maxBid: nat, minimum: nat)
    requires price > 0 && WholeUsomm(minimum, price) <= maxBid
    ensures minimum <= Affordable(maxBid, price)
  {
    WholeUsommIsCost(minimum, price);
    AffordsMinimum(price, maxBid, minimum);
  }
}
