/** Fixed-point decimals with 18 fractional digits, as the chain's `sdk.Dec` computes them.
    A decimal is the integer `value * 10^18`; addition, subtraction and comparison are those
    of the integers. */
module Decimal {

  const ONE: int := 1_000_000_000_000_000_000
  /** 2^315: products and quotients of more than 315 bits panic. */
  const DEC_LIMIT: int := 0x8000000000000000000000000000000000000000000000000000000000000000000000000000000

  /** Divide by 10^18, rounding to the nearest integer and ties to the even one. */
  function ChopRound(x: int): (r: int)
    ensures 2 * x - ONE <= 2 * (ONE * r) <= 2 * x + ONE
    ensures 2 * (ONE * r) == 2 * x - ONE || 2 * (ONE * r) == 2 * x + ONE ==> r % 2 == 0
  {
    if x < 0 then 0 - ChopRoundNat(-x) else ChopRoundNat(x)
  }

  function ChopRoundNat(x: nat): (r: nat)
    ensures 2 * x - ONE <= 2 * (ONE * r) <= 2 * x + ONE
    ensures 2 * (ONE * r) == 2 * x - ONE || 2 * (ONE * r) == 2 * x + ONE ==> r % 2 == 0
  {
    var quo, rem := x / ONE, x % ONE;
    if rem < ONE / 2 then quo
    else if rem > ONE / 2 then quo + 1
    else if quo % 2 == 0 then quo else quo + 1
  }

  /** Integer division truncating toward zero. */
  function TruncDiv(x: int, y: int): int
    requires y != 0
  {
    if (x < 0) == (y < 0) then Abs(x) / Abs(y) else -(Abs(x) / Abs(y))
  }

  function Abs(x: int): nat { if x < 0 then -x else x }

  function FromInt(n: int): int { n * ONE }

  function Mul(x: int, y: int): int { ChopRound(x * y) }

  /** Quotient truncated at 36 fractional digits, then rounded to 18. */
  function Quo(x: int, y: int): int
    requires y != 0
  {
    ChopRound(TruncDiv(x * ONE * ONE, y))
  }

  /** The least whole decimal that is not below `x`. */
  function Ceil(x: int): (r: int)
    ensures r % ONE == 0 && r - ONE < x <= r
  {
    if x % ONE == 0 then x else x - x % ONE + ONE
  }

  /** The integer part, toward zero. */
  function Truncate(x: int): (r: int)
    ensures x >= 0 ==> ONE * r <= x < ONE * (r + 1)
  {
    TruncDiv(x, ONE)
  }

  lemma MulMonotone(x: int, y: int, z: int)
    requires 0 <= x && y <= z
    ensures Mul(x, y) <= Mul(x, z)
  {
    assert x * y <= x * z;
    hide ChopRound;
    ChopRoundMonotone(x * y, x * z);
  }

  lemma ChopRoundMonotone(x: int, y: int)
    requires x <= y
    ensures ChopRound(x) <= ChopRound(y)
  {
  }

  /** A whole number times a decimal needs no rounding. */
  lemma MulInt(n: int, x: int)
    ensures Mul(FromInt(n), x) == n * x
    ensures Mul(x, FromInt(n)) == n * x
  {
    assert FromInt(n) * x == (n * x) * ONE;
    assert x * FromInt(n) == (n * x) * ONE;
  }

  /** An even whole part passes through rounding unchanged. */
  lemma ChopShift(k: nat, x: nat)
    requires k % 2 == 0
    ensures ChopRound(k * ONE + x) == k + ChopRound(x)
  {}
}
