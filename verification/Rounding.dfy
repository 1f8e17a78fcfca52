/** Rounding in plain numbers: what the products and quotients of decimals are. */
module Rounding {
  import opened Arithmetic
  import opened Decimal

  /** `r` is `x / 10^18` rounded to the nearest integer, ties to the even one. */
  predicate HalfEven(r: int, x: int) {
    var twice := 2_000_000_000_000_000_000 * r;
    && 2 * x - 1_000_000_000_000_000_000 <= twice <= 2 * x + 1_000_000_000_000_000_000
    && (twice == 2 * x - 1_000_000_000_000_000_000 || twice == 2 * x + 1_000_000_000_000_000_000 ==> r % 2 == 0)
  }

  lemma HalfEvenUnique(r: int, q: int, x: int)
    requires HalfEven(r, x) && HalfEven(q, x)
    ensures r == q
  {}

  /** A product of decimals is rounded half to even. */
  lemma MulHalfEven(x: int, y: int)
    ensures HalfEven(Mul(x, y), x * y)
  {}

  /** `t` is `x * 10^36 / y` without its fraction. */
  predicate Truncated(t: int, x: int, y: int) {
    t * y <= x * 1_000_000_000_000_000_000_000_000_000_000_000_000 < (t + 1) * y
  }

  /** `q` is the quotient of the decimals `x` and `y`: truncated at 36 digits, then rounded half to even at 18. */
  ghost predicate QuotientOf(q: int, x: int, y: int) {
    exists t :: Truncated(t, x, y) && HalfEven(q, t)
  }

  /** A quotient of decimals is truncated, then rounded. */
  lemma QuoIsQuotient(x: nat, y: int)
    requires y > 0
    ensures QuotientOf(Quo(x, y), x, y) && Quo(x, y) >= 0
  {
    var t := TruncDiv(x * ONE * ONE, y);
    assert t == x * ONE * ONE / y;
    DivAtLeast(x * ONE * ONE, y, t);
    DivAtLeast(x * ONE * ONE, y, t + 1);
    DivAtLeast(x * ONE * ONE, y, 0);
    assert Truncated(t, x, y) && HalfEven(Quo(x, y), t);
  }

  lemma QuotientUnique(q: int, r: int, x: int, y: int)
    requires y > 0 && QuotientOf(q, x, y) && QuotientOf(r, x, y)
    ensures q == r
  {
    var t :| Truncated(t, x, y) && HalfEven(q, t);
    var u :| Truncated(u, x, y) && HalfEven(r, u);
    if t < u { MulMono(t + 1, u, y); }
    if u < t { MulMono(u + 1, t, y); }
    HalfEvenUnique(q, r, t);
  }

  function Twos(n: nat): (p: int)
    ensures p >= 1
  {
    if n == 0 then 1 else 2 * Twos(n - 1)
  }

  lemma {:induction false} TwosSum(m: nat, n: nat)
    ensures Twos(m + n) == Twos(m) * Twos(n)
  {
    if m > 0 {
      TwosSum(m - 1, n);
      assert Twos(m - 1 + n) == Twos(m - 1) * Twos(n);
    }
  }

  /** The limit of products and quotients is 2^315. */
  lemma LimitIsTwos()
    ensures DEC_LIMIT == Twos(315)
  {
    hide Twos;
    FewTwos();
    TwosSum(9, 9);
    TwosSum(18, 17);
    TwosSum(35, 35);
    TwosSum(70, 35);
    TwosSum(105, 105);
    TwosSum(210, 105);
  }

  lemma FewTwos()
    ensures Twos(9) == 512 && Twos(17) == 131_072
  {
    assert Twos(4) == 16 && Twos(8) == 256 && Twos(12) == 4096 && Twos(16) == 65_536;
  }
}
