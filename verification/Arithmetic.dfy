/** Division facts the solver does not find by itself. */
module Arithmetic {

  lemma MulMono(x: int, y: int, d: int)
    requires x <= y && 0 <= d
    ensures x * d <= y * d
  {}

  lemma DivUnique(x: int, d: int, q: int, r: int)
    requires 0 <= r < d && x == q * d + r
    ensures x / d == q && x % d == r
  {
    var q', r' := x / d, x % d;
    assert x == q' * d + r' && 0 <= r' < d;
    if q' < q {
      MulMono(q' + 1, q, d);
    } else if q < q' {
      MulMono(q + 1, q', d);
    }
  }

  /** The quotient is at least `q` exactly when the dividend is at least `q` divisors. */
  lemma DivAtLeast(x: int, d: int, q: int)
    requires 0 < d
    ensures q <= x / d <==> q * d <= x
  {
    var k, m := x / d, x % d;
    assert x == k * d + m && 0 <= m < d;
    if q <= k {
      MulMono(q, k, d);
    } else {
      MulMono(k + 1, q, d);
    }
  }

  lemma DivShift(x: int, q: int, d: int)
    requires 0 < d
    ensures (q * d + x) / d == q + x / d
  {
    var k, m := x / d, x % d;
    assert (q + k) * d == q * d + k * d;
    DivUnique(q * d + x, d, q + k, m);
  }

  lemma Distribute(f: int, p: int, r: int, k: int)
    ensures (f * p + r) * k == (f * k) * p + r * k
  {}
}
