/** Division facts the other modules share. */
module Arith {

  lemma MultipleIsFar(k: int, n: int)
    requires k != 0 && 0 < n
    ensures k * n >= n || k * n <= -n
  {
    if k > 0 {
      MulMono(1, k, n);
    } else {
      MulMono(k, -1, n);
    }
  }

  lemma MulMono(a: int, b: int, n: int)
    requires a <= b && 0 <= n
    ensures a * n <= b * n
  {
    assert b * n - a * n == (b - a) * n;
  }

  lemma MulStep(a: int, n: int)
    ensures (a + 1) * n == a * n + n
  {
  }

  /** Quotient and remainder are determined by the division equation. */
  lemma DivModUnique(x: int, q: int, r: int, n: int)
    requires 0 < n && 0 <= r < n && x == q * n + r
    ensures x / n == q && x % n == r
  {
    var k := q - x / n;
    assert x == (x / n) * n + x % n;
    assert k * n == q * n - (x / n) * n;
    if k != 0 { MultipleIsFar(k, n); }
  }

  lemma DivBelow(x: int, n: int)
    requires 0 < n
    ensures (x / n) * n <= x < (x / n) * n + n
  {
    assert x == (x / n) * n + x % n;
  }

  lemma ModShift(x: int, q: int, n: int)
    requires 0 < n
    ensures (x + q * n) % n == x % n && (x + q * n) / n == x / n + q
  {
    assert (x / n + q) * n == (x / n) * n + q * n;
    DivModUnique(x + q * n, x / n + q, x % n, n);
  }
}
