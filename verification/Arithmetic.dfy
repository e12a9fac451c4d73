/** Products and quotients of naturals. */
module Arithmetic {

  lemma MulMonotone(a: int, b: int, k: int)
    requires k >= 0
    ensures a <= b ==> a * k <= b * k
    ensures a < b ==> a * k + k <= b * k
  {
    if a < b {
      MulStep(a, b, k);
    }
  }

  lemma MulStep(a: int, b: int, k: int)
    requires k >= 0 && a < b
    ensures a * k + k <= b * k
  {
    var gap := b - a - 1;
    assert b * k == a * k + k + gap * k;
    assert gap * k >= 0;
  }

  lemma DivMod(n: int, d: int)
    requires d > 0
    ensures n == (n / d) * d + n % d && 0 <= n % d < d
  {
  }

  lemma QuotientUnique(n: int, d: int, q: int, r: int)
    requires d > 0 && n == q * d + r && 0 <= r < d
    ensures n / d == q && n % d == r
  {
    DivMod(n, d);
    MulMonotone(n / d, q, d);
    MulMonotone(q, n / d, d);
  }

  lemma QuotientMonotone(low: int, high: int, d: int)
    requires low <= high && d > 0
    ensures low / d <= high / d
  {
    DivMod(low, d);
    DivMod(high, d);
    MulMonotone(high / d, low / d, d);
  }

  lemma QuotientBound(n: nat, d: nat)
    requires d > 0
    ensures 0 <= n / d <= n
  {
    DivMod(n, d);
    MulMonotone(n / d, 0, d);
    MulMonotone(1, d, n / d);
  }

  lemma QuotientSub(n: int, d: int)
    requires d > 0
    ensures (n - d) / d == n / d - 1
    ensures 0 <= n < d <==> n / d == 0
  {
    DivMod(n, d);
    assert (n / d - 1) * d == (n / d) * d - d;
    QuotientUnique(n - d, d, n / d - 1, n % d);
    MulMonotone(n / d, 0, d);
    MulMonotone(0, n / d, d);
  }
}
