/** Division facts that several modules need. */
module Arith {

  function Pow2(k: nat): nat { if k == 0 then 1 else 2 * Pow2(k - 1) }

  lemma MulMonotone(a: int, b: int, c: nat)
    requires a <= b
    ensures a * c <= b * c
  {
  }

  /** Quotient and remainder are unique. */
  lemma DivModUnique(x: int, q: int, r: int, n: nat)
    requires 0 <= r < n && x == q * n + r
    ensures x / n == q && x % n == r
  {
    var q', r' := x / n, x % n;
    assert x == q' * n + r';
    assert (q' - q) * n == r - r';
    if q' > q {
      MulMonotone(1, q' - q, n);
    } else if q' < q {
      MulMonotone(q' - q, -1, n);
    }
  }

  lemma DivPositive(x: nat, n: nat)
    requires 0 < n <= x
    ensures x / n >= 1
  {
    assert x == x / n * n + x % n;
  }

  lemma AddMultiple(a: int, q: int, n: nat)
    requires n > 0
    ensures (a + q * n) % n == a % n
  {
    assert a == a / n * n + a % n;
    assert a + q * n == (a / n + q) * n + a % n;
    DivModUnique(a + q * n, a / n + q, a % n, n);
  }

  lemma ModAdd(a: int, b: int, n: nat)
    requires n > 0
    ensures (a % n + b) % n == (a + b) % n
  {
    assert a == a / n * n + a % n;
    assert a + b == (a % n + b) + a / n * n;
    AddMultiple(a % n + b, a / n, n);
  }
}
