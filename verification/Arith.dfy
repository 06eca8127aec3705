/** Facts on division and products that the linear solver does not find by itself. */
module Arith {

  lemma DivUnique(n: int, d: int, q: int, r: int)
    requires 0 <= r < d && n == d * q + r
    ensures n / d == q && n % d == r
  {
    var q', r' := n / d, n % d;
    assert n == d * q' + r';
    assert d * (q' - q) == r - r' by {
      Distribute(d, q', -q);
    }
    Distribute(d, q' - q, q - q');
    if q' > q {
      MulMonotone(d, 1, q' - q);
      assert false;
    } else if q' < q {
      MulMonotone(d, 1, q - q');
      assert false;
    }
  }

  lemma Distribute(a: int, b: int, c: int)
    ensures a * (b + c) == a * b + a * c
    ensures (b + c) * a == b * a + c * a
  {}

  lemma MulMonotone(d: int, a: int, b: int)
    requires d >= 0 && a <= b
    ensures d * a <= d * b && a * d <= b * d
  {
    Distribute(d, a, b - a);
    assert d * (b - a) >= 0;
  }

  lemma DivMod(n: int, d: int)
    requires d > 0
    ensures n == d * (n / d) + n % d && 0 <= n % d < d
  {}

  lemma DivStep(n: int, d: int)
    requires d > 0
    ensures (n + d) / d == n / d + 1 && (n + d) % d == n % d
  {
    DivMod(n, d);
    Distribute(d, n / d, 1);
    DivUnique(n + d, d, n / d + 1, n % d);
  }

  lemma Associate(a: int, b: int, c: int)
    ensures a * (b * c) == (a * b) * c == (a * c) * b
  {}
}
