/** Facts about division by a variable, each proved once. */
module Arithmetic {

  lemma DivUnique(n: nat, d: nat, q: nat, r: nat)
    requires r < d && n == q * d + r
    ensures n / d == q && n % d == r
  {
    var q', r' := n / d, n % d;
    assert n == q' * d + r';
    if q' < q {
      MulMonotone(q' + 1, q, d);
    } else if q < q' {
      MulMonotone(q + 1, q', d);
    }
  }

  lemma MulMonotone(a: nat, b: nat, d: nat)
    requires a <= b
    ensures a * d <= b * d
  {
    assert (b - a) * d >= 0;
  }

  lemma DivLess(n: nat, q: nat, d: nat)
    requires d > 0 && n < q * d
    ensures n / d < q
  {
    if n / d >= q {
      MulMonotone(q, n / d, d);
    }
  }

  lemma AddMultiples(x: nat, y: nat, n: nat)
    requires n > 0 && x % n == 0 && y % n == 0
    ensures (x + y) % n == 0
  {
    var a, b := x / n, y / n;
    assert x + y == (a + b) * n + 0 by {
      assert x == a * n && y == b * n;
      Distribute(a, b, n);
    }
    DivUnique(x + y, n, a + b, 0);
  }

  lemma Distribute(a: int, b: int, n: int)
    ensures (a + b) * n == a * n + b * n
    ensures (a - b) * n == a * n - b * n
  {
  }

  lemma MulLess(a: int, b: nat, n: nat)
    requires a * n < b * n
    ensures a + 1 <= b && (a + 1) * n <= b * n
  {
    if a >= b {
      MulMonotoneInt(b, a, n);
    }
    MulMonotoneInt(a + 1, b, n);
  }

  lemma MulMonotoneInt(a: int, b: int, n: nat)
    requires a <= b
    ensures a * n <= b * n
  {
    Distribute(b, a, n);
    assert (b - a) * n >= 0;
  }

  /** Distinct multiples of `n` are at least `n` apart. */
  lemma MultiplesApart(x: nat, y: nat, n: nat)
    requires n > 0 && x % n == 0 && y % n == 0 && x < y
    ensures x + n <= y
  {
    var a, b := x / n, y / n;
    assert x == a * n && y == b * n;
    MulLess(a, b, n);
    Distribute(a, 1, n);
  }

  /** Which block of `n` an offset lies in. */
  lemma InBlock(x: nat, n: nat, k: nat)
    requires n > 0
    ensures x / n == k <==> k * n <= x < (k + 1) * n
  {
    Distribute(k, 1, n);
    assert x == (x / n) * n + x % n;
    if k * n <= x < (k + 1) * n {
      DivUnique(x, n, k, x - k * n);
    }
  }
}
