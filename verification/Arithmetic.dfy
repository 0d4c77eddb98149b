/** Facts about products, quotients and remainders. */
module Arithmetic {
  lemma MulLe(a: int, b: int, k: int)
    requires k >= 0 && a <= b
    ensures a * k <= b * k && k * a <= k * b
  {
  }

  lemma MulCancel(a: int, b: int, k: int)
    requires k > 0 && a * k < b * k
    ensures a < b
  {
    if b <= a {
      MulLe(b, a, k);
    }
  }

  lemma MulBounds(a: int, b: int, m: int, n: int)
    requires 0 <= a <= m && 0 <= b <= n
    ensures 0 <= a * b <= m * n
  {
    MulLe(a, m, b);
    MulLe(b, n, m);
    MulLe(0, a, b);
  }

  lemma ModSplit(n: nat, p: nat)
    requires p >= 1
    ensures n % 0x100 + 0x100 * ((n / 0x100) % p) == n % (0x100 * p)
  {
    var m := n / 0x100;
    var r := n % 0x100 + 0x100 * (m % p);
    assert m == p * (m / p) + m % p;
    assert n == (0x100 * p) * (m / p) + r by {
      assert 0x100 * (p * (m / p)) == (0x100 * p) * (m / p);
    }
    assert 0 <= r < 0x100 * p;
    DivModUnique(n, 0x100 * p, m / p, r);
  }

  lemma DivModUnique(n: int, d: int, q: int, r: int)
    requires d > 0 && n == d * q + r && 0 <= r < d
    ensures n / d == q && n % d == r
  {
    var q', r' := n / d, n % d;
    assert n == d * q' + r' && 0 <= r' < d;
    QuotientUnique(d, q, r, q', r');
  }

  lemma QuotientUnique(d: int, q: int, r: int, q': int, r': int)
    requires d > 0 && d * q + r == d * q' + r'
    requires 0 <= r < d && 0 <= r' < d
    ensures q == q' && r == r'
  {
    if q < q' {
      MulLe(q + 1, q', d);
    } else if q' < q {
      MulLe(q' + 1, q, d);
    }
  }

  lemma DivBound(a: nat, b: nat)
    requires b > 0
    ensures 0 <= a / b <= a
  {
    assert a == b * (a / b) + a % b;
    MulLe(1, b, a / b);
  }
}
