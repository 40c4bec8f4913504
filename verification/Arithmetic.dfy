// Products and quotients of variables, in the few forms the other modules need.

module Arithmetic {

  lemma NonNegative(a: nat, b: nat)
    ensures a * b >= 0
  {
  }

  lemma Distribute(a: int, b: int, c: int)
    ensures (a - b) * c == a * c - b * c
  {
  }

  lemma LargeMultiple(d: int, n: nat)
    requires d != 0
    ensures d * n >= n || d * n + n <= 0
  {
    if d > 0 {
      NonNegative(d - 1, n);
      assert d * n == (d - 1) * n + n;
    } else {
      NonNegative(-d - 1, n);
      assert d * n == -((-d - 1) * n) - n;
    }
  }

  lemma LessProduct(a: nat, m: nat, b: nat)
    requires m <= b
    ensures a * m <= a * b
  {
    NonNegative(a, b - m);
    assert a * b == a * m + a * (b - m);
  }

  lemma Cancel(a: nat, b: nat, c: nat)
    requires c > 0
    ensures a * c <= b * c ==> a <= b
    ensures a * c < b * c ==> a < b
  {
    if a > b {
      LessProduct(c, b + 1, a);
      assert c * (b + 1) == b * c + c && c * a == a * c;
    } else if a == b {
      assert a * c == b * c;
    }
  }

  lemma DivMod(i: nat, d: nat)
    requires d > 0
    ensures i == i / d * d + i % d
  {
  }

  /** Quotient and remainder are the only ones. */
  lemma QuotientIs(d: nat, q: nat, r: nat)
    requires r < d
    ensures (q * d + r) / d == q && (q * d + r) % d == r
  {
    NonNegative(q, d);
    var i := q * d + r;
    DivMod(i, d);
    Distribute(i / d, q, d);
    if i / d != q {
      LargeMultiple(i / d - q, d);
    }
  }
}
