/** Facts about products, quotients and remainders. */
module Arithmetic {
  lemma {:induction false} ProductAtLeast(x: int, y: int)
    requires 0 <= x && 1 <= y
    ensures y * x >= x
  {
    assert y * x == (y - 1) * x + x;
    ProductNatural(y - 1, x);
  }

  lemma {:induction false} ProductNatural(x: nat, y: nat)
    ensures x * y >= 0
  {
  }

  lemma {:induction false} MulMonotone(j: int, k: int, d: int)
    requires j <= k && 0 <= d
    ensures j * d <= k * d
  {
    assert (k - j) * d >= 0;
  }

  /** A multiple of `m` other than 0 is at least as far from 0 as `m`. */
  lemma {:induction false} MultipleGap(d: int, m: int)
    requires 0 < m && d != 0
    ensures d * m >= m || d * m <= -m
  {
    if d > 0 {
      ProductAtLeast(m, d);
    } else {
      ProductAtLeast(m, -d);
      Negate(d, m);
    }
  }

  lemma {:induction false} Negate(x: int, y: int)
    ensures -x * y == -(x * y) && x * -y == -(x * y)
  {
  }

  lemma {:induction false} QuotientUnique(x: int, m: int, q: int, r: int)
    requires 0 < m && 0 <= r < m && x == q * m + r
    ensures x / m == q && x % m == r
  {
    var d := x / m - q;
    assert x == (x / m) * m + x % m;
    assert d * m == (x / m) * m - q * m;
    assert d * m == r - x % m;
    if d != 0 {
      MultipleGap(d, m);
    }
  }

  lemma {:induction false} ModCongruent(x: int, k: int, m: int)
    requires 0 < m
    ensures (x + k * m) % m == x % m
  {
    var q := x / m;
    assert x == q * m + x % m;
    assert x + k * m == (q + k) * m + x % m;
    QuotientUnique(x + k * m, m, q + k, x % m);
  }

  /** Reducing a factor does not change a product modulo `m`. */
  lemma {:induction false} ModProduct(x: int, y: int, m: int)
    requires 0 < m
    ensures ((x % m) * y) % m == (x * y) % m
  {
    var q := x / m;
    assert x == q * m + x % m;
    assert x * y == (x % m) * y + (q * y) * m;
    ModCongruent((x % m) * y, q * y, m);
  }

  lemma {:induction false} ModProductBoth(x: int, y: int, z: int, m: int)
    requires 0 < m && y % m == z % m
    ensures (x * y) % m == (x * z) % m
  {
    ModProduct(y, x, m);
    ModProduct(z, x, m);
  }

  lemma {:induction false} Associate(x: int, y: int, z: int)
    ensures (x * y) * z == x * (y * z)
  {
  }

  lemma {:induction false} DivAtMost(x: nat, y: int)
    requires 0 < y
    ensures 0 <= x / y <= x
  {
    var q := x / y;
    assert x == q * y + x % y;
    assert y * q == q * y;
    if q < 0 {
      MultipleGap(q, y);
      Negative(q, y);
    } else {
      ProductAtLeast(q, y);
    }
  }

  lemma {:induction false} Negative(x: int, y: int)
    requires x < 0 < y
    ensures x * y < 0
  {
  }
}
