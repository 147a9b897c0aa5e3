/**
 Integer arithmetic of the constant evaluator: everything is computed at 128 bits and then
 cut to the width of the result type.  Signed overflow at 128 bits is undefined in C; the
 model makes it a visible outcome.
 */
module IntegerEval {
  import Syntax
  import opened Arithmetic

  const TWO_TO_THE_127: int := 0x8000_0000_0000_0000_0000_0000_0000_0000
  const TWO_TO_THE_128: int := 0x1_0000_0000_0000_0000_0000_0000_0000_0000

  predicate InI128(x: int) {
    -TWO_TO_THE_127 <= x < TWO_TO_THE_127
  }

  predicate InU128(x: int) {
    0 <= x < TWO_TO_THE_128
  }

  /** `Overflow` is what C leaves undefined: signed overflow and shifts it does not define. */
  datatype Outcome = Value(x: int) | Died | Overflow

  // ---------- power ----------

  function Pow(a: int, e: nat): int {
    if e == 0 then 1 else a * Pow(a, e - 1)
  }

  lemma {:induction false} PowSquare(a: int, e: nat)
    ensures Pow(a * a, e) == Pow(a, 2 * e)
  {
    if e != 0 {
      PowSquare(a, e - 1);
      assert Pow(a, 2 * e) == a * Pow(a, 2 * e - 1) == a * (a * Pow(a, 2 * (e - 1)));
      Associate(a, a, Pow(a, 2 * (e - 1)));
    }
  }

  /** One step of square-and-multiply. */
  lemma {:induction false} PowHalve(base: int, exp: nat)
    requires exp != 0
    ensures Pow(base, exp) == (if exp % 2 == 1 then base else 1) * Pow(base * base, exp / 2)
  {
    PowSquare(base, exp / 2);
    if exp % 2 == 1 {
      assert exp == 2 * (exp / 2) + 1;
    } else {
      assert exp == 2 * (exp / 2);
    }
  }

  // ---------- unsigned power, modulo 2^128 ----------

  function Mod128(x: int): (r: int)
    ensures InU128(r)
  {
    x % TWO_TO_THE_128
  }

  lemma {:induction false} ModPow(x: int, e: nat, m: int)
    requires 0 < m
    ensures Pow(x % m, e) % m == Pow(x, e) % m
  {
    if e != 0 {
      ModPow(x, e - 1, m);
      ModProduct(x, Pow(x % m, e - 1), m);
      ModProduct(Pow(x % m, e - 1), x, m);
      ModProduct(Pow(x, e - 1), x, m);
    }
  }

  method PowU128(a: int, b: int) returns (result: int)
    requires InU128(a) && InU128(b)
    ensures result == Mod128(Pow(a, b))
  {
    var exp := b;
    var base := a;
    result := 1;
    while exp != 0
      invariant 0 <= exp && InU128(base) && InU128(result)
      invariant Mod128(result * Pow(base, exp)) == Mod128(Pow(a, b))
      decreases exp
    {
      PowHalve(base, exp);
      ghost var odd := if exp % 2 == 1 then base else 1;
      ghost var rest := Pow(base * base, exp / 2);
      assert result * Pow(base, exp) == (result * odd) * rest by {
        Associate(result, odd, rest);
      }
      ModProduct(result * odd, rest, TWO_TO_THE_128);
      if exp % 2 == 1 {
        result := Mod128(result * base);
      } else {
        assert result == Mod128(result * odd);
      }
      exp := exp / 2;
      if exp != 0 {
        ModPow(base * base, exp, TWO_TO_THE_128);
        ModProductBoth(result, Pow(Mod128(base * base), exp), rest, TWO_TO_THE_128);
        base := Mod128(base * base);
      }
    }
  }

  // ---------- signed power, overflow visible ----------

  lemma {:induction false} PowAtLeast(x: int, e: nat)
    requires x != 0
    ensures Pow(x, e) != 0
    ensures e != 0 && x > 0 ==> Pow(x, e) >= x
  {
    if e != 0 {
      PowAtLeast(x, e - 1);
      if x > 0 {
        PowPositive(x, e - 1);
        assert x * Pow(x, e - 1) >= x * 1;
      }
    }
  }

  lemma {:induction false} PowPositive(x: int, e: nat)
    requires x > 0
    ensures Pow(x, e) >= 1
  {
    if e != 0 {
      PowPositive(x, e - 1);
      assert x * Pow(x, e - 1) >= 1 * 1;
    }
  }

  /** No square is 2^127. */
  lemma {:induction false} NoSquare(x: int)
    ensures x * x != TWO_TO_THE_127
  {
    var k := 13043817825332782212;
    var y := Syntax.Abs(x);
    assert y * y == x * x;
    if y <= k {
      assert y * y <= k * k;
    } else {
      assert y * y >= (k + 1) * (k + 1);
    }
  }

  /** A factor that is followed by a positive one is no larger than the product, and has its sign. */
  lemma {:induction false} FactorFits(x: int, y: int)
    requires 1 <= y && InI128(x * y)
    ensures InI128(x)
  {
    assert x * y == y * x;
    if x >= 0 {
      ProductAtLeast(x, y);
    } else {
      ProductAtLeast(-x, y);
      Negate(y, x);
    }
  }

  lemma {:induction false} SquarePositive(x: int)
    requires x != 0
    ensures x * x > 0
  {
  }

  /** The square that the loop takes only when it is still needed fits whenever the result does. */
  lemma {:induction false} SquareFits(result: int, base: int, exp: nat)
    requires exp != 0 && result != 0 && base != 0 && InI128(result * Pow(base * base, exp))
    ensures InI128(base * base)
  {
    var s := base * base;
    SquarePositive(base);
    PowAtLeast(s, exp);
    PowPositive(s, exp);
    var p := Pow(s, exp);
    if result > 0 {
      ProductAtLeast(p, result);
    } else {
      ProductAtLeast(p, -result);
      Negate(result, p);
    }
    assert p <= TWO_TO_THE_127;
    NoSquare(base);
  }

  method PowI128(a: int, b: int) returns (r: Outcome)
    requires InI128(a) && InI128(b)
    ensures r == if b < 0 then Died else if InI128(Pow(a, b)) then Value(Pow(a, b)) else Overflow
  {
    if b < 0 {
      return Died;
    }
    var exp := b;
    var base := a;
    var result := 1;
    while exp != 0
      invariant 0 <= exp && InI128(base) && InI128(result)
      invariant result * Pow(base, exp) == Pow(a, b)
      invariant result == 0 ==> base == 0
      decreases exp
    {
      PowHalve(base, exp);
      ghost var odd := if exp % 2 == 1 then base else 1;
      ghost var rest := Pow(base * base, exp / 2);
      assert result * Pow(base, exp) == (result * odd) * rest by {
        Associate(result, odd, rest);
      }
      if exp % 2 == 1 {
        ProductFits(result * base, base, exp / 2);
        if !InI128(result * base) {
          return Overflow;
        }
        result := result * base;
      }
      exp := exp / 2;
      if exp != 0 {
        if base != 0 {
          if InI128(Pow(a, b)) {
            SquareFits(result, base, exp);
          }
        }
        if !InI128(base * base) {
          return Overflow;
        }
        base := base * base;
      } else {
        assert rest == 1;
      }
    }
    r := Value(result);
  }

  lemma {:induction false} ProductFits(x: int, base: int, exp: nat)
    requires x != 0 ==> base != 0
    ensures InI128(x * Pow(base * base, exp)) ==> InI128(x)
  {
    if x != 0 {
      SquarePositive(base);
      PowPositive(base * base, exp);
      if InI128(x * Pow(base * base, exp)) {
        FactorFits(x, Pow(base * base, exp));
      }
    }
  }
}
