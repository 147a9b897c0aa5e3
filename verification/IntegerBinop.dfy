/** Binary operators of the constant evaluator on the ten integer types. */
module IntegerBinop {
  import Bitwise
  import Syntax
  import opened Arithmetic
  import opened IntegerEval

  datatype IntType = U8 | U16 | U32 | U64 | U128 | I8 | I16 | I32 | I64 | I128

  datatype NumOp =
    | Plus
    | Minus
    | Times
    | Quotient
    | Remainder
    | Power
    | ShiftLeft
    | ShiftRight
    | Bits(op: Bitwise.BitOp)

  predicate Signed(t: IntType) {
    t.I8? || t.I16? || t.I32? || t.I64? || t.I128?
  }

  function Modulus(t: IntType): (m: int)
    ensures 2 <= m <= TWO_TO_THE_128
  {
    match t
    case U8 => 0x100
    case I8 => 0x100
    case U16 => 0x1_0000
    case I16 => 0x1_0000
    case U32 => 0x1_0000_0000
    case I32 => 0x1_0000_0000
    case U64 => 0x1_0000_0000_0000_0000
    case I64 => 0x1_0000_0000_0000_0000
    case U128 => TWO_TO_THE_128
    case I128 => TWO_TO_THE_128
  }

  function Lowest(t: IntType): int {
    if Signed(t) then -(Modulus(t) / 2) else 0
  }

  predicate Fits(t: IntType, x: int) {
    Lowest(t) <= x < Lowest(t) + Modulus(t)
  }

  /** Cutting to the width of `t`. */
  function Reduce(t: IntType, x: int): (r: int)
    ensures Fits(t, r)
  {
    (x - Lowest(t)) % Modulus(t) + Lowest(t)
  }

  /** Cutting gives the only value of the type that is congruent. */
  lemma {:induction false} ReduceUnique(t: IntType, x: int, r: int)
    ensures r == Reduce(t, x) <==> Fits(t, r) && exists k :: r == x + k * Modulus(t)
  {
    var m := Modulus(t);
    if r == Reduce(t, x) {
      var q := (x - Lowest(t)) / m;
      assert x - Lowest(t) == q * m + (x - Lowest(t)) % m;
      Negate(q, m);
      assert r == x + -q * m;
    }
    forall k | Fits(t, r) && r == x + k * m
      ensures r == Reduce(t, x)
    {
      Negate(k, m);
      assert x - Lowest(t) == -k * m + (r - Lowest(t));
      QuotientUnique(x - Lowest(t), m, -k, r - Lowest(t));
    }
  }

  /** Computing at 128 bits first makes no difference. */
  lemma {:induction false} ReduceTwice(t: IntType, x: int)
    ensures Reduce(t, Mod128(x)) == Reduce(t, x)
  {
    var m := Modulus(t);
    var c := TWO_TO_THE_128 / m;
    assert TWO_TO_THE_128 == c * m;
    var q := x / TWO_TO_THE_128;
    assert Mod128(x) == x - q * TWO_TO_THE_128;
    Associate(q, c, m);
    ModCongruent(Mod128(x) - Lowest(t), q * c, m);
  }

  /** A shift takes the lowest 32 bits of its right operand. */
  function Distance(y: int): nat {
    y % 0x1_0000_0000
  }

  /** All integers are computed with as many bits. */
  const WIDTH: nat := 128

  lemma {:induction false} PowPositive(e: nat)
    ensures 0 < Pow(2, e)
  {
    if e != 0 {
      PowPositive(e - 1);
    }
  }

  /** The mathematical result; C divides towards zero and shifts a sign in from the left. */
  function Exact(op: NumOp, x: int, y: int): int
    requires op == Quotient || op == Remainder ==> y != 0
    requires op == Power ==> 0 <= y
  {
    match op
    case Plus => x + y
    case Minus => x - y
    case Times => x * y
    case Quotient => Syntax.TruncDiv(x, y)
    case Remainder => x - Syntax.TruncDiv(x, y) * y
    case Power => Pow(x, y)
    case ShiftLeft => x * Pow(2, Distance(y))
    case ShiftRight =>
      PowPositive(Distance(y));
      x / Pow(2, Distance(y))
    case Bits(b) => Bitwise.Apply(b, x, y, WIDTH)
  }

  predicate Defined(op: NumOp, y: int) {
    && (op == Quotient || op == Remainder ==> y != 0)
    && (op == Power ==> 0 <= y)
  }

  /** C does not define shifts by the width or more. */
  predicate TooFar(op: NumOp, y: int) {
    (op == ShiftLeft || op == ShiftRight) && Distance(y) >= WIDTH
  }

  /** A remainder is undefined when its quotient is, and a shift of a negative number to the left always. */
  predicate OverflowsI128(op: NumOp, x: int, y: int)
    requires Defined(op, y)
  {
    (op == ShiftLeft && x < 0) || !InI128(Exact(if op == Remainder then Quotient else op, x, y))
  }

  /** The signed 128-bit intermediate. */
  function Wide(op: NumOp, x: int, y: int): Outcome
    requires Defined(op, y)
  {
    if TooFar(op, y) || OverflowsI128(op, x, y) then Overflow else Value(Exact(op, x, y))
  }

  function Expected(op: NumOp, t: IntType, x: int, y: int): Outcome {
    if !Defined(op, y) then Died
    else if TooFar(op, y) || (Signed(t) && Wide(op, x, y).Overflow?) then Overflow
    else Value(Reduce(t, Exact(op, x, y)))
  }

  /** Unsigned operators: the mathematical result modulo the type's range. */
  method EvalUnsigned(op: NumOp, t: IntType, x: int, y: int) returns (r: Outcome)
    requires !Signed(t) && Fits(t, x) && Fits(t, y)
    ensures r == Expected(op, t, x, y)
  {
    if (op == Quotient || op == Remainder) && y == 0 {
      return Died;
    }
    if (op == ShiftLeft || op == ShiftRight) && y % 0x1_0000_0000 >= 128 {
      return Overflow;
    }
    var wide;
    match op {
      case Plus => wide := Mod128(x + y);
      case Minus => wide := Mod128(x - y);
      case Times => wide := Mod128(x * y);
      case Quotient =>
        wide := x / y;
        UnsignedQuotient(x, y);
      case Remainder =>
        wide := x % y;
        UnsignedQuotient(x, y);
      case Power => wide := PowU128(x, y);
      case ShiftLeft => wide := Mod128(x * Pow(2, Distance(y)));
      case ShiftRight =>
        PowPositive(Distance(y));
        wide := x / Pow(2, Distance(y));
      case Bits(b) => wide := Exact(op, x, y);
    }
    r := Value(Reduce(t, wide));
    if op == Plus || op == Minus || op == Times || op == Power || op == ShiftLeft {
      ReduceTwice(t, Exact(op, x, y));
    }
  }

  lemma {:induction false} UnsignedQuotient(x: int, y: int)
    requires 0 <= x && 0 < y
    ensures Syntax.TruncDiv(x, y) == x / y && x - Syntax.TruncDiv(x, y) * y == x % y
  {
    assert x == (x / y) * y + x % y;
  }

  /** The number of bits of a type without its sign. */
  function MagnitudeBits(t: IntType): (n: nat)
    ensures n <= WIDTH
  {
    match t
    case U8 => 8
    case U16 => 16
    case U32 => 32
    case U64 => 64
    case U128 => 128
    case I8 => 7
    case I16 => 15
    case I32 => 31
    case I64 => 63
    case I128 => 127
  }

  lemma {:induction false} PowSum(a: nat, b: nat)
    ensures Pow(2, a + b) == Pow(2, a) * Pow(2, b)
  {
    if a != 0 {
      PowSum(a - 1, b);
      Associate(2, Pow(2, a - 1), Pow(2, b));
    }
  }

  lemma {:induction false} PowDouble(n: nat, v: int)
    requires Pow(2, n) == v
    ensures Pow(2, 2 * n) == v * v
  {
    PowSum(n, n);
  }

  lemma {:induction false} RangeIsPow(t: IntType)
    ensures Lowest(t) + Modulus(t) == Pow(2, MagnitudeBits(t))
    ensures Lowest(t) == if Signed(t) then -Pow(2, MagnitudeBits(t)) else 0
  {
    assert Pow(2, 4) == 0x10;
    PowDouble(4, 0x10);
    PowDouble(8, 0x100);
    PowDouble(16, 0x1_0000);
    PowDouble(32, 0x1_0000_0000);
    PowDouble(64, 0x1_0000_0000_0000_0000);
  }

  lemma {:induction false} ReduceFits(t: IntType, r: int)
    requires Fits(t, r)
    ensures Reduce(t, r) == r
  {
    assert r == r + 0 * Modulus(t);
    ReduceUnique(t, r, r);
  }

  lemma {:induction false} BitsFitAt(b: Bitwise.BitOp, t: IntType, x: int, y: int, w: nat)
    requires Fits(t, x) && Fits(t, y) && MagnitudeBits(t) <= w
    ensures Fits(t, Bitwise.Apply(b, x, y, w))
  {
    RangeIsPow(t);
    Bitwise.ApplyFits(b, x, y, MagnitudeBits(t), w);
  }

  /** A bit operator at 128 bits stays within the operands' type. */
  lemma {:induction false} BitsFit(b: Bitwise.BitOp, t: IntType, x: int, y: int)
    requires Fits(t, x) && Fits(t, y)
    ensures Fits(t, Exact(Bits(b), x, y)) && Reduce(t, Exact(Bits(b), x, y)) == Exact(Bits(b), x, y)
  {
    BitsFitAt(b, t, x, y, WIDTH);
    ReduceFits(t, Exact(Bits(b), x, y));
  }

  lemma {:induction false} ProductSign(q: int, d: int)
    requires 0 < d
    ensures q < 0 <==> q * d < 0
  {
    if q < 0 {
      Negative(q, d);
    } else {
      ProductNatural(q, d);
    }
  }

  lemma {:induction false} DivBounds(x: int, d: int)
    requires 0 < d
    ensures 0 <= x ==> 0 <= x / d <= x
    ensures x < 0 ==> x <= x / d < 0
  {
    var q := x / d;
    if 0 <= x {
      DivAtMost(x, d);
    } else {
      assert x == q * d + x % d;
      ProductSign(q, d);
      ProductAtLeast(-(q + 1), d);
      Negate(d, q + 1);
      assert d * (q + 1) == q * d + d;
    }
  }

  lemma {:induction false} ShiftRightFits(t: IntType, x: int, y: int)
    requires Fits(t, x)
    ensures Fits(t, Exact(ShiftRight, x, y))
  {
    PowPositive(Distance(y));
    DivBounds(x, Pow(2, Distance(y)));
  }

  function Checked(x: int): Outcome {
    if InI128(x) then Value(x) else Overflow
  }

  /** Shifts and bit operators of the signed switch. */
  method EvalSignedBits(op: NumOp, t: IntType, x: int, y: int) returns (wide: Outcome)
    requires op == ShiftLeft || op == ShiftRight || op.Bits?
    requires Signed(t) && Fits(t, x) && Fits(t, y)
    ensures wide == Wide(op, x, y)
  {
    if (op == ShiftLeft || op == ShiftRight) && y % 0x1_0000_0000 >= 128 {
      return Overflow;
    }
    match op {
      case ShiftLeft => wide := if x < 0 then Overflow else Checked(Exact(op, x, y));
      case ShiftRight =>
        ShiftRightFits(t, x, y);
        wide := Value(Exact(op, x, y));
      case Bits(b) =>
        BitsFit(b, t, x, y);
        wide := Value(Exact(op, x, y));
    }
  }

  method EvalSigned(op: NumOp, t: IntType, x: int, y: int) returns (r: Outcome)
    requires Signed(t) && Fits(t, x) && Fits(t, y)
    ensures r == Expected(op, t, x, y)
  {
    if (op == Quotient || op == Remainder) && y == 0 {
      return Died;
    }
    var wide: Outcome;
    match op {
      case Plus => wide := Checked(x + y);
      case Minus => wide := Checked(x - y);
      case Times => wide := Checked(x * y);
      case Quotient => wide := Checked(Syntax.TruncDiv(x, y));
      case Remainder =>
        wide := Checked(Syntax.TruncDiv(x, y));
        if wide.Value? {
          wide := Value(x - wide.x * y);
        }
      case Power => wide := PowI128(x, y);
      case _ => wide := EvalSignedBits(op, t, x, y);
    }
    assert Defined(op, y) ==> wide == Wide(op, x, y);
    if wide.Value? {
      r := Value(Reduce(t, wide.x));
    } else {
      r := wide;
    }
  }

  method EvalBinopNumeric(op: NumOp, t: IntType, x: int, y: int) returns (r: Outcome)
    requires Fits(t, x) && Fits(t, y)
    ensures r == Expected(op, t, x, y)
  {
    if !Signed(t) {
      r := EvalUnsigned(op, t, x, y);
    } else {
      r := EvalSigned(op, t, x, y);
    }
  }

  lemma {:induction false} ProductBound(x: int, y: int)
    requires Syntax.Abs(x) <= 0x8000_0000_0000_0000 && Syntax.Abs(y) <= 0x8000_0000_0000_0000
    ensures InI128(x * y)
  {
    var h := 0x8000_0000_0000_0000;
    AbsProduct(x, y);
    MulMonotone(Syntax.Abs(x), h, Syntax.Abs(y));
    MulMonotone(Syntax.Abs(y), h, h);
    assert h * Syntax.Abs(y) == Syntax.Abs(y) * h;
  }

  lemma {:induction false} AbsProduct(x: int, y: int)
    ensures x * y == Syntax.Abs(x) * Syntax.Abs(y) || x * y == -(Syntax.Abs(x) * Syntax.Abs(y))
  {
    Negate(x, y);
    Negate(Syntax.Abs(x), y);
  }

  lemma {:induction false} QuotientBound(x: int, y: int)
    requires y != 0
    ensures Syntax.Abs(Syntax.TruncDiv(x, y)) <= Syntax.Abs(x)
  {
    DivAtMost(Syntax.Abs(x), Syntax.Abs(y));
  }

  lemma {:induction false} NarrowMagnitude(t: IntType, x: int)
    requires Signed(t) && t != I128 && Fits(t, x)
    ensures Syntax.Abs(x) <= 0x8000_0000_0000_0000
  {
  }

  lemma {:induction false} NarrowExact(op: NumOp, t: IntType, x: int, y: int)
    requires Signed(t) && t != I128 && Fits(t, x) && Fits(t, y) && Defined(op, y)
    requires op != Power && op != ShiftLeft && op != ShiftRight && op != Remainder
    ensures InI128(Exact(op, x, y))
  {
    NarrowMagnitude(t, x);
    NarrowMagnitude(t, y);
    match op
    case Times => ProductBound(x, y);
    case Quotient => QuotientBound(x, y);
    case Bits(b) => BitsFit(b, t, x, y);
    case _ =>
  }

  /** On types of up to 64 bits nothing but a power or a shift can leave the 128-bit intermediate. */
  lemma {:induction false} NarrowNeverOverflows(op: NumOp, t: IntType, x: int, y: int)
    requires Signed(t) && t != I128 && Fits(t, x) && Fits(t, y) && Defined(op, y)
    requires op != Power && op != ShiftLeft && op != ShiftRight
    ensures Expected(op, t, x, y) == Value(Reduce(t, Exact(op, x, y)))
  {
    NarrowExact(if op == Remainder then Quotient else op, t, x, y);
  }

  lemma {:induction false} HalfAtMost(x: nat, y: nat)
    requires 2 <= y
    ensures 2 * (x / y) <= x
  {
    DivAtMost(x, y);
    assert x == (x / y) * y + x % y;
    MulMonotone(2, y, x / y);
    assert y * (x / y) == (x / y) * y;
  }

  lemma {:induction false} WideQuotientFits(x: int, y: int)
    requires y != 0 && InI128(x)
    ensures InI128(Syntax.TruncDiv(x, y)) <==> !(x == -TWO_TO_THE_127 && y == -1)
  {
    QuotientBound(x, y);
    if Syntax.Abs(y) >= 2 {
      HalfAtMost(Syntax.Abs(x), Syntax.Abs(y));
    }
  }

  /** A 128-bit division overflows in one case only. */
  lemma {:induction false} WideQuotientOverflow(op: NumOp, x: int, y: int)
    requires (op == Quotient || op == Remainder) && y != 0 && InI128(x) && InI128(y)
    ensures Expected(op, I128, x, y) == Overflow <==> x == -TWO_TO_THE_127 && y == -1
  {
    WideQuotientFits(x, y);
  }

  // ---------- what division and shifts mean ----------

  /** `r` is a remainder of `x` by `y` in C: nearer to 0 than `y`, and not on the other side of 0 from `x`. */
  predicate Remains(x: int, y: int, r: int) {
    && (r < y || r < -y) && (-r < y || -r < -y)
    && (0 <= x ==> 0 <= r) && (x <= 0 ==> r <= 0)
  }

  lemma {:induction false} TruncDivRemains(x: int, y: int)
    requires y != 0
    ensures Remains(x, y, x - Syntax.TruncDiv(x, y) * y)
  {
    var a, b := Syntax.Abs(x), Syntax.Abs(y);
    assert a == (a / b) * b + a % b;
    Negate(a / b, b);
  }

  lemma {:induction false} RemainsUnique(x: int, y: int, p: int, q: int)
    requires y != 0 && Remains(x, y, x - p * y) && Remains(x, y, x - q * y)
    ensures p == q
  {
    assert (p - q) * y == p * y - q * y;
    if p != q {
      var b := Syntax.Abs(y);
      MultipleGap(if y < 0 then q - p else p - q, b);
      Negate(p - q, y);
    }
  }

  /** A multiple of `y` that leaves such a remainder lies between 0 and `x`. */
  lemma {:induction false} TowardsZero(x: int, y: int, q: int)
    requires y != 0 && Remains(x, y, x - q * y)
    ensures 0 <= x ==> 0 <= q * y <= x
    ensures x <= 0 ==> x <= q * y <= 0
  {
    if q != 0 {
      MultipleGap(if y < 0 then -q else q, Syntax.Abs(y));
      Negate(q, y);
    }
  }

  /** The one quotient that does not fit its type. */
  predicate QuotientTooLarge(t: IntType, x: int, y: int) {
    Signed(t) && x == Lowest(t) && y == -1
  }

  lemma {:induction false} QuotientFits(t: IntType, x: int, y: int, q: int)
    requires Fits(t, x) && Fits(t, y) && y != 0 && !QuotientTooLarge(t, x, y) && Remains(x, y, x - q * y)
    ensures Fits(t, q)
  {
    TowardsZero(x, y, q);
    if y == 1 || y == -1 {
      Negate(q, 1);
    } else if q > 0 {
      if y > 0 { ProductAtLeast(q, y); } else { ProductAtLeast(q, -y); Negate(q, y); }
      TwiceAtMost(q, y);
    } else if q < 0 {
      Negate(q, y);
      TwiceAtMost(-q, y);
    }
  }

  lemma {:induction false} TwiceAtMost(q: int, y: int)
    requires 0 <= q && (2 <= y || y <= -2)
    ensures 2 * q <= q * y || 2 * q <= -(q * y)
  {
    if 2 <= y {
      MulMonotone(2, y, q);
    } else {
      MulMonotone(2, -y, q);
      Negate(y, q);
    }
  }

  lemma {:induction false} DivisionDefined(op: NumOp, t: IntType, x: int, y: int)
    requires (op == Quotient || op == Remainder) && Fits(t, x) && Fits(t, y) && y != 0
    requires !(t.I128? && QuotientTooLarge(t, x, y))
    ensures Expected(op, t, x, y) == Value(Reduce(t, Exact(op, x, y)))
  {
    QuotientBound(x, y);
    if t.I128? {
      WideQuotientOverflow(op, x, y);
    }
  }

  /** Cutting 2^(n-1) to n bits gives the lowest value. */
  lemma {:induction false} LowestReturns(t: IntType)
    requires Signed(t)
    ensures Reduce(t, -Lowest(t)) == Lowest(t)
  {
    assert Lowest(t) == -Lowest(t) + -1 * Modulus(t);
    ReduceUnique(t, -Lowest(t), Lowest(t));
  }

  /**
   A quotient goes towards zero: it is the one number of which `y` times leaves a remainder nearer
   to 0 than `y` on the side of `x`.
   */
  lemma {:induction false} QuotientTruncates(t: IntType, x: int, y: int, q: int)
    requires Fits(t, x) && Fits(t, y) && y != 0 && !QuotientTooLarge(t, x, y)
    ensures Expected(Quotient, t, x, y) == Value(q) <==> Remains(x, y, x - q * y)
  {
    var p := Syntax.TruncDiv(x, y);
    TruncDivRemains(x, y);
    DivisionDefined(Quotient, t, x, y);
    QuotientFits(t, x, y, p);
    ReduceFits(t, p);
    if Remains(x, y, x - q * y) {
      RemainsUnique(x, y, p, q);
    }
  }

  lemma {:induction false} NegativeByMinusOne(x: int)
    requires x < 0
    ensures Syntax.TruncDiv(x, -1) == -x
  {
  }

  lemma {:induction false} LowestDivides(op: NumOp, t: IntType)
    requires Signed(t) && (op == Quotient || op == Remainder)
    ensures Expected(op, t, Lowest(t), -1) == if t.I128? then Overflow else Value(Reduce(t, Exact(op, Lowest(t), -1)))
  {
    if t.I128? {
      WideQuotientOverflow(op, Lowest(t), -1);
    } else {
      NarrowNeverOverflows(op, t, Lowest(t), -1);
    }
  }

  /** Only the lowest value by -1 has no quotient in its type; a narrow type cuts it to that value again. */
  lemma {:induction false} LowestByMinusOne(t: IntType)
    requires Signed(t)
    ensures Expected(Quotient, t, Lowest(t), -1) == if t.I128? then Overflow else Value(Lowest(t))
  {
    LowestDivides(Quotient, t);
    LowestReturns(t);
    NegativeByMinusOne(Lowest(t));
  }

  /** The remainder is 0, but at 128 bits undefined as the quotient is. */
  lemma {:induction false} LowestRemainder(t: IntType)
    requires Signed(t)
    ensures Expected(Remainder, t, Lowest(t), -1) == if t.I128? then Overflow else Value(0)
  {
    LowestDivides(Remainder, t);
    NegativeByMinusOne(Lowest(t));
    ReduceFits(t, 0);
  }

  /** A remainder has the sign of `x`, is nearer to 0 than `y`, and differs from `x` by a multiple of `y`. */
  lemma {:induction false} RemainderHasSignOfDividend(t: IntType, x: int, y: int, r: int)
    requires Fits(t, x) && Fits(t, y) && y != 0 && !(t.I128? && QuotientTooLarge(t, x, y))
    ensures Expected(Remainder, t, x, y) == Value(r) <==> Remains(x, y, r) && exists q :: x == q * y + r
  {
    var p := Syntax.TruncDiv(x, y);
    TruncDivRemains(x, y);
    DivisionDefined(Remainder, t, x, y);
    RemainderFits(t, x, y, p);
    ReduceFits(t, x - p * y);
    assert x == p * y + (x - p * y);
    forall q | x == q * y + r && Remains(x, y, r)
      ensures r == x - p * y
    {
      RemainsUnique(x, y, p, q);
    }
  }

  lemma {:induction false} RemainderFits(t: IntType, x: int, y: int, q: int)
    requires Fits(t, x) && y != 0 && Remains(x, y, x - q * y)
    ensures Fits(t, x - q * y)
  {
    TowardsZero(x, y, q);
  }

  /** A shift by a distance below the width scales by a power of two, to the right rounding down. */
  lemma {:induction false} ShiftLeftScales(t: IntType, x: int, y: int)
    requires Fits(t, x) && 0 <= y < WIDTH
    ensures Expected(ShiftLeft, t, x, y)
         == if Signed(t) && (x < 0 || x * Pow(2, y) >= TWO_TO_THE_127) then Overflow
            else Value(Reduce(t, x * Pow(2, y)))
  {
    PowPositive(y);
    if 0 <= x {
      ProductNatural(x, Pow(2, y));
    }
  }

  lemma {:induction false} QuotientBetween(x: int, d: int, s: int)
    requires 0 < d
    ensures s == x / d <==> s * d <= x < (s + 1) * d
  {
    assert x == (x / d) * d + x % d;
    assert (s + 1) * d == s * d + d;
    if s * d <= x < (s + 1) * d {
      QuotientUnique(x, d, s, x - s * d);
    }
  }

  lemma {:induction false} ShiftRightScales(t: IntType, x: int, y: int, s: int)
    requires Fits(t, x) && 0 <= y < WIDTH
    ensures Expected(ShiftRight, t, x, y) == Value(s) <==> s * Pow(2, y) <= x < (s + 1) * Pow(2, y)
  {
    PowPositive(y);
    ShiftRightDefined(t, x, y);
    QuotientBetween(x, Pow(2, y), s);
  }

  lemma {:induction false} ShiftRightDefined(t: IntType, x: int, y: int)
    requires Fits(t, x) && 0 <= y < WIDTH && 0 < Pow(2, y)
    ensures Expected(ShiftRight, t, x, y) == Value(x / Pow(2, y))
  {
    ShiftRightFits(t, x, y);
    ReduceFits(t, x / Pow(2, y));
  }
}
