/** Bitwise operators on two's complement numbers: each bit of the result comes from the two bits in its place. */
module Bitwise {
  import opened IntegerEval

  datatype BitOp = Conjunction | Disjunction | Difference

  type Bit = b: int | 0 <= b <= 1

  function Combine(op: BitOp, a: Bit, b: Bit): Bit {
    match op
    case Conjunction => if a == 1 && b == 1 then 1 else 0
    case Disjunction => if a == 1 || b == 1 then 1 else 0
    case Difference => if a != b then 1 else 0
  }

  function SignBit(x: int): Bit {
    if x < 0 then 1 else 0
  }

  /** Bit `k` of a number, whose sign is repeated without end. */
  function BitAt(x: int, k: nat): Bit
    decreases k
  {
    if k == 0 then x % 2 else BitAt(x / 2, k - 1)
  }

  /** The lowest `w` bits one by one, and above them the signs. */
  function Apply(op: BitOp, x: int, y: int, w: nat): int
    decreases w
  {
    if w == 0 then 0 - Combine(op, SignBit(x), SignBit(y))
    else Combine(op, x % 2, y % 2) + 2 * Apply(op, x / 2, y / 2, w - 1)
  }

  /** Every bit of the result is the combination of the operands' bits. */
  lemma {:induction false} ApplyBits(op: BitOp, x: int, y: int, w: nat, k: nat)
    requires k < w
    ensures BitAt(Apply(op, x, y, w), k) == Combine(op, BitAt(x, k), BitAt(y, k))
    decreases w
  {
    if k != 0 {
      ApplyBits(op, x / 2, y / 2, w - 1, k - 1);
    }
  }

  /** The result needs no more bits than the operands, and is negative only if one of them is. */
  lemma {:induction false} ApplyFits(op: BitOp, x: int, y: int, n: nat, w: nat)
    requires n <= w && -Pow(2, n) <= x < Pow(2, n) && -Pow(2, n) <= y < Pow(2, n)
    ensures -Pow(2, n) <= Apply(op, x, y, w) < Pow(2, n)
    ensures 0 <= x && 0 <= y ==> 0 <= Apply(op, x, y, w)
    decreases w
  {
    if n != 0 {
      ApplyFits(op, x / 2, y / 2, n - 1, w - 1);
    } else if w != 0 {
      ApplyFits(op, x / 2, y / 2, n, w - 1);
    }
  }

  /** What the three operators have to do with sums: carries are where both operands have a bit. */
  lemma {:induction false} SumOfBits(x: int, y: int, w: nat)
    requires -Pow(2, w) <= x < Pow(2, w) && -Pow(2, w) <= y < Pow(2, w)
    ensures Apply(Conjunction, x, y, w) + Apply(Disjunction, x, y, w) == x + y
    ensures Apply(Disjunction, x, y, w) - Apply(Conjunction, x, y, w) == Apply(Difference, x, y, w)
    decreases w
  {
    if w != 0 {
      SumOfBits(x / 2, y / 2, w - 1);
    }
  }
}
