/** Arithmetic of ranges: their length, their values, and when a compiled loop leaves them. */
module RangeFacts {
  import opened Arithmetic
  import opened Wrappers
  import opened Syntax
  import opened Ast

  lemma {:induction false} QuotientBounds(x: int, d: int)
    requires 0 <= x && 0 < d
    ensures 0 <= x / d && (x / d) * d <= x < (x / d + 1) * d
  {
    assert x == d * (x / d) + x % d;
  }

  /** The first `RangeCount` values lie in the range, the next one does not. */
  lemma {:induction false} RangeCountCorrect(start: int, end: int, d: int, descending: bool, inclusive: bool)
    requires d != 0 && descending == (d < 0)
    ensures var n := RangeCount(start, end, d, descending, inclusive);
      && (forall k | 0 <= k < n :: InRange(Nth(start, d, k), end, descending, inclusive))
      && !InRange(Nth(start, d, n), end, descending, inclusive)
  {
    var n := RangeCount(start, end, d, descending, inclusive);
    var span := (if descending then start - end else end - start) - (if inclusive then 0 else 1);
    SignedProduct(n, d);
    if 0 <= span {
      QuotientBounds(span, Abs(d));
      assert n * Abs(d) > span;
      forall k | 0 <= k < n
        ensures InRange(Nth(start, d, k), end, descending, inclusive)
      {
        MulMonotone(k, n - 1, Abs(d));
        SignedProduct(k, d);
      }
    }
  }

  lemma {:induction false} SignedProduct(k: int, d: int)
    ensures k * d == if d < 0 then -(k * Abs(d)) else k * Abs(d)
  {
  }

  /** What `RangeValues` yields: the values of the range in order, and one past its end. */
  lemma {:induction false} RangeValuesCorrect(start: I64, end: int, d: int, descending: bool, inclusive: bool)
    requires RangeValues(start, end, d, descending, inclusive).Some?
    ensures var vals := RangeValues(start, end, d, descending, inclusive).value;
      && vals[0] == start
      && (forall k | 0 <= k < |vals| - 1 :: InRange(vals[k], end, descending, inclusive) && vals[k + 1] == vals[k] + d)
      && !InRange(vals[|vals| - 1], end, descending, inclusive)
  {
    var vals := RangeValues(start, end, d, descending, inclusive).value;
    RangeCountCorrect(start, end, d, descending, inclusive);
    forall k | 0 <= k < |vals| - 1
      ensures vals[k + 1] == vals[k] + d
    {
      NextNth(start, d, k);
    }
  }

  lemma {:induction false} NextNth(start: int, d: int, k: int)
    ensures Nth(start, d, k + 1) == Nth(start, d, k) + d
  {
    assert (k + 1) * d == k * d + d;
  }

  /** The values of a range from `start` in steps of `d`, and behind them the first that lies outside. */
  ghost predicate StepsThrough(vals: seq<I64>, start: int, end: int, d: int, descending: bool, inclusive: bool) {
    && vals != [] && vals[0] == start
    && (forall k | 0 <= k < |vals| - 1 :: InRange(vals[k], end, descending, inclusive) && vals[k + 1] == vals[k] + d)
    && !InRange(vals[|vals| - 1], end, descending, inclusive)
  }

  /** The closed form yields such a sequence, whenever there is one and the stride points the right way. */
  lemma {:induction false} RangeValuesExact(start: I64, end: int, d: int, descending: bool, inclusive: bool,
          vals: seq<I64>)
    ensures RangeValues(start, end, d, descending, inclusive) == Some(vals)
      <==> d != 0 && descending == (d < 0) && StepsThrough(vals, start, end, d, descending, inclusive)
  {
    if d != 0 && descending == (d < 0) {
      if RangeValues(start, end, d, descending, inclusive) == Some(vals) {
        RangeValuesCorrect(start, end, d, descending, inclusive);
      }
      if StepsThrough(vals, start, end, d, descending, inclusive) {
        StepsAreNth(vals, start, end, d, descending, inclusive);
        SameLength(vals, start, end, d, descending, inclusive);
        var r := RangeValues(start, end, d, descending, inclusive);
        assert r.Some? && r.value == vals;
      }
    }
  }

  lemma {:induction false} StepsAreNth(vals: seq<I64>, start: int, end: int, d: int, descending: bool, inclusive: bool)
    requires StepsThrough(vals, start, end, d, descending, inclusive)
    ensures forall k | 0 <= k < |vals| :: vals[k] == Nth(start, d, k)
  {
    var n := 1;
    while n < |vals|
      invariant 1 <= n <= |vals| && forall k | 0 <= k < n :: vals[k] == Nth(start, d, k)
    {
      NextNth(start, d, n - 1);
      assert vals[n] == vals[n - 1] + d;
      n := n + 1;
    }
  }

  lemma {:induction false} SameLength(vals: seq<I64>, start: int, end: int, d: int, descending: bool, inclusive: bool)
    requires d != 0 && descending == (d < 0) && StepsThrough(vals, start, end, d, descending, inclusive)
    requires forall k | 0 <= k < |vals| :: vals[k] == Nth(start, d, k)
    ensures |vals| == RangeCount(start, end, d, descending, inclusive) + 1
  {
    var n := RangeCount(start, end, d, descending, inclusive);
    assert n < |vals| - 1 ==> InRange(vals[n], end, descending, inclusive);
    RangeCountCorrect(start, end, d, descending, inclusive);
  }

  lemma {:induction false} NonEmpty(start: int, end: int, d: int, descending: bool, inclusive: bool)
    requires d != 0 && InRange(start, end, descending, inclusive)
    ensures 0 < RangeCount(start, end, d, descending, inclusive)
  {
    var span := (if descending then start - end else end - start) - (if inclusive then 0 else 1);
    QuotientBounds(span, Abs(d));
  }

  /**
   A non-empty range whose stride points the right way: after its last value the compiled
   loop leaves exactly if the value past the end fits the iterator's type.  Otherwise the
   sum wraps around to a value inside the range and the loop goes on.
   */
  lemma {:induction false} RangeExitExact(start: I64, end: I64, d: I64, descending: bool, inclusive: bool)
    requires d != 0 && descending == (d < 0) && InRange(start, end, descending, inclusive)
    ensures var n := RangeCount(start, end, d, descending, inclusive);
      && 0 < n
      && (RangeValues(start, end, d, descending, inclusive).Some? <==> InI64(Nth(start, d, n)))
      && (!InRange(Wrap(Nth(start, d, n)), end, descending, inclusive) <==> InI64(Nth(start, d, n)))
  {
    var n := RangeCount(start, end, d, descending, inclusive);
    NonEmpty(start, end, d, descending, inclusive);
    RangeCountCorrect(start, end, d, descending, inclusive);
    InsideFits(start, end, d, descending, inclusive, n);
    NextNth(start, d, n - 1);
    LastStep(Nth(start, d, n - 1), end, d, descending, inclusive);
  }

  lemma {:induction false} InsideFits(start: I64, end: I64, d: I64, descending: bool, inclusive: bool, n: nat)
    requires d != 0 && descending == (d < 0)
    requires forall k | 0 <= k < n :: InRange(Nth(start, d, k), end, descending, inclusive)
    ensures forall k | 0 <= k < n :: InI64(Nth(start, d, k))
  {
    forall k | 0 <= k < n
      ensures InI64(Nth(start, d, k))
    {
      MulMonotone(0, k, Abs(d));
      SignedProduct(k, d);
    }
  }

  lemma {:induction false} LastStep(last: I64, end: I64, d: I64, descending: bool, inclusive: bool)
    requires d != 0 && descending == (d < 0)
    requires InRange(last, end, descending, inclusive) && !InRange(last + d, end, descending, inclusive)
    ensures !InRange(Wrap(last + d), end, descending, inclusive) <==> InI64(last + d)
  {
    if !InI64(last + d) {
      WrapOnce(last, d);
    }
  }

  lemma {:induction false} WrapOnce(x: I64, d: I64)
    requires !InI64(x + d)
    ensures Wrap(x + d) == if d < 0 then x + d + TWO_TO_THE_64 else x + d - TWO_TO_THE_64
  {
    var m := x + d - I64_MIN;
    if d < 0 {
      assert m + TWO_TO_THE_64 == TWO_TO_THE_64 * 1 + m;
      assert -TWO_TO_THE_64 <= m < 0;
      assert m % TWO_TO_THE_64 == m + TWO_TO_THE_64;
    } else {
      assert TWO_TO_THE_64 <= m < 2 * TWO_TO_THE_64;
      assert m % TWO_TO_THE_64 == m - TWO_TO_THE_64;
    }
  }
}
