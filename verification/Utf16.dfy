/** UTF-16 as sections 2.1 and 2.2 of RFC 2781 define it, and the arithmetic that the conversions use instead. */
module Utf16 {
  import opened Utf8
  import opened Utf8Text

  predicate Lead(w: bv16) {
    0xD800 <= w <= 0xDBFF
  }

  predicate Trail(w: bv16) {
    0xDC00 <= w <= 0xDFFF
  }

  function Low16(x: bv32): bv16 {
    (x & 0xFFFF) as bv16
  }

  /** Section 2.1: a value beyond the basic plane becomes two units of ten bits each. */
  function Encode16(cp: bv32): seq<bv16> {
    if cp < 0x10000 then [Low16(cp)]
    else
      var u := cp - 0x10000;
      [Low16(0xD800 | (u >> 10)), Low16(0xDC00 | (u & 0x3FF))]
  }

  /** Section 2.2: two surrogates give their ten bits each. */
  function Pair(w1: bv16, w2: bv16): bv32 {
    ((((w1 as bv32) & 0x3FF) << 10) | ((w2 as bv32) & 0x3FF)) + 0x10000
  }

  /** Length of the character at the front of `s`, 0 if it is a stray surrogate. */
  function FrontLength16(s: seq<bv16>): (n: nat)
    ensures n <= |s|
  {
    if s == [] then 0
    else if !Lead(s[0]) && !Trail(s[0]) then 1
    else if Lead(s[0]) && |s| >= 2 && Trail(s[1]) then 2
    else 0
  }

  function FrontValue16(s: seq<bv16>): bv32
    requires FrontLength16(s) != 0
  {
    if FrontLength16(s) == 1 then s[0] as bv32 else Pair(s[0], s[1])
  }

  predicate Valid16(s: seq<bv16>)
    decreases |s|
  {
    s == [] || (FrontLength16(s) != 0 && Valid16(s[FrontLength16(s)..]))
  }

  function DecodeAll16(s: seq<bv16>): seq<bv32>
    requires Valid16(s)
    decreases |s|
  {
    if s == [] then [] else [FrontValue16(s)] + DecodeAll16(s[FrontLength16(s)..])
  }

  function EncodeAll16(cps: seq<bv32>): seq<bv16> {
    if cps == [] then [] else Encode16(cps[0]) + EncodeAll16(cps[1..])
  }

  lemma {:induction false} PairOfEncode(cp: bv32)
    requires 0x10000 <= cp <= 0x10FFFF
    ensures var u := cp - 0x10000; var w1, w2 := Low16(0xD800 | (u >> 10)), Low16(0xDC00 | (u & 0x3FF));
      Lead(w1) && Trail(w2) && Pair(w1, w2) == cp
  {
  }

  lemma {:induction false} EncodeOfPair(w1: bv16, w2: bv16)
    requires Lead(w1) && Trail(w2)
    ensures var u := Pair(w1, w2) - 0x10000;
      && 0x10000 <= Pair(w1, w2) <= 0x10FFFF
      && Low16(0xD800 | (u >> 10)) == w1 && Low16(0xDC00 | (u & 0x3FF)) == w2
  {
  }

  lemma {:induction false} WidenLow16(cp: bv32)
    requires cp < 0x10000
    ensures Low16(cp) as bv32 == cp
  {
  }

  lemma {:induction false} WidenCompare(w: bv16)
    ensures w as bv32 < 0x10000 && Low16(w as bv32) == w
    ensures Lead(w) || Trail(w) <==> 0xD800 <= w as bv32 <= 0xDFFF
  {
  }

  lemma {:induction false} UnitOfEncode(cp: bv32)
    requires Scalar(cp) && cp < 0x10000
    ensures !Lead(Low16(cp)) && !Trail(Low16(cp)) && Low16(cp) as bv32 == cp
  {
    var w := Low16(cp);
    WidenLow16(cp);
    WidenCompare(w);
  }

  lemma {:induction false} EncodeOfUnit(w: bv16)
    requires !Lead(w) && !Trail(w)
    ensures Scalar(w as bv32) && w as bv32 < 0x10000 && Low16(w as bv32) == w
  {
    WidenCompare(w);
  }

  /** Decoding inverts encoding on one character, whatever follows. */
  lemma {:induction false} FrontOfEncode16(cp: bv32, s: seq<bv16>)
    requires Scalar(cp)
    ensures var t := Encode16(cp) + s;
      FrontLength16(t) == |Encode16(cp)| && FrontValue16(t) == cp && t[FrontLength16(t)..] == s
  {
    if cp < 0x10000 {
      UnitOfEncode(cp);
    } else {
      PairOfEncode(cp);
    }
  }

  lemma {:induction false} EncodeJoined16(cp: bv32, w1: bv16, w2: bv16)
    requires 0x10000 <= cp && Low16(0xD800 | ((cp - 0x10000) >> 10))
         == w1 && Low16(0xDC00 | ((cp - 0x10000) & 0x3FF)) == w2
    ensures Encode16(cp) == [w1, w2]
  {
  }

  lemma {:induction false} EncodeOfFront16(s: seq<bv16>)
    requires FrontLength16(s) != 0
    ensures Scalar(FrontValue16(s)) && Encode16(FrontValue16(s)) == s[..FrontLength16(s)]
  {
    if FrontLength16(s) == 1 {
      EncodeOfUnit(s[0]);
      assert s[..1] == [s[0]];
    } else {
      EncodeOfPair(s[0], s[1]);
      assert s[..2] == [s[0], s[1]];
      EncodeJoined16(Pair(s[0], s[1]), s[0], s[1]);
    }
  }

  lemma {:induction false} DecodeOfEncode16(cps: seq<bv32>)
    requires Scalars(cps)
    ensures Valid16(EncodeAll16(cps)) && DecodeAll16(EncodeAll16(cps)) == cps
  {
    if cps != [] {
      DecodeOfEncode16(cps[1..]);
      FrontOfEncode16(cps[0], EncodeAll16(cps[1..]));
    }
  }

  lemma {:induction false} EncodeCons16(cp: bv32, cps: seq<bv32>)
    ensures EncodeAll16([cp] + cps) == Encode16(cp) + EncodeAll16(cps)
    ensures Scalars([cp] + cps) <==> Scalar(cp) && Scalars(cps)
  {
    EncodeCons(cp, cps);
    assert ([cp] + cps)[1..] == cps;
  }

  /** A non-empty valid string is the encoding of one value and a shorter valid string. */
  lemma {:induction false} Front16(s: seq<bv16>) returns (cp: bv32, rest: seq<bv16>)
    requires Valid16(s) && s != []
    ensures Scalar(cp) && s == Encode16(cp) + rest && Valid16(rest) && |rest| < |s|
    ensures DecodeAll16(s) == [cp] + DecodeAll16(rest)
  {
    cp, rest := FrontValue16(s), s[FrontLength16(s)..];
    EncodeOfFront16(s);
  }

  lemma {:induction false} EncodeOfDecode16(s: seq<bv16>)
    requires Valid16(s)
    ensures Scalars(DecodeAll16(s)) && EncodeAll16(DecodeAll16(s)) == s
    decreases |s|
  {
    if s != [] {
      var cp, rest := Front16(s);
      EncodeOfDecode16(rest);
      EncodeCons16(cp, DecodeAll16(rest));
    }
  }

  /** A pair of surrogates spells its value in base 1024, above the basic plane. */
  lemma {:induction false} PairInDigits(w1: bv16, w2: bv16)
    requires Lead(w1) && Trail(w2)
    ensures Pair(w1, w2) == ((w1 - 0xD800) as bv32) * 1024 + ((w2 - 0xDC00) as bv32) + 0x10000
  {
  }

  // ---------- the conversions' constants ----------

  const TRAIL_SURROGATE_MIN: bv16 := 0xDC00
  const LEAD_OFFSET: bv16 := 0xD800 - 0x40

  /** Computed modulo 2^32: the difference is negative. */
  const SURROGATE_OFFSET: bv32 := 0x10000 - (0xD800 << 10) - 0xDC00

  /** Adding the offset undoes both surrogate biases at once. */
  lemma {:induction false} SurrogateOffset(w1: bv16, w2: bv16)
    requires Lead(w1) && Trail(w2)
    ensures ((w1 as bv32) << 10) + (w2 as bv32) + SURROGATE_OFFSET == Pair(w1, w2)
  {
  }

  lemma {:induction false} LeadHalf(cp: bv32)
    requires 0x10000 <= cp <= 0x10FFFF
    ensures Low16(0xD800 | ((cp - 0x10000) >> 10)) == Low16((cp >> 10) + (LEAD_OFFSET as bv32))
    ensures Low16(0xDC00 | ((cp - 0x10000) & 0x3FF)) == Low16((cp & 0x3FF) + (TRAIL_SURROGATE_MIN as bv32))
  {
  }

  lemma {:induction false} LeadOffset(cp: bv32)
    requires 0x10000 <= cp <= 0x10FFFF
    ensures [Low16((cp >> 10) + (LEAD_OFFSET as bv32)), Low16((cp & 0x3FF) + (TRAIL_SURROGATE_MIN as bv32))]
         == Encode16(cp)
  {
    LeadHalf(cp);
    EncodeJoined16(cp, Low16((cp >> 10) + (LEAD_OFFSET as bv32)), Low16((cp & 0x3FF) + (TRAIL_SURROGATE_MIN as bv32)));
  }
}
