/**
 One UTF-8 character: the byte ranges that section 4 of RFC 3629 allows, the encoding of
 its section 3 as the string library and the runtime compute it, and the value their
 decoders compute back.
 */
module Utf8 {
  predicate Tail(b: bv8) {
    0x80 <= b <= 0xBF
  }

  /** The grammar of section 4 of RFC 3629, UTF8-1 to UTF8-4. */
  predicate WellFormed(s: seq<bv8>) {
    || (|s| == 1 && s[0] <= 0x7F)
    || (|s| == 2 && 0xC2 <= s[0] <= 0xDF && Tail(s[1]))
    || (|s| == 3 && Tail(s[2]) &&
        (|| (s[0] == 0xE0 && 0xA0 <= s[1] <= 0xBF)
         || (0xE1 <= s[0] <= 0xEC && Tail(s[1]))
         || (s[0] == 0xED && 0x80 <= s[1] <= 0x9F)
         || (0xEE <= s[0] <= 0xEF && Tail(s[1]))))
    || (|s| == 4 && Tail(s[2]) && Tail(s[3]) &&
        (|| (s[0] == 0xF0 && 0x90 <= s[1] <= 0xBF)
         || (0xF1 <= s[0] <= 0xF3 && Tail(s[1]))
         || (s[0] == 0xF4 && 0x80 <= s[1] <= 0x8F)))
  }

  /** The length that the first byte of a character announces, 0 if no character starts so. */
  function LeadLength(b: bv8): (n: nat)
    ensures n <= 4
  {
    if b <= 0x7F then 1
    else if 0xC0 <= b <= 0xDF then 2
    else if 0xE0 <= b <= 0xEF then 3
    else if 0xF0 <= b <= 0xF7 then 4
    else 0
  }

  /** A code point that is not a surrogate. */
  predicate Scalar(cp: bv32) {
    cp <= 0x10FFFF && !(0xD800 <= cp <= 0xDFFF)
  }

  /** Conversion to an octet drops the higher bits. */
  function Low8(x: bv32): bv8 {
    (x & 0xFF) as bv8
  }

  function Encode(cp: bv32): (s: seq<bv8>)
    ensures 1 <= |s| <= 4
  {
    if cp < 0x80 then [Low8(cp)]
    else if cp < 0x800 then [Low8((cp >> 6) | 0xC0), Low8((cp & 0x3F) | 0x80)]
    else if cp < 0x10000 then
      [Low8((cp >> 12) | 0xE0), Low8(((cp >> 6) & 0x3F) | 0x80), Low8((cp & 0x3F) | 0x80)]
    else
      [Low8((cp >> 18) | 0xF0), Low8(((cp >> 12) & 0x3F) | 0x80), Low8(((cp >> 6) & 0x3F) | 0x80),
       Low8((cp & 0x3F) | 0x80)]
  }

  function Value2(a: bv8, b: bv8): bv32 {
    (((a as bv32) << 6) & 0x7FF) + ((b as bv32) & 0x3F)
  }

  function Value3(a: bv8, b: bv8, c: bv8): bv32 {
    (((a as bv32) << 12) & 0xFFFF) + (((b as bv32) << 6) & 0xFFF) + ((c as bv32) & 0x3F)
  }

  function Value4(a: bv8, b: bv8, c: bv8, d: bv8): bv32 {
    (((a as bv32) << 18) & 0x1FFFFF) + (((b as bv32) << 12) & 0x3FFFF) + (((c as bv32) << 6) & 0xFFF)
    + ((d as bv32) & 0x3F)
  }

  function Value(s: seq<bv8>): bv32
    requires 1 <= |s| <= 4
  {
    if |s| == 1 then s[0] as bv32
    else if |s| == 2 then Value2(s[0], s[1])
    else if |s| == 3 then Value3(s[0], s[1], s[2])
    else Value4(s[0], s[1], s[2], s[3])
  }

  // ---------- splitting and joining bits ----------

  lemma {:induction false} Split2(cp: bv32)
    requires 0x80 <= cp < 0x800
    ensures Value2(Low8((cp >> 6) | 0xC0), Low8((cp & 0x3F) | 0x80)) == cp
  {
  }

  lemma {:induction false} Split3(cp: bv32)
    requires 0x800 <= cp < 0x10000
    ensures Value3(Low8((cp >> 12) | 0xE0), Low8(((cp >> 6) & 0x3F) | 0x80), Low8((cp & 0x3F) | 0x80)) == cp
  {
  }

  lemma {:induction false} Split4(cp: bv32)
    requires 0x10000 <= cp < 0x200000
    ensures Value4(Low8((cp >> 18) | 0xF0), Low8(((cp >> 12) & 0x3F) | 0x80), Low8(((cp >> 6) & 0x3F) | 0x80),
                   Low8((cp & 0x3F) | 0x80)) == cp
  {
  }

  lemma {:induction false} Join2(a: bv8, b: bv8)
    requires 0xC0 <= a <= 0xDF && Tail(b)
    ensures var cp := Value2(a, b); cp < 0x800 && Low8((cp >> 6) | 0xC0) == a && Low8((cp & 0x3F) | 0x80) == b
  {
  }

  lemma {:induction false} Join3(a: bv8, b: bv8, c: bv8)
    requires 0xE0 <= a <= 0xEF && Tail(b) && Tail(c)
    ensures var cp := Value3(a, b, c);
      && cp < 0x10000
      && Low8((cp >> 12) | 0xE0) == a && Low8(((cp >> 6) & 0x3F) | 0x80) == b && Low8((cp & 0x3F) | 0x80) == c
  {
  }

  lemma {:induction false} Join4(a: bv8, b: bv8, c: bv8, d: bv8)
    requires 0xF0 <= a <= 0xF7 && Tail(b) && Tail(c) && Tail(d)
    ensures var cp := Value4(a, b, c, d);
      && cp < 0x200000
      && Low8((cp >> 18) | 0xF0) == a && Low8(((cp >> 12) & 0x3F) | 0x80) == b
      && Low8(((cp >> 6) & 0x3F) | 0x80) == c && Low8((cp & 0x3F) | 0x80) == d
  {
  }

  lemma {:induction false} Range2(a: bv8, b: bv8)
    requires 0xC0 <= a <= 0xDF && Tail(b)
    ensures Value2(a, b) < 0x80 <==> a < 0xC2
  {
  }

  lemma {:induction false} Range3(a: bv8, b: bv8, c: bv8)
    requires 0xE0 <= a <= 0xEF && Tail(b) && Tail(c)
    ensures Value3(a, b, c) < 0x800 <==> a == 0xE0 && b < 0xA0
    ensures 0xD800 <= Value3(a, b, c) <= 0xDFFF <==> a == 0xED && 0xA0 <= b
  {
  }

  lemma {:induction false} Range4(a: bv8, b: bv8, c: bv8, d: bv8)
    requires 0xF0 <= a <= 0xF7 && Tail(b) && Tail(c) && Tail(d)
    ensures Value4(a, b, c, d) < 0x10000 <==> a == 0xF0 && b < 0x90
    ensures Value4(a, b, c, d) > 0x10FFFF <==> a > 0xF4 || (a == 0xF4 && b >= 0x90)
    ensures 0xD800 <= Value4(a, b, c, d) <= 0xDFFF <==> a == 0xF0 && b == 0x8D && 0xA0 <= c
  {
  }

  // ---------- one character ----------

  /** Encoding a scalar value gives a well-formed character that decodes to it. */
  lemma {:induction false} EncodeWellFormed(cp: bv32)
    requires Scalar(cp)
    ensures WellFormed(Encode(cp)) && Value(Encode(cp)) == cp
  {
    if cp < 0x80 {
    } else if cp < 0x800 {
      Split2(cp);
    } else if cp < 0x10000 {
      Split3(cp);
    } else {
      Split4(cp);
    }
  }

  lemma {:induction false} EncodeOfValue2(a: bv8, b: bv8)
    requires 0xC2 <= a <= 0xDF && Tail(b)
    ensures Scalar(Value2(a, b)) && Encode(Value2(a, b)) == [a, b]
  {
    Join2(a, b);
    Range2(a, b);
  }

  lemma {:induction false} EncodeOfValue3(a: bv8, b: bv8, c: bv8)
    requires 0xE0 <= a <= 0xEF && Tail(b) && Tail(c) && (a == 0xE0 ==> 0xA0 <= b) && (a == 0xED ==> b < 0xA0)
    ensures Scalar(Value3(a, b, c)) && Encode(Value3(a, b, c)) == [a, b, c]
  {
    Join3(a, b, c);
    Range3(a, b, c);
    EncodeJoined3(Value3(a, b, c), a, b, c);
  }

  lemma {:induction false} EncodeJoined3(cp: bv32, a: bv8, b: bv8, c: bv8)
    requires 0x800 <= cp < 0x10000
    requires Low8((cp >> 12) | 0xE0) == a && Low8(((cp >> 6) & 0x3F) | 0x80) == b && Low8((cp & 0x3F) | 0x80) == c
    ensures Encode(cp) == [a, b, c]
  {
  }

  lemma {:induction false} EncodeOfValue4(a: bv8, b: bv8, c: bv8, d: bv8)
    requires 0xF0 <= a <= 0xF4 && Tail(b) && Tail(c) && Tail(d) && (a == 0xF0 ==> 0x90 <= b) && (a == 0xF4 ==> b < 0x90)
    ensures Scalar(Value4(a, b, c, d)) && Encode(Value4(a, b, c, d)) == [a, b, c, d]
  {
    Range4(a, b, c, d);
    Join4(a, b, c, d);
    EncodeJoined4(Value4(a, b, c, d), a, b, c, d);
  }

  lemma {:induction false} EncodeJoined4(cp: bv32, a: bv8, b: bv8, c: bv8, d: bv8)
    requires 0x10000 <= cp
    requires Low8((cp >> 18) | 0xF0) == a && Low8(((cp >> 12) & 0x3F) | 0x80) == b
    requires Low8(((cp >> 6) & 0x3F) | 0x80) == c && Low8((cp & 0x3F) | 0x80) == d
    ensures Encode(cp) == [a, b, c, d]
  {
  }

  /** A well-formed character decodes to a scalar value whose encoding it is. */
  lemma {:induction false} EncodeOfValue(s: seq<bv8>)
    requires WellFormed(s)
    ensures Scalar(Value(s)) && Encode(Value(s)) == s
  {
    if |s| == 1 {
      var a := s[0];
      assert Low8(a as bv32) == a;
      assert s == [a];
    } else if |s| == 2 {
      EncodeOfValue2(s[0], s[1]);
      assert s == [s[0], s[1]];
    } else if |s| == 3 {
      EncodeOfValue3(s[0], s[1], s[2]);
      assert s == [s[0], s[1], s[2]];
    } else {
      EncodeOfValue4(s[0], s[1], s[2], s[3]);
      assert s == [s[0], s[1], s[2], s[3]];
    }
  }

  /** The well-formed byte strings are exactly the encodings of scalar values. */
  lemma {:induction false} WellFormedIffEncoding(s: seq<bv8>)
    ensures WellFormed(s) <==> exists cp :: Scalar(cp) && Encode(cp) == s
  {
    if WellFormed(s) {
      EncodeOfValue(s);
    }
    forall cp | Scalar(cp) && Encode(cp) == s
      ensures WellFormed(s)
    {
      EncodeWellFormed(cp);
    }
  }

  /** The first byte of a character gives its length; the others are tails, and it is none. */
  lemma {:induction false} LeadAndTails(c: seq<bv8>)
    requires WellFormed(c)
    ensures LeadLength(c[0]) == |c| && !Tail(c[0])
    ensures forall i | 1 <= i < |c| :: Tail(c[i])
  {
  }

  // ---------- a character as a number in base 64 ----------

  lemma {:induction false} Digits2(a: bv8, b: bv8)
    requires 0xC0 <= a <= 0xDF && Tail(b)
    ensures Value2(a, b) == ((a - 0xC0) as bv32) * 64 + ((b - 0x80) as bv32)
  {
  }

  lemma {:induction false} Digits3(a: bv8, b: bv8, c: bv8)
    requires 0xE0 <= a <= 0xEF && Tail(b) && Tail(c)
    ensures Value3(a, b, c) == (((a - 0xE0) as bv32) * 64 + ((b - 0x80) as bv32)) * 64 + ((c - 0x80) as bv32)
  {
  }

  lemma {:induction false} Digits4(a: bv8, b: bv8, c: bv8, d: bv8)
    requires 0xF0 <= a <= 0xF7 && Tail(b) && Tail(c) && Tail(d)
    ensures Value4(a, b, c, d)
         == ((((a - 0xF0) as bv32) * 64 + ((b - 0x80) as bv32)) * 64 + ((c - 0x80) as bv32)) * 64 + ((d - 0x80) as bv32)
  {
  }

  /** The bytes of a character, less their marks, are the digits of its value in base 64 (section 3 of RFC 3629). */
  lemma {:induction false} ValueInDigits(s: seq<bv8>)
    requires WellFormed(s)
    ensures |s| == 1 ==> Value(s) == s[0] as bv32
    ensures |s| == 2 ==> Value(s) == ((s[0] - 0xC0) as bv32) * 64 + ((s[1] - 0x80) as bv32)
    ensures |s| == 3 ==>
      Value(s) == (((s[0] - 0xE0) as bv32) * 64 + ((s[1] - 0x80) as bv32)) * 64 + ((s[2] - 0x80) as bv32)
    ensures |s| == 4 ==>
      Value(s) == ((((s[0] - 0xF0) as bv32) * 64 + ((s[1] - 0x80) as bv32)) * 64 + ((s[2] - 0x80) as bv32)) * 64
                  + ((s[3] - 0x80) as bv32)
  {
    if |s| == 2 {
      Digits2(s[0], s[1]);
    } else if |s| == 3 {
      Digits3(s[0], s[1], s[2]);
    } else if |s| == 4 {
      Digits4(s[0], s[1], s[2], s[3]);
    }
  }
}
