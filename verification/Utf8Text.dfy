/** Byte strings as sequences of characters. */
module Utf8Text {
  import opened Utf8

  /** Length of the well-formed character at the front of `s`, 0 if there is none. */
  function FrontLength(s: seq<bv8>): (n: nat)
    ensures n <= 4 && n <= |s|
  {
    if s == [] then 0
    else
      var n := LeadLength(s[0]);
      if n <= |s| && WellFormed(s[..n]) then n else 0
  }

  predicate Valid(s: seq<bv8>)
    decreases |s|
  {
    s == [] || (FrontLength(s) != 0 && Valid(s[FrontLength(s)..]))
  }

  function DecodeAll(s: seq<bv8>): seq<bv32>
    requires Valid(s)
    decreases |s|
  {
    if s == [] then []
    else
      var n := FrontLength(s);
      [Value(s[..n])] + DecodeAll(s[n..])
  }

  function EncodeAll(cps: seq<bv32>): seq<bv8> {
    if cps == [] then [] else Encode(cps[0]) + EncodeAll(cps[1..])
  }

  predicate Scalars(cps: seq<bv32>) {
    forall i | 0 <= i < |cps| :: Scalar(cps[i])
  }

  /** A character in front of a valid string. */
  lemma {:induction false} FrontOfConcat(c: seq<bv8>, s: seq<bv8>)
    requires WellFormed(c)
    ensures FrontLength(c + s) == |c| && (c + s)[..|c|] == c && (c + s)[|c|..] == s
    ensures Valid(c + s) <==> Valid(s)
  {
    var t := c + s;
    assert t[..|c|] == c && t[|c|..] == s;
    LeadAndTails(c);
  }

  /** A non-empty valid string is a character and a shorter valid string. */
  lemma {:induction false} Front(s: seq<bv8>) returns (c: seq<bv8>, rest: seq<bv8>)
    requires Valid(s) && s != []
    ensures s == c + rest && WellFormed(c) && Valid(rest) && |rest| < |s|
    ensures DecodeAll(s) == [Value(c)] + DecodeAll(rest)
  {
    c, rest := s[..FrontLength(s)], s[FrontLength(s)..];
  }

  /** Decoding inverts encoding. */
  lemma {:induction false} DecodeOfEncode(cps: seq<bv32>)
    requires Scalars(cps)
    ensures Valid(EncodeAll(cps)) && DecodeAll(EncodeAll(cps)) == cps
  {
    if cps != [] {
      DecodeOfEncode(cps[1..]);
      EncodeWellFormed(cps[0]);
      FrontOfConcat(Encode(cps[0]), EncodeAll(cps[1..]));
    }
  }

  lemma {:induction false} EncodeCons(cp: bv32, cps: seq<bv32>)
    ensures EncodeAll([cp] + cps) == Encode(cp) + EncodeAll(cps)
    ensures Scalars([cp] + cps) <==> Scalar(cp) && Scalars(cps)
  {
    assert ([cp] + cps)[1..] == cps;
    assert forall i | 0 <= i < |cps| :: ([cp] + cps)[i + 1] == cps[i];
  }

  /** Decoding one character ahead. */
  lemma {:induction false} DecodeFront(c: seq<bv8>, s: seq<bv8>)
    requires WellFormed(c) && Valid(s)
    ensures Valid(c + s) && DecodeAll(c + s) == [Value(c)] + DecodeAll(s)
  {
    FrontOfConcat(c, s);
  }

  /** Encoding inverts decoding. */
  lemma {:induction false} EncodeOfDecode(s: seq<bv8>)
    requires Valid(s)
    ensures Scalars(DecodeAll(s)) && EncodeAll(DecodeAll(s)) == s
    decreases |s|
  {
    if s != [] {
      var c, rest := Front(s);
      EncodeOfDecode(rest);
      EncodeOfValue(c);
      EncodeCons(Value(c), DecodeAll(rest));
    }
  }

  /** The valid strings are exactly the concatenations of encodings of scalar values. */
  lemma {:induction false} ValidIffEncoding(s: seq<bv8>)
    ensures Valid(s) <==> exists cps :: Scalars(cps) && EncodeAll(cps) == s
  {
    if Valid(s) {
      EncodeOfDecode(s);
    }
    forall cps | Scalars(cps) && EncodeAll(cps) == s
      ensures Valid(s)
    {
      DecodeOfEncode(cps);
    }
  }

  /** A byte string splits into encodings in one way only. */
  lemma {:induction false} SplitUnique(a: seq<bv32>, b: seq<bv32>)
    requires Scalars(a) && Scalars(b)
    ensures EncodeAll(a) == EncodeAll(b) <==> a == b
  {
    DecodeOfEncode(a);
    DecodeOfEncode(b);
  }

  lemma {:induction false} ConcatAssociative<T>(a: seq<T>, b: seq<T>, c: seq<T>)
    ensures (a + b) + c == a + (b + c)
  {
  }

  /** After a valid string, validity is that of the rest. */
  lemma {:induction false} ValidConcat(s: seq<bv8>, t: seq<bv8>)
    requires Valid(s)
    ensures Valid(s + t) <==> Valid(t)
    decreases |s|
  {
    if s == [] {
      assert s + t == t;
    } else {
      var c, rest := Front(s);
      ValidConcat(rest, t);
      FrontOfConcat(c, rest + t);
      ConcatAssociative(c, rest, t);
    }
  }

  /** Decoding distributes over concatenation. */
  lemma {:induction false} DecodeConcat(s: seq<bv8>, t: seq<bv8>)
    requires Valid(s) && Valid(t)
    ensures Valid(s + t) && DecodeAll(s + t) == DecodeAll(s) + DecodeAll(t)
    decreases |s|
  {
    if s == [] {
      assert s + t == t;
    } else {
      var c, rest := Front(s);
      DecodeConcat(rest, t);
      DecodeFront(c, rest + t);
      ConcatAssociative(c, rest, t);
      ConcatAssociative([Value(c)], DecodeAll(rest), DecodeAll(t));
    }
  }
}
