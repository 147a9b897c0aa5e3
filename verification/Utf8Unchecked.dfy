/**
 The unchecked decoder and the conversions between UTF-8, UTF-16 and UTF-32.  Input
 iterators are positions in a sequence, output iterators positions in a buffer that is
 filled in place.
 */
module Utf8Unchecked {
  import opened Utf8
  import opened Utf8Text
  import opened Utf8Core
  import opened Utf16

  /** Writes the encoding of `cp` at `result0` and returns the position after it. */
  method Append(cp: bv32, out: array<bv8>, result0: nat) returns (result: nat)
    requires result0 + |Encode(cp)| <= out.Length
    modifies out
    ensures result == result0 + |Encode(cp)| && out[result0..result] == Encode(cp)
    ensures out[..result0] == old(out[..result0]) && out[result..] == old(out[result..])
  {
    result := result0;
    if cp < 0x80 {
      out[result] := Low8(cp);
      result := result + 1;
    } else if cp < 0x800 {
      out[result] := Low8((cp >> 6) | 0xC0);
      out[result + 1] := Low8((cp & 0x3F) | 0x80);
      result := result + 2;
    } else if cp < 0x10000 {
      out[result] := Low8((cp >> 12) | 0xE0);
      out[result + 1] := Low8(((cp >> 6) & 0x3F) | 0x80);
      out[result + 2] := Low8((cp & 0x3F) | 0x80);
      result := result + 3;
    } else {
      out[result] := Low8((cp >> 18) | 0xF0);
      out[result + 1] := Low8(((cp >> 12) & 0x3F) | 0x80);
      out[result + 2] := Low8(((cp >> 6) & 0x3F) | 0x80);
      out[result + 3] := Low8((cp & 0x3F) | 0x80);
      result := result + 4;
    }
  }

  /** How far the decoder moves from a first byte. */
  function Stride(lead: bv8): (n: nat)
    ensures 1 <= n <= 4
  {
    if LeadLength(lead) == 0 then 1 else LeadLength(lead)
  }

  /** At a boundary of a valid string both decoders read the same value and move equally far. */
  lemma {:induction false} NextAgreesWithValidateNext(s: seq<bv8>, it: nat)
    requires it < |s| && Valid(s[it..])
    ensures var n := FrontLength(s[it..]);
      && n == Stride(s[it]) && it + n <= |s| && Diagnose(s[it..]) == Ok
      && Valid(s[it + n..]) && DecodeAll(s[it..]) == [Value(s[it..it + n])] + DecodeAll(s[it + n..])
  {
    DiagnoseOkIffFront(s[it..]);
    var n := FrontLength(s[it..]);
    assert s[it..][..n] == s[it..it + n] && s[it..][n..] == s[it + n..];
  }

  lemma {:induction false} ValueOfSlice(s: seq<bv8>, i: nat, n: nat)
    requires 1 <= n <= 4 && i + n <= |s|
    ensures n == 1 ==> Value(s[i..i + n]) == s[i] as bv32
    ensures n == 2 ==> Value(s[i..i + n]) == Value2(s[i], s[i + 1])
    ensures n == 3 ==> Value(s[i..i + n]) == Value3(s[i], s[i + 1], s[i + 2])
    ensures n == 4 ==> Value(s[i..i + n]) == Value4(s[i], s[i + 1], s[i + 2], s[i + 3])
  {
    var c := s[i..i + n];
    assert forall k | 0 <= k < n :: c[k] == s[i + k];
  }

  /** Two to four bytes put together without any check; `it` ends at the last of them. */
  method Two(s: seq<bv8>, it0: nat) returns (cp: bv32, it: nat)
    requires it0 + 1 < |s|
    ensures it == it0 + 1 && cp == Value2(s[it0], s[it0 + 1])
  {
    it, cp := it0, s[it0] as bv32;
    it := it + 1;
    cp := ((cp << 6) & 0x7FF) + ((s[it] as bv32) & 0x3F);
  }

  method Three(s: seq<bv8>, it0: nat) returns (cp: bv32, it: nat)
    requires it0 + 2 < |s|
    ensures it == it0 + 2 && cp == Value3(s[it0], s[it0 + 1], s[it0 + 2])
  {
    it, cp := it0, s[it0] as bv32;
    it := it + 1;
    cp := ((cp << 12) & 0xFFFF) + (((s[it] as bv32) << 6) & 0xFFF);
    it := it + 1;
    cp := cp + ((s[it] as bv32) & 0x3F);
  }

  method Four(s: seq<bv8>, it0: nat) returns (cp: bv32, it: nat)
    requires it0 + 3 < |s|
    ensures it == it0 + 3 && cp == Value4(s[it0], s[it0 + 1], s[it0 + 2], s[it0 + 3])
  {
    it, cp := it0, s[it0] as bv32;
    it := it + 1;
    cp := ((cp << 18) & 0x1FFFFF) + (((s[it] as bv32) << 12) & 0x3FFFF);
    it := it + 1;
    cp := cp + (((s[it] as bv32) << 6) & 0xFFF);
    it := it + 1;
    cp := cp + ((s[it] as bv32) & 0x3F);
  }

  /** The first byte and those that follow it. */
  method Assemble(s: seq<bv8>, it0: nat) returns (cp: bv32, it: nat)
    requires it0 < |s| && it0 + Stride(s[it0]) <= |s|
    ensures it == it0 + Stride(s[it0]) && cp == Value(s[it0..it])
  {
    it, cp := it0, s[it0] as bv32;
    SequenceLengthIsLeadLength(s[it]);
    ValueOfSlice(s, it0, Stride(s[it0]));
    match SequenceLength(s[it]) {
      case 2 => cp, it := Two(s, it);
      case 3 => cp, it := Three(s, it);
      case 4 => cp, it := Four(s, it);
      case _ =>
    }
    it := it + 1;
  }

  /** Decodes the next character of a string the caller has checked. */
  method Next(s: seq<bv8>, it0: nat) returns (cp: bv32, it: nat)
    requires it0 < |s| && Valid(s[it0..])
    ensures it0 < it <= |s| && Valid(s[it..]) && Scalar(cp)
    ensures DecodeAll(s[it0..]) == [cp] + DecodeAll(s[it..])
  {
    NextAgreesWithValidateNext(s, it0);
    EncodeOfValue(s[it0..][..FrontLength(s[it0..])]);
    assert s[it0..][..FrontLength(s[it0..])] == s[it0..it0 + Stride(s[it0])];
    cp, it := Assemble(s, it0);
  }

  /** Number of characters between two boundaries. */
  method Distance(s: seq<bv8>, first: nat) returns (dist: nat)
    requires first <= |s| && Valid(s[first..])
    ensures dist == |DecodeAll(s[first..])|
  {
    dist := 0;
    var it := first;
    while it < |s|
      invariant first <= it <= |s| && Valid(s[it..])
      invariant dist + |DecodeAll(s[it..])| == |DecodeAll(s[first..])|
      decreases |s| - it
    {
      var cp;
      cp, it := Next(s, it);
      dist := dist + 1;
    }
  }

  /** The last character of a valid string. */
  lemma {:induction false} Last(s: seq<bv8>) returns (init: seq<bv8>, c: seq<bv8>)
    requires Valid(s) && s != []
    ensures s == init + c && Valid(init) && WellFormed(c) && DecodeAll(s) == DecodeAll(init) + [Value(c)]
    decreases |s|
  {
    var front, rest := Front(s);
    if rest == [] {
      init, c := [], front;
    } else {
      var mid;
      mid, c := Last(rest);
      init := front + mid;
      DecodeFront(front, mid);
      ConcatAssociative(front, mid, c);
      ConcatAssociative([Value(front)], DecodeAll(mid), [Value(c)]);
    }
  }

  lemma {:induction false} OnlyCharacter(c: seq<bv8>, cp: bv32, rest: seq<bv8>)
    requires WellFormed(c) && Valid(c) && Valid(rest) && DecodeAll(c) == [cp] + DecodeAll(rest)
    ensures cp == Value(c)
  {
    assert c + [] == c;
    DecodeFront(c, []);
    assert DecodeAll(c)[0] == cp && DecodeAll(c)[0] == Value(c);
  }

  /** Steps back over one character and reads it. */
  method Prior(s: seq<bv8>, it0: nat) returns (cp: bv32, it: nat)
    requires 0 < it0 <= |s| && Valid(s[..it0])
    ensures it < it0 && Valid(s[..it]) && WellFormed(s[it..it0])
    ensures DecodeAll(s[..it0]) == DecodeAll(s[..it]) + [cp]
  {
    ghost var init, c := Last(s[..it0]);
    LeadAndTails(c);
    it := it0 - 1;
    assert s[..it0][it] == c[it - |init|];
    TrailIsTail(s[it]);
    while IsTrail(s[it])
      invariant |init| <= it < it0
      invariant IsTrail(s[it]) <==> Tail(c[it - |init|])
      decreases it
    {
      it := it - 1;
      assert s[..it0][it] == c[it - |init|];
      TrailIsTail(s[it]);
    }
    assert it == |init| && s[..it] == init && s[..it0][it..] == c;
    OneCharacter(c);
    var end;
    cp, end := Next(s[..it0], it);
    OnlyCharacter(c, cp, s[..it0][end..]);
  }

  /**
   A buffer that held `init` and then `was`, of which the part from `mid` to `hi` has been
   written last and nothing outside `lo` to `hi` at all.
   */
  lemma {:induction false} Refill<T>(out: seq<T>, was: seq<T>, init: seq<T>, lo: nat, mid: nat, hi: nat)
    requires lo <= mid <= hi <= |out| == |was| == |init|
    requires out[..mid] == was[..mid] && out[hi..] == was[hi..]
    requires was[..lo] == init[..lo] && was[mid..] == init[mid..]
    ensures out[lo..hi] == was[lo..mid] + out[mid..hi]
    ensures out[..lo] == init[..lo] && out[hi..] == init[hi..]
  {
    assert out[..lo] == out[..mid][..lo] && was[..lo] == was[..mid][..lo];
    assert out[lo..hi] == out[..mid][lo..] + out[mid..hi] && was[lo..mid] == was[..mid][lo..];
    assert was[hi..] == was[mid..][hi - mid..] && init[hi..] == init[mid..][hi - mid..];
  }

  method Utf32To8(s: seq<bv32>, out: array<bv8>, result0: nat) returns (result: nat)
    requires result0 + |EncodeAll(s)| <= out.Length
    modifies out
    ensures result == result0 + |EncodeAll(s)| && out[result0..result] == EncodeAll(s)
    ensures out[..result0] == old(out[..result0]) && out[result..] == old(out[result..])
  {
    ghost var init := out[..];
    result := result0;
    var start := 0;
    while start != |s|
      invariant start <= |s| && result0 <= result
      invariant result + |EncodeAll(s[start..])| == result0 + |EncodeAll(s)|
      invariant out[result0..result] + EncodeAll(s[start..]) == EncodeAll(s)
      invariant out[..result0] == init[..result0] && out[result..] == init[result..]
      decreases |s| - start
    {
      ghost var was := out[..];
      assert EncodeAll(s[start..]) == Encode(s[start]) + EncodeAll(s[start + 1..]) by {
        assert s[start..][1..] == s[start + 1..];
      }
      var next := Append(s[start], out, result);
      Refill(out[..], was, init, result0, result, next);
      ConcatAssociative(was[result0..result], Encode(s[start]), EncodeAll(s[start + 1..]));
      result, start := next, start + 1;
    }
  }

  method Utf8To32(s: seq<bv8>, out: array<bv32>, result0: nat) returns (result: nat)
    requires Valid(s) && result0 + |DecodeAll(s)| <= out.Length
    modifies out
    ensures result == result0 + |DecodeAll(s)| && out[result0..result] == DecodeAll(s)
    ensures out[..result0] == old(out[..result0]) && out[result..] == old(out[result..])
  {
    ghost var init := out[..];
    result := result0;
    var start := 0;
    assert s[0..] == s;
    while start < |s|
      invariant start <= |s| && result0 <= result && Valid(s[start..])
      invariant result + |DecodeAll(s[start..])| == result0 + |DecodeAll(s)|
      invariant out[result0..result] + DecodeAll(s[start..]) == DecodeAll(s)
      invariant out[..result0] == init[..result0] && out[result..] == init[result..]
      decreases |s| - start
    {
      ghost var was := out[..];
      var cp;
      cp, start := Next(s, start);
      out[result] := cp;
      Refill(out[..], was, init, result0, result, result + 1);
      ConcatAssociative(was[result0..result], [cp], DecodeAll(s[start..]));
      result := result + 1;
    }
  }

  /** Reads one unit, or two of them if the first is a leading surrogate. */
  method Next16(s: seq<bv16>, it0: nat) returns (cp: bv32, it: nat)
    requires it0 < |s| && Valid16(s[it0..])
    ensures it0 < it <= |s| && Valid16(s[it..]) && DecodeAll16(s[it0..]) == [cp] + DecodeAll16(s[it..])
  {
    it, cp := it0 + 1, s[it0] as bv32;
    if Lead(s[it0]) {
      SurrogateOffset(s[it0], s[it]);
      cp := (cp << 10) + (s[it] as bv32) + SURROGATE_OFFSET;
      it := it + 1;
    }
    assert s[it0..][it - it0..] == s[it..];
  }

  method Utf16To8(s: seq<bv16>, out: array<bv8>, result0: nat) returns (result: nat)
    requires Valid16(s) && result0 + |EncodeAll(DecodeAll16(s))| <= out.Length
    modifies out
    ensures result == result0 + |EncodeAll(DecodeAll16(s))| && out[result0..result] == EncodeAll(DecodeAll16(s))
    ensures out[..result0] == old(out[..result0]) && out[result..] == old(out[result..])
  {
    ghost var init := out[..];
    result := result0;
    var start := 0;
    assert s[0..] == s;
    while start != |s|
      invariant start <= |s| && result0 <= result && Valid16(s[start..])
      invariant result + |EncodeAll(DecodeAll16(s[start..]))| == result0 + |EncodeAll(DecodeAll16(s))|
      invariant out[result0..result] + EncodeAll(DecodeAll16(s[start..])) == EncodeAll(DecodeAll16(s))
      invariant out[..result0] == init[..result0] && out[result..] == init[result..]
      decreases |s| - start
    {
      ghost var was := out[..];
      var cp;
      cp, start := Next16(s, start);
      EncodeCons(cp, DecodeAll16(s[start..]));
      var next := Append(cp, out, result);
      Refill(out[..], was, init, result0, result, next);
      ConcatAssociative(was[result0..result], Encode(cp), EncodeAll(DecodeAll16(s[start..])));
      result := next;
    }
  }

  lemma {:induction false} UnitsOf(cp: bv32)
    requires Scalar(cp)
    ensures if cp > 0xFFFF then 0x10000 <= cp <= 0x10FFFF && |Encode16(cp)| == 2 else Encode16(cp) == [Low16(cp)]
  {
  }

  method SurrogatesOf(cp: bv32) returns (lead: bv16, trail: bv16)
    requires 0x10000 <= cp <= 0x10FFFF
    ensures Encode16(cp) == [lead, trail]
  {
    LeadOffset(cp);
    lead := Low16((cp >> 10) + (LEAD_OFFSET as bv32));
    trail := Low16((cp & 0x3FF) + (TRAIL_SURROGATE_MIN as bv32));
  }

  /** Writes one unit, or a surrogate pair for a value beyond the basic plane. */
  method Append16(cp: bv32, out: array<bv16>, result0: nat) returns (result: nat)
    requires Scalar(cp) && result0 + |Encode16(cp)| <= out.Length
    modifies out
    ensures result == result0 + |Encode16(cp)| && out[result0..result] == Encode16(cp)
    ensures out[..result0] == old(out[..result0]) && out[result..] == old(out[result..])
  {
    result := result0;
    UnitsOf(cp);
    if cp > 0xFFFF {
      var lead, trail := SurrogatesOf(cp);
      out[result] := lead;
      out[result + 1] := trail;
      assert out[result..result + 2] == [lead, trail];
      result := result + 2;
    } else {
      out[result] := Low16(cp);
      assert out[result..result + 1] == [Low16(cp)];
      result := result + 1;
    }
  }

  method Utf8To16(s: seq<bv8>, out: array<bv16>, result0: nat) returns (result: nat)
    requires Valid(s) && result0 + |EncodeAll16(DecodeAll(s))| <= out.Length
    modifies out
    ensures result == result0 + |EncodeAll16(DecodeAll(s))| && out[result0..result] == EncodeAll16(DecodeAll(s))
    ensures out[..result0] == old(out[..result0]) && out[result..] == old(out[result..])
  {
    ghost var init := out[..];
    result := result0;
    var start := 0;
    assert s[0..] == s;
    while start < |s|
      invariant start <= |s| && result0 <= result && Valid(s[start..])
      invariant result + |EncodeAll16(DecodeAll(s[start..]))| == result0 + |EncodeAll16(DecodeAll(s))|
      invariant out[result0..result] + EncodeAll16(DecodeAll(s[start..])) == EncodeAll16(DecodeAll(s))
      invariant out[..result0] == init[..result0] && out[result..] == init[result..]
      decreases |s| - start
    {
      ghost var was, from := out[..], result;
      var cp;
      cp, start := Next(s, start);
      EncodeCons16(cp, DecodeAll(s[start..]));
      result := Append16(cp, out, result);
      Refill(out[..], was, init, result0, from, result);
      ConcatAssociative(was[result0..from], Encode16(cp), EncodeAll16(DecodeAll(s[start..])));
    }
  }

  /** Converting to UTF-16 and back gives the same bytes, and the other way round the same units. */
  lemma {:induction false} Utf16RoundTrip(s: seq<bv8>, u: seq<bv16>)
    requires Valid(s) && Valid16(u)
    ensures Valid16(EncodeAll16(DecodeAll(s))) && EncodeAll(DecodeAll16(EncodeAll16(DecodeAll(s)))) == s
    ensures Valid(EncodeAll(DecodeAll16(u))) && EncodeAll16(DecodeAll(EncodeAll(DecodeAll16(u)))) == u
  {
    EncodeOfDecode(s);
    DecodeOfEncode16(DecodeAll(s));
    EncodeOfDecode16(u);
    DecodeOfEncode(DecodeAll16(u));
  }
}
