/**
 The checked decoder: it classifies every byte string, moves its iterator only past whole
 characters, and finds the first byte that is not part of one.  Iterators are positions in
 the byte string; an iterator parameter passed by reference is an in- and an out-parameter.
 */
module Utf8Core {
  import opened Utf8
  import opened Utf8Text

  datatype Error = Ok | NotEnoughRoom | InvalidLead | IncompleteSequence | OverlongSequence | InvalidCodePoint

  predicate IsTrail(oc: bv8) {
    oc >> 6 == 0x2
  }

  function SequenceLength(lead: bv8): nat {
    if lead < 0x80 then 1
    else if lead >> 5 == 0x6 then 2
    else if lead >> 4 == 0xE then 3
    else if lead >> 3 == 0x1E then 4
    else 0
  }

  predicate IsSurrogate(cp: bv32) {
    0xD800 <= cp <= 0xDFFF
  }

  predicate IsCodePointValid(cp: bv32) {
    cp <= 0x10FFFF && !IsSurrogate(cp)
  }

  predicate IsOverlongSequence(cp: bv32, length: nat) {
    if cp < 0x80 then length != 1
    else if cp < 0x800 then length != 2
    else if cp < 0x10000 then length != 3
    else false
  }

  lemma {:induction false} TrailIsTail(oc: bv8)
    ensures IsTrail(oc) <==> Tail(oc)
  {
  }

  lemma {:induction false} SequenceLengthIsLeadLength(lead: bv8)
    ensures SequenceLength(lead) == LeadLength(lead)
  {
  }

  // ---------- what the decoder should say ----------

  /** The first of the bytes `t[1..n]` that is missing or not a tail decides. */
  function Shortfall(t: seq<bv8>, n: nat): Error
    requires t != []
  {
    if exists j :: 1 <= j < n && j < |t| && !Tail(t[j]) then IncompleteSequence
    else if |t| < n then NotEnoughRoom
    else Ok
  }

  /** A complete sequence outside the grammar that is no shorter character written longer. */
  predicate OutsideUnicode(c: seq<bv8>)
    requires c != []
  {
    || (|c| == 3 && c[0] == 0xED && 0xA0 <= c[1])
    || (|c| == 4 && (c[0] > 0xF4 || (c[0] == 0xF4 && 0x90 <= c[1])))
    || (|c| == 4 && c[0] == 0xF0 && c[1] == 0x8D && 0xA0 <= c[2])
  }

  /** The verdict on the front of `t`, by byte ranges alone. */
  function Diagnose(t: seq<bv8>): Error {
    if t == [] then NotEnoughRoom
    else
      var n := LeadLength(t[0]);
      if n == 0 then InvalidLead
      else if Shortfall(t, n) != Ok then Shortfall(t, n)
      else if WellFormed(t[..n]) then Ok
      else if OutsideUnicode(t[..n]) then InvalidCodePoint
      else OverlongSequence
  }

  lemma {:induction false} DiagnoseOkIffFront(t: seq<bv8>)
    ensures Diagnose(t) == Ok <==> FrontLength(t) != 0
    ensures Diagnose(t) == Ok ==> LeadLength(t[0]) == FrontLength(t)
  {
    if FrontLength(t) != 0 {
      LeadAndTails(t[..FrontLength(t)]);
    }
  }

  // ---------- the decoder ----------

  method IncreaseSafely(s: seq<bv8>, it0: nat) returns (err: Error, it: nat)
    requires it0 < |s|
    ensures it == it0 + 1
    ensures err == if it == |s| then NotEnoughRoom else if Tail(s[it]) then Ok else IncompleteSequence
  {
    it := it0 + 1;
    if it == |s| {
      return NotEnoughRoom, it;
    }
    TrailIsTail(s[it]);
    if !IsTrail(s[it]) {
      return IncompleteSequence, it;
    }
    err := Ok;
  }

  method GetSequence1(s: seq<bv8>, it0: nat) returns (err: Error, it: nat, cp: bv32)
    requires it0 < |s|
    ensures err == Ok && it == it0 && cp == s[it0] as bv32
  {
    err, it, cp := Ok, it0, s[it0] as bv32;
  }

  method GetSequence2(s: seq<bv8>, it0: nat) returns (err: Error, it: nat, cp: bv32)
    requires it0 < |s|
    ensures err == Shortfall(s[it0..], 2)
    ensures err == Ok ==> it == it0 + 1 && cp == Value2(s[it0], s[it0 + 1])
  {
    it, cp := it0, s[it0] as bv32;
    err, it := IncreaseSafely(s, it);
    if err != Ok {
      return;
    }
    cp := ((cp << 6) & 0x7FF) + ((s[it] as bv32) & 0x3F);
  }

  method GetSequence3(s: seq<bv8>, it0: nat) returns (err: Error, it: nat, cp: bv32)
    requires it0 < |s|
    ensures err == Shortfall(s[it0..], 3)
    ensures err == Ok ==> it == it0 + 2 && cp == Value3(s[it0], s[it0 + 1], s[it0 + 2])
  {
    it, cp := it0, s[it0] as bv32;
    err, it := IncreaseSafely(s, it);
    if err != Ok {
      return;
    }
    cp := ((cp << 12) & 0xFFFF) + (((s[it] as bv32) << 6) & 0xFFF);
    err, it := IncreaseSafely(s, it);
    if err != Ok {
      return;
    }
    cp := cp + ((s[it] as bv32) & 0x3F);
  }

  method GetSequence4(s: seq<bv8>, it0: nat) returns (err: Error, it: nat, cp: bv32)
    requires it0 < |s|
    ensures err == Shortfall(s[it0..], 4)
    ensures err == Ok ==> it == it0 + 3 && cp == Value4(s[it0], s[it0 + 1], s[it0 + 2], s[it0 + 3])
  {
    it, cp := it0, s[it0] as bv32;
    err, it := IncreaseSafely(s, it);
    if err != Ok {
      return;
    }
    cp := ((cp << 18) & 0x1FFFFF) + (((s[it] as bv32) << 12) & 0x3FFFF);
    err, it := IncreaseSafely(s, it);
    if err != Ok {
      return;
    }
    cp := cp + (((s[it] as bv32) << 6) & 0xFFF);
    err, it := IncreaseSafely(s, it);
    if err != Ok {
      return;
    }
    cp := cp + ((s[it] as bv32) & 0x3F);
  }

  /** The checks on a decoded value find the same fault as the byte ranges. */
  lemma {:induction false} ChecksAgree(c: seq<bv8>)
    requires c != [] && LeadLength(c[0]) == |c| && forall i | 1 <= i < |c| :: Tail(c[i])
    ensures WellFormed(c) <==> IsCodePointValid(Value(c)) && !IsOverlongSequence(Value(c), |c|)
    ensures OutsideUnicode(c) <==> !IsCodePointValid(Value(c))
  {
    if |c| == 1 {
      OneByte(c[0]);
    } else if |c| == 2 {
      Join2(c[0], c[1]);
      Range2(c[0], c[1]);
    } else if |c| == 3 {
      ChecksAgree3(c[0], c[1], c[2]);
    } else {
      ChecksAgree4(c[0], c[1], c[2], c[3]);
    }
  }

  lemma {:induction false} OneByte(a: bv8)
    requires a <= 0x7F
    ensures a as bv32 <= 0x7F
  {
  }

  lemma {:induction false} ChecksAgree3(a: bv8, b: bv8, c: bv8)
    requires 0xE0 <= a <= 0xEF && Tail(b) && Tail(c)
    ensures Value3(a, b, c) < 0x10000
    ensures Value3(a, b, c) < 0x800 <==> a == 0xE0 && b < 0xA0
    ensures IsSurrogate(Value3(a, b, c)) <==> a == 0xED && 0xA0 <= b
  {
    Join3(a, b, c);
    Range3(a, b, c);
  }

  lemma {:induction false} ChecksAgree4(a: bv8, b: bv8, c: bv8, d: bv8)
    requires 0xF0 <= a <= 0xF7 && Tail(b) && Tail(c) && Tail(d)
    ensures Value4(a, b, c, d) < 0x10000 <==> a == 0xF0 && b < 0x90
    ensures Value4(a, b, c, d) <= 0x10FFFF <==> a < 0xF4 || (a == 0xF4 && b < 0x90)
    ensures IsSurrogate(Value4(a, b, c, d)) <==> a == 0xF0 && b == 0x8D && 0xA0 <= c
  {
    Range4(a, b, c, d);
  }

  /**
   Decodes one character.  The error is the one the byte ranges call for; a failure leaves
   both the iterator and the code point as they were.
   */
  method ValidateNext(s: seq<bv8>, it0: nat, codePoint0: bv32) returns (err: Error, it: nat, codePoint: bv32)
    requires it0 <= |s|
    ensures err == Diagnose(s[it0..])
    ensures err == Ok ==> it == it0 + FrontLength(s[it0..]) <= |s| && it0 < it && codePoint == Value(s[it0..it])
    ensures err != Ok ==> it == it0 && codePoint == codePoint0
  {
    it, codePoint := it0, codePoint0;
    if it == |s| {
      return NotEnoughRoom, it, codePoint;
    }
    ghost var t := s[it0..];
    DiagnoseOkIffFront(t);
    var cp: bv32 := 0;
    var length := SequenceLength(s[it]);
    SequenceLengthIsLeadLength(s[it]);
    err := Ok;
    match length {
      case 0 => return InvalidLead, it, codePoint;
      case 1 => err, it, cp := GetSequence1(s, it);
      case 2 => err, it, cp := GetSequence2(s, it);
      case 3 => err, it, cp := GetSequence3(s, it);
      case _ => err, it, cp := GetSequence4(s, it);
    }
    if err == Ok {
      ghost var c := t[..length];
      assert c == s[it0..it0 + length] && cp == Value(c);
      ChecksAgree(c);
      if IsCodePointValid(cp) {
        if !IsOverlongSequence(cp, length) {
          codePoint := cp;
          it := it + 1;
          return Ok, it, codePoint;
        } else {
          err := OverlongSequence;
        }
      } else {
        err := InvalidCodePoint;
      }
    }
    it := it0;
  }

  /** Returns the end of the longest valid prefix, which is the end of `s` exactly if `s` is valid. */
  method FindInvalid(s: seq<bv8>, start: nat) returns (result: nat)
    requires start <= |s|
    ensures start <= result <= |s| && Valid(s[start..result])
    ensures result == |s| || FrontLength(s[result..]) == 0
    ensures result == |s| <==> Valid(s[start..])
  {
    result := start;
    var ignored: bv32 := 0;
    while result != |s|
      invariant start <= result <= |s| && Valid(s[start..result])
      decreases |s| - result
    {
      var before := result;
      var err: Error;
      err, result, ignored := ValidateNext(s, result, ignored);
      DiagnoseOkIffFront(s[before..]);
      if err != Ok {
        StopsAtInvalid(s, start, result);
        return;
      }
      OneCharacter(s[before..result]) by {
        assert s[before..][..result - before] == s[before..result];
      }
      ValidConcat(s[start..before], s[before..result]);
      assert s[start..before] + s[before..result] == s[start..result];
    }
    assert s[start..result] == s[start..];
  }

  lemma {:induction false} OneCharacter(c: seq<bv8>)
    requires WellFormed(c)
    ensures Valid(c)
  {
    FrontOfConcat(c, []);
    assert c + [] == c;
  }

  lemma {:induction false} StopsAtInvalid(s: seq<bv8>, start: nat, k: nat)
    requires start <= k < |s| && Valid(s[start..k]) && FrontLength(s[k..]) == 0
    ensures !Valid(s[start..])
  {
    ValidConcat(s[start..k], s[k..]);
    assert s[start..k] + s[k..] == s[start..];
  }

  lemma {:induction false} FrontOfLonger(s: seq<bv8>, t: seq<bv8>)
    requires FrontLength(s) != 0
    ensures FrontLength(s + t) == FrontLength(s)
  {
    assert (s + t)[..FrontLength(s)] == s[..FrontLength(s)];
  }

  /** The longest valid prefix is unique, so its end is a property of the string. */
  lemma {:induction false} LongestPrefixUnique(s: seq<bv8>, j: nat, k: nat)
    requires j <= k <= |s| && Valid(s[..j]) && Valid(s[..k]) && (j == |s| || FrontLength(s[j..]) == 0)
    ensures j == k
  {
    if j != k {
      ValidConcat(s[..j], s[j..k]);
      assert s[..j] + s[j..k] == s[..k];
      assert s[j..k] + s[k..] == s[j..];
      FrontOfLonger(s[j..k], s[k..]);
    }
  }

  method IsValid(s: seq<bv8>, start: nat) returns (ok: bool)
    requires start <= |s|
    ensures ok <==> Valid(s[start..])
  {
    var end := FindInvalid(s, start);
    ok := end == |s|;
  }
}
