/**
 The string runtime of compiled programs: NUL-terminated buffers, indexing by character,
 concatenation and repetition.
 */
module StrHelper {
  import opened Wrappers
  import opened Utf8
  import opened Utf8Text
  import opened Arithmetic

  // ---------- what indexing means ----------

  /**
   The characters the indexing loop sees.  Bytes that begin no character are skipped; a
   last character cut off by the end of the string counts as U+FFFD.
   */
  function LooseDecode(s: seq<bv8>): seq<bv32>
    decreases |s|
  {
    if s == [] then []
    else
      var n := LeadLength(s[0]);
      if n == 0 then LooseDecode(s[1..])
      else if n > |s| then [0xFFFD]
      else [Value(s[..n])] + LooseDecode(s[n..])
  }

  /** The last character is cut off by the end of the string. */
  predicate Truncated(s: seq<bv8>)
    decreases |s|
  {
    if s == [] then false
    else
      var n := LeadLength(s[0]);
      if n == 0 then Truncated(s[1..]) else n > |s| || Truncated(s[n..])
  }

  function CharAt(s: seq<bv8>, i: nat): bv32 {
    if i < |LooseDecode(s)| then LooseDecode(s)[i] else 0
  }

  /** What the indexing loop finds; None if it steps past the end of the string. */
  function Walk(s: seq<bv8>, i: nat): Option<bv32>
    decreases |s|
  {
    if s == [] then Some(0)
    else
      var n := LeadLength(s[0]);
      if n == 0 then Walk(s[1..], i)
      else if i == 0 then Some(if n > |s| then 0xFFFD else Value(s[..n]))
      else if n > |s| then None
      else Walk(s[n..], i - 1)
  }

  /** The loop finds the character at the index; it leaves the string only behind a cut-off character. */
  lemma {:induction false} WalkIsCharAt(s: seq<bv8>, i: nat)
    ensures Walk(s, i) == if Truncated(s) && i >= |LooseDecode(s)| then None else Some(CharAt(s, i))
    decreases |s|
  {
    if s != [] {
      var n := LeadLength(s[0]);
      if n == 0 {
        WalkIsCharAt(s[1..], i);
      } else if i != 0 && n <= |s| {
        WalkIsCharAt(s[n..], i - 1);
      }
    }
  }

  /** On valid strings indexing is indexing of the full decoding. */
  lemma {:induction false} ValidIsLoose(s: seq<bv8>)
    requires Valid(s)
    ensures LooseDecode(s) == DecodeAll(s) && !Truncated(s)
    decreases |s|
  {
    if s != [] {
      var c, rest := Front(s);
      ValidIsLoose(rest);
      LooseFront(c, rest);
    }
  }

  lemma {:induction false} LooseFront(c: seq<bv8>, s: seq<bv8>)
    requires WellFormed(c)
    ensures LooseDecode(c + s) == [Value(c)] + LooseDecode(s)
    ensures Truncated(c + s) <==> Truncated(s)
  {
    LeadAndTails(c);
    assert (c + s)[..|c|] == c && (c + s)[|c|..] == s;
  }

  lemma {:induction false} LooseConcat(a: seq<bv8>, b: seq<bv8>)
    requires Valid(a)
    ensures LooseDecode(a + b) == DecodeAll(a) + LooseDecode(b)
    decreases |a|
  {
    if a == [] {
      assert a + b == b;
    } else {
      var c, rest := Front(a);
      LooseConcat(rest, b);
      LooseFront(c, rest + b);
      ConcatAssociative(c, rest, b);
      ConcatAssociative([Value(c)], DecodeAll(rest), LooseDecode(b));
    }
  }

  /** Indexing distributes over concatenation. */
  lemma {:induction false} CharAtConcat(a: seq<bv8>, b: seq<bv8>, i: nat)
    requires Valid(a)
    ensures CharAt(a + b, i) == if i < |DecodeAll(a)| then CharAt(a, i) else CharAt(b, i - |DecodeAll(a)|)
  {
    LooseConcat(a, b);
    ValidIsLoose(a);
  }

  // ---------- repetition ----------

  function Repeat<T>(s: seq<T>, n: nat): seq<T> {
    if n == 0 then [] else Repeat(s, n - 1) + s
  }

  lemma {:induction false} RepeatLength<T>(s: seq<T>, n: nat)
    ensures |Repeat(s, n)| == n * |s|
  {
    if n != 0 {
      RepeatLength(s, n - 1);
      assert n * |s| == (n - 1) * |s| + |s|;
    }
  }

  lemma {:induction false} RepeatAt<T>(s: seq<T>, n: nat, i: nat)
    requires i < |Repeat(s, n)|
    ensures s != [] && Repeat(s, n)[i] == s[i % |s|]
  {
    RepeatLength(s, n - 1);
    if i < |Repeat(s, n - 1)| {
      RepeatAt(s, n - 1, i);
    } else {
      var r := i - (n - 1) * |s|;
      assert i == (n - 1) * |s| + r && 0 <= r < |s|;
      QuotientUnique(i, |s|, n - 1, r);
    }
  }

  lemma {:induction false} DecodeRepeat(s: seq<bv8>, d: seq<bv32>, n: nat)
    requires Valid(s) && DecodeAll(s) == d
    ensures Valid(Repeat(s, n)) && DecodeAll(Repeat(s, n)) == Repeat(d, n)
  {
    if n != 0 {
      DecodeRepeat(s, d, n - 1);
      AppendDecoded(Repeat(s, n - 1), s, Repeat(d, n - 1), d);
    }
  }

  lemma {:induction false} AppendDecoded(r: seq<bv8>, s: seq<bv8>, dr: seq<bv32>, ds: seq<bv32>)
    requires Valid(r) && Valid(s) && DecodeAll(r) == dr && DecodeAll(s) == ds
    ensures Valid(r + s) && DecodeAll(r + s) == dr + ds
  {
    DecodeConcat(r, s);
  }

  /** Indexing a repetition is indexing the string modulo its length in characters. */
  lemma {:induction false} CharAtRepeat(s: seq<bv8>, n: nat, i: nat)
    requires Valid(s)
    ensures CharAt(Repeat(s, n), i) == if i < n * |DecodeAll(s)| then CharAt(s, i % |DecodeAll(s)|) else 0
  {
    DecodeRepeat(s, DecodeAll(s), n);
    ValidIsLoose(s);
    ValidIsLoose(Repeat(s, n));
    RepeatLength(DecodeAll(s), n);
    if i < n * |DecodeAll(s)| {
      RepeatAt(DecodeAll(s), n, i);
    }
  }

  // ---------- indexing inverts encoding ----------

  lemma {:induction false} BeyondTails(a: bv8, t: seq<bv8>)
    requires LeadLength(a) == 0 && forall i | 0 <= i < |t| :: Tail(t[i])
    ensures LooseDecode([a] + t) == []
    decreases |t|
  {
    assert ([a] + t)[1..] == t;
    if t != [] {
      assert [t[0]] + t[1..] == t;
      BeyondTails(t[0], t[1..]);
    }
  }

  lemma {:induction false} EncodeLead(cp: bv32)
    ensures var s := Encode(cp);
      && (cp < 0x200000 ==> LeadLength(s[0]) == |s|)
      && (cp >= 0x200000 ==> |s| == 4 && (LeadLength(s[0]) == 4 || LeadLength(s[0]) == 0))
      && forall i | 1 <= i < |s| :: Tail(s[i])
  {
  }

  lemma {:induction false} SmallValues(s: seq<bv8>)
    requires |s| == 4
    ensures Value(s) < 0x200000
  {
    Bounded(s[0], s[1], s[2], s[3]);
  }

  lemma {:induction false} Bounded(a: bv8, b: bv8, c: bv8, d: bv8)
    ensures Value4(a, b, c, d) < 0x200000
  {
  }

  lemma {:induction false} ValueOfEncode(cp: bv32)
    requires cp < 0x200000
    ensures Value(Encode(cp)) == cp
  {
    if cp < 0x80 {
    } else if cp < 0x800 {
      Split2(cp);
    } else if cp < 0x10000 {
      Split3(cp);
    } else {
      Split4(cp);
    }
  }

  /** Reading back the only character of an encoding gives the code point exactly if it has at most 21 bits. */
  lemma {:induction false} CharAtOfEncode(cp: bv32)
    ensures CharAt(Encode(cp), 0) == cp <==> cp < 0x200000
  {
    var s := Encode(cp);
    EncodeLead(cp);
    if LeadLength(s[0]) == 0 {
      assert s == [s[0]] + s[1..];
      BeyondTails(s[0], s[1..]);
    } else {
      assert s[..|s|] == s && LooseDecode(s) == [Value(s)] + LooseDecode([]);
      if cp < 0x200000 {
        ValueOfEncode(cp);
      } else {
        SmallValues(s);
      }
    }
  }

  // ---------- the buffers ----------

  /** The buffer holds a string of `n` bytes and its terminator. */
  ghost predicate CString(a: array<bv8>, n: nat)
    reads a
  {
    n < a.Length && a[n] == 0 && forall i | 0 <= i < n :: a[i] != 0
  }

  method Strlen(a: array<bv8>, ghost n: nat) returns (len: nat)
    requires CString(a, n)
    ensures len == n
  {
    len := 0;
    while a[len] != 0
      invariant len <= n
      decreases n - len
    {
      len := len + 1;
    }
  }

  method Memcpy(dst: array<bv8>, at: nat, src: array<bv8>, len: nat)
    requires dst != src && len <= src.Length && at + len <= dst.Length
    modifies dst
    ensures dst[at..at + len] == src[..len]
    ensures dst[..at] == old(dst[..at]) && dst[at + len..] == old(dst[at + len..])
  {
    for i := 0 to len
      invariant dst[at..at + i] == src[..i]
      invariant dst[..at] == old(dst[..at]) && dst[at + len..] == old(dst[at + len..])
    {
      dst[at + i] := src[i];
      assert dst[at..at + i + 1] == dst[at..at + i] + [src[i]];
    }
  }

  method Concat(a: array<bv8>, b: array<bv8>, ghost na: nat, ghost nb: nat) returns (res: array<bv8>)
    requires CString(a, na) && CString(b, nb)
    ensures fresh(res) && CString(res, na + nb) && res[..na + nb] == a[..na] + b[..nb]
  {
    var lenA := Strlen(a, na);
    var lenB := Strlen(b, nb);
    res := new bv8[lenA + lenB + 1];
    Memcpy(res, 0, a, lenA);
    Memcpy(res, lenA, b, lenB);
    res[lenA + lenB] := 0;
    assert res[..lenA] == a[..lenA] && res[lenA..lenA + lenB] == b[..lenB];
    assert res[..lenA + lenB] == res[..lenA] + res[lenA..lenA + lenB];
    Joined(res, a, b, lenA, lenB);
  }

  lemma {:induction false} Joined(res: array<bv8>, a: array<bv8>, b: array<bv8>, na: nat, nb: nat)
    requires CString(a, na) && CString(b, nb) && res.Length == na + nb + 1 && res[na + nb] == 0
    requires res[..na + nb] == a[..na] + b[..nb]
    ensures CString(res, na + nb)
  {
    forall i | 0 <= i < na + nb
      ensures res[i] != 0
    {
      assert res[i] == res[..na + nb][i];
      assert res[i] == if i < na then a[..na][i] else b[..nb][i - na];
    }
  }

  lemma {:induction false} RepeatNoNul(s: seq<bv8>, n: nat)
    requires forall i | 0 <= i < |s| :: s[i] != 0
    ensures forall i | 0 <= i < |Repeat(s, n)| :: Repeat(s, n)[i] != 0
  {
    if n != 0 {
      RepeatNoNul(s, n - 1);
    }
  }

  /** `n` copies; none for a count that is not positive; null for a null string. */
  method MulStr(str: array?<bv8>, n: int, ghost len0: nat) returns (res: array?<bv8>)
    requires str != null ==> CString(str, len0)
    ensures str == null <==> res == null
    ensures str != null ==>
      var copies := Repeat(str[..len0], if n <= 0 then 0 else n);
      fresh(res) && CString(res, |copies|) && res[..|copies|] == copies
  {
    if str == null {
      return null;
    }
    if n <= 0 {
      res := new bv8[] [0];
      return;
    }
    var len := Strlen(str, len0);
    ghost var s := str[..len];
    RepeatLength(s, n);
    assert len * n == n * len;
    res := new bv8[len * n + 1];
    for i := 0 to n
      invariant i * len <= len * n && res[..i * len] == Repeat(s, i)
      invariant str[..len] == s && CString(str, len)
    {
      RepeatLength(s, i + 1);
      assert (i + 1) * len == i * len + len;
      Fits(i, n, len);
      Memcpy(res, i * len, str, len);
      assert res[..i * len + len] == res[..i * len] + res[i * len..i * len + len];
    }
    res[len * n] := 0;
    RepeatNoNul(s, n);
    assert forall k | 0 <= k < len * n :: res[k] == res[..n * len][k];
  }

  lemma {:induction false} Fits(i: nat, n: nat, len: nat)
    requires i < n
    ensures i * len + len <= len * n
  {
    assert len * n == len * (n - i - 1) + len * (i + 1);
    assert len * (n - i - 1) >= 0 && len * (i + 1) == i * len + len;
  }

  method FillEncoding(cp: bv32, buf: array<bv8>) returns (len: nat)
    requires buf.Length == 5
    modifies buf
    ensures len == |Encode(cp)| && buf[..len] == Encode(cp)
  {
    OrSwaps(cp);
    if cp <= 0x7F {
      buf[0] := Low8(cp);
      len := 1;
    } else if cp <= 0x7FF {
      buf[0] := Low8(0xC0 | (cp >> 6));
      buf[1] := Low8(0x80 | (cp & 0x3F));
      len := 2;
    } else if cp <= 0xFFFF {
      buf[0] := Low8(0xE0 | (cp >> 12));
      buf[1] := Low8(0x80 | ((cp >> 6) & 0x3F));
      buf[2] := Low8(0x80 | (cp & 0x3F));
      len := 3;
    } else {
      buf[0] := Low8(0xF0 | (cp >> 18));
      buf[1] := Low8(0x80 | ((cp >> 12) & 0x3F));
      buf[2] := Low8(0x80 | ((cp >> 6) & 0x3F));
      buf[3] := Low8(0x80 | (cp & 0x3F));
      len := 4;
    }
  }

  /** The encoding of a code point as a string of its own. */
  method EncodeCp(cp: bv32) returns (res: array<bv8>)
    ensures fresh(res) && res[..] == Encode(cp) + [0]
    ensures cp != 0 ==> CString(res, |Encode(cp)|)
    ensures cp == 0 ==> CString(res, 0)
  {
    var buf := new bv8[5](_ => 0);
    var len := FillEncoding(cp, buf);
    ghost var s := Encode(cp);
    EncodeNoNul(cp);
    res := new bv8[len + 1];
    Memcpy(res, 0, buf, len);
    res[len] := 0;
    assert res[..len] == s;
    assert forall i | 0 <= i < len :: res[i] == s[i];
  }

  lemma {:induction false} OrSwaps(cp: bv32)
    ensures 0xC0 | (cp >> 6) == (cp >> 6) | 0xC0 && 0xE0 | (cp >> 12) == (cp >> 12) | 0xE0
    ensures 0xF0 | (cp >> 18) == (cp >> 18) | 0xF0 && 0x80 | (cp & 0x3F) == (cp & 0x3F) | 0x80
    ensures 0x80 | ((cp >> 6) & 0x3F) == ((cp >> 6) & 0x3F) | 0x80
    ensures 0x80 | ((cp >> 12) & 0x3F) == ((cp >> 12) & 0x3F) | 0x80
  {
  }

  /** Only the encoding of code point 0 contains a NUL byte. */
  lemma {:induction false} EncodeNoNul(cp: bv32)
    ensures cp != 0 <==> forall i | 0 <= i < |Encode(cp)| :: Encode(cp)[i] != 0
  {
    if cp == 0 {
      assert Encode(cp)[0] == 0;
    }
  }

  /** The payload bits of a first byte. */
  function LeadPayload(first: bv8): bv32 {
    match LeadLength(first)
    case 2 => (first & 0x1F) as bv32
    case 3 => (first & 0x0F) as bv32
    case 4 => (first & 0x07) as bv32
    case _ => first as bv32
  }

  function AddTail(codePoint: bv32, b: bv8): bv32 {
    (codePoint << 6) | ((b & 0x3F) as bv32)
  }

  /** The first `i` bytes of `c`, shifted together. */
  function Shifted(c: seq<bv8>, i: nat): bv32
    requires 1 <= i <= |c|
  {
    if i == 1 then LeadPayload(c[0]) else AddTail(Shifted(c, i - 1), c[i - 1])
  }

  lemma {:induction false} Shifted2(a: bv8, b: bv8)
    requires LeadLength(a) == 2
    ensures AddTail(LeadPayload(a), b) == Value2(a, b)
  {
  }

  lemma {:induction false} Shifted3(a: bv8, b: bv8, c: bv8)
    requires LeadLength(a) == 3
    ensures AddTail(AddTail(LeadPayload(a), b), c) == Value3(a, b, c)
  {
  }

  lemma {:induction false} Shifted4(a: bv8, b: bv8, c: bv8, d: bv8)
    requires LeadLength(a) == 4
    ensures AddTail(AddTail(AddTail(LeadPayload(a), b), c), d) == Value4(a, b, c, d)
  {
  }

  /** Shifting in byte after byte gives the value that the string library's masks give. */
  lemma {:induction false} ShiftedIsValue(c: seq<bv8>)
    requires c != [] && LeadLength(c[0]) == |c|
    ensures Shifted(c, |c|) == Value(c)
  {
    if |c| == 2 {
      Shifted2(c[0], c[1]);
    } else if |c| == 3 {
      Shifted3(c[0], c[1], c[2]);
      assert Shifted(c, 2) == AddTail(LeadPayload(c[0]), c[1]);
    } else if |c| == 4 {
      Shifted4(c[0], c[1], c[2], c[3]);
      assert Shifted(c, 2) == AddTail(LeadPayload(c[0]), c[1]);
      assert Shifted(c, 3) == AddTail(Shifted(c, 2), c[2]);
    }
  }

  method BuildCodePoint(str: array<bv8>, ptr: nat, len: nat, codePoint0: bv32, ghost n: nat) returns (codePoint: bv32)
    requires CString(str, n) && ptr < n
    requires len == LeadLength(str[ptr]) && len != 0 && codePoint0 == LeadPayload(str[ptr])
    ensures Some(codePoint) == Walk(str[ptr..n], 0)
  {
    codePoint := codePoint0;
    ghost var t := str[ptr..n];
    for i := 1 to len
      invariant i <= |t| && codePoint == Shifted(t, i)
    {
      if str[ptr + i] == 0 {
        return 0xFFFD;
      }
      assert ptr + i != n;
      codePoint := (codePoint << 6) | ((str[ptr + i] & 0x3F) as bv32);
    }
    assert t[..len] == str[ptr..ptr + len];
    ShiftedPrefix(t, len, len);
    ShiftedIsValue(t[..len]);
  }

  lemma {:induction false} ShiftedPrefix(t: seq<bv8>, n: nat, i: nat)
    requires 1 <= i <= n <= |t|
    ensures Shifted(t, i) == Shifted(t[..n], i)
  {
    if i != 1 {
      ShiftedPrefix(t, n, i - 1);
    }
  }

  lemma {:induction false} LeadBits(first: bv8)
    ensures first & 0x80 == 0 <==> LeadLength(first) == 1
    ensures first & 0xE0 == 0xC0 <==> LeadLength(first) == 2
    ensures first & 0xF0 == 0xE0 <==> LeadLength(first) == 3
    ensures first & 0xF8 == 0xF0 <==> LeadLength(first) == 4
  {
  }

  /** The length a first byte announces, 0 for none, and its payload. */
  method ReadLead(first: bv8) returns (len: nat, codePoint: bv32)
    ensures len == LeadLength(first) && (len != 0 ==> codePoint == LeadPayload(first))
  {
    LeadBits(first);
    if first & 0x80 == 0 {
      len, codePoint := 1, first as bv32;
    } else if first & 0xE0 == 0xC0 {
      len, codePoint := 2, (first & 0x1F) as bv32;
    } else if first & 0xF0 == 0xE0 {
      len, codePoint := 3, (first & 0x0F) as bv32;
    } else if first & 0xF8 == 0xF0 {
      len, codePoint := 4, (first & 0x07) as bv32;
    } else {
      len, codePoint := 0, 0;
    }
  }

  /**
   The code point at a character index.  The loop steps over a character without looking at
   its later bytes, so a string whose last character is cut off may only be indexed up to it.
   */
  method GetCharAt(str: array<bv8>, target: nat, ghost n: nat) returns (codePoint: bv32)
    requires CString(str, n) && Walk(str[..n], target).Some?
    ensures Some(codePoint) == Walk(str[..n], target)
  {
    var current, ptr := 0, 0;
    assert str[0..n] == str[..n];
    while str[ptr] != 0
      invariant ptr <= n && current <= target
      invariant Walk(str[ptr..n], target - current) == Walk(str[..n], target)
      decreases n - ptr
    {
      ghost var t := str[ptr..n];
      var len;
      len, codePoint := ReadLead(str[ptr]);
      if len == 0 {
        assert t[1..] == str[ptr + 1..n];
        ptr := ptr + 1;
        continue;
      }
      if current == target {
        codePoint := BuildCodePoint(str, ptr, len, codePoint, n);
        return;
      }
      assert t[len..] == str[ptr + len..n];
      ptr := ptr + len;
      current := current + 1;
    }
    codePoint := 0;
  }
}
