/**
 Integer literals: the range checks of the semantic phase, which compare digit strings, and
 the parsers of the evaluator, which compute modulo 2^128.
 */
module IntegerLiteral {
  import opened Wrappers
  import opened Arithmetic
  import opened IntegerEval

  // ---------- digits and their value ----------

  predicate IsDigit(c: char) {
    '0' <= c <= '9'
  }

  predicate IsHexDigit(c: char) {
    IsDigit(c) || 'a' <= c <= 'f' || 'A' <= c <= 'F'
  }

  predicate AllDigits(s: string) {
    forall i | 0 <= i < |s| :: IsDigit(s[i])
  }

  predicate AllHexDigits(s: string) {
    forall i | 0 <= i < |s| :: IsHexDigit(s[i])
  }

  function DigitValue(c: char): (v: nat)
    ensures IsDigit(c) ==> v < 10
    ensures v < 16
  {
    if IsDigit(c) then c as int - '0' as int
    else if 'a' <= c <= 'f' then c as int - 'a' as int + 10
    else if 'A' <= c <= 'F' then c as int - 'A' as int + 10
    else 0
  }

  /** The number a digit string denotes. */
  function Horner(s: string, base: nat): nat {
    if s == [] then 0 else Horner(s[..|s| - 1], base) * base + DigitValue(s[|s| - 1])
  }

  lemma {:induction false} HornerSnoc(s: string, c: char, base: nat)
    ensures Horner(s + [c], base) == Horner(s, base) * base + DigitValue(c)
  {
    assert (s + [c])[..|s|] == s;
  }

  lemma {:induction false} ShiftSum(x: int, v: int, p: int, h: int, base: int)
    requires x == v * p + h
    ensures x * base == v * (base * p) + h * base
  {
    Associate(v, p, base);
    Commute(p, base);
    DistributeOver(v * p, h, base);
  }

  lemma {:induction false} Commute(x: int, y: int)
    ensures x * y == y * x
  {
  }

  lemma {:induction false} DistributeOver(x: int, y: int, z: int)
    ensures (x + y) * z == x * z + y * z
  {
  }

  lemma {:induction false} ConsThenSnoc(c: char, t: string, d: char, base: nat)
    requires Horner([c] + t, base) == DigitValue(c) * Pow(base, |t|) + Horner(t, base)
    ensures Horner(([c] + t) + [d], base) == DigitValue(c) * Pow(base, |t| + 1) + Horner(t + [d], base)
  {
    HornerSnoc([c] + t, d, base);
    HornerSnoc(t, d, base);
    ShiftSum(Horner([c] + t, base), DigitValue(c), Pow(base, |t|), Horner(t, base), base);
  }

  lemma {:induction false} HornerOne(c: char, base: nat)
    ensures Horner([c], base) == DigitValue(c)
  {
    assert [c][..0] == [];
  }

  lemma {:induction false} HornerCons(c: char, s: string, base: nat)
    ensures Horner([c] + s, base) == DigitValue(c) * Pow(base, |s|) + Horner(s, base)
    decreases |s|
  {
    if s == [] {
      assert [c] + s == [c];
      HornerOne(c, base);
    } else {
      var t, d := s[..|s| - 1], s[|s| - 1];
      HornerCons(c, t, base);
      ConsThenSnoc(c, t, d, base);
      assert t + [d] == s && |t| + 1 == |s|;
      assert ([c] + t) + [d] == [c] + s;
    }
  }

  lemma {:induction false} HornerBound(s: string, base: nat)
    requires forall i | 0 <= i < |s| :: DigitValue(s[i]) < base
    ensures Horner(s, base) < Pow(base, |s|)
  {
    if s != [] {
      var n := |s| - 1;
      HornerBound(s[..n], base);
      ShiftBound(Horner(s[..n], base), Pow(base, n), base, DigitValue(s[n]));
    }
  }

  lemma {:induction false} ShiftBound(h: nat, p: int, base: nat, d: nat)
    requires h < p && d < base
    ensures h * base + d < base * p
  {
    ProductNatural(p - h - 1, base);
    assert base * p == (p - h - 1) * base + h * base + base;
  }

  lemma {:induction false} PowMonotone(base: nat, j: nat, k: nat)
    requires 1 <= base && j <= k
    ensures Pow(base, j) <= Pow(base, k)
  {
    if j < k {
      PowMonotone(base, j, k - 1);
      PowPositive(base, k - 1);
      ProductAtLeast(Pow(base, k - 1), base);
    }
  }

  // ---------- comparing digit strings ----------

  predicate NoLeadingZero(s: string) {
    s != [] ==> s[0] != '0'
  }

  predicate InBase(s: string, base: nat) {
    forall i | 0 <= i < |s| :: IsHexDigit(s[i]) && DigitValue(s[i]) < base
  }

  /** Digit by digit from the front; for strings of one length. */
  predicate LexLe(a: string, b: string)
    requires |a| == |b|
  {
    if a == [] then true
    else if DigitValue(a[0]) != DigitValue(b[0]) then DigitValue(a[0]) < DigitValue(b[0])
    else LexLe(a[1..], b[1..])
  }

  lemma {:induction false} LexIsNumeric(a: string, b: string, base: nat)
    requires |a| == |b| && InBase(a, base) && InBase(b, base)
    ensures LexLe(a, b) <==> Horner(a, base) <= Horner(b, base)
  {
    if a != [] {
      LexIsNumeric(a[1..], b[1..], base);
      assert a == [a[0]] + a[1..] && b == [b[0]] + b[1..];
      HornerCons(a[0], a[1..], base);
      HornerCons(b[0], b[1..], base);
      HornerBound(a[1..], base);
      HornerBound(b[1..], base);
      if DigitValue(a[0]) != DigitValue(b[0]) {
        FirstDigitDecides(DigitValue(a[0]), DigitValue(b[0]), Pow(base, |a| - 1), Horner(a[1..], base),
                Horner(b[1..], base));
      }
    }
  }

  lemma {:induction false} FirstDigitDecides(x: nat, y: nat, p: int, u: nat, v: nat)
    requires u < p && v < p && x != y
    ensures x * p + u <= y * p + v <==> x < y
  {
    if x < y {
      assert y * p == x * p + p + (y - x - 1) * p;
      ProductNatural(y - x - 1, p);
    } else {
      assert x * p == y * p + p + (x - y - 1) * p;
      ProductNatural(x - y - 1, p);
    }
  }

  /** Without leading zeros the longer string is the larger number. */
  lemma {:induction false} LongerIsLarger(a: string, b: string, base: nat)
    requires InBase(a, base) && InBase(b, base) && |a| < |b| && NoLeadingZero(b) && 1 <= base
    ensures Horner(a, base) < Horner(b, base)
  {
    HornerBound(a, base);
    PowMonotone(base, |a|, |b| - 1);
    assert b == [b[0]] + b[1..];
    HornerCons(b[0], b[1..], base);
    PowPositive(base, |b| - 1);
    assert DigitValue(b[0]) >= 1;
    ProductAtLeast(Pow(base, |b| - 1), DigitValue(b[0]));
  }

  /** Length first, then the digits: this is the order of the numbers. */
  lemma {:induction false} FitsUnderIsNumeric(d: string, m: string, base: nat)
    requires InBase(d, base) && InBase(m, base) && NoLeadingZero(d) && NoLeadingZero(m) && 1 <= base
    ensures (|d| < |m| || (|d| == |m| && LexLe(d, m))) <==> Horner(d, base) <= Horner(m, base)
  {
    if |d| < |m| {
      LongerIsLarger(d, m, base);
    } else if |d| > |m| {
      LongerIsLarger(m, d, base);
    } else {
      LexIsNumeric(d, m, base);
    }
  }

  /** Leading zeros do not count. */
  lemma {:induction false} ZerosDoNotCount(s: string, k: nat, base: nat)
    requires k <= |s| && forall i | 0 <= i < k :: s[i] == '0'
    ensures Horner(s[k..], base) == Horner(s, base)
  {
    if k == 0 {
      assert s[0..] == s;
    } else {
      assert s == [s[0]] + s[1..] && s[1..][k - 1..] == s[k..];
      HornerCons(s[0], s[1..], base);
      ZerosDoNotCount(s[1..], k - 1, base);
    }
  }

  // ---------- the C library's comparisons ----------

  function ToLower(c: char): char {
    if 'A' <= c <= 'Z' then (c as int + 32) as char else c
  }

  /** `strcmp(a, b) <= 0` */
  predicate StrCmpLe(a: string, b: string) {
    if a == [] then true
    else if b == [] then false
    else if a[0] != b[0] then a[0] < b[0]
    else StrCmpLe(a[1..], b[1..])
  }

  /** `strcasecmp(a, b) <= 0` */
  predicate StrCaseCmpLe(a: string, b: string) {
    if a == [] then true
    else if b == [] then false
    else if ToLower(a[0]) != ToLower(b[0]) then ToLower(a[0]) < ToLower(b[0])
    else StrCaseCmpLe(a[1..], b[1..])
  }

  lemma {:induction false} StrCmpIsLex(a: string, b: string)
    requires |a| == |b| && AllDigits(a) && AllDigits(b)
    ensures StrCmpLe(a, b) <==> LexLe(a, b)
  {
    if a != [] {
      StrCmpIsLex(a[1..], b[1..]);
    }
  }

  lemma {:induction false} StrCaseCmpIsLex(a: string, b: string)
    requires |a| == |b| && AllHexDigits(a) && AllHexDigits(b)
    ensures StrCaseCmpLe(a, b) <==> LexLe(a, b)
  {
    if a != [] {
      StrCaseCmpIsLex(a[1..], b[1..]);
    }
  }

  // ---------- the checks ----------

  const I128_MAX_DEC := "170141183460469231731687303715884105727"
  const U128_MAX_DEC := "340282366920938463463374607431768211455"
  const I128_MAX_HEX := "7FFFFFFFFFFFFFFFFFFFFFFFFFFFFFFF"
  const U128_MAX_HEX := "FFFFFFFFFFFFFFFFFFFFFFFFFFFFFFFF"

  predicate HasHexPrefix(s: string) {
    |s| >= 2 && s[0] == '0' && (s[1] == 'x' || s[1] == 'X')
  }

  predicate HasSign(s: string) {
    s != [] && (s[0] == '+' || s[0] == '-')
  }

  function AfterSign(s: string): string {
    if HasSign(s) then s[1..] else s
  }

  predicate IsIntegerLiteral(s: string) {
    var body := AfterSign(s);
    if body == [] then false
    else if HasHexPrefix(body) then |body| > 2 && AllHexDigits(body[2..])
    else AllDigits(body)
  }

  function ZeroCount(s: string): (k: nat)
    ensures k <= |s| && (forall i | 0 <= i < k :: s[i] == '0') && (k < |s| ==> s[k] != '0')
  {
    if s != [] && s[0] == '0' then
      var k := ZeroCount(s[1..]);
      assert forall i | 1 <= i < k + 1 :: s[i] == s[1..][i - 1];
      k + 1
    else 0
  }

  /** What is left of a literal after its sign, its hex prefix and its leading zeros. */
  function Significant(s: string): string {
    var body := AfterSign(s);
    var rest := if HasHexPrefix(body) then body[2..] else body;
    rest[ZeroCount(rest)..]
  }

  lemma {:induction false} ZerosSkipped(s: string, start: nat, k: nat)
    requires start <= k <= |s| && (forall i | start <= i < k :: s[i] == '0') && (k < |s| ==> s[k] != '0')
    ensures s[k..] == s[start..][ZeroCount(s[start..])..]
  {
    var rest := s[start..];
    forall i | 0 <= i < k - start
      ensures rest[i] == '0'
    {
    }
    assert k < |s| ==> rest[k - start] == s[k];
    assert ZeroCount(rest) == k - start;
  }

  method SkipSignAndZeros(s: string) returns (k: nat)
    ensures k <= |s| && s[k..] == Significant(s)
  {
    k := 0;
    if k < |s| && (s[k] == '+' || s[k] == '-') {
      k := k + 1;
    }
    assert s[k..] == AfterSign(s);
    var isHex := k + 1 < |s| && s[k] == '0' && (s[k + 1] == 'x' || s[k + 1] == 'X');
    if isHex {
      k := k + 2;
    }
    ghost var start := k;
    assert s[start..] == if HasHexPrefix(AfterSign(s)) then AfterSign(s)[2..] else AfterSign(s);
    while k < |s| && s[k] == '0'
      invariant start <= k <= |s| && forall i | start <= i < k :: s[i] == '0'
    {
      k := k + 1;
    }
    ZerosSkipped(s, start, k);
  }

  predicate DecFitsUnder(digits: string, max: string) {
    if |digits| == 0 then true
    else if |digits| < |max| then true
    else if |digits| > |max| then false
    else StrCmpLe(digits, max)
  }

  predicate HexFitsUnder(digits: string, max: string) {
    if |digits| < |max| then true
    else if |digits| > |max| then false
    else StrCaseCmpLe(digits, max)
  }

  /** The sign `+` in front of a hex prefix is not looked behind. */
  predicate FitsSigned128(s: string) {
    if s == [] then false
    else if Significant(s) == [] then true
    else
      var hex := if s[0] == '-' then HasHexPrefix(s[1..]) else HasHexPrefix(s);
      if hex then HexFitsUnder(Significant(s), I128_MAX_HEX) else DecFitsUnder(Significant(s), I128_MAX_DEC)
  }

  predicate FitsUnsigned128(s: string) {
    if s == [] then false
    else if s[0] == '-' then false
    else if Significant(s) == [] then true
    else if HasHexPrefix(s) then HexFitsUnder(Significant(s), U128_MAX_HEX)
    else DecFitsUnder(Significant(s), U128_MAX_DEC)
  }

  predicate IsI128(s: string) {
    IsIntegerLiteral(s) && FitsSigned128(s)
  }

  predicate IsU128(s: string) {
    IsIntegerLiteral(s) && FitsUnsigned128(s)
  }

  // ---------- the parsers ----------

  /** Result of parsing; None where the parser reports failure. */
  function ParsedU128(s: string): Option<int> {
    if s == [] || !AllDigits(s) then None else Some(Mod128(Horner(s, 10)))
  }

  method ParseU128(s: string) returns (v: int, ok: bool)
    ensures ok <==> ParsedU128(s).Some?
    ensures v == if ok then ParsedU128(s).value else 0
  {
    if s == [] {
      return 0, false;
    }
    v := 0;
    for p := 0 to |s|
      invariant AllDigits(s[..p]) && v == Mod128(Horner(s[..p], 10))
    {
      if s[p] < '0' || s[p] > '9' {
        return 0, false;
      }
      assert s[..p + 1] == s[..p] + [s[p]];
      HornerSnoc(s[..p], s[p], 10);
      ModHorner(Horner(s[..p], 10), DigitValue(s[p]));
      v := Mod128(Mod128(v * 10) + (s[p] as int - '0' as int));
    }
    assert s[..|s|] == s;
    ok := true;
  }

  lemma {:induction false} ModHorner(h: nat, d: nat)
    ensures Mod128(Mod128(Mod128(h) * 10) + d) == Mod128(h * 10 + d)
  {
    ModProduct(h, 10, TWO_TO_THE_128);
    var q := (h * 10) / TWO_TO_THE_128;
    assert h * 10 + d == Mod128(h * 10) + d + q * TWO_TO_THE_128;
    ModCongruent(Mod128(h * 10) + d, q, TWO_TO_THE_128);
  }

  /** The conversion of a 128-bit pattern to a signed value. */
  function ToSigned(u: int): int {
    if u < TWO_TO_THE_127 then u else u - TWO_TO_THE_128
  }

  /** Negating the lowest value is undefined; the model leaves it as it is. */
  method ParseI128(s: string) returns (v: int, ok: bool)
    ensures ok <==> ParsedU128(AfterSign(s)).Some?
    ensures !ok ==> v == 0
    ensures ok ==> var u := ToSigned(ParsedU128(AfterSign(s)).value);
      v == if s[0] == '-' then -u else u
  {
    if s == [] {
      return 0, false;
    }
    var neg, t := false, s;
    if s[0] == '-' {
      neg, t := true, s[1..];
    } else if s[0] == '+' {
      t := s[1..];
    }
    var u;
    u, ok := ParseU128(t);
    if !ok {
      return 0, false;
    }
    v := if neg then -ToSigned(u) else ToSigned(u);
  }

  // ---------- the limits ----------

  lemma {:induction false} Append3(s: string, a: char, b: char, c: char)
    ensures Horner(s + [a, b, c], 10) == Horner(s, 10) * 1000 + DigitValue(a) * 100 + DigitValue(b) * 10 + DigitValue(c)
  {
    HornerSnoc(s, a, 10);
    HornerSnoc(s + [a], b, 10);
    HornerSnoc(s + [a] + [b], c, 10);
    assert s + [a, b, c] == s + [a] + [b] + [c];
  }

  lemma {:induction false} U128MaxValueHead()
    ensures Horner("340282366920938463463", 10) == 340282366920938463463
  {
    var s0: string := [];
    Append3(s0, '3', '4', '0');
    var s1 := s0 + "340";
    Append3(s1, '2', '8', '2');
    var s2 := s1 + "282";
    Append3(s2, '3', '6', '6');
    var s3 := s2 + "366";
    Append3(s3, '9', '2', '0');
    var s4 := s3 + "920";
    Append3(s4, '9', '3', '8');
    var s5 := s4 + "938";
    Append3(s5, '4', '6', '3');
    var s6 := s5 + "463";
    Append3(s6, '4', '6', '3');
    assert s6 + "463" == "340282366920938463463";
  }

  lemma {:induction false} U128MaxValue()
    ensures Horner(U128_MAX_DEC, 10) == TWO_TO_THE_128 - 1
  {
    var s0 := "340282366920938463463";
    U128MaxValueHead();
    Append3(s0, '3', '7', '4');
    var s1 := s0 + "374";
    Append3(s1, '6', '0', '7');
    var s2 := s1 + "607";
    Append3(s2, '4', '3', '1');
    var s3 := s2 + "431";
    Append3(s3, '7', '6', '8');
    var s4 := s3 + "768";
    Append3(s4, '2', '1', '1');
    var s5 := s4 + "211";
    Append3(s5, '4', '5', '5');
    assert s5 + "455" == U128_MAX_DEC;
  }

  lemma {:induction false} I128MaxValueHead()
    ensures Horner("170141183460469231731", 10) == 170141183460469231731
  {
    var s0: string := [];
    Append3(s0, '1', '7', '0');
    var s1 := s0 + "170";
    Append3(s1, '1', '4', '1');
    var s2 := s1 + "141";
    Append3(s2, '1', '8', '3');
    var s3 := s2 + "183";
    Append3(s3, '4', '6', '0');
    var s4 := s3 + "460";
    Append3(s4, '4', '6', '9');
    var s5 := s4 + "469";
    Append3(s5, '2', '3', '1');
    var s6 := s5 + "231";
    Append3(s6, '7', '3', '1');
    assert s6 + "731" == "170141183460469231731";
  }

  lemma {:induction false} I128MaxValue()
    ensures Horner(I128_MAX_DEC, 10) == TWO_TO_THE_127 - 1
  {
    var s0 := "170141183460469231731";
    I128MaxValueHead();
    Append3(s0, '6', '8', '7');
    var s1 := s0 + "687";
    Append3(s1, '3', '0', '3');
    var s2 := s1 + "303";
    Append3(s2, '7', '1', '5');
    var s3 := s2 + "715";
    Append3(s3, '8', '8', '4');
    var s4 := s3 + "884";
    Append3(s4, '1', '0', '5');
    var s5 := s4 + "105";
    Append3(s5, '7', '2', '7');
    assert s5 + "727" == I128_MAX_DEC;
  }

  lemma {:induction false} AllF(s: string)
    requires forall i | 0 <= i < |s| :: s[i] == 'F'
    ensures Horner(s, 16) == Pow(16, |s|) - 1
  {
    if s != [] {
      AllF(s[..|s| - 1]);
    }
  }

  lemma {:induction false} PowersOf16()
    ensures Pow(16, 32) == TWO_TO_THE_128 && 8 * Pow(16, 31) == TWO_TO_THE_127
  {
    assert Pow(16, 4) == 16 * Pow(16, 3) == 16 * (16 * Pow(16, 2)) == 0x1_0000;
    PowAdd(16, 4, 4);
    PowAdd(16, 8, 8);
    PowAdd(16, 16, 16);
    assert Pow(16, 32) == 16 * Pow(16, 31);
  }

  lemma {:induction false} PowAdd(a: int, e: nat, f: nat)
    ensures Pow(a, e + f) == Pow(a, e) * Pow(a, f)
  {
    if e != 0 {
      PowAdd(a, e - 1, f);
      Associate(a, Pow(a, e - 1), Pow(a, f));
    }
  }

  lemma {:induction false} HexMaxValues()
    ensures Horner(U128_MAX_HEX, 16) == TWO_TO_THE_128 - 1 && Horner(I128_MAX_HEX, 16) == TWO_TO_THE_127 - 1
  {
    AllF(U128_MAX_HEX);
    AllF(I128_MAX_HEX[1..]);
    assert I128_MAX_HEX == ['7'] + I128_MAX_HEX[1..];
    HornerCons('7', I128_MAX_HEX[1..], 16);
    PowersOf16();
  }

  lemma {:induction false} DecimalLimits()
    ensures AllDigits(I128_MAX_DEC) && |I128_MAX_DEC| == 39 && I128_MAX_DEC[0] != '0'
    ensures AllDigits(U128_MAX_DEC) && |U128_MAX_DEC| == 39 && U128_MAX_DEC[0] != '0'
  {
  }

  // ---------- what the checks decide ----------

  lemma {:induction false} DecFitsIsNumeric(s: string, max: string)
    requires AllDigits(s) && AllDigits(max) && max != [] && max[0] != '0'
    ensures DecFitsUnder(s[ZeroCount(s)..], max) <==> Horner(s, 10) <= Horner(max, 10)
  {
    var d := s[ZeroCount(s)..];
    ZerosDoNotCount(s, ZeroCount(s), 10);
    FitsUnderIsNumeric(d, max, 10);
    if |d| == |max| {
      StrCmpIsLex(d, max);
    }
  }

  lemma {:induction false} HexFitsIsNumeric(s: string, max: string)
    requires AllHexDigits(s) && AllHexDigits(max) && max != [] && max[0] != '0'
    ensures HexFitsUnder(s[ZeroCount(s)..], max) <==> Horner(s, 16) <= Horner(max, 16)
  {
    var d := s[ZeroCount(s)..];
    ZerosDoNotCount(s, ZeroCount(s), 16);
    FitsUnderIsNumeric(d, max, 16);
    if |d| == |max| {
      StrCaseCmpIsLex(d, max);
    }
  }

  lemma {:induction false} DecimalParts(s: string)
    requires AfterSign(s) != [] && AllDigits(AfterSign(s))
    ensures IsIntegerLiteral(s) && Significant(s) == AfterSign(s)[ZeroCount(AfterSign(s))..]
    ensures !HasHexPrefix(s) && (s[0] == '-' ==> !HasHexPrefix(s[1..]))
  {
    assert !HasHexPrefix(AfterSign(s));
  }

  /** A decimal literal is unsigned exactly if it has no minus and its value has at most 128 bits. */
  lemma {:induction false} U128Exact(s: string)
    requires AfterSign(s) != [] && AllDigits(AfterSign(s))
    ensures IsU128(s) <==> s[0] != '-' && Horner(AfterSign(s), 10) <= TWO_TO_THE_128 - 1
  {
    U128MaxValue();
    DecimalLimits();
    DecFitsIsNumeric(AfterSign(s), U128_MAX_DEC);
    DecimalParts(s);
  }

  /** With or without a sign, the magnitude may be at most 2^127 - 1: the lowest value has no literal. */
  lemma {:induction false} I128Exact(s: string)
    requires AfterSign(s) != [] && AllDigits(AfterSign(s))
    ensures IsI128(s) <==> Horner(AfterSign(s), 10) <= TWO_TO_THE_127 - 1
  {
    I128MaxValue();
    DecimalLimits();
    DecFitsIsNumeric(AfterSign(s), I128_MAX_DEC);
    DecimalParts(s);
  }

  /** A hexadecimal literal, whatever the case of its digits. */
  lemma {:induction false} U128HexExact(x: char, h: string)
    requires (x == 'x' || x == 'X') && h != [] && AllHexDigits(h)
    ensures IsU128(['0', x] + h) <==> Horner(h, 16) <= TWO_TO_THE_128 - 1
  {
    var s := ['0', x] + h;
    HexMaxValues();
    HexFitsIsNumeric(h, U128_MAX_HEX);
    HexParts(x, h);
    if Significant(s) == [] {
      assert h[ZeroCount(h)..] == [];
    }
  }

  lemma {:induction false} HexParts(x: char, h: string)
    requires (x == 'x' || x == 'X') && h != [] && AllHexDigits(h)
    ensures var s := ['0', x] + h;
      HasHexPrefix(s) && AfterSign(s) == s && s[2..] == h && Significant(s) == h[ZeroCount(h)..] && IsIntegerLiteral(s)
  {
    assert (['0', x] + h)[2..] == h;
  }

  // ---------- hexadecimal literals with a sign ----------

  lemma {:induction false} SignedHexParts(sign: char, x: char, h: string)
    requires (sign == '+' || sign == '-') && (x == 'x' || x == 'X') && h != [] && AllHexDigits(h)
    ensures var s := [sign, '0', x] + h;
      && IsIntegerLiteral(s) && AfterSign(s) == s[1..] && Significant(s) == h[ZeroCount(h)..]
      && HasHexPrefix(s[1..]) && !HasHexPrefix(s)
  {
    var s := [sign, '0', x] + h;
    assert s[1..] == ['0', x] + h && s[1..][2..] == h;
  }

  lemma {:induction false} SignedHexVerdicts(x: char, h: string)
    requires (x == 'x' || x == 'X') && h != [] && AllHexDigits(h)
    ensures var d := h[ZeroCount(h)..];
      && (IsI128(['0', x] + h) <==> d == [] || HexFitsUnder(d, I128_MAX_HEX))
      && (IsI128(['-', '0', x] + h) <==> d == [] || HexFitsUnder(d, I128_MAX_HEX))
      && !IsU128(['-', '0', x] + h)
  {
    HexParts(x, h);
    SignedHexParts('-', x, h);
  }

  lemma {:induction false} I128HexLimit(h: string)
    requires h != [] && AllHexDigits(h)
    ensures var d := h[ZeroCount(h)..];
      d == [] || HexFitsUnder(d, I128_MAX_HEX) <==> Horner(h, 16) <= TWO_TO_THE_127 - 1
  {
    HexMaxValues();
    HexFitsIsNumeric(h, I128_MAX_HEX);
  }

  /** A hexadecimal literal without a sign or with a minus: its magnitude may be at most 2^127 - 1. */
  lemma {:induction false} I128HexExact(x: char, h: string)
    requires (x == 'x' || x == 'X') && h != [] && AllHexDigits(h)
    ensures IsI128(['0', x] + h) <==> Horner(h, 16) <= TWO_TO_THE_127 - 1
    ensures IsI128(['-', '0', x] + h) <==> Horner(h, 16) <= TWO_TO_THE_127 - 1
    ensures !IsU128(['-', '0', x] + h)
  {
    SignedHexVerdicts(x, h);
    I128HexLimit(h);
  }

  lemma {:induction false} StrCmpWithDecimal(a: string, b: string)
    requires |a| == |b| && AllHexDigits(a) && AllDigits(b)
    ensures StrCmpLe(a, b) <==> LexLe(a, b)
  {
    if a != [] {
      StrCmpWithDecimal(a[1..], b[1..]);
    }
  }

  lemma {:induction false} HexUnderDecimalIsNumeric(s: string, max: string)
    requires AllHexDigits(s) && AllDigits(max) && max != [] && max[0] != '0'
    ensures DecFitsUnder(s[ZeroCount(s)..], max) <==> Horner(s, 16) <= Horner(max, 16)
  {
    var d := s[ZeroCount(s)..];
    ZerosDoNotCount(s, ZeroCount(s), 16);
    FitsUnderIsNumeric(d, max, 16);
    if |d| == |max| {
      StrCmpWithDecimal(d, max);
    }
  }

  lemma {:induction false} PlusHexVerdicts(x: char, h: string)
    requires (x == 'x' || x == 'X') && h != [] && AllHexDigits(h)
    ensures IsI128(['+', '0', x] + h) <==> DecFitsUnder(h[ZeroCount(h)..], I128_MAX_DEC)
    ensures IsU128(['+', '0', x] + h) <==> DecFitsUnder(h[ZeroCount(h)..], U128_MAX_DEC)
  {
    SignedHexParts('+', x, h);
  }

  lemma {:induction false} DecimalReadAsHex(m: string)
    requires |m| >= 33 && AllDigits(m) && m[0] != '0'
    ensures TWO_TO_THE_128 <= Horner(m, 16)
  {
    assert m == [m[0]] + m[1..];
    HornerCons(m[0], m[1..], 16);
    PowersOf16();
    PowMonotone(16, 32, |m| - 1);
    assert DigitValue(m[0]) >= 1;
    PowPositive(16, |m| - 1);
    ProductAtLeast(Pow(16, |m| - 1), DigitValue(m[0]));
  }

  /**
   Behind a plus the prefix is not seen, and the digits are held against the decimal limit: what
   is accepted is what does not exceed the text of that limit read as a hexadecimal number.  Such
   a literal is judged rightly exactly if it fits, or exceeds that larger limit as well.
   */
  lemma {:induction false} PlusHexExact(x: char, h: string, limit: string)
    requires (x == 'x' || x == 'X') && h != [] && AllHexDigits(h)
    ensures limit == I128_MAX_DEC ==>
      && (IsI128(['+', '0', x] + h) <==> Horner(h, 16) <= Horner(limit, 16))
      && TWO_TO_THE_128 <= Horner(limit, 16)
    ensures limit == U128_MAX_DEC ==>
      && (IsU128(['+', '0', x] + h) <==> Horner(h, 16) <= Horner(limit, 16))
      && TWO_TO_THE_128 <= Horner(limit, 16)
  {
    DecimalLimits();
    PlusHexVerdicts(x, h);
    if limit == I128_MAX_DEC || limit == U128_MAX_DEC {
      HexUnderDecimalIsNumeric(h, limit);
      DecimalReadAsHex(limit);
    }
  }

  // ---------- nothing else is a literal ----------

  predicate Sign(sign: string) {
    sign == [] || sign == ['+'] || sign == ['-']
  }

  ghost predicate DecimalForm(s: string) {
    exists sign: string, d: string :: Sign(sign) && d != [] && AllDigits(d) && s == sign + d
  }

  ghost predicate HexForm(s: string) {
    exists sign: string, x: char, h: string ::
      Sign(sign) && (x == 'x' || x == 'X') && h != [] && AllHexDigits(h) && s == sign + ['0', x] + h
  }

  lemma {:induction false} SplitLiteral(s: string)
    requires IsIntegerLiteral(s)
    ensures DecimalForm(s) || HexForm(s)
  {
    var body, sign := AfterSign(s), if HasSign(s) then [s[0]] else [];
    assert Sign(sign) && s == sign + body;
    if HasHexPrefix(body) {
      assert body == ['0', body[1]] + body[2..];
      assert s == sign + ['0', body[1]] + body[2..];
    }
  }

  /** An accepted literal is an optional sign with decimal digits, or with a prefix and hexadecimal ones. */
  lemma {:induction false} LiteralForms(s: string)
    requires IsI128(s) || IsU128(s)
    ensures DecimalForm(s) || HexForm(s)
  {
    SplitLiteral(s);
  }

  /** Parsing an accepted unsigned decimal literal gives its value, and no prefix wraps on the way. */
  lemma {:induction false} U128Parses(s: string, k: nat)
    requires s != [] && AllDigits(s) && IsU128(s) && k <= |s|
    ensures ParsedU128(s) == Some(Horner(s, 10))
    ensures Horner(s[..k], 10) <= Horner(s, 10) && InU128(Horner(s[..k], 10))
  {
    assert AfterSign(s) == s;
    U128Exact(s);
    ParsesBelow(s, k);
  }

  lemma {:induction false} ParsesBelow(s: string, k: nat)
    requires s != [] && AllDigits(s) && Horner(s, 10) < TWO_TO_THE_128 && k <= |s|
    ensures ParsedU128(s) == Some(Horner(s, 10))
    ensures Horner(s[..k], 10) <= Horner(s, 10) && InU128(Horner(s[..k], 10))
  {
    Mod128Small(Horner(s, 10));
    PrefixSmaller(s, k);
  }

  lemma {:induction false} Mod128Small(x: int)
    requires InU128(x)
    ensures Mod128(x) == x
  {
  }

  lemma {:induction false} PrefixSmaller(s: string, k: nat)
    requires k <= |s|
    ensures Horner(s[..k], 10) <= Horner(s, 10)
    decreases |s| - k
  {
    if k == |s| {
      assert s[..k] == s;
    } else {
      assert s[..k + 1] == s[..k] + [s[k]];
      HornerSnoc(s[..k], s[k], 10);
      PrefixSmaller(s, k + 1);
    }
  }

  /** Parsing an accepted signed decimal literal gives its value. */
  lemma {:induction false} I128Parses(s: string)
    requires AfterSign(s) != [] && AllDigits(AfterSign(s)) && IsI128(s)
    ensures ParsedU128(AfterSign(s)).Some? && ToSigned(ParsedU128(AfterSign(s)).value) == Horner(AfterSign(s), 10)
    ensures InI128(Horner(AfterSign(s), 10)) && InI128(0 - Horner(AfterSign(s), 10))
  {
    I128Exact(s);
  }

  /** Of the accepted unsigned literals the parser knows only the plain decimal ones. */
  lemma {:induction false} U128ParsedIff(s: string)
    requires IsU128(s)
    ensures ParsedU128(s).Some? <==> s[0] != '+' && !HasHexPrefix(s)
  {
    assert s[0] == '+' ==> !IsDigit(s[0]);
    if HasHexPrefix(s) {
      assert !IsDigit(s[1]);
    }
  }

  /** Of the accepted signed literals the parser knows the decimal ones, with any sign. */
  lemma {:induction false} I128ParsedIff(s: string)
    requires IsI128(s)
    ensures ParsedU128(AfterSign(s)).Some? <==> !HasHexPrefix(AfterSign(s))
  {
    if HasHexPrefix(AfterSign(s)) {
      assert !IsDigit(AfterSign(s)[1]);
    }
  }
}
