/** Generated names: they differ from each other and from every identifier of the program. */
module HirGenNames {
  import opened HirGen
  import A = Ast

  predicate Hidden(x: string) {
    x != [] && x[0] == A.MARK
  }

  /** The names a list loop numbered `c` introduces. */
  function LoopNames(c: nat): set<string> {
    {IdxName(c), ArrName(c), CountName(c)}
  }

  lemma {:induction false} DigitsInjective(m: nat, n: nat)
    ensures Digits(m) == Digits(n) ==> m == n
  {
    if Digits(m) == Digits(n) {
      var s, t := Digits(m), Digits(n);
      assert s[|s| - 1] as int - '0' as int == m % 10;
      assert t[|t| - 1] as int - '0' as int == n % 10;
      if 10 <= m && 10 <= n {
        assert s[..|s| - 1] == Digits(m / 10) && t[..|t| - 1] == Digits(n / 10);
        DigitsInjective(m / 10, n / 10);
      }
    }
  }

  /** Two generated names are equal only if they are the same name of the same loop. */
  lemma {:induction false} NamesDistinct(c: nat, d: nat)
    ensures IdxName(c) != ArrName(d) && IdxName(c) != CountName(d) && ArrName(c) != CountName(d)
    ensures c != d ==> IdxName(c) != IdxName(d) && ArrName(c) != ArrName(d) && CountName(c) != CountName(d)
    ensures c != d ==> LoopNames(c) !! LoopNames(d)
  {
    DigitsInjective(c, d);
    assert IdxName(c)[3] == 'i' && ArrName(d)[3] == 'a' && CountName(d)[3] == 'a';
    assert IdxName(d)[3] == 'i' && ArrName(c)[3] == 'a' && CountName(c)[3] == 'a';
    ArrIsNotCount(c, d);
    ArrIsNotCount(d, c);
    if c != d {
      assert IdxName(c)[8..] == Digits(c) && IdxName(d)[8..] == Digits(d);
      assert ArrName(c)[8..] == Digits(c) && ArrName(d)[8..] == Digits(d);
      CountOfArr(c);
      CountOfArr(d);
    }
  }

  lemma {:induction false} ArrIsNotCount(c: nat, d: nat)
    ensures ArrName(c) != CountName(d)
  {
    var s := ArrName(c);
    assert s[|s| - 1] == Digits(c)[|Digits(c)| - 1];
    var t := CountName(d);
    assert t[|t| - 1] == A.COUNT_SUFFIX[|A.COUNT_SUFFIX| - 1] == 't';
  }

  lemma {:induction false} CountOfArr(c: nat)
    ensures CountName(c)[..|CountName(c)| - |A.COUNT_SUFFIX|] == ArrName(c)
  {
  }

  /** No generated name is an identifier of the program or the companion of a parameter. */
  lemma {:induction false} NamesHidden(c: nat)
    ensures forall x | x in LoopNames(c) :: Hidden(x) && !A.Lexable(x)
  {
    assert IdxName(c)[0] == A.MARK && ArrName(c)[0] == A.MARK && CountName(c)[0] == A.MARK;
  }

  lemma {:induction false} LexableVisible(x: string)
    requires A.Lexable(x)
    ensures !Hidden(x) && !Hidden(x + A.COUNT_SUFFIX)
  {
    assert (x + A.COUNT_SUFFIX)[0] == x[0] && x[0] in x;
  }

  /** Every identifier can name a variable, unless it names a builtin. */
  lemma {:induction false} IdentifiersLexable(x: string)
    requires A.Identifier(x)
    ensures A.Lexable(x) <==> x[0] != '@'
    ensures !Hidden(x)
  {
    assert forall i | 0 <= i < |x| :: x[i] != A.MARK;
  }
}
