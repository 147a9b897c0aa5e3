/**
 Variadic parameters.  A function may end in several variadic groups; the checker and the
 lowering each distribute a call's arguments over them greedily, and the call passes every
 group as a list and its length.
 */
module Varargs {
  import opened Wrappers

  /** The base of a type: not known, one of the numeric types, or another one. */
  datatype Base = Unknown | Number(id: nat) | Other(id: nat)

  /** A type; `shape` stands for the lengths and inner types that lists and pointers have besides. */
  datatype Type = Type(base: Base, shape: nat)

  /** An element type; None is a null pointer, which in a group accepts anything. */
  type Inner = Option<Type>

  /** Only lists and pointers have an element type: that of a fixed scalar is null. */
  datatype Param = Fixed(name: string, ty: Type, inner: Inner) | Variadic(name: string, inner: Inner)

  datatype Arg = Arg(id: nat, ty: Type)

  predicate SameBase(s: Inner, t: Inner) {
    s.Some? && t.Some? && s.value.base == t.value.base
  }

  // ---------- legal parameter lists ----------

  /** Fixed parameters come first, and neighbouring groups differ in the base of their element type. */
  predicate Legal(params: seq<Param>) {
    && (forall i, j | 0 <= i < j < |params| :: params[i].Variadic? ==> params[j].Variadic?)
    && forall i | 0 <= i < |params| - 1 && params[i].Variadic? && params[i + 1].Variadic? ::
         !SameBase(params[i].inner, params[i + 1].inner)
  }

  /** At parameter `i` the check reads a type through a null pointer. */
  predicate ReadsNull(params: seq<Param>, i: nat) {
    i + 1 < |params| && params[i].Variadic? && (params[i].inner.None? || params[i + 1].inner.None?)
  }

  /**
   The registration loop.  It compares the element type of a group with that of whatever comes
   next, so it is undefined exactly if a group is followed by a parameter without one; where
   it is defined, no error is reported exactly for legal lists.
   */
  method CheckParams(params: seq<Param>) returns (ok: Option<bool>)
    ensures ok.None? <==> exists i: nat :: ReadsNull(params, i)
    ensures ok.Some? ==> (ok.value <==> Legal(params))
  {
    var reported := false;
    var isIllegal := false;
    for i := 0 to |params|
      invariant forall j: nat | j < i :: !ReadsNull(params, j)
      invariant isIllegal <==> exists j :: 0 <= j < i && params[j].Variadic?
      invariant !reported ==> forall j, k | 0 <= j < k < i :: params[j].Variadic? ==> params[k].Variadic?
      invariant !reported ==> forall j | 0 <= j < i && j + 1 < |params| && params[j].Variadic? ::
                                !SameBase(params[j].inner, params[j + 1].inner)
      invariant reported ==> !Legal(params)
    {
      if params[i].Variadic? {
        if i + 1 < |params| {
          if params[i].inner.None? || params[i + 1].inner.None? {
            assert ReadsNull(params, i);
            return None;
          }
          if params[i].inner.value.base == params[i + 1].inner.value.base {
            reported := true;
          }
        }
        isIllegal := true;
      } else if isIllegal {
        reported := true;
      }
    }
    ok := Some(!reported);
  }

  // ---------- choosing groups ----------

  /** The test by which a group is chosen: the bases are equal. */
  predicate TypeMatches(expected: Inner, actual: Type) {
    expected.None? || expected.value.base == actual.base
  }

  /** The first group from `cur` on that takes the argument, or the last group. */
  function Choose(types: seq<Inner>, cur: nat, b: Type): (g: nat)
    requires cur < |types|
    ensures cur <= g < |types|
    ensures TypeMatches(types[g], b) || g == |types| - 1
    ensures forall k | cur <= k < g :: !TypeMatches(types[k], b)
    decreases |types| - cur
  {
    if TypeMatches(types[cur], b) || cur == |types| - 1 then cur else Choose(types, cur + 1, b)
  }

  /** The groups of the arguments, one after the other. */
  function Choices(types: seq<Inner>, cur: nat, args: seq<Arg>): (gs: seq<nat>)
    requires cur < |types|
    ensures |gs| == |args| && forall k | 0 <= k < |gs| :: cur <= gs[k] < |types|
    decreases |args|
  {
    if args == [] then []
    else
      var g := Choose(types, cur, args[0].ty);
      [g] + Choices(types, g, args[1..])
  }

  /** Puts each argument into its group, behind what is there. */
  function Distribute(types: seq<Inner>, cur: nat, groups: seq<seq<Arg>>, args: seq<Arg>): (r: seq<seq<Arg>>)
    requires cur < |types| == |groups|
    ensures |r| == |types|
    decreases |args|
  {
    if args == [] then groups
    else
      var g := Choose(types, cur, args[0].ty);
      Distribute(types, g, groups[g := groups[g] + [args[0]]], args[1..])
  }

  function Empty(n: nat): (r: seq<seq<Arg>>)
    ensures |r| == n && forall k | 0 <= k < n :: r[k] == []
  {
    seq(n, _ => [])
  }

  function Grouped(types: seq<Inner>, args: seq<Arg>): (r: seq<seq<Arg>>)
    requires types != []
    ensures |r| == |types|
  {
    Distribute(types, 0, Empty(|types|), args)
  }

  function Concat(groups: seq<seq<Arg>>): seq<Arg> {
    if groups == [] then [] else Concat(groups[..|groups| - 1]) + groups[|groups| - 1]
  }

  // ---------- nothing is lost or reordered ----------

  lemma {:induction false} ConcatAppend(groups: seq<seq<Arg>>, g: nat, a: Arg)
    requires g < |groups| && forall k | g < k < |groups| :: groups[k] == []
    ensures Concat(groups[g := groups[g] + [a]]) == Concat(groups) + [a]
    decreases |groups|
  {
    var n := |groups| - 1;
    var next := groups[g := groups[g] + [a]];
    if g == n {
      assert next[..n] == groups[..n];
      assert Concat(groups[..n]) + (groups[n] + [a]) == Concat(groups[..n]) + groups[n] + [a];
    } else {
      ConcatAppend(groups[..n], g, a);
      assert next[..n] == groups[..n][g := groups[g] + [a]];
    }
  }

  lemma {:induction false} ConcatEmpty(n: nat)
    ensures Concat(Empty(n)) == []
  {
    if n != 0 {
      ConcatEmpty(n - 1);
      assert Empty(n)[..n - 1] == Empty(n - 1);
    }
  }

  lemma {:induction false} DistributeConcat(types: seq<Inner>, cur: nat, groups: seq<seq<Arg>>, args: seq<Arg>)
    requires cur < |types| == |groups| && forall k | cur < k < |groups| :: groups[k] == []
    ensures Concat(Distribute(types, cur, groups, args)) == Concat(groups) + args
    decreases |args|
  {
    if args != [] {
      var g := Choose(types, cur, args[0].ty);
      ConcatAppend(groups, g, args[0]);
      DistributeConcat(types, g, groups[g := groups[g] + [args[0]]], args[1..]);
      assert Concat(groups) + [args[0]] + args[1..] == Concat(groups) + args;
    }
  }

  /** For any arguments the groups, one after the other, are the arguments in their order. */
  lemma {:induction false} GroupsConcatenate(types: seq<Inner>, args: seq<Arg>)
    requires types != []
    ensures Concat(Grouped(types, args)) == args
  {
    ConcatEmpty(|types|);
    DistributeConcat(types, 0, Empty(|types|), args);
  }

  // ---------- regrouping ----------

  predicate AdjacentDistinct(types: seq<Inner>) {
    forall i | 0 <= i < |types| - 1 :: !SameBase(types[i], types[i + 1])
  }

  predicate AllSome(types: seq<Inner>) {
    forall i | 0 <= i < |types| :: types[i].Some?
  }

  /** A split of arguments into non-empty groups, each of its group's element type. */
  predicate Conforming(types: seq<Inner>, groups: seq<seq<Arg>>) {
    && |groups| == |types|
    && forall i | 0 <= i < |groups| :: groups[i] != [] && OfType(types[i], groups[i])
  }

  predicate OfType(t: Inner, group: seq<Arg>) {
    forall k | 0 <= k < |group| :: TypeMatches(t, group[k].ty)
  }

  /** Arguments of the current group's type stay in it. */
  lemma {:induction false} DistributeWithin(types: seq<Inner>, cur: nat, groups: seq<seq<Arg>>, part: seq<Arg>,
          rest: seq<Arg>)
    requires cur < |types| == |groups| && OfType(types[cur], part)
    ensures Distribute(types, cur, groups, part + rest)
         == Distribute(types, cur, groups[cur := groups[cur] + part], rest)
    decreases |part|
  {
    if part == [] {
      assert part + rest == rest && groups[cur] + part == groups[cur];
      assert groups[cur := groups[cur]] == groups;
    } else {
      assert (part + rest)[0] == part[0] && (part + rest)[1..] == part[1..] + rest;
      var next := groups[cur := groups[cur] + [part[0]]];
      DistributeWithin(types, cur, next, part[1..], rest);
      assert next[cur := next[cur] + part[1..]] == groups[cur := groups[cur] + part] by {
        assert groups[cur] + [part[0]] + part[1..] == groups[cur] + part;
      }
    }
  }

  /** A whole group of the next type goes to the next group. */
  lemma {:induction false} DistributeNext(types: seq<Inner>, cur: nat, groups: seq<seq<Arg>>, part: seq<Arg>,
          rest: seq<Arg>)
    requires cur + 1 < |types| == |groups| && AllSome(types) && !SameBase(types[cur], types[cur + 1])
    requires part != [] && OfType(types[cur + 1], part)
    ensures Distribute(types, cur, groups, part + rest)
         == Distribute(types, cur + 1, groups[cur + 1 := groups[cur + 1] + part], rest)
  {
    assert (part + rest)[0] == part[0] && (part + rest)[1..] == part[1..] + rest;
    assert Choose(types, cur, part[0].ty) == cur + 1;
    var next := groups[cur + 1 := groups[cur + 1] + [part[0]]];
    DistributeWithin(types, cur + 1, next, part[1..], rest);
    assert next[cur + 1 := next[cur + 1] + part[1..]] == groups[cur + 1 := groups[cur + 1] + part] by {
      assert groups[cur + 1] + [part[0]] + part[1..] == groups[cur + 1] + part;
    }
  }

  function ConcatFrom(groups: seq<seq<Arg>>, k: nat): seq<Arg>
    requires k <= |groups|
    decreases |groups| - k
  {
    if k == |groups| then [] else groups[k] + ConcatFrom(groups, k + 1)
  }

  lemma {:induction false} ConcatSplits(groups: seq<seq<Arg>>, k: nat)
    requires k <= |groups|
    ensures Concat(groups) == Concat(groups[..k]) + ConcatFrom(groups, k)
    decreases |groups| - k
  {
    if k == |groups| {
      assert groups[..k] == groups;
    } else {
      ConcatSplits(groups, k + 1);
      assert groups[..k + 1][..k] == groups[..k];
      assert Concat(groups[..k + 1]) == Concat(groups[..k]) + groups[k];
    }
  }

  /** Groups before `k` are placed already. */
  function Placed(groups: seq<seq<Arg>>, k: nat): (r: seq<seq<Arg>>)
    requires k <= |groups|
    ensures |r| == |groups|
  {
    groups[..k] + Empty(|groups| - k)
  }

  lemma {:induction false} PlaceNext(groups: seq<seq<Arg>>, k: nat)
    requires k < |groups|
    ensures Placed(groups, k)[k] == []
    ensures Placed(groups, k)[k := Placed(groups, k)[k] + groups[k]] == Placed(groups, k + 1)
  {
    assert [] + groups[k] == groups[k];
    var a, b := Placed(groups, k)[k := groups[k]], Placed(groups, k + 1);
    assert forall j | 0 <= j < |groups| :: a[j] == b[j];
  }

  /** A group only ever grows. */
  lemma {:induction false} GroupsGrow(types: seq<Inner>, cur: nat, groups: seq<seq<Arg>>, args: seq<Arg>, k: nat)
    requires cur < |types| == |groups| && k < |types|
    ensures |groups[k]| <= |Distribute(types, cur, groups, args)[k]|
    decreases |args|
  {
    if args != [] {
      var g := Choose(types, cur, args[0].ty);
      GroupsGrow(types, g, groups[g := groups[g] + [args[0]]], args[1..], k);
    }
  }

  /** One argument for each group. */
  function Singles(types: seq<Inner>): (r: seq<seq<Arg>>)
    requires AllSome(types)
    ensures |r| == |types| && Conforming(types, r)
    ensures forall k | 0 <= k < |r| :: |r[k]| == 1
  {
    seq(|types|, k requires 0 <= k < |types| => [Arg(k, types[k].value)])
  }

  /** Two neighbouring groups of one type: the second one's argument joins the first. */
  lemma {:induction false} EqualNeighboursMerge(types: seq<Inner>, cur: nat, groups: seq<seq<Arg>>, part: seq<Arg>,
          more: seq<Arg>, rest: seq<Arg>)
    requires cur + 1 < |types| == |groups| && AllSome(types) && SameBase(types[cur], types[cur + 1])
    requires OfType(types[cur], part) && OfType(types[cur + 1], more) && |part| == |more| == 1
    ensures |Distribute(types, cur, groups, part + (more + rest))[cur]| >= 2
  {
    DistributeWithin(types, cur, groups, part, more + rest);
    var next := groups[cur := groups[cur] + part];
    DistributeWithin(types, cur, next, more, rest);
    GroupsGrow(types, cur, next[cur := next[cur] + more], rest, cur);
  }

  /** An untyped group keeps all arguments that reach it. */
  lemma {:induction false} UntypedTakesAll(types: seq<Inner>, args: seq<Arg>)
    requires types != [] && types[0].None?
    ensures Grouped(types, args) == [args] + Empty(|types| - 1)
  {
    DistributeWithin(types, 0, Empty(|types|), args, []);
    assert args + [] == args;
    var all := Empty(|types|)[0 := [] + args];
    assert all[0] == args && all == [args] + Empty(|types| - 1);
  }

  /** Until the first pair of equal neighbours the groups are recovered. */
  lemma {:induction false} RegroupUntil(types: seq<Inner>, groups: seq<seq<Arg>>, k: nat)
    requires AllSome(types) && Conforming(types, groups) && 1 <= k <= |groups|
    requires forall i | 0 <= i < k - 1 :: !SameBase(types[i], types[i + 1])
    ensures Grouped(types, Concat(groups)) == Distribute(types, k - 1, Placed(groups, k), ConcatFrom(groups, k))
  {
    if k == 1 {
      ConcatSplits(groups, 0);
      assert groups[..0] == [] && Concat(groups) == ConcatFrom(groups, 0);
      DistributeWithin(types, 0, Empty(|types|), groups[0], ConcatFrom(groups, 1));
      assert Placed(groups, 0) == Empty(|types|);
      PlaceNext(groups, 0);
    } else {
      RegroupUntil(types, groups, k - 1);
      DistributeNext(types, k - 2, Placed(groups, k - 1), groups[k - 1], ConcatFrom(groups, k));
      PlaceNext(groups, k - 1);
    }
  }

  /** Distributing the concatenation of conforming groups gives the groups back. */
  lemma {:induction false} Regroup(types: seq<Inner>, groups: seq<seq<Arg>>)
    requires types != [] && AllSome(types) && AdjacentDistinct(types) && Conforming(types, groups)
    ensures Grouped(types, Concat(groups)) == groups
  {
    RegroupUntil(types, groups, |groups|);
    assert Placed(groups, |groups|) == groups;
  }

  /** Every conforming split is recovered exactly if neighbouring groups differ in type. */
  lemma {:induction false} RegroupIff(types: seq<Inner>)
    requires types != [] && AllSome(types)
    ensures AdjacentDistinct(types)
      <==> (forall groups | Conforming(types, groups) :: Grouped(types, Concat(groups)) == groups)
  {
    if AdjacentDistinct(types) {
      forall groups | Conforming(types, groups)
        ensures Grouped(types, Concat(groups)) == groups
      {
        Regroup(types, groups);
      }
    } else {
      var j: nat :| j + 1 < |types| && SameBase(types[j], types[j + 1]);
      var i := FirstEqual(types, 0, j);
      NotRecovered(types, i);
    }
  }

  /** The first pair of equal neighbours, at most at `j`. */
  lemma {:induction false} FirstEqual(types: seq<Inner>, from: nat, j: nat) returns (i: nat)
    requires from <= j && j + 1 < |types| && SameBase(types[j], types[j + 1])
    requires forall k | 0 <= k < from :: !SameBase(types[k], types[k + 1])
    ensures i <= j && SameBase(types[i], types[i + 1])
    ensures forall k | 0 <= k < i :: !SameBase(types[k], types[k + 1])
    decreases j - from
  {
    if SameBase(types[from], types[from + 1]) {
      i := from;
    } else {
      i := FirstEqual(types, from + 1, j);
    }
  }

  lemma {:induction false} NotRecovered(types: seq<Inner>, i: nat)
    requires AllSome(types) && i + 1 < |types| && SameBase(types[i], types[i + 1])
    requires forall k | 0 <= k < i :: !SameBase(types[k], types[k + 1])
    ensures Conforming(types, Singles(types)) && Grouped(types, Concat(Singles(types))) != Singles(types)
  {
    var groups := Singles(types);
    if i == 0 {
      ConcatSplits(groups, 0);
      assert groups[..0] == [] && Concat(groups) == ConcatFrom(groups, 0);
      EqualNeighboursMerge(types, 0, Empty(|types|), groups[0], groups[1], ConcatFrom(groups, 2));
    } else {
      RegroupUntil(types, groups, i);
      var p := Placed(groups, i);
      var rest := ConcatFrom(groups, i + 1);
      DistributeNext(types, i - 1, p, groups[i], rest);
      var q := p[i := p[i] + groups[i]];
      DistributeWithin(types, i, q, groups[i + 1], ConcatFrom(groups, i + 2));
      GroupsGrow(types, i, q[i := q[i] + groups[i + 1]], ConcatFrom(groups, i + 2), i);
    }
  }
}
