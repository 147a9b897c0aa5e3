/** Calls of functions with variadic parameters: checking, lowering, and the parameters they meet. */
module Calls {
  import opened Wrappers
  import opened Varargs
  import A = Ast

  function FixedCount(params: seq<Param>): (n: nat)
    ensures n <= |params|
    ensures forall i | 0 <= i < n :: !params[i].Variadic?
    ensures n < |params| ==> params[n].Variadic?
  {
    if params == [] || params[0].Variadic? then 0
    else
      var n := FixedCount(params[1..]);
      assert forall i | 1 <= i < n + 1 :: params[i] == params[1..][i - 1];
      n + 1
  }

  /** The element types of the groups, in the order of declaration. */
  function InnerTypes(params: seq<Param>): seq<Inner> {
    if params == [] then []
    else if params[0].Variadic? then [params[0].inner] + InnerTypes(params[1..])
    else InnerTypes(params[1..])
  }

  // ---------- the members of a group ----------

  function Members(gs: seq<nat>, args: seq<Arg>, g: nat): seq<Arg>
    requires |gs| == |args|
  {
    if args == [] then []
    else (if gs[0] == g then [args[0]] else []) + Members(gs[1..], args[1..], g)
  }

  lemma {:induction false} DistributeByChoices(types: seq<Inner>, cur: nat, groups: seq<seq<Arg>>, args: seq<Arg>,
          g: nat)
    requires cur < |types| == |groups| && g < |types|
    ensures Distribute(types, cur, groups, args)[g] == groups[g] + Members(Choices(types, cur, args), args, g)
    decreases |args|
  {
    if args != [] {
      var c := Choose(types, cur, args[0].ty);
      var next := groups[c := groups[c] + [args[0]]];
      DistributeByChoices(types, c, next, args[1..], g);
      assert Choices(types, cur, args)[1..] == Choices(types, c, args[1..]);
      var rest := Members(Choices(types, c, args[1..]), args[1..], g);
      if c == g {
        assert groups[g] + [args[0]] + rest == groups[g] + ([args[0]] + rest);
      } else {
        assert [] + rest == rest;
      }
    }
  }

  lemma {:induction false} MemberAt(gs: seq<nat>, args: seq<Arg>, g: nat, k: nat)
    requires |gs| == |args| && k < |gs| && gs[k] == g
    ensures args[k] in Members(gs, args, g)
  {
    if k != 0 {
      MemberAt(gs[1..], args[1..], g, k - 1);
    }
  }

  lemma {:induction false} MemberFrom(gs: seq<nat>, args: seq<Arg>, g: nat, a: Arg) returns (k: nat)
    requires |gs| == |args| && a in Members(gs, args, g)
    ensures k < |gs| && gs[k] == g && args[k] == a
  {
    if gs[0] == g && args[0] == a {
      k := 0;
    } else {
      k := MemberFrom(gs[1..], args[1..], g, a);
      k := k + 1;
    }
  }

  // ---------- checking ----------

  /** The checker's equality of types, for which any two numeric types are equal. */
  predicate TypesAreEqual(s: Type, t: Type) {
    (s.base.Number? && t.base.Number?) || s == t
  }

  /** The test by which an argument is accepted in its group; an element type that is not known accepts anything. */
  predicate Suits(want: Inner, actual: Type) {
    want.None? || want.value.base.Unknown? || TypesAreEqual(actual, want.value)
  }

  /** Every argument suits its group, and if there are several groups none is left empty. */
  ghost predicate Accepted(types: seq<Inner>, args: seq<Arg>)
    requires types != []
  {
    var gs := Choices(types, 0, args);
    && (forall k | 0 <= k < |args| :: Suits(types[gs[k]], args[k].ty))
    && (|types| > 1 ==> forall g | 0 <= g < |types| :: g in gs)
  }

  /** Argument `k` has no group of its base and falls to the last one. */
  predicate Strays(types: seq<Inner>, args: seq<Arg>, k: nat)
    requires types != [] && k < |args|
  {
    !TypeMatches(types[Choices(types, 0, args)[k]], args[k].ty)
  }

  ghost predicate NoStray(types: seq<Inner>, args: seq<Arg>)
    requires types != []
  {
    forall k: nat | k < |args| :: !Strays(types, args, k)
  }

  lemma {:induction false} ChoicesPrefix(types: seq<Inner>, cur: nat, args: seq<Arg>, i: nat)
    requires cur < |types| && i < |args|
    ensures var gs := Choices(types, cur, args);
      gs[i] == Choose(types, if i == 0 then cur else gs[i - 1], args[i].ty)
    decreases i
  {
    if i != 0 {
      ChoicesPrefix(types, Choose(types, cur, args[0].ty), args[1..], i - 1);
    }
  }

  /** The search for a group: the first that matches from `cur` on, else the last. */
  method FindGroup(types: seq<Inner>, cur: nat, b: Type) returns (g: nat)
    requires cur < |types|
    ensures g == Choose(types, cur, b)
  {
    g := cur;
    while g < |types| && !TypeMatches(types[g], b)
      invariant cur <= g <= |types|
      invariant g < |types| ==> Choose(types, cur, b) == Choose(types, g, b)
      invariant g == |types| ==> Choose(types, cur, b) == |types| - 1
    {
      g := g + 1;
    }
    if g >= |types| {
      g := |types| - 1;
    }
  }

  /** The checker's loop over the arguments beyond the fixed ones. */
  method CheckVarargs(types: seq<Inner>, args: seq<Arg>) returns (ok: bool, chosen: seq<nat>)
    requires types != []
    ensures ok <==> Accepted(types, args)
    ensures ok ==> chosen == Choices(types, 0, args)
  {
    ghost var gs := Choices(types, 0, args);
    var currentGroup := 0;
    var groupHasArg := seq(|types|, _ => false);
    chosen := [];
    for i := 0 to |args|
      invariant chosen == gs[..i] && currentGroup == (if i == 0 then 0 else gs[i - 1]) && |groupHasArg| == |types|
      invariant forall k | 0 <= k < i :: Suits(types[gs[k]], args[k].ty)
      invariant forall g | 0 <= g < |types| :: groupHasArg[g] <==> g in chosen
    {
      ChoicesPrefix(types, 0, args, i);
      var at := args[i].ty;
      var g := FindGroup(types, currentGroup, at);
      var want := types[g];
      assert g == gs[i] && gs[..i + 1] == gs[..i] + [g];
      if want.Some? && !want.value.base.Unknown? && !TypesAreEqual(at, want.value) {
        return false, chosen;
      }
      groupHasArg := groupHasArg[g := true];
      currentGroup := g;
      chosen := chosen + [g];
    }
    assert gs[..|args|] == gs;
    ok := true;
    if |types| > 1 {
      ok := AllSet(groupHasArg);
    }
  }

  method AllSet(flags: seq<bool>) returns (ok: bool)
    ensures ok <==> forall g | 0 <= g < |flags| :: flags[g]
  {
    ok := true;
    for i := 0 to |flags|
      invariant ok <==> forall g | 0 <= g < i :: flags[g]
    {
      if !flags[i] {
        ok := false;
      }
    }
  }

  /** Only a numeric argument is accepted among numbers of another base, or anything where nothing is known. */
  lemma {:induction false} StrayIsNumeric(types: seq<Inner>, args: seq<Arg>, k: nat)
    requires types != [] && Accepted(types, args) && k < |args| && Strays(types, args, k)
    ensures Choices(types, 0, args)[k] == |types| - 1
    ensures var last := types[|types| - 1];
      last.Some? && (last.value.base.Unknown? || (last.value.base.Number? && args[k].ty.base.Number?))
  {
    ChoicesPrefix(types, 0, args, k);
  }

  /**
   What a single group accepts: an untyped one and one of unknown type anything, one of numbers
   any numbers, and one of another type that very type.
   */
  lemma {:induction false} SingleGroupAccepts(want: Inner, args: seq<Arg>)
    ensures want.None? ==> Accepted([want], args)
    ensures want.Some? ==>
      match want.value.base
      case Unknown => Accepted([want], args)
      case Number(_) => Accepted([want], args) <==> forall k | 0 <= k < |args| :: args[k].ty.base.Number?
      case Other(_) => Accepted([want], args) <==> forall k | 0 <= k < |args| :: args[k].ty == want.value
  {
    var gs := Choices([want], 0, args);
    assert forall k | 0 <= k < |args| :: gs[k] == 0;
    assert Accepted([want], args) <==> forall k | 0 <= k < |args| :: Suits(want, args[k].ty);
  }

  /** All groups hold arguments of their element type's base. */
  ghost predicate AllOfType(types: seq<Inner>, groups: seq<seq<Arg>>)
    requires |types| == |groups|
  {
    forall g | 0 <= g < |types| :: OfType(types[g], groups[g])
  }

  /** The groups that the lowering packs are of their types exactly if no argument strays. */
  lemma {:induction false} GroupedOfTypeIff(types: seq<Inner>, args: seq<Arg>)
    requires types != []
    ensures AllOfType(types, Grouped(types, args)) <==> NoStray(types, args)
  {
    var gs, groups := Choices(types, 0, args), Grouped(types, args);
    forall g | 0 <= g < |types|
      ensures groups[g] == Members(gs, args, g)
    {
      DistributeByChoices(types, 0, Empty(|types|), args, g);
    }
    forall k: nat | k < |args| && AllOfType(types, groups)
      ensures !Strays(types, args, k)
    {
      MemberAt(gs, args, gs[k], k);
      assert OfType(types[gs[k]], groups[gs[k]]);
    }
    forall g, j | NoStray(types, args) && 0 <= g < |types| && 0 <= j < |groups[g]|
      ensures TypeMatches(types[g], groups[g][j].ty)
    {
      var k := MemberFrom(gs, args, g, groups[g][j]);
      assert !Strays(types, args, k);
    }
  }

  lemma {:induction false} GroupsHit(types: seq<Inner>, args: seq<Arg>, g: nat)
    requires g < |types|
    ensures g in Choices(types, 0, args) <==> Grouped(types, args)[g] != []
  {
    var gs := Choices(types, 0, args);
    DistributeByChoices(types, 0, Empty(|types|), args, g);
    var members := Members(gs, args, g);
    assert Grouped(types, args)[g] == members;
    if g in gs {
      var k :| 0 <= k < |gs| && gs[k] == g;
      MemberAt(gs, args, g, k);
    }
    if members != [] {
      var k := MemberFrom(gs, args, g, members[0]);
    }
  }

  /**
   An accepted call packs groups that conform to the declared types exactly if no numeric
   argument of another base falls to the last group.
   */
  lemma {:induction false} AcceptedConformsIff(types: seq<Inner>, args: seq<Arg>)
    requires |types| > 1 && Accepted(types, args)
    ensures Conforming(types, Grouped(types, args)) <==> NoStray(types, args)
  {
    GroupedOfTypeIff(types, args);
    forall g | 0 <= g < |types|
      ensures Grouped(types, args)[g] != []
    {
      GroupsHit(types, args, g);
    }
  }

  /** A split of arguments in which each also has its group's type in the checker's eyes. */
  ghost predicate Typed(types: seq<Inner>, groups: seq<seq<Arg>>) {
    && Conforming(types, groups)
    && forall g, k | 0 <= g < |groups| && 0 <= k < |groups[g]| :: Suits(types[g], groups[g][k].ty)
  }

  lemma {:induction false} AcceptedIffTyped(types: seq<Inner>, args: seq<Arg>)
    requires |types| > 1
    ensures Accepted(types, args) && NoStray(types, args) <==> Typed(types, Grouped(types, args))
  {
    var gs, groups := Choices(types, 0, args), Grouped(types, args);
    GroupedOfTypeIff(types, args);
    forall g | 0 <= g < |types|
      ensures groups[g] == Members(gs, args, g) && (g in gs <==> groups[g] != [])
    {
      DistributeByChoices(types, 0, Empty(|types|), args, g);
      GroupsHit(types, args, g);
    }
    forall k | 0 <= k < |args| && Typed(types, groups)
      ensures Suits(types[gs[k]], args[k].ty)
    {
      MemberAt(gs, args, gs[k], k);
    }
    forall g, j | Accepted(types, args) && 0 <= g < |groups| && 0 <= j < |groups[g]|
      ensures Suits(types[g], groups[g][j].ty)
    {
      var k := MemberFrom(gs, args, g, groups[g][j]);
    }
  }

  /**
   With several groups of different neighbouring types, the argument lists that are accepted
   without a stray are exactly those that can be split into non-empty groups of the declared
   types; the lowering finds that split, which is the only one.
   */
  lemma {:induction false} AcceptedIffSplittable(types: seq<Inner>, args: seq<Arg>)
    requires |types| > 1 && AllSome(types) && AdjacentDistinct(types)
    ensures Accepted(types, args) && NoStray(types, args)
      <==> exists groups :: Typed(types, groups) && Concat(groups) == args
    ensures forall groups | Conforming(types, groups) && Concat(groups) == args :: groups == Grouped(types, args)
  {
    AcceptedIffTyped(types, args);
    GroupsConcatenate(types, args);
    forall groups | Conforming(types, groups) && Concat(groups) == args
      ensures groups == Grouped(types, args)
    {
      Regroup(types, groups);
    }
  }

  /** Two groups, and an argument for each. */
  lemma {:induction false} TwoChoices(types: seq<Inner>, a: Arg, b: Arg)
    requires |types| == 2 && TypeMatches(types[0], a.ty) && !TypeMatches(types[0], b.ty)
    ensures Choices(types, 0, [a, b]) == [0, 1] && Grouped(types, [a, b]) == [[a], [b]]
  {
    assert [a, b][1..] == [b] && [b][1..] == [];
    assert Choose(types, 0, a.ty) == 0 && Choose(types, 0, b.ty) == 1;
    assert Choices(types, 0, [b]) == [1] + Choices(types, 1, []) == [1];
    assert Choices(types, 0, [a, b]) == [0] + [1];
    var one := Empty(2)[0 := Empty(2)[0] + [a]];
    var two := one[1 := one[1] + [b]];
    assert one[0] == [a] && two[0] == [a] && two[1] == [b];
    assert two == [[a], [b]];
    assert Distribute(types, 0, one, [b]) == Distribute(types, 1, two, []) == two;
  }

  /**
   `fn f(T ...s, N ...xs)` called with a `T` and a number of another numeric type than `N`: the
   call is accepted, but its arguments have no split of the declared types; the stray number is
   packed among numbers of type `N`.
   */
  lemma {:induction false} StrayAccepted(t: Type, m: nat, n: nat)
    requires !t.base.Number? && m != n
    ensures var types := [Some(t), Some(Type(Number(n), 0))]; var args := [Arg(0, t), Arg(1, Type(Number(m), 0))];
      && Accepted(types, args) && Strays(types, args, 1) && Grouped(types, args) == [[args[0]], [args[1]]]
      && forall groups | Concat(groups) == args :: !Conforming(types, groups)
  {
    var types, args := [Some(t), Some(Type(Number(n), 0))], [Arg(0, t), Arg(1, Type(Number(m), 0))];
    TwoChoices(types, args[0], args[1]);
    assert Strays(types, args, 1);
    assert Choices(types, 0, args)[0] == 0 && Choices(types, 0, args)[1] == 1;
    assert !OfType(types[1], [args[1]]) by {
      assert !TypeMatches(types[1], [args[1]][0].ty);
    }
    forall groups | Concat(groups) == args
      ensures !Conforming(types, groups)
    {
      if Conforming(types, groups) {
        Regroup(types, groups);
      }
    }
  }

  /** The same with a single group. */
  lemma {:induction false} LoneStrayAccepted(m: nat, n: nat)
    requires m != n
    ensures var types := [Some(Type(Number(n), 0))]; var args := [Arg(0, Type(Number(m), 0))];
      Accepted(types, args) && Strays(types, args, 0) && !OfType(types[0], Grouped(types, args)[0])
  {
    var types, args := [Some(Type(Number(n), 0))], [Arg(0, Type(Number(m), 0))];
    assert args[1..] == [] && Choices(types, 0, args) == [0];
    assert Strays(types, args, 0);
    GroupedOfTypeIff(types, args);
  }

  // ---------- lowering ----------

  datatype CallArg = Plain(arg: Arg) | PackedList(elements: seq<Arg>, inner: Inner, size: nat) | Count(n: nat)

  /** A list and its length for each group. */
  function Pairs(types: seq<Inner>, groups: seq<seq<Arg>>): (r: seq<CallArg>)
    requires |types| == |groups|
    ensures |r| == 2 * |types|
  {
    if groups == [] then []
    else
      var n := |groups| - 1;
      Pairs(types[..n], groups[..n]) + [PackedList(groups[n], types[n], |groups[n]|), Count(|groups[n]|)]
  }

  function Plains(args: seq<Arg>): (r: seq<CallArg>)
    ensures |r| == |args| && forall k | 0 <= k < |r| :: r[k] == Plain(args[k])
  {
    seq(|args|, k requires 0 <= k < |args| => Plain(args[k]))
  }

  /** What a call passes: the fixed arguments, then a pair for each group. */
  function Emitted(params: seq<Param>, args: seq<Arg>): seq<CallArg>
    requires FixedCount(params) < |params| && FixedCount(params) <= |args| && InnerTypes(params) != []
  {
    var n := FixedCount(params);
    Plains(args[..n]) + Pairs(InnerTypes(params), Grouped(InnerTypes(params), args[n..]))
  }

  lemma {:induction false} GroupExists(params: seq<Param>)
    ensures FixedCount(params) < |params| ==> InnerTypes(params) != []
  {
    if params != [] && params[0].Fixed? {
      GroupExists(params[1..]);
    }
  }

  /** The arguments before those that a variadic builtin with `builtin` fixed parameters packs. */
  function Unpacked(builtin: Option<nat>, args: seq<Arg>): (k: nat)
    ensures k <= |args|
  {
    if builtin.Some? && builtin.value < |args| then builtin.value else |args|
  }

  function Min(a: nat, b: nat): nat {
    if a < b then a else b
  }

  /**
   What a call passes if the callee's name may be that of a user function, with parameters
   `params`, and that of a variadic builtin.
   */
  function EmittedBy(params: seq<Param>, builtin: Option<nat>, args: seq<Arg>): seq<CallArg> {
    var n, k := FixedCount(params), Unpacked(builtin, args);
    if n < |params| then
      GroupExists(params);
      Plains(args[..Min(n, k)]) + Pairs(InnerTypes(params), Grouped(InnerTypes(params), args[Min(n, k)..k]))
    else Plains(args[..k]) + if k < |args| then [PackedList(args[k..], None, |args| - k)] else []
  }

  /** Where the arguments seen so far have gone. */
  datatype Placing = Placing(group: nat, groups: seq<seq<Arg>>, packed: seq<Arg>, call: seq<CallArg>)

  /** One argument: a variadic builtin's is packed, another variadic one goes to its group, a fixed one to the call. */
  function Place(types: seq<Inner>, n: nat, builtin: Option<nat>, p: Placing, arg: Arg, argIndex: nat): (q: Placing)
    requires |p.groups| == |types| && (types != [] ==> p.group < |types|)
    ensures |q.groups| == |types| && (types != [] ==> q.group < |types|)
  {
    if builtin.Some? && argIndex >= builtin.value then p.(packed := p.packed + [arg])
    else if types != [] && argIndex >= n then
      var g := Choose(types, p.group, arg.ty);
      p.(group := g, groups := p.groups[g := p.groups[g] + [arg]])
    else p.(call := p.call + [Plain(arg)])
  }

  /** The number of arguments that go to the call one by one. */
  function Singly(types: seq<Inner>, n: nat, builtin: Option<nat>, args: seq<Arg>): (f: nat)
    ensures f <= Unpacked(builtin, args)
  {
    if types != [] then Min(n, Unpacked(builtin, args)) else Unpacked(builtin, args)
  }

  /** The first `j` arguments are placed; the groups still have to take those before the packed ones. */
  ghost predicate PlacedUpTo(types: seq<Inner>, n: nat, builtin: Option<nat>, args: seq<Arg>, p: Placing, j: nat)
    requires j <= |args|
  {
    var k, f := Unpacked(builtin, args), Singly(types, n, builtin, args);
    && |p.groups| == |types| && (types != [] ==> p.group < |types|)
    && p.call == Plains(args[..Min(j, f)])
    && p.packed == args[Min(j, k)..j]
    && (j <= f ==> p.groups == Empty(|types|) && p.group == 0)
    && (types != [] && f <= j ==>
          Distribute(types, p.group, p.groups, args[Min(j, k)..k]) == Grouped(types, args[f..k]))
  }

  lemma {:induction false} SliceGrows(args: seq<Arg>, k: nat, j: nat)
    requires k <= j < |args|
    ensures args[k..j] + [args[j]] == args[k..j + 1]
  {
  }

  lemma {:induction false} SliceShrinks(args: seq<Arg>, j: nat, k: nat)
    requires j < k <= |args|
    ensures args[j..k][0] == args[j] && args[j..k][1..] == args[j + 1..k]
  {
  }

  lemma {:induction false} PlacedNext(types: seq<Inner>, n: nat, builtin: Option<nat>, args: seq<Arg>, p: Placing,
          q: Placing, j: nat)
    requires j < |args| && PlacedUpTo(types, n, builtin, args, p, j) && q == Place(types, n, builtin, p, args[j], j)
    ensures PlacedUpTo(types, n, builtin, args, q, j + 1)
  {
    var k, f := Unpacked(builtin, args), Singly(types, n, builtin, args);
    if j >= k {
      SliceGrows(args, k, j);
    } else if j >= f {
      SliceShrinks(args, j, k);
    } else {
      assert Plains(args[..j]) + [Plain(args[j])] == Plains(args[..j + 1]);
    }
  }

  /** Where the first `j` arguments go. */
  function PlaceFirst(types: seq<Inner>, n: nat, builtin: Option<nat>, args: seq<Arg>, j: nat): (p: Placing)
    requires j <= |args|
    ensures |p.groups| == |types| && (types != [] ==> p.group < |types|)
  {
    if j == 0 then Placing(0, Empty(|types|), [], [])
    else Place(types, n, builtin, PlaceFirst(types, n, builtin, args, j - 1), args[j - 1], j - 1)
  }

  lemma {:induction false} NothingPlaced(types: seq<Inner>, n: nat, builtin: Option<nat>, args: seq<Arg>)
    ensures PlacedUpTo(types, n, builtin, args, Placing(0, Empty(|types|), [], []), 0)
  {
    assert args[..0] == [] && args[0..0] == [];
  }

  lemma {:induction false} PlaceFirstPlaces(types: seq<Inner>, n: nat, builtin: Option<nat>, args: seq<Arg>, j: nat)
    requires j <= |args|
    ensures PlacedUpTo(types, n, builtin, args, PlaceFirst(types, n, builtin, args, j), j)
  {
    if j == 0 {
      NothingPlaced(types, n, builtin, args);
    } else {
      var p := PlaceFirst(types, n, builtin, args, j - 1);
      PlaceFirstPlaces(types, n, builtin, args, j - 1);
      PlacedNext(types, n, builtin, args, p, PlaceFirst(types, n, builtin, args, j), j - 1);
    }
  }

  class CallLowering {
    const types: seq<Inner>
    const fixedUserParamCount: nat
    const firstInner: Inner
    const builtin: Option<nat>
    var currentVariadicGroup: nat
    var varargGroups: seq<seq<Arg>>
    var packedVarargs: seq<Arg>
    var callArgs: seq<CallArg>

    ghost predicate Valid()
      reads this
    {
      |varargGroups| == |types| && (types != [] ==> currentVariadicGroup < |types|)
    }

    function Placed(): Placing
      reads this
    {
      Placing(currentVariadicGroup, varargGroups, packedVarargs, callArgs)
    }

    constructor (types: seq<Inner>, fixedUserParamCount: nat, firstInner: Inner, builtin: Option<nat>)
      ensures Valid() && this.types == types && this.fixedUserParamCount == fixedUserParamCount
      ensures this.firstInner == firstInner && this.builtin == builtin
      ensures Placed() == Placing(0, Empty(|types|), [], [])
    {
      this.types := types;
      this.fixedUserParamCount := fixedUserParamCount;
      this.firstInner := firstInner;
      this.builtin := builtin;
      currentVariadicGroup := 0;
      varargGroups := seq(|types|, _ => []);
      packedVarargs := [];
      callArgs := [];
      new;
      assert varargGroups == Empty(|types|);
    }

    method DistributeLoweredArg(arg: Arg, argIndex: nat)
      requires Valid()
      modifies this
      ensures Valid()
      ensures Placed() == Place(types, fixedUserParamCount, builtin, old(Placed()), arg, argIndex)
    {
      if builtin.Some? && argIndex >= builtin.value {
        packedVarargs := packedVarargs + [arg];
        return;
      }
      if types != [] && argIndex >= fixedUserParamCount {
        var g := FindGroup(types, currentVariadicGroup, arg.ty);
        varargGroups := varargGroups[g := varargGroups[g] + [arg]];
        currentVariadicGroup := g;
        return;
      }
      callArgs := callArgs + [Plain(arg)];
    }

    /** The loop over the arguments of the call. */
    method DistributeAll(args: seq<Arg>)
      requires Valid() && Placed() == Placing(0, Empty(|types|), [], [])
      modifies this
      ensures Valid() && Placed() == PlaceFirst(types, fixedUserParamCount, builtin, args, |args|)
    {
      for argIndex := 0 to |args|
        invariant Valid() && Placed() == PlaceFirst(types, fixedUserParamCount, builtin, args, argIndex)
      {
        DistributeLoweredArg(args[argIndex], argIndex);
      }
    }

    /** Appends the pairs of all groups; without groups, what was packed and its length. */
    method EmitVarargsToCall()
      requires Valid()
      modifies this`callArgs
      ensures callArgs == old(callArgs)
        + if types != [] then Pairs(types, varargGroups)
          else if packedVarargs != []
          then [PackedList(packedVarargs, firstInner, |packedVarargs|), Count(|packedVarargs|)] else []
    {
      if varargGroups != [] {
        for i := 0 to |varargGroups|
          invariant callArgs == old(callArgs) + Pairs(types[..i], varargGroups[..i])
        {
          assert types[..i + 1][..i] == types[..i] && varargGroups[..i + 1][..i] == varargGroups[..i];
          callArgs := callArgs + [PackedList(varargGroups[i], types[i], |varargGroups[i]|)];
          callArgs := callArgs + [Count(|varargGroups[i]|)];
        }
        assert types[..|types|] == types && varargGroups[..|types|] == varargGroups;
        return;
      }
      if packedVarargs != [] {
        callArgs := callArgs + [PackedList(packedVarargs, firstInner, |packedVarargs|)];
        callArgs := callArgs + [Count(|packedVarargs|)];
      }
    }
  }

  /** What was placed, as the call passes it. */
  lemma {:induction false} PlacedIsEmitted(params: seq<Param>, builtin: Option<nat>, args: seq<Arg>, p: Placing)
    requires var types := if FixedCount(params) < |params| then InnerTypes(params) else [];
      PlacedUpTo(types, FixedCount(params), builtin, args, p, |args|)
    ensures FixedCount(params) < |params| ==>
      && |InnerTypes(params)| == |p.groups|
      && EmittedBy(params, builtin, args) == p.call + Pairs(InnerTypes(params), p.groups)
    ensures FixedCount(params) == |params| ==>
      EmittedBy(params, builtin, args)
      == p.call + if p.packed != [] then [PackedList(p.packed, None, |p.packed|)] else []
  {
    var k := Unpacked(builtin, args);
    GroupExists(params);
    assert args[k..k] == [];
    assert args[k..|args|] == args[k..];
  }

  method EmitCall(params: seq<Param>, builtin: Option<nat>, args: seq<Arg>) returns (call: seq<CallArg>)
    ensures call == EmittedBy(params, builtin, args)
  {
    var n := FixedCount(params);
    var hasVariadicUserParam := n < |params|;
    var types := if hasVariadicUserParam then InnerTypes(params) else [];
    GroupExists(params);
    var lowering := new CallLowering(types, n, if hasVariadicUserParam then params[n].inner else None, builtin);
    lowering.DistributeAll(args);
    PlaceFirstPlaces(types, n, builtin, args, |args|);
    PlacedIsEmitted(params, builtin, args, lowering.Placed());
    if hasVariadicUserParam {
      lowering.EmitVarargsToCall();
    } else if builtin.Some? && lowering.packedVarargs != [] {
      lowering.callArgs := lowering.callArgs
        + [PackedList(lowering.packedVarargs, None, |lowering.packedVarargs|)];
    }
    call := lowering.callArgs;
  }

  /** The arguments found in a call, in order. */
  function Passed(call: seq<CallArg>): seq<Arg> {
    if call == [] then []
    else
      var c := call[|call| - 1];
      Passed(call[..|call| - 1])
      + if c.Plain? then [c.arg] else if c.PackedList? then c.elements else []
  }

  lemma {:induction false} PassedConcat(a: seq<CallArg>, b: seq<CallArg>)
    ensures Passed(a + b) == Passed(a) + Passed(b)
    decreases |b|
  {
    if b == [] {
      assert a + b == a;
    } else {
      assert (a + b)[..|a + b| - 1] == a + b[..|b| - 1];
      PassedConcat(a, b[..|b| - 1]);
    }
  }

  lemma {:induction false} PassedPlains(args: seq<Arg>)
    ensures Passed(Plains(args)) == args
  {
    if args != [] {
      var n := |args| - 1;
      PassedPlains(args[..n]);
      assert Plains(args)[..n] == Plains(args[..n]);
    }
  }

  lemma {:induction false} PassedPairs(types: seq<Inner>, groups: seq<seq<Arg>>)
    requires |types| == |groups|
    ensures Passed(Pairs(types, groups)) == Concat(groups)
  {
    if groups != [] {
      var n := |groups| - 1;
      PassedPairs(types[..n], groups[..n]);
      var front, list := Pairs(types[..n], groups[..n]), [PackedList(groups[n], types[n], |groups[n]|)];
      assert Pairs(types, groups)[..2 * n + 1] == front + list;
      PassedConcat(front, list);
      assert list[..0] == [];
    }
  }

  lemma {:induction false} GroupsPass(params: seq<Param>, builtin: Option<nat>, args: seq<Arg>)
    requires FixedCount(params) < |params|
    ensures Passed(EmittedBy(params, builtin, args)) == args[..Unpacked(builtin, args)]
  {
    var k, types := Unpacked(builtin, args), InnerTypes(params);
    var f := Min(FixedCount(params), k);
    GroupExists(params);
    PassedPlains(args[..f]);
    GroupsConcatenate(types, args[f..k]);
    PassedPairs(types, Grouped(types, args[f..k]));
    PassedConcat(Plains(args[..f]), Pairs(types, Grouped(types, args[f..k])));
    assert args[..f] + args[f..k] == args[..k];
  }

  lemma {:induction false} PassedList(elements: seq<Arg>, n: nat)
    ensures Passed([PackedList(elements, None, n)]) == elements
  {
    var call := [PackedList(elements, None, n)];
    assert call[..0] == [] && [] + elements == elements;
  }

  lemma {:induction false} PackedPass(params: seq<Param>, builtin: Option<nat>, args: seq<Arg>)
    requires FixedCount(params) == |params|
    ensures Passed(EmittedBy(params, builtin, args)) == args
  {
    var k := Unpacked(builtin, args);
    var front, back := args[..k], args[k..];
    assert front + back == args;
    PassedPlains(front);
    if k < |args| {
      PassedList(back, |args| - k);
      PassedConcat(Plains(front), [PackedList(back, None, |args| - k)]);
      assert EmittedBy(params, builtin, args) == Plains(front) + [PackedList(back, None, |args| - k)];
    } else {
      assert front == args;
      assert EmittedBy(params, builtin, args) == Plains(front) + [] == Plains(front);
    }
  }

  /**
   Every argument is passed, and in its place, unless a user function with variadic parameters
   has the name of a variadic builtin: then the arguments that the builtin would pack are lost.
   */
  lemma {:induction false} NothingLostIff(params: seq<Param>, builtin: Option<nat>, args: seq<Arg>)
    ensures Passed(EmittedBy(params, builtin, args)) == args
      <==> FixedCount(params) == |params| || builtin.None? || |args| <= builtin.value
  {
    if FixedCount(params) < |params| {
      GroupsPass(params, builtin, args);
      assert |args[..Unpacked(builtin, args)]| == Unpacked(builtin, args);
      assert args[..|args|] == args;
    } else {
      PackedPass(params, builtin, args);
    }
  }

  /** Without variadic parameters arguments are passed one by one, except that a builtin's variadic ones form a list. */
  lemma {:induction false} BuiltinPacks(params: seq<Param>, builtin: Option<nat>, args: seq<Arg>)
    requires FixedCount(params) == |params|
    ensures var call := EmittedBy(params, builtin, args);
      if builtin.None? || |args| <= builtin.value
      then |call| == |args| && forall i | 0 <= i < |args| :: call[i] == Plain(args[i])
      else var k := builtin.value;
        && |call| == k + 1 && (forall i | 0 <= i < k :: call[i] == Plain(args[i]))
        && call[k] == PackedList(args[k..], None, |args| - k)
  {
  }

  /** A call of a user function whose name is no builtin's. */
  lemma {:induction false} EmittedPlainly(params: seq<Param>, args: seq<Arg>)
    requires FixedCount(params) < |params| && FixedCount(params) <= |args| && InnerTypes(params) != []
    ensures EmittedBy(params, None, args) == Emitted(params, args)
  {
    assert args[FixedCount(params)..|args|] == args[FixedCount(params)..];
  }

  // ---------- the callee's side ----------

  datatype Formal = Single(name: string, ty: Type) | List(name: string, inner: Inner) | Length(name: string)

  /** The parameters of the compiled function: every group takes a list and its length. */
  function Expand(params: seq<Param>): seq<Formal> {
    if params == [] then []
    else
      var n := |params| - 1;
      Expand(params[..n]) + ExpandOne(params[n])
  }

  function ExpandOne(p: Param): seq<Formal> {
    match p
    case Fixed(x, b, _) => [Single(x, b)]
    case Variadic(x, inner) => [List(x, inner), Length(x + A.COUNT_SUFFIX)]
  }

  lemma {:induction false} ExpandFront(params: seq<Param>)
    requires params != []
    ensures var m := |params| - 1; Expand(params) == Expand(params[..m]) + ExpandOne(params[m])
  {
  }

  lemma {:induction false} FixedCountFront(params: seq<Param>)
    requires params != []
    ensures var m := |params| - 1;
      FixedCount(params) == if FixedCount(params[..m]) == m && params[m].Fixed? then m + 1
                            else FixedCount(params[..m])
  {
    var m := |params| - 1;
    assert forall i | 0 <= i < m :: params[..m][i] == params[i];
  }

  lemma {:induction false} FrontLegal(params: seq<Param>)
    requires Legal(params) && |params| > 1
    ensures var m := |params| - 1;
      && Legal(params[..m])
      && FixedCount(params) == if params[m].Fixed? then m + 1 else FixedCount(params[..m])
  {
    var m := |params| - 1;
    var f := FixedCount(params[..m]);
    assert f < m ==> params[..m][f].Variadic? && params[..m][f] == params[f];
    FixedCountFront(params);
  }

  lemma {:induction false} ExpandLength(params: seq<Param>)
    requires Legal(params)
    ensures |Expand(params)| == FixedCount(params) + 2 * (|params| - FixedCount(params))
  {
    if params != [] {
      var m := |params| - 1;
      ExpandFront(params);
      FixedCountFront(params);
      if m > 0 {
        FrontLegal(params);
        ExpandLength(params[..m]);
      } else {
        assert params[..m] == [];
      }
    }
  }

  /** In a legal list the fixed parameters keep their places and names. */
  lemma {:induction false} ExpandFixed(params: seq<Param>, k: nat)
    requires Legal(params) && k < FixedCount(params)
    ensures k < |Expand(params)| && Expand(params)[k] == Single(params[k].name, params[k].ty)
  {
    var m := |params| - 1;
    ExpandFront(params);
    FixedCountFront(params);
    if m > 0 {
      FrontLegal(params);
      ExpandLength(params[..m]);
      if k < m {
        ExpandFixed(params[..m], k);
      }
    } else {
      assert params[..m] == [];
    }
  }

  /** Each group becomes a list of its name and the companion that holds its length. */
  lemma {:induction false} ExpandVariadic(params: seq<Param>, k: nat)
    requires Legal(params) && FixedCount(params) <= k < |params|
    ensures var i := FixedCount(params) + 2 * (k - FixedCount(params));
      && i + 1 < |Expand(params)| && params[k].Variadic?
      && Expand(params)[i] == List(params[k].name, params[k].inner)
      && Expand(params)[i + 1] == Length(params[k].name + A.COUNT_SUFFIX)
  {
    var m := |params| - 1;
    ExpandFront(params);
    FixedCountFront(params);
    if m > 0 {
      FrontLegal(params);
      ExpandLength(params[..m]);
      if k < m {
        ExpandVariadic(params[..m], k);
      }
    } else {
      assert params[..m] == [];
    }
  }

  method ExpandParams(params: seq<Param>) returns (formals: seq<Formal>)
    ensures formals == Expand(params)
  {
    formals := [];
    for i := 0 to |params|
      invariant formals == Expand(params[..i])
    {
      assert params[..i + 1][..i] == params[..i];
      match params[i] {
        case Fixed(x, b, _) => formals := formals + [Single(x, b)];
        case Variadic(x, inner) =>
          formals := formals + [List(x, inner)];
          formals := formals + [Length(x + A.COUNT_SUFFIX)];
          assert formals == Expand(params[..i]) + ExpandOne(params[i]);
      }
    }
    assert params[..|params|] == params;
  }

  /** Position `k` of the call suits position `k` of the callee; a length belongs to the list before it. */
  predicate Meets(formals: seq<Formal>, call: seq<CallArg>, k: nat)
    requires k < |formals| == |call|
  {
    match formals[k]
    case Single(_, _) => call[k].Plain?
    case List(_, inner) => call[k].PackedList? && call[k].inner == inner && call[k].size == |call[k].elements|
    case Length(x) =>
      && 0 < k && formals[k - 1].List? && x == formals[k - 1].name + A.COUNT_SUFFIX
      && call[k].Count? && call[k - 1].PackedList? && call[k].n == |call[k - 1].elements|
  }

  predicate MeetsAll(formals: seq<Formal>, call: seq<CallArg>) {
    |formals| == |call| && forall k | 0 <= k < |formals| :: Meets(formals, call, k)
  }

  lemma {:induction false} MeetsConcat(f1: seq<Formal>, c1: seq<CallArg>, f2: seq<Formal>, c2: seq<CallArg>)
    requires MeetsAll(f1, c1) && MeetsAll(f2, c2)
    ensures MeetsAll(f1 + f2, c1 + c2)
  {
    var f, c := f1 + f2, c1 + c2;
    forall k | 0 <= k < |f|
      ensures Meets(f, c, k)
    {
      if k < |f1| {
        assert Meets(f1, c1, k);
      } else {
        assert Meets(f2, c2, k - |f1|);
      }
    }
  }

  lemma {:induction false} FixedMeet(params: seq<Param>, args: seq<Arg>)
    requires |params| == |args| && forall i | 0 <= i < |params| :: params[i].Fixed?
    ensures MeetsAll(Expand(params), Plains(args))
  {
    if params != [] {
      var n := |params| - 1;
      FixedMeet(params[..n], args[..n]);
      assert Plains(args) == Plains(args[..n]) + Plains(args[n..]);
      MeetsConcat(Expand(params[..n]), Plains(args[..n]), ExpandOne(params[n]), Plains(args[n..]));
    }
  }

  lemma {:induction false} VariadicMeet(params: seq<Param>, groups: seq<seq<Arg>>)
    requires |params| == |groups| && forall i | 0 <= i < |params| :: params[i].Variadic?
    ensures |InnerTypes(params)| == |groups| && MeetsAll(Expand(params), Pairs(InnerTypes(params), groups))
  {
    VariadicTypes(params);
    if params != [] {
      var n := |params| - 1;
      VariadicMeet(params[..n], groups[..n]);
      VariadicTypes(params[..n]);
      var types := InnerTypes(params);
      assert types[..n] == InnerTypes(params[..n]);
      MeetsConcat(Expand(params[..n]), Pairs(types[..n], groups[..n]), ExpandOne(params[n]),
                  [PackedList(groups[n], types[n], |groups[n]|), Count(|groups[n]|)]);
    }
  }

  lemma {:induction false} VariadicTypes(params: seq<Param>)
    requires forall i | 0 <= i < |params| :: params[i].Variadic?
    ensures |InnerTypes(params)| == |params| && forall i | 0 <= i < |params| :: InnerTypes(params)[i] == params[i].inner
  {
    if params != [] {
      VariadicTypes(params[1..]);
    }
  }

  lemma {:induction false} SameBehind<T>(whole: seq<T>, front: seq<T>, a: seq<T>, b: seq<T>, rest: seq<T>, last: seq<T>)
    requires whole == front + last && front == a + b && rest == b + last
    ensures whole == a + rest
  {
  }

  lemma {:induction false} SlicesOfFront<T>(s: seq<T>, n: nat, m: nat)
    requires n <= m < |s|
    ensures s[..m][..n] == s[..n] && s[..m][n..] == s[n..][..m - n] && s[n..][m - n] == s[m]
  {
  }

  lemma {:induction false} ExpandSplit(params: seq<Param>, n: nat)
    requires n <= |params|
    ensures Expand(params) == Expand(params[..n]) + Expand(params[n..])
    decreases |params|
  {
    if n == |params| {
      assert params[..n] == params;
    } else {
      var m, rest := |params| - 1, params[n..];
      ExpandSplit(params[..m], n);
      SlicesOfFront(params, n, m);
      ExpandFront(params);
      ExpandFront(rest);
      SameBehind(Expand(params), Expand(params[..m]), Expand(params[..n]), Expand(rest[..m - n]), Expand(rest),
                 ExpandOne(params[m]));
    }
  }

  lemma {:induction false} TypesOfRest(params: seq<Param>)
    ensures InnerTypes(params) == InnerTypes(params[FixedCount(params)..])
  {
    if params != [] && params[0].Fixed? {
      TypesOfRest(params[1..]);
      assert params[1..][FixedCount(params[1..])..] == params[FixedCount(params)..];
    } else {
      assert params[0..] == params;
    }
  }

  /** The arguments of a call and the parameters of a legal variadic callee line up one by one. */
  lemma {:induction false} CallMeetsCallee(params: seq<Param>, args: seq<Arg>)
    requires Legal(params) && FixedCount(params) < |params| && FixedCount(params) <= |args|
    ensures InnerTypes(params) != [] && MeetsAll(Expand(params), Emitted(params, args))
  {
    var n := FixedCount(params);
    var rest := params[n..];
    TypesOfRest(params);
    VariadicTypes(rest);
    ExpandSplit(params, n);
    FixedMeet(params[..n], args[..n]);
    VariadicMeet(rest, Grouped(InnerTypes(params), args[n..]));
    MeetsConcat(Expand(params[..n]), Plains(args[..n]), Expand(rest),
                Pairs(InnerTypes(params), Grouped(InnerTypes(params), args[n..])));
  }

  /** Neighbouring groups of a legal parameter list differ. */
  lemma {:induction false} LegalDistinct(params: seq<Param>)
    requires Legal(params)
    ensures AdjacentDistinct(InnerTypes(params))
  {
    var rest := params[FixedCount(params)..];
    TypesOfRest(params);
    VariadicTypes(rest);
  }

  /** A split of a call's variadic arguments into groups of the declared types. */
  ghost predicate Splits(params: seq<Param>, args: seq<Arg>, groups: seq<seq<Arg>>)
    requires FixedCount(params) <= |args|
  {
    Typed(InnerTypes(params), groups) && args == args[..FixedCount(params)] + Concat(groups)
  }

  /** Every packed list holds elements of its type's base. */
  ghost predicate WellPacked(call: seq<CallArg>) {
    forall k | 0 <= k < |call| && call[k].PackedList? :: OfType(call[k].inner, call[k].elements)
  }

  lemma {:induction false} PairsAt(types: seq<Inner>, groups: seq<seq<Arg>>, g: nat)
    requires |types| == |groups| && g < |types|
    ensures Pairs(types, groups)[2 * g] == PackedList(groups[g], types[g], |groups[g]|)
    ensures Pairs(types, groups)[2 * g + 1] == Count(|groups[g]|)
  {
    var n := |groups| - 1;
    if g < n {
      PairsAt(types[..n], groups[..n], g);
    }
  }

  lemma {:induction false} PackedIff(args: seq<Arg>, types: seq<Inner>, groups: seq<seq<Arg>>)
    requires |types| == |groups|
    ensures WellPacked(Plains(args) + Pairs(types, groups)) <==> AllOfType(types, groups)
  {
    var call, n := Plains(args) + Pairs(types, groups), |args|;
    forall g | 0 <= g < |types|
      ensures call[n + 2 * g] == PackedList(groups[g], types[g], |groups[g]|) && call[n + (2 * g + 1)].Count?
    {
      PairsAt(types, groups, g);
    }
    forall g | WellPacked(call) && 0 <= g < |types|
      ensures OfType(types[g], groups[g])
    {
      assert call[n + 2 * g].PackedList?;
    }
    forall k | AllOfType(types, groups) && 0 <= k < |call| && call[k].PackedList?
      ensures OfType(call[k].inner, call[k].elements)
    {
      var g := (k - n) / 2;
      assert k == n + 2 * g || k == n + (2 * g + 1);
    }
  }

  lemma {:induction false} SplitRest(args: seq<Arg>, n: nat, rest: seq<Arg>)
    requires n <= |args|
    ensures args == args[..n] + rest <==> rest == args[n..]
  {
    if args == args[..n] + rest {
      assert (args[..n] + rest)[n..] == rest;
    }
    assert args == args[..n] + args[n..];
  }

  /** Which calls have a split, and that it is the one the lowering finds. */
  lemma {:induction false} SplitsIff(params: seq<Param>, args: seq<Arg>)
    requires Legal(params) && |InnerTypes(params)| > 1 && AllSome(InnerTypes(params)) && FixedCount(params) <= |args|
    ensures var types, rest := InnerTypes(params), args[FixedCount(params)..];
      && (Accepted(types, rest) && NoStray(types, rest) <==> exists groups :: Splits(params, args, groups))
      && forall groups | Splits(params, args, groups) :: groups == Grouped(types, rest)
  {
    var n, types := FixedCount(params), InnerTypes(params);
    LegalDistinct(params);
    AcceptedIffSplittable(types, args[n..]);
    forall groups
      ensures Splits(params, args, groups) <==> Typed(types, groups) && Concat(groups) == args[n..]
    {
      SplitRest(args, n, Concat(groups));
    }
  }

  /**
   Calls of a function with several typed groups, from the checker to the callee.  A call is
   accepted without a stray exactly if its arguments beyond the fixed ones can be split into
   non-empty groups of the declared types.  There is only one such split; the lowered call
   passes the fixed arguments and that split, a list and its length for each group.  Any call
   meets the callee's expanded parameters position by position, but the elements of its lists
   are of the lists' types exactly if there is no stray.
   */
  lemma {:induction false} CallCorrect(params: seq<Param>, args: seq<Arg>)
    requires Legal(params) && |InnerTypes(params)| > 1 && AllSome(InnerTypes(params))
    requires FixedCount(params) < |params| && FixedCount(params) <= |args|
    ensures var n, types, call := FixedCount(params), InnerTypes(params), EmittedBy(params, None, args);
      && (Accepted(types, args[n..]) && NoStray(types, args[n..]) <==> exists groups :: Splits(params, args, groups))
      && (forall groups | Splits(params, args, groups) :: call == Plains(args[..n]) + Pairs(types, groups))
      && MeetsAll(Expand(params), call)
      && (WellPacked(call) <==> NoStray(types, args[n..]))
  {
    var n, types := FixedCount(params), InnerTypes(params);
    SplitsIff(params, args);
    EmittedPlainly(params, args);
    CallMeetsCallee(params, args);
    PackedIff(args[..n], types, Grouped(types, args[n..]));
    GroupedOfTypeIff(types, args[n..]);
  }
}
