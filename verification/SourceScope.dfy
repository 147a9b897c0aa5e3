/** Scoping of the syntax tree: what the generator needs of the lowered program, stated of the source. */
module SourceScope {
  import opened Wrappers
  import opened Syntax
  import opened HirGen
  import C = Codegen
  import E = CodegenExprProof
  import G = CodegenProof
  import A = Ast
  import H = Hir

  /** The statement always leaves by a jump or a return. */
  predicate SourceEnds(n: A.Node) {
    match n
    case Seq(a, b) => SourceEnds(a) || SourceEnds(b)
    case Return(_) => true
    case Break => true
    case Continue => true
    case _ => false
  }

  /** The expression an assignment stores. */
  function StoredValue(t: Target, aop: A.AssignOp, e: Expr): Expr {
    match aop
    case Plain => e
    case Compound(op) => Binary(op, CloneTarget(t), e)
  }

  /**
   The names that have a slot after the statement, or None if a name is used before it has
   one, an operator is not supported, or a jump stands outside any loop.
   */
  function ScopeOf(n: A.Node, ps: set<string>, slots: set<string>, inLoop: bool): Option<set<string>>
    decreases n
  {
    match n
    case Null => Some(slots)
    case Seq(a, b) =>
      var x := ScopeOf(a, ps, slots, inLoop);
      if x.None? || SourceEnds(a) then x else ScopeOf(b, ps, x.value, inLoop)
    case Assign(t, aop, e, d) =>
      G.ScopeIf(E.AssignResolves(t, StoredValue(t, aop, e), C.DeclaredSlots(t, d, slots)), C.DeclaredSlots(t, d, slots))
    case If(c, thn, els) =>
      var x := ScopeOf(thn, ps, slots, inLoop);
      if !E.Resolves(c, slots) || x.None? then None else ScopeOf(els, ps, x.value, inLoop)
    case While(c, body, step) =>
      var x := ScopeOf(body, ps, slots, true);
      if !E.Resolves(c, slots) || x.None? || !(step.Null? || step.Assign?) then None else ScopeOf(step, ps, x.value,
              true)
    case ForRange(i, start, end, stride, _, body) =>
      var s := slots + {i};
      if E.Resolves(start, s) && E.Resolves(end, s) && E.Resolves(A.StrideOf(start, end, stride), s)
      then ScopeOf(body, ps, s, true) else None
    case ForList(i, iterable, _, _, body) =>
      var s := slots + {i};
      if E.Resolves(iterable, s) && (A.IsListParam(iterable, ps) ==> iterable.name + A.COUNT_SUFFIX in s)
      then ScopeOf(body, ps, s, true) else None
    case Return(None) => Some(slots)
    case Return(Some(e)) => G.ScopeIf(E.Resolves(e, slots), slots)
    case Break => G.ScopeIf(inLoop, slots)
    case Continue => G.ScopeIf(inLoop, slots)
    case Evaluate(e) => G.ScopeIf(E.Resolves(e, slots), slots)
  }

  // ---------- scoping of concatenations ----------

  lemma {:induction false} EndsConcat(x: seq<H.Node>, y: seq<H.Node>)
    ensures G.EndsAll(x + y) <==> G.EndsAll(x) || G.EndsAll(y)
  {
    forall i | 0 <= i < |x| && G.Ends(x[i])
      ensures G.EndsAll(x + y)
    {
      assert G.Ends((x + y)[i]);
    }
    forall i | 0 <= i < |y| && G.Ends(y[i])
      ensures G.EndsAll(x + y)
    {
      assert G.Ends((x + y)[|x| + i]);
    }
  }

  lemma {:induction false} ScopeConcat(x: seq<H.Node>, y: seq<H.Node>, slots: set<string>, inLoop: bool)
    ensures G.ScopeAll(x + y, slots, inLoop)
         == var r := G.ScopeAll(x, slots, inLoop); if r.None? || G.EndsAll(x) then r else G.ScopeAll(y, r.value, inLoop)
    decreases |x|
  {
    if x == [] {
      assert x + y == y;
    } else {
      assert (x + y)[0] == x[0] && (x + y)[1..] == x[1..] + y;
      assert x == [x[0]] + x[1..];
      EndsConcat([x[0]], x[1..]);
      assert G.EndsAll([x[0]]) <==> G.Ends(x[0]) by {
        assert [x[0]][0] == x[0];
      }
      var next := G.Scope(x[0], slots, inLoop);
      if next.Some? && !G.Ends(x[0]) {
        ScopeConcat(x[1..], y, next.value, inLoop);
      }
    }
  }

  lemma {:induction false} ScopeOne(m: H.Node, slots: set<string>, inLoop: bool)
    ensures G.ScopeAll([m], slots, inLoop) == G.Scope(m, slots, inLoop)
    ensures G.EndsAll([m]) <==> G.Ends(m)
  {
    assert [m][1..] == [] && [m][0] == m;
  }

  lemma {:induction false} ResolvesMore(e: Expr, s: set<string>, t: set<string>)
    requires s <= t && E.Resolves(e, s)
    ensures E.Resolves(e, t)
  {
    match e
    case Unary(_, e1) => ResolvesMore(e1, s, t);
    case Binary(_, l, r) =>
      ResolvesMore(l, s, t);
      ResolvesMore(r, s, t);
    case Index(a, i) =>
      ResolvesMore(a, s, t);
      ResolvesMore(i, s, t);
    case _ =>
  }

  lemma {:induction false} AssignResolvesMore(t: Target, e: Expr, s: set<string>, u: set<string>)
    requires s <= u && E.AssignResolves(t, e, s)
    ensures E.AssignResolves(t, e, u)
  {
    ResolvesMore(e, s, u);
    match t
    case Name(_) =>
    case Element(arr, idx) =>
      ResolvesMore(arr, s, u);
      ResolvesMore(idx, s, u);
  }

  // ---------- the lowering of a scoped tree is scoped ----------

  /** What scoping of a lowered part has to show, with at least the slots the source has. */
  predicate Suits(r: Option<set<string>>, out: set<string>) {
    r.Some? && out <= r.value
  }

  lemma {:induction false} LowerEnds(n: A.Node, ps: set<string>, c: nat)
    ensures G.Ends(Lower(n, ps, c).node) <==> SourceEnds(n)
    decreases n, 0
  {
    match n
    case Seq(a, b) =>
      FlattenEnds(a, ps, c);
      var x := Flatten(a, ps, c);
      FlattenEnds(b, ps, x.next);
      EndsConcat(x.stmts, Flatten(b, ps, x.next).stmts);
    case ForRange(_, _, _, _, _, body) =>
      var x := Flatten(body, ps, c).stmts;
      assert RangeBlock(n, x).stmts == [H.Assign(Name(n.iter), n.start, true), RangeLoop(n, x)];
    case ForList(_, _, _, _, body) =>
      var x := Flatten(body, ps, c + 1).stmts;
      assert forall i | 0 <= i < |ListBlock(n, ps, c, x).stmts| ::
          ListBlock(n, ps, c, x).stmts[i].Assign? || ListBlock(n, ps, c, x).stmts[i].While?;
    case _ =>
  }

  lemma {:induction false} FlattenEnds(n: A.Node, ps: set<string>, c: nat)
    ensures G.EndsAll(Flatten(n, ps, c).stmts) <==> SourceEnds(n)
    decreases n, 1
  {
    match n
    case Null =>
    case Seq(a, b) =>
      FlattenEnds(a, ps, c);
      var x := Flatten(a, ps, c);
      FlattenEnds(b, ps, x.next);
      EndsConcat(x.stmts, Flatten(b, ps, x.next).stmts);
    case _ =>
      LowerEnds(n, ps, c);
      ScopeOne(Lower(n, ps, c).node, {}, false);
  }

  lemma {:induction false} SeqScoped(n: A.Node, ps: set<string>, c: nat, slots: set<string>, more: set<string>,
          inLoop: bool)
    requires n.Seq? && ScopeOf(n, ps, slots, inLoop).Some? && slots <= more
    ensures Suits(G.ScopeAll(Flatten(n, ps, c).stmts, more, inLoop), ScopeOf(n, ps, slots, inLoop).value)
    decreases n, 0
  {
    var x := Flatten(n.a, ps, c);
    FlattenScoped(n.a, ps, c, slots, more, inLoop);
    FlattenEnds(n.a, ps, c);
    var out := G.ScopeAll(x.stmts, more, inLoop);
    ScopeConcat(x.stmts, Flatten(n.b, ps, x.next).stmts, more, inLoop);
    if !SourceEnds(n.a) {
      FlattenScoped(n.b, ps, x.next, ScopeOf(n.a, ps, slots, inLoop).value, out.value, inLoop);
    }
  }

  lemma {:induction false} FlattenScoped(n: A.Node, ps: set<string>, c: nat, slots: set<string>, more: set<string>,
          inLoop: bool)
    requires ScopeOf(n, ps, slots, inLoop).Some? && slots <= more
    ensures Suits(G.ScopeAll(Flatten(n, ps, c).stmts, more, inLoop), ScopeOf(n, ps, slots, inLoop).value)
    decreases n, 2
  {
    match n
    case Null =>
    case Seq(_, _) => SeqScoped(n, ps, c, slots, more, inLoop);
    case _ =>
      LowerScoped(n, ps, c, slots, more, inLoop);
      ScopeOne(Lower(n, ps, c).node, more, inLoop);
  }

  lemma {:induction false} AssignScoped(n: A.Node, ps: set<string>, c: nat, slots: set<string>, more: set<string>,
          inLoop: bool)
    requires n.Assign? && ScopeOf(n, ps, slots, inLoop).Some? && slots <= more
    ensures Suits(G.Scope(Lower(n, ps, c).node, more, inLoop), ScopeOf(n, ps, slots, inLoop).value)
  {
    AssignResolvesMore(n.target, StoredValue(n.target, n.aop, n.rhs), C.DeclaredSlots(n.target, n.isDeclaration, slots),
                       C.DeclaredSlots(n.target, n.isDeclaration, more));
  }

  lemma {:induction false} LowerScoped(n: A.Node, ps: set<string>, c: nat, slots: set<string>, more: set<string>,
          inLoop: bool)
    requires ScopeOf(n, ps, slots, inLoop).Some? && slots <= more
    ensures Suits(G.Scope(Lower(n, ps, c).node, more, inLoop), ScopeOf(n, ps, slots, inLoop).value)
    decreases n, 1
  {
    match n
    case Null =>
    case Seq(_, _) =>
      SeqScoped(n, ps, c, slots, more, inLoop);
    case Assign(_, _, _, _) =>
      AssignScoped(n, ps, c, slots, more, inLoop);
    case If(cond, thn, els) =>
      ResolvesMore(cond, slots, more);
      LowerScoped(thn, ps, c, slots, more, inLoop);
      var x := Lower(thn, ps, c);
      LowerScoped(els, ps, x.next, ScopeOf(thn, ps, slots, inLoop).value, G.Scope(x.node, more, inLoop).value, inLoop);
    case While(_, _, _) =>
      WhileScoped(n, ps, c, slots, more, inLoop);
    case ForRange(_, _, _, _, _, body) =>
      RangeScoped(n, ps, c, slots, more, inLoop);
    case ForList(_, _, _, _, body) =>
      ListScoped(n, ps, c, slots, more, inLoop);
    case Return(Some(e)) => ResolvesMore(e, slots, more);
    case Evaluate(e) => ResolvesMore(e, slots, more);
    case _ =>
  }

  lemma {:induction false} WhileScoped(n: A.Node, ps: set<string>, c: nat, slots: set<string>, more: set<string>,
          inLoop: bool)
    requires n.While? && ScopeOf(n, ps, slots, inLoop).Some? && slots <= more
    ensures Suits(G.Scope(Lower(n, ps, c).node, more, inLoop), ScopeOf(n, ps, slots, inLoop).value)
    decreases n, 0
  {
    ResolvesMore(n.cond, slots, more);
    FlattenScoped(n.body, ps, c, slots, more, true);
    var x := Flatten(n.body, ps, c);
    var out := G.ScopeAll(x.stmts, more, true).value;
    assert G.Scope(H.Block(x.stmts), more, true) == Some(out);
    LowerScoped(n.step, ps, x.next, ScopeOf(n.body, ps, slots, true).value, out, true);
  }

  lemma {:induction false} RangeScoped(n: A.Node, ps: set<string>, c: nat, slots: set<string>, more: set<string>,
          inLoop: bool)
    requires n.ForRange? && ScopeOf(n, ps, slots, inLoop).Some? && slots <= more
    ensures Suits(G.Scope(Lower(n, ps, c).node, more, inLoop), ScopeOf(n, ps, slots, inLoop).value)
    decreases n, 0
  {
    var s, t := slots + {n.iter}, more + {n.iter};
    var stride := A.StrideOf(n.start, n.end, n.stride);
    ResolvesMore(n.start, s, t);
    ResolvesMore(n.end, s, t);
    FlattenScoped(n.body, ps, c, s, t, true);
    var x := Flatten(n.body, ps, c).stmts;
    var out := G.ScopeAll(x, t, true).value;
    Grows(x, t, true);
    ResolvesMore(stride, s, out + {n.iter});
    var step := H.Assign(Name(n.iter), Binary(Add, Var(n.iter), stride), true);
    ScopeConcat(x, [step], t, true);
    ScopeOne(step, out, true);
    var init := H.Assign(Name(n.iter), n.start, true);
    var loop := RangeLoop(n, x);
    assert E.AssignResolves(step.target, step.value, out + {n.iter});
    assert G.Scope(step, out, true) == Some(out + {n.iter});
    assert G.Scope(loop.body, t, true) == G.ScopeAll(x + [step], t, true);
    assert Suits(G.Scope(loop.body, t, true), out);
    assert E.Resolves(loop.cond, t);
    assert Suits(G.Scope(loop, t, inLoop), out);
    ScopeConcat([init], [loop], more, inLoop);
    ScopeOne(init, more, inLoop);
    ScopeOne(loop, t, inLoop);
    assert [init] + [loop] == [init, loop];
  }

  /** Emission never forgets a slot. */
  lemma {:induction false} Grows(stmts: seq<H.Node>, slots: set<string>, inLoop: bool)
    requires G.ScopeAll(stmts, slots, inLoop).Some?
    ensures slots <= G.ScopeAll(stmts, slots, inLoop).value
    decreases stmts, 0
  {
    if stmts != [] {
      GrowsOne(stmts[0], slots, inLoop);
      if !G.Ends(stmts[0]) {
        Grows(stmts[1..], G.Scope(stmts[0], slots, inLoop).value, inLoop);
      }
    }
  }

  lemma {:induction false} GrowsOne(m: H.Node, slots: set<string>, inLoop: bool)
    requires G.Scope(m, slots, inLoop).Some?
    ensures slots <= G.Scope(m, slots, inLoop).value
    decreases m, 0
  {
    match m
    case Block(stmts) => Grows(stmts, slots, inLoop);
    case If(_, thn, els) =>
      GrowsOne(thn, slots, inLoop);
      GrowsOne(els, G.Scope(thn, slots, inLoop).value, inLoop);
    case While(_, body, step) =>
      GrowsOne(body, slots, true);
      GrowsOne(step, G.Scope(body, slots, true).value, true);
    case _ =>
  }

  /** The set-up of a list loop gives its names slots. */
  lemma {:induction false} SetupScoped(n: A.Node, ps: set<string>, c: nat, more: set<string>,
          inLoop: bool) returns (t: set<string>)
    requires n.ForList? && E.Resolves(n.iterable, more + {n.iter})
    requires A.IsListParam(n.iterable, ps) ==> n.iterable.name + A.COUNT_SUFFIX in more + {n.iter}
    ensures G.ScopeAll(ListSetup(n, ps, c), more, inLoop) == Some(t) && !G.EndsAll(ListSetup(n, ps, c))
    ensures more + {n.iter, ArrName(c), IdxName(c)} <= t
    ensures A.IsListParam(n.iterable, ps) ==> CountName(c) in t
  {
    var zero := H.Assign(Name(n.iter), ZeroLiteral(n), true);
    var list := if n.iterable.Var? then n.iterable.name else [];
    var count := H.Assign(Name(CountName(c)), Var(list + A.COUNT_SUFFIX), true);
    var arr := H.Assign(Name(ArrName(c)), n.iterable, true);
    var idx := H.Assign(Name(IdxName(c)), Num(0), true);
    var counts := if A.IsListParam(n.iterable, ps) then [count] else [];
    var t1 := more + {n.iter};
    var t2 := if A.IsListParam(n.iterable, ps) then t1 + {CountName(c)} else t1;
    t := t2 + {ArrName(c)} + {IdxName(c)};
    ScopeOne(zero, more, inLoop);
    ScopeOne(count, t1, inLoop);
    ResolvesMore(n.iterable, t1, t2 + {ArrName(c)});
    ScopeOne(arr, t2, inLoop);
    ScopeOne(idx, t2 + {ArrName(c)}, inLoop);
    assert ListSetup(n, ps, c) == [zero] + (counts + ([arr] + [idx]));
    ScopeConcat([zero], counts + ([arr] + [idx]), more, inLoop);
    ScopeConcat(counts, [arr] + [idx], t1, inLoop);
    ScopeConcat([arr], [idx], t2, inLoop);
    assert G.ScopeAll(counts, t1, inLoop) == Some(t2);
  }

  lemma {:induction false} ListScoped(n: A.Node, ps: set<string>, c: nat, slots: set<string>, more: set<string>,
          inLoop: bool)
    requires n.ForList? && ScopeOf(n, ps, slots, inLoop).Some? && slots <= more
    ensures Suits(G.Scope(Lower(n, ps, c).node, more, inLoop), ScopeOf(n, ps, slots, inLoop).value)
    decreases n, 0
  {
    ResolvesMore(n.iterable, slots + {n.iter}, more + {n.iter});
    var t := SetupScoped(n, ps, c, more, inLoop);
    FlattenScoped(n.body, ps, c + 1, slots + {n.iter}, t, true);
    var x := Flatten(n.body, ps, c + 1).stmts;
    var out := G.ScopeAll(x, t, true).value;
    Grows(x, t, true);
    var loop := ListLoop(n, ps, c, x);
    LoopScoped(n, ps, c, x, t, out, inLoop);
    ScopeConcat(ListSetup(n, ps, c), [loop], more, inLoop);
    ScopeOne(loop, t, inLoop);
  }

  lemma {:induction false} FetchScoped(n: A.Node, c: nat, t: set<string>)
    requires n.ForList? && {n.iter, ArrName(c), IdxName(c)} <= t
    ensures G.Scope(H.Assign(Name(n.iter), Index(Var(ArrName(c)), Var(IdxName(c))), false), t, true) == Some(t)
  {
    assert E.Resolves(Var(ArrName(c)), t) && E.Resolves(Var(IdxName(c)), t);
  }

  lemma {:induction false} StepScoped(c: nat, t: set<string>)
    requires IdxName(c) in t
    ensures G.Scope(H.Assign(Name(IdxName(c)), Binary(Add, Var(IdxName(c)), Num(1)), false), t, true) == Some(t)
  {
    assert E.Resolves(Var(IdxName(c)), t) && E.Resolves(Num(1), t);
    assert E.Resolves(Binary(Add, Var(IdxName(c)), Num(1)), t);
  }

  lemma {:induction false} LoopBodyScoped(fetch: H.Node, x: seq<H.Node>, step: H.Node, t: set<string>, out: set<string>)
    requires G.Scope(fetch, t, true) == Some(t) && !G.Ends(fetch)
    requires G.ScopeAll(x, t, true) == Some(out) && G.Scope(step, out, true) == Some(out)
    ensures G.ScopeAll([fetch] + x + [step], t, true) == Some(out)
  {
    assert [fetch] + x + [step] == [fetch] + (x + [step]);
    ScopeConcat([fetch], x + [step], t, true);
    ScopeOne(fetch, t, true);
    ScopeConcat(x, [step], t, true);
    ScopeOne(step, out, true);
  }

  lemma {:induction false} LoopScoped(n: A.Node, ps: set<string>, c: nat, x: seq<H.Node>, t: set<string>,
          out: set<string>, inLoop: bool)
    requires n.ForList? && {n.iter, ArrName(c), IdxName(c)} <= t <= out
    requires A.IsListParam(n.iterable, ps) ==> CountName(c) in t
    requires G.ScopeAll(x, t, true) == Some(out)
    ensures Suits(G.Scope(ListLoop(n, ps, c, x), t, inLoop), out)
  {
    var fetch := H.Assign(Name(n.iter), Index(Var(ArrName(c)), Var(IdxName(c))), false);
    var step := H.Assign(Name(IdxName(c)), Binary(Add, Var(IdxName(c)), Num(1)), false);
    FetchScoped(n, c, t);
    StepScoped(c, out);
    LoopBodyScoped(fetch, x, step, t, out);
    assert G.Scope(H.Block([fetch] + x + [step]), t, true) == Some(out);
    assert E.Resolves(ListLoop(n, ps, c, x).cond, t);
  }
}
