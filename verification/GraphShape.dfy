/**
 Shape of emitted graphs, for every mid-level tree: while a function is being
 emitted only the current block and the blocks awaited by enclosing constructs
 lack a terminator; afterwards every block of the function has exactly one, and
 all its targets are blocks of the function.
 */
module GraphShape {
  import opened Wrappers
  import opened Syntax
  import opened Cfg
  import opened Codegen
  import H = Hir

  function Targets(t: Terminator): set<nat> {
    match t
    case Br(l) => {l}
    case CondBr(_, l, m) => {l, m}
    case Ret(_) => {}
    case RetVoid => {}
  }

  ghost predicate Known(b: Builder, awaited: set<nat>, l: nat) {
    l in b.layout || l in awaited
  }

  /** Blocks outside the function or still awaited are empty; the others end, or are current. */
  ghost predicate BlockShaped(b: Builder, awaited: set<nat>, l: nat)
    requires l < |b.blocks|
  {
    && (l in awaited || l !in b.layout ==> b.blocks[l] == Block([], None))
    && (l in b.layout && l != b.cur && l !in awaited ==> b.blocks[l].term.Some?)
    && (b.blocks[l].term.Some? ==> forall m | m in Targets(b.blocks[l].term.value) :: Known(b, awaited, m))
  }

  /** `awaited` are the blocks that enclosing constructs will still move to. */
  ghost predicate Shaped(b: Builder, awaited: set<nat>) {
    && b.Valid()
    && Distinct(b.layout) && b.cur in b.layout && b.cur !in awaited
    && (forall l | l in b.layout :: l < |b.blocks|)
    && (forall l | l in awaited :: l < |b.blocks|)
    && (forall l {:trigger b.blocks[l]} | 0 <= l < |b.blocks| :: BlockShaped(b, awaited, l))
    && (forall i | 0 <= i < |b.loopStack| ::
          Known(b, awaited, b.loopStack[i].continuationBB) && Known(b, awaited, b.loopStack[i].exitBB))
  }

  /** Emission inserts only blocks it created itself. */
  ghost predicate Inserts(b: Builder, r: Builder) {
    && b.layout <= r.layout
    && forall i | |b.layout| <= i < |r.layout| :: |b.blocks| <= r.layout[i]
  }

  lemma {:induction false} InsertsTrans(b: Builder, e: Builder, r: Builder, added: seq<nat>)
    requires |b.blocks| <= |e.blocks| && e.layout == b.layout + added && forall l | l in added :: |b.blocks| <= l
    requires Inserts(e, r)
    ensures Inserts(b, r)
    ensures forall l | l in added :: l in r.layout
  {
    forall i | |b.layout| <= i < |r.layout|
      ensures |b.blocks| <= r.layout[i]
    {
      if i < |e.layout| {
        assert r.layout[i] == e.layout[i] == added[i - |b.layout|];
        assert r.layout[i] in added;
      }
    }
    forall l | l in added
      ensures l in r.layout
    {
      var i :| 0 <= i < |added| && added[i] == l;
      assert r.layout[|b.layout| + i] == e.layout[|b.layout| + i] == l;
    }
  }

  lemma {:induction false} NotInserted(e: Builder, r: Builder, l: nat)
    requires Inserts(e, r) && l < |e.blocks| && l !in e.layout
    ensures l !in r.layout
  {
  }

  // ---------- single builder operations ----------

  /** It is enough to look at the blocks and the loop targets one by one. */
  lemma {:induction false} ShapedFrom(b: Builder, a: set<nat>, r: Builder, a': set<nat>)
    requires Shaped(b, a) && r.Valid()
    requires Distinct(r.layout) && r.cur in r.layout && r.cur !in a'
    requires (forall l | l in r.layout :: l < |r.blocks|) && (forall l | l in a' :: l < |r.blocks|)
    requires |b.blocks| <= |r.blocks| && r.loopStack <= b.loopStack
    requires forall l | 0 <= l < |b.blocks| && BlockShaped(b, a, l) :: BlockShaped(r, a', l)
    requires forall l | |b.blocks| <= l < |r.blocks| :: BlockShaped(r, a', l)
    requires forall l | Known(b, a, l) :: Known(r, a', l)
    ensures Shaped(r, a')
  {
    forall l: nat | l < |r.blocks|
      ensures BlockShaped(r, a', l)
    {
      if l < |b.blocks| {
        assert b.blocks[l] == b.blocks[l];
        assert BlockShaped(b, a, l);
      }
    }
    forall i | 0 <= i < |r.loopStack|
      ensures Known(r, a', r.loopStack[i].continuationBB) && Known(r, a', r.loopStack[i].exitBB)
    {
      assert r.loopStack[i] == b.loopStack[i];
    }
  }

  lemma {:induction false} ShapedEmit(b: Builder, c: Code, awaited: set<nat>)
    requires Shaped(b, awaited)
    ensures Shaped(b.Emit(c), awaited)
  {
    ShapedFrom(b, awaited, b.Emit(c), awaited);
  }

  lemma {:induction false} ShapedTerminate(b: Builder, t: Terminator, awaited: set<nat>)
    requires Shaped(b, awaited) && !b.Terminated()
    requires forall m | m in Targets(t) :: Known(b, awaited, m)
    ensures Shaped(b.Terminate(t), awaited)
  {
    ShapedFrom(b, awaited, b.Terminate(t), awaited);
  }

  lemma {:induction false} ShapedBranch(b: Builder, l: nat, awaited: set<nat>)
    requires Shaped(b, awaited) && Known(b, awaited, l)
    ensures Shaped(b.BranchIfOpen(l), awaited)
  {
    if !b.Terminated() {
      ShapedTerminate(b, Br(l), awaited);
    }
  }

  lemma {:induction false} ShapedCreate(b: Builder, awaited: set<nat>)
    requires Shaped(b, awaited)
    ensures Shaped(b.CreateDetached(), awaited)
    ensures Shaped(b.CreateDetached(), awaited + {|b.blocks|})
  {
    ShapedFrom(b, awaited, b.CreateDetached(), awaited);
    ShapedFrom(b, awaited, b.CreateDetached(), awaited + {|b.blocks|});
  }

  lemma {:induction false} ShapedInsert(b: Builder, l: nat, awaited: set<nat>)
    requires Shaped(b, awaited) && l in awaited && l !in b.layout
    ensures Shaped(b.Insert(l), awaited)
  {
    var r := b.Insert(l);
    assert forall m :: m in r.layout <==> m in b.layout || m == l;
    ShapedFrom(b, awaited, r, awaited);
  }

  lemma {:induction false} ShapedMove(b: Builder, l: nat, awaited: set<nat>)
    requires Shaped(b, awaited) && b.Terminated() && l in awaited && l in b.layout
    ensures Shaped(b.SetInsertPoint(l), awaited - {l})
  {
    ShapedFrom(b, awaited, b.SetInsertPoint(l), awaited - {l});
  }

  lemma {:induction false} ShapedPush(b: Builder, c: LoopContext, awaited: set<nat>)
    requires Shaped(b, awaited) && Known(b, awaited, c.continuationBB) && Known(b, awaited, c.exitBB)
    requires c.continuationBB < |b.blocks| && c.exitBB < |b.blocks|
    ensures Shaped(b.PushLoop(c), awaited)
  {
    var r := b.PushLoop(c);
    forall l: nat | l < |r.blocks|
      ensures BlockShaped(r, awaited, l)
    {
      assert b.blocks[l] == r.blocks[l];
      assert BlockShaped(b, awaited, l);
    }
    forall i | 0 <= i < |r.loopStack|
      ensures Known(r, awaited, r.loopStack[i].continuationBB) && Known(r, awaited, r.loopStack[i].exitBB)
    {
      if i < |b.loopStack| {
        assert r.loopStack[i] == b.loopStack[i];
        assert Known(b, awaited, b.loopStack[i].continuationBB) && Known(b, awaited, b.loopStack[i].exitBB);
      }
    }
  }

  lemma {:induction false} ShapedPop(b: Builder, awaited: set<nat>)
    requires Shaped(b, awaited) && b.loopStack != []
    ensures Shaped(b.PopLoop(), awaited)
  {
    ShapedFrom(b, awaited, b.PopLoop(), awaited);
  }

  lemma {:induction false} ShapedCreateIn(b: Builder, awaited: set<nat>)
    requires Shaped(b, awaited)
    ensures Shaped(b.CreateInFunction(), awaited + {|b.blocks|})
  {
    ShapedCreate(b, awaited);
    ShapedInsert(b.CreateDetached(), |b.blocks|, awaited + {|b.blocks|});
  }

  // ---------- the stages of `if` and `while` ----------

  /** The blocks of an `if` that its condition block awaits. */
  function IfAwaits(n: nat, hasElse: bool): set<nat> {
    if hasElse then {n + 1, n + 2} else {n + 2}
  }

  lemma {:induction false} ShapedIfBlocks(b: Builder, hasElse: bool, awaited: set<nat>)
    requires Shaped(b, awaited)
    ensures var n := |b.blocks|;
      Shaped(b.CreateInFunction().CreateDetached().CreateDetached(),
              awaited + {n} + IfAwaits(n, hasElse))
  {
    var n := |b.blocks|;
    var b1 := b.CreateInFunction();
    ShapedCreateIn(b, awaited);
    var a2 := if hasElse then awaited + {n} + {n + 1} else awaited + {n};
    ShapedCreate(b1, awaited + {n});
    ShapedCreate(b1.CreateDetached(), a2);
    assert a2 + {n + 2} == awaited + {n} + IfAwaits(n, hasElse);
  }

  lemma {:induction false} ShapedIfEnter(c: Expr, hasElse: bool, b: Builder, awaited: set<nat>)
    requires Shaped(b, awaited) && !b.Terminated()
    ensures var n := |b.blocks|; var r := IfEnter(c, hasElse, b);
      && Shaped(r, awaited + IfAwaits(n, hasElse)) && r.layout == b.layout + [n]
  {
    var n := |b.blocks|;
    var v := ExprCode(c, b.slots, b.nextReg);
    var cond := if v.value.None? then Const(B(false)) else v.value.value;
    ShapedEmit(b, v, awaited);
    ShapedIfBlocks(b.Emit(v), hasElse, awaited);
    var more := IfAwaits(n, hasElse);
    ShapedJump(b.Emit(v).CreateInFunction().CreateDetached().CreateDetached(),
      CondBr(cond, n, if hasElse then n + 1 else n + 2), n, awaited, more);
  }

  /** Ends the current block and moves on to the awaited block `n`. */
  lemma {:induction false} ShapedJump(b: Builder, t: Terminator, n: nat, awaited: set<nat>, more: set<nat>)
    requires Shaped(b, awaited + {n} + more) && !b.Terminated() && n in b.layout && n !in awaited && n !in more
    requires Targets(t) <= {n} + more
    ensures Shaped(b.Terminate(t).SetInsertPoint(n), awaited + more)
  {
    var all := awaited + {n} + more;
    assert forall m | m in Targets(t) :: m in all;
    ShapedTerminate(b, t, all);
    assert n in all;
    ShapedMove(b.Terminate(t), n, all);
    assert all - {n} == awaited + more;
  }

  lemma {:induction false} ShapedIfElseEnter(n: nat, u: Builder, awaited: set<nat>)
    requires Shaped(u, awaited + {n + 1, n + 2}) && n + 1 !in awaited && n + 1 !in u.layout
    ensures u.cur != n + 1 && n + 2 < |u.blocks| && u.blocks[n + 1] == Block([], None)
    ensures Shaped(IfElseEnter(n, u), awaited + {n + 2}) && IfElseEnter(n, u).layout == u.layout + [n + 1]
  {
    var all := awaited + {n + 1, n + 2};
    assert n + 1 in all && n + 2 in all;
    ShapedBranch(u, n + 2, all);
    ShapedInsert(u.BranchIfOpen(n + 2), n + 1, all);
    ShapedMove(u.BranchIfOpen(n + 2).Insert(n + 1), n + 1, all);
    assert all - {n + 1} == awaited + {n + 2};
  }

  lemma {:induction false} ShapedIfLeave(n: nat, u: Builder, awaited: set<nat>)
    requires Shaped(u, awaited + {n + 2}) && n + 2 !in awaited && n + 2 !in u.layout
    ensures u.cur != n + 2 && n + 2 < |u.blocks| && u.blocks[n + 2] == Block([], None)
    ensures Shaped(IfLeave(n, u), awaited) && IfLeave(n, u).layout == u.layout + [n + 2]
  {
    var all := awaited + {n + 2};
    assert n + 2 in all;
    ShapedBranch(u, n + 2, all);
    ShapedInsert(u.BranchIfOpen(n + 2), n + 2, all);
    ShapedMove(u.BranchIfOpen(n + 2).Insert(n + 2), n + 2, all);
    assert all - {n + 2} == awaited;
  }

  lemma {:induction false} ShapedCreateTwo(b: Builder, awaited: set<nat>)
    requires Shaped(b, awaited)
    ensures Shaped(b.CreateInFunction().CreateInFunction(), awaited + {|b.blocks|, |b.blocks| + 1})
  {
    ShapedCreateIn(b, awaited);
    ShapedCreateIn(b.CreateInFunction(), awaited + {|b.blocks|});
    assert awaited + {|b.blocks|} + {|b.blocks| + 1} == awaited + {|b.blocks|, |b.blocks| + 1};
  }

  lemma {:induction false} ShapedWhileBlocks(b: Builder, awaited: set<nat>)
    requires Shaped(b, awaited)
    ensures var n := |b.blocks|;
      Shaped(b.CreateInFunction().CreateInFunction().CreateInFunction().CreateInFunction(),
              awaited + {n} + {n + 1, n + 2, n + 3})
  {
    var n := |b.blocks|;
    ShapedCreateTwo(b, awaited);
    ShapedCreateTwo(b.CreateInFunction().CreateInFunction(), awaited + {n, n + 1});
    assert awaited + {n, n + 1} + {n + 2, n + 3} == awaited + {n} + {n + 1, n + 2, n + 3};
  }

  lemma {:induction false} ShapedWhileEnter(b: Builder, awaited: set<nat>)
    requires Shaped(b, awaited) && !b.Terminated()
    ensures var n := |b.blocks|; var r := WhileEnter(b);
      Shaped(r, awaited + {n + 1, n + 2, n + 3}) && r.layout == b.layout + [n, n + 1, n + 2, n + 3]
  {
    var n := |b.blocks|;
    var b4 := b.CreateInFunction().CreateInFunction().CreateInFunction().CreateInFunction();
    ShapedWhileBlocks(b, awaited);
    ShapedPush(b4, LoopContext(n + 2, n + 3), awaited + {n} + {n + 1, n + 2, n + 3});
    ShapedJump(b4.PushLoop(LoopContext(n + 2, n + 3)), Br(n), n, awaited, {n + 1, n + 2, n + 3});
  }

  lemma {:induction false} ShapedWhileTest(c: Expr, n: nat, b: Builder, awaited: set<nat>)
    requires Shaped(b, awaited + {n + 1, n + 2, n + 3}) && !b.Terminated() && b.cur == n && n + 4 <= |b.blocks|
    requires n + 1 !in awaited && n + 1 in b.layout
    ensures Shaped(WhileTest(c, n, b), awaited + {n + 2, n + 3}) && WhileTest(c, n, b).layout == b.layout
  {
    var all := awaited + {n + 1, n + 2, n + 3};
    var v := ExprCode(c, b.slots, b.nextReg);
    var cond := if v.value.None? then Const(B(true)) else v.value.value;
    ShapedEmit(b, v, all);
    ShapedTerminate(b.Emit(v), CondBr(cond, n + 1, n + 3), all);
    ShapedMove(b.Emit(v).Terminate(CondBr(cond, n + 1, n + 3)), n + 1, all);
    assert all - {n + 1} == awaited + {n + 2, n + 3};
  }

  lemma {:induction false} ShapedWhileHead(c: Expr, b: Builder, awaited: set<nat>)
    requires Shaped(b, awaited) && !b.Terminated()
    ensures var n := |b.blocks|; var f := WhileTest(c, n, WhileEnter(b));
      Shaped(f, awaited + {n + 2, n + 3}) && f.layout == b.layout + [n, n + 1, n + 2, n + 3]
  {
    var n := |b.blocks|;
    ShapedWhileEnter(b, awaited);
    assert WhileEnter(b).layout[|b.layout| + 1] == n + 1;
    ShapedWhileTest(c, n, WhileEnter(b), awaited);
  }

  lemma {:induction false} ShapedWhileStepEnter(n: nat, u: Builder, awaited: set<nat>)
    requires Shaped(u, awaited + {n + 2, n + 3}) && n + 2 !in awaited && n + 2 in u.layout
    ensures u.cur != n + 2 && n + 3 < |u.blocks| && u.blocks[n + 2] == Block([], None)
    ensures Shaped(WhileStepEnter(n, u), awaited + {n + 3}) && WhileStepEnter(n, u).layout == u.layout
  {
    var all := awaited + {n + 2, n + 3};
    assert n + 2 in all && n + 3 in all;
    ShapedBranch(u, n + 2, all);
    ShapedMove(u.BranchIfOpen(n + 2), n + 2, all);
    assert all - {n + 2} == awaited + {n + 3};
  }

  lemma {:induction false} ShapedWhileLeave(n: nat, u: Builder, awaited: set<nat>)
    requires Shaped(u, awaited + {n + 3}) && n + 3 !in awaited && n + 3 in u.layout && n in u.layout
    requires u.loopStack != []
    ensures u.cur != n + 3 && n + 3 < |u.blocks| && u.blocks[n + 3] == Block([], None)
    ensures Shaped(WhileLeave(n, u), awaited) && WhileLeave(n, u).layout == u.layout
  {
    var all := awaited + {n + 3};
    assert n + 3 in all;
    ShapedBranch(u, n, all);
    ShapedMove(u.BranchIfOpen(n), n + 3, all);
    assert all - {n + 3} == awaited;
    ShapedPop(u.BranchIfOpen(n).SetInsertPoint(n + 3), awaited);
  }

  // ---------- statements and functions ----------

  lemma {:induction false} EmitShaped(s: H.Node, b: Builder, awaited: set<nat>)
    requires Shaped(b, awaited)
    ensures Shaped(EmitStmt(s, b), awaited) && Inserts(b, EmitStmt(s, b))
    decreases s, 2
  {
    if !s.Null? && !b.Terminated() {
      match s
      case Block(stmts) => EmitAllShaped(stmts, b, awaited);
      case If(_, _, _) => EmitIfShaped(s, b, awaited);
      case While(_, _, _) => EmitWhileShaped(s, b, awaited);
      case _ => SimpleShaped(s, b, awaited);
    }
  }

  lemma {:induction false} SimpleShaped(s: H.Node, b: Builder, awaited: set<nat>)
    requires !s.Null? && !s.Block? && !s.If? && !s.While? && Shaped(b, awaited) && !b.Terminated()
    ensures Shaped(EmitStmt(s, b), awaited) && Inserts(b, EmitStmt(s, b))
  {
    match s
    case Assign(t, e, d) =>
      var slots := DeclaredSlots(t, d, b.slots);
      ShapedFrom(b, awaited, b.(slots := slots), awaited);
      ShapedEmit(b.(slots := slots), AssignCode(t, e, slots, b.nextReg), awaited);
    case Return(None) =>
      ShapedTerminate(b, RetVoid, awaited);
    case Return(Some(e)) =>
      var v := ExprCode(e, b.slots, b.nextReg);
      ShapedEmit(b, v, awaited);
      ShapedTerminate(b.Emit(v), if v.value.None? then RetVoid else Ret(v.value.value), awaited);
    case Break =>
      if b.loopStack != [] {
        ShapedTerminate(b, Br(b.loopStack[|b.loopStack| - 1].exitBB), awaited);
      }
    case Continue =>
      if b.loopStack != [] {
        ShapedTerminate(b, Br(b.loopStack[|b.loopStack| - 1].continuationBB), awaited);
      }
    case Evaluate(e) =>
      ShapedEmit(b, ExprCode(e, b.slots, b.nextReg), awaited);
  }

  lemma {:induction false} EmitAllShaped(stmts: seq<H.Node>, b: Builder, awaited: set<nat>)
    requires Shaped(b, awaited)
    ensures Shaped(EmitAll(stmts, b), awaited) && Inserts(b, EmitAll(stmts, b))
    decreases stmts, 0
  {
    if stmts != [] && !b.Terminated() {
      EmitShaped(stmts[0], b, awaited);
      EmitAllShaped(stmts[1..], EmitStmt(stmts[0], b), awaited);
    }
  }

  lemma {:induction false} EmitIfShaped(s: H.Node, b: Builder, awaited: set<nat>)
    requires s.If? && Shaped(b, awaited) && !b.Terminated()
    ensures Shaped(EmitIf(s, b), awaited) && Inserts(b, EmitIf(s, b))
    decreases s, 1
  {
    var n := |b.blocks|;
    ThenShaped(s, b, n, awaited);
    var t := EmitStmt(s.thenBranch, IfEnter(s.cond, !s.elseBranch.Null?, b));
    if s.elseBranch.Null? {
      ShapedIfLeave(n, t, awaited);
    } else {
      ElseShaped(s, n, b, t, awaited);
    }
  }

  lemma {:induction false} ThenShaped(s: H.Node, b: Builder, n: nat, awaited: set<nat>)
    requires s.If? && Shaped(b, awaited) && !b.Terminated() && n == |b.blocks|
    ensures var t := EmitStmt(s.thenBranch, IfEnter(s.cond, !s.elseBranch.Null?, b));
      && Shaped(t, awaited + (if s.elseBranch.Null? then {n + 2} else {n + 1, n + 2}))
      && Inserts(b, t) && n + 1 !in t.layout && n + 2 !in t.layout
    decreases s, 0
  {
    var e := IfEnter(s.cond, !s.elseBranch.Null?, b);
    ShapedIfEnter(s.cond, !s.elseBranch.Null?, b, awaited);
    var t := EmitStmt(s.thenBranch, e);
    var more := IfAwaits(n, !s.elseBranch.Null?);
    EmitShaped(s.thenBranch, e, awaited + more);
    InsertsTrans(b, e, t, [n]);
    NotInserted(e, t, n + 1);
    NotInserted(e, t, n + 2);
  }

  lemma {:induction false} ElseShaped(s: H.Node, n: nat, b: Builder, t: Builder, awaited: set<nat>)
    requires s.If? && n == |b.blocks| && n + 2 < |t.blocks| && Inserts(b, t)
    requires Shaped(t, awaited + {n + 1, n + 2}) && n + 1 !in awaited && n + 2 !in awaited
    requires n + 1 !in t.layout && n + 2 !in t.layout
    ensures t.cur != n + 1 && t.blocks[n + 1] == Block([], None)
    ensures var u := EmitStmt(s.elseBranch, IfElseEnter(n, t));
      && n + 2 < |u.blocks| && u.cur != n + 2 && u.blocks[n + 2] == Block([], None)
      && Shaped(IfLeave(n, u), awaited) && Inserts(b, IfLeave(n, u))
    decreases s, 0
  {
    ShapedIfElseEnter(n, t, awaited);
    var m := IfElseEnter(n, t);
    EmitShaped(s.elseBranch, m, awaited + {n + 2});
    ElseLeft(n, b, t, m, EmitStmt(s.elseBranch, m), awaited);
  }

  lemma {:induction false} ElseLeft(n: nat, b: Builder, t: Builder, m: Builder, u: Builder, awaited: set<nat>)
    requires n == |b.blocks| && n + 2 < |t.blocks| == |m.blocks| && Inserts(b, t)
    requires n + 2 !in t.layout && m.layout == t.layout + [n + 1] && Inserts(m, u)
    requires Shaped(u, awaited + {n + 2}) && n + 2 !in awaited
    ensures n + 2 < |u.blocks| && u.cur != n + 2 && u.blocks[n + 2] == Block([], None)
    ensures Shaped(IfLeave(n, u), awaited) && Inserts(b, IfLeave(n, u))
  {
    InsertsTrans(b, m, u, t.layout[|b.layout|..] + [n + 1]);
    NotInserted(m, u, n + 2);
    ShapedIfLeave(n, u, awaited);
  }

  lemma {:induction false} EmitWhileShaped(s: H.Node, b: Builder, awaited: set<nat>)
    requires s.While? && Shaped(b, awaited) && !b.Terminated()
    ensures Shaped(EmitWhile(s, b), awaited) && Inserts(b, EmitWhile(s, b))
    decreases s, 1
  {
    var n := |b.blocks|;
    var f := WhileTest(s.cond, n, WhileEnter(b));
    ShapedWhileHead(s.cond, b, awaited);
    var t := EmitStmt(s.body, f);
    EmitShaped(s.body, f, awaited + {n + 2, n + 3});
    InsertsTrans(b, f, t, [n, n + 1, n + 2, n + 3]);
    LoopTailShaped(s, n, b, t, awaited);
  }

  lemma {:induction false} LoopTailShaped(s: H.Node, n: nat, b: Builder, t: Builder, awaited: set<nat>)
    requires s.While? && n == |b.blocks| && n + 3 < |t.blocks| && Inserts(b, t) && t.loopStack != []
    requires Shaped(t, awaited + {n + 2, n + 3}) && n + 2 !in awaited && n + 3 !in awaited
    requires n in t.layout && n + 2 in t.layout && n + 3 in t.layout
    ensures t.cur != n + 2 && t.blocks[n + 2] == Block([], None)
    ensures var u := EmitStmt(s.step, WhileStepEnter(n, t));
      && n + 3 < |u.blocks| && u.cur != n + 3 && u.blocks[n + 3] == Block([], None) && u.loopStack != []
      && Shaped(WhileLeave(n, u), awaited) && Inserts(b, WhileLeave(n, u))
    decreases s, 0
  {
    ShapedWhileStepEnter(n, t, awaited);
    var m := WhileStepEnter(n, t);
    EmitShaped(s.step, m, awaited + {n + 3});
    var u := EmitStmt(s.step, m);
    ShapedWhileLeave(n, u, awaited);
  }

  /** Every block of the function ends, and leads only to blocks of the function. */
  ghost predicate WellFormed(g: Graph, layout: seq<nat>) {
    && Distinct(layout) && 0 in layout
    && (forall l | l in layout :: l < |g| && g[l].term.Some? && forall m | m in Targets(g[l].term.value) :: m in layout)
    && (forall l | 0 <= l < |g| && l !in layout :: g[l] == Block([], None))
  }

  /** Emission of any function yields a well-formed graph and an empty loop stack. */
  lemma {:induction false} FunctionWellFormed(params: seq<string>, body: seq<H.Node>, isVoid: bool)
    ensures var r := EmitFunction(params, body, isVoid); WellFormed(r.blocks, r.layout) && r.loopStack == []
  {
    var e := FunctionEntry(params);
    assert Shaped(e, {});
    EmitAllShaped(body, e, {});
    var r := EmitAll(body, e);
    assert e.layout[0] == 0;
    if !r.Terminated() {
      ShapedTerminate(r, if isVoid then RetVoid else Ret(Const(I(0))), {});
    }
  }
}
