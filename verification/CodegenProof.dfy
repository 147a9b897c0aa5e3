/**
 The emitted graph simulates the mid-level tree, in both directions: statements
 first, then whole functions.
 */
module CodegenProof {
  import opened Wrappers
  import opened Syntax
  import opened Cfg
  import opened Codegen
  import opened CodegenExprProof
  import opened Simulation
  import H = Hir

  // ---------- which trees the generator can emit ----------

  /** The statement always leaves by a jump or a return. */
  predicate Ends(s: H.Node) {
    match s
    case Block(stmts) => exists i | 0 <= i < |stmts| :: Ends(stmts[i])
    case Return(_) => true
    case Break => true
    case Continue => true
    case _ => false
  }

  /**
   The names that have a slot after the statement has been emitted, or None if it cannot be
   emitted: names must have a slot before they are used, operators must be supported, jumps
   must be inside a loop, and the step of a loop is an assignment, as the grammar has it.
   */
  function Scope(s: H.Node, slots: set<string>, inLoop: bool): Option<set<string>>
    decreases s, 0
  {
    match s
    case Null => Some(slots)
    case Block(stmts) => ScopeAll(stmts, slots, inLoop)
    case Assign(t, e, d) => ScopeIf(AssignResolves(t, e, DeclaredSlots(t, d, slots)), DeclaredSlots(t, d, slots))
    case If(c, thn, els) =>
      var then1 := Scope(thn, slots, inLoop);
      if !Resolves(c, slots) || then1.None? then None else Scope(els, then1.value, inLoop)
    case While(c, body, step) =>
      var body1 := Scope(body, slots, true);
      if !Resolves(c, slots) || body1.None? || !(step.Null? || step.Assign?) then None
      else Scope(step, body1.value, true)
    case Return(None) => Some(slots)
    case Return(Some(e)) => ScopeIf(Resolves(e, slots), slots)
    case Break => ScopeIf(inLoop, slots)
    case Continue => ScopeIf(inLoop, slots)
    case Evaluate(e) => ScopeIf(Resolves(e, slots), slots)
  }

  function ScopeIf(ok: bool, slots: set<string>): Option<set<string>> {
    if ok then Some(slots) else None
  }

  function ScopeAll(stmts: seq<H.Node>, slots: set<string>, inLoop: bool): Option<set<string>>
    decreases stmts, 0
  {
    if stmts == [] then Some(slots)
    else
      var next := Scope(stmts[0], slots, inLoop);
      if next.None? || Ends(stmts[0]) then next else ScopeAll(stmts[1..], next.value, inLoop)
  }

  predicate EndsAll(stmts: seq<H.Node>) {
    exists i | 0 <= i < |stmts| :: Ends(stmts[i])
  }

  /**
   After an emittable statement the insert block is terminated exactly if the
   statement always leaves, and the slots are those predicted.
   */
  lemma {:induction false} TerminatedIffEnds(s: H.Node, b: Builder)
    requires b.Valid() && !b.Terminated() && Scope(s, b.slots, b.loopStack != []).Some?
    ensures EmitStmt(s, b).Terminated() <==> Ends(s)
    ensures Some(EmitStmt(s, b).slots) == Scope(s, b.slots, b.loopStack != [])
    decreases s, 1
  {
    match s
    case Null =>
    case Block(stmts) =>
      TerminatedIffEndsAll(stmts, b);
    case Assign(_, _, _) =>
    case If(_, _, _) =>
      IfSlots(s, b);
    case While(_, _, _) =>
      WhileSlots(s, b);
    case Return(_) =>
    case Break =>
    case Continue =>
    case Evaluate(_) =>
  }

  lemma {:induction false} IfSlots(s: H.Node, b: Builder)
    requires s.If? && b.Valid() && !b.Terminated() && Scope(s, b.slots, b.loopStack != []).Some?
    ensures !EmitIf(s, b).Terminated()
    ensures Some(EmitIf(s, b).slots) == Scope(s, b.slots, b.loopStack != [])
    decreases s, 0
  {
    var e := IfEnter(s.cond, !s.elseBranch.Null?, b);
    TerminatedIffEnds(s.thenBranch, e);
    if !s.elseBranch.Null? {
      NextSlots(s.elseBranch, IfElseEnter(|b.blocks|, EmitStmt(s.thenBranch, e)),
              Scope(s.thenBranch, b.slots, b.loopStack != []).value, b.loopStack != []);
    }
  }

  lemma {:induction false} WhileSlots(s: H.Node, b: Builder)
    requires s.While? && b.Valid() && !b.Terminated() && Scope(s, b.slots, b.loopStack != []).Some?
    ensures !EmitWhile(s, b).Terminated()
    ensures Some(EmitWhile(s, b).slots) == Scope(s, b.slots, b.loopStack != [])
    decreases s, 0
  {
    var n := |b.blocks|;
    var f := WhileTest(s.cond, n, WhileEnter(b));
    NextSlots(s.body, f, b.slots, true);
    NextSlots(s.step, WhileStepEnter(n, EmitStmt(s.body, f)), Scope(s.body, b.slots, true).value, true);
  }

  lemma {:induction false} NextSlots(s: H.Node, m: Builder, slots: set<string>, inLoop: bool)
    requires m.Valid() && !m.Terminated() && m.slots == slots && (m.loopStack != []) == inLoop
    requires Scope(s, slots, inLoop).Some?
    ensures Some(EmitStmt(s, m).slots) == Scope(s, slots, inLoop)
    decreases s, 2
  {
    TerminatedIffEnds(s, m);
  }

  lemma {:induction false} TerminatedIffEndsAll(stmts: seq<H.Node>, b: Builder)
    requires b.Valid() && !b.Terminated() && ScopeAll(stmts, b.slots, b.loopStack != []).Some?
    ensures EmitAll(stmts, b).Terminated() <==> EndsAll(stmts)
    ensures Some(EmitAll(stmts, b).slots) == ScopeAll(stmts, b.slots, b.loopStack != [])
    decreases stmts, 0
  {
    if stmts != [] {
      TerminatedIffEnds(stmts[0], b);
      if !Ends(stmts[0]) {
        TerminatedIffEndsAll(stmts[1..], EmitStmt(stmts[0], b));
        assert forall i | 1 <= i < |stmts| :: stmts[i] == stmts[1..][i - 1];
        assert forall i | 0 <= i < |stmts[1..]| :: stmts[1..][i] == stmts[i + 1];
      }
    }
  }

  // ---------- simulation of statements ----------

  ghost function PointOf(b: Builder): Point
    requires b.Valid()
  {
    Point(b.cur, |b.blocks[b.cur].instrs|)
  }

  ghost function ExitOf(b: Builder): Option<Point>
    requires b.Valid()
  {
    if b.Terminated() then None else Some(PointOf(b))
  }

  ghost function LoopOf(b: Builder): Option<LoopContext> {
    if b.loopStack == [] then None else Some(b.loopStack[|b.loopStack| - 1])
  }

  lemma {:induction false} FramedExtends(b: Builder, r: Builder)
    requires Framed(b, r) && !b.Terminated()
    ensures Extends(r.blocks, b.blocks)
  {
  }

  lemma {:induction false} ClosedExtends(u: Builder, l: nat)
    requires u.Valid()
    ensures Extends(Closed(u, l), u.blocks)
  {
  }

  /** The branch that ends `u` in the finished graph. */
  lemma {:induction false} ClosedBranches(g: Graph, u: Builder, l: nat)
    requires u.Valid() && !u.Terminated() && Extends(g, Closed(u, l))
    ensures BranchesTo(g, PointOf(u), l)
  {
    assert Closed(u, l)[u.cur].term.Some?;
  }

  lemma {:induction false} ArmExtends(e: Builder, t: Builder, target: nat, g: Graph)
    requires Framed(e, t) && !e.Terminated() && Extends(g, Closed(t, target))
    ensures Extends(g, t.blocks) && Extends(g, e.blocks)
  {
    ClosedExtends(t, target);
    ExtendsTrans(g, Closed(t, target), t.blocks);
    FramedExtends(e, t);
    ExtendsTrans(g, t.blocks, e.blocks);
  }

  /** Code emitted into the current block runs from the old to the new insert point. */
  lemma {:induction false} EmittedRuns(g: Graph, b: Builder, c: Code, regs: Registers, st: State) returns (k: nat)
    requires b.Valid() && Extends(g, b.Emit(c).blocks)
    ensures Steps(g, At(PointOf(b).block, PointOf(b).pc, regs, st), k)
         == match RunAll(c.instrs, regs, st)
            case Some(e) => At(PointOf(b.Emit(c)).block, PointOf(b.Emit(c)).pc, e.regs, e.st)
            case None => Wrong
  {
    var l, pc := b.cur, |b.blocks[b.cur].instrs|;
    assert b.Emit(c).blocks[l].instrs <= g[l].instrs;
    assert b.Emit(c).blocks[l].instrs[pc..pc + |c.instrs|] == c.instrs;
    k := StepsRunAll(g, l, pc, c.instrs, regs, st);
  }

  lemma {:induction false} AssignSimulates(t: Target, e: Expr, d: bool, b: Builder, b1: Builder, g: Graph)
    requires b.Valid() && !b.Terminated() && b1 == b.(slots := DeclaredSlots(t, d, b.slots))
    requires AssignResolves(t, e, b1.slots)
    requires Extends(g, b1.Emit(AssignCode(t, e, b1.slots, b.nextReg)).blocks)
    ensures Simulates(H.Assign(t, e, d), g, PointOf(b), Some(PointOf(b1.Emit(AssignCode(t, e, b1.slots, b.nextReg)))),
            LoopOf(b))
  {
    var c := AssignCode(t, e, b1.slots, b.nextReg);
    forall regs, st, fuel
      ensures Lands(g, At(PointOf(b).block, PointOf(b).pc, regs, st), H.Exec(H.Assign(t, e, d), st, fuel),
                    Some(PointOf(b1.Emit(c))), LoopOf(b), fuel)
    {
      AssignCorrect(t, e, b1.slots, b.nextReg, regs, st);
      var k := EmittedRuns(g, b1, c, regs, st);
    }
  }

  lemma {:induction false} EvaluateSimulates(e: Expr, b: Builder, g: Graph)
    requires b.Valid() && !b.Terminated() && Resolves(e, b.slots)
    requires Extends(g, b.Emit(ExprCode(e, b.slots, b.nextReg)).blocks)
    ensures Simulates(H.Evaluate(e), g, PointOf(b), Some(PointOf(b.Emit(ExprCode(e, b.slots, b.nextReg)))), LoopOf(b))
  {
    var c := ExprCode(e, b.slots, b.nextReg);
    forall regs, st, fuel
      ensures Lands(g, At(PointOf(b).block, PointOf(b).pc, regs, st), H.Exec(H.Evaluate(e), st, fuel),
                    Some(PointOf(b.Emit(c))), LoopOf(b), fuel)
    {
      ExprCorrect(e, b.slots, b.nextReg, regs, st);
      var k := EmittedRuns(g, b, c, regs, st);
    }
  }

  /** Code for `e` followed by terminator `t`: one more step. */
  lemma {:induction false} TerminatedRuns(e: Expr, t: Terminator, b: Builder, g: Graph, regs: Registers, st: State)
    returns (k: nat, regs': Registers)
    requires b.Valid() && !b.Terminated() && Resolves(e, b.slots)
    requires Extends(g, b.Emit(ExprCode(e, b.slots, b.nextReg)).Terminate(t).blocks)
    ensures var c := ExprCode(e, b.slots, b.nextReg);
      && c.value.Some?
      && var p := PointOf(b.Emit(c));
      && p.block < |g| && p.pc == |g[p.block].instrs| && g[p.block].term == Some(t)
      && var d := Steps(g, At(PointOf(b).block, PointOf(b).pc, regs, st), k);
      && if Eval(e, st).None? then d == Wrong
         else ValueOf(c.value.value, regs') == Eval(e, st) && d == Step(g, At(p.block, p.pc, regs', st))
  {
    var c := ExprCode(e, b.slots, b.nextReg);
    var r := b.Emit(c).Terminate(t);
    ValueIffResolves(e, b.slots, b.nextReg);
    ExprCorrect(e, b.slots, b.nextReg, regs, st);
    assert r.blocks[b.cur].term.Some?;
    assert g[b.cur] == r.blocks[b.cur];
    k := EmittedRuns(g, b, c, regs, st);
    var f := RunAll(c.instrs, regs, st);
    regs' := regs;
    if f.Some? {
      StepsAdd(g, At(PointOf(b).block, PointOf(b).pc, regs, st), k, 1);
      k, regs' := k + 1, f.value.regs;
    }
  }

  lemma {:induction false} ReturnSimulates(e: Expr, b: Builder, g: Graph)
    requires b.Valid() && !b.Terminated() && Resolves(e, b.slots)
    requires var c := ExprCode(e, b.slots, b.nextReg);
      c.value.Some? && Extends(g, b.Emit(c).Terminate(Ret(c.value.value)).blocks)
    ensures Simulates(H.Return(Some(e)), g, PointOf(b), None, LoopOf(b))
  {
    forall regs, st, fuel
      ensures Lands(g, At(PointOf(b).block, PointOf(b).pc, regs, st), H.Exec(H.Return(Some(e)), st, fuel), None,
              LoopOf(b), fuel)
    {
      var k, regs1 := TerminatedRuns(e, Ret(ExprCode(e, b.slots, b.nextReg).value.value), b, g, regs, st);
    }
  }

  lemma {:induction false} JumpSimulates(s: H.Node, b: Builder, l: nat, g: Graph)
    requires b.Valid() && !b.Terminated() && b.loopStack != []
    requires (s.Break? && l == LoopOf(b).value.exitBB) || (s.Continue? && l == LoopOf(b).value.continuationBB)
    requires Extends(g, Closed(b, l))
    ensures Simulates(s, g, PointOf(b), None, LoopOf(b))
  {
    ClosedBranches(g, b, l);
    forall regs, st, fuel
      ensures Lands(g, At(PointOf(b).block, PointOf(b).pc, regs, st), H.Exec(s, st, fuel), None, LoopOf(b), fuel)
    {
      assert Steps(g, At(PointOf(b).block, PointOf(b).pc, regs, st), 1) == At(l, 0, regs, st);
    }
  }

  lemma {:induction false} VoidReturnSimulates(b: Builder, g: Graph)
    requires b.Valid() && !b.Terminated() && Extends(g, b.Terminate(RetVoid).blocks)
    ensures Simulates(H.Return(None), g, PointOf(b), None, LoopOf(b))
  {
    assert b.Terminate(RetVoid).blocks[b.cur].term.Some?;
    forall regs, st, fuel
      ensures Lands(g, At(PointOf(b).block, PointOf(b).pc, regs, st), H.Exec(H.Return(None), st, fuel), None,
              LoopOf(b), fuel)
    {
      assert Steps(g, At(PointOf(b).block, PointOf(b).pc, regs, st), 1) == Halted(None, st);
    }
  }

  lemma {:induction false} IfTests(c: Expr, hasElse: bool, b: Builder, g: Graph, n: nat)
    requires b.Valid() && !b.Terminated() && Resolves(c, b.slots) && n == |b.blocks|
    requires Extends(g, IfEnter(c, hasElse, b).blocks)
    ensures Tests(c, g, PointOf(b), Point(n, 0), Point(if hasElse then n + 1 else n + 2, 0))
  {
    var v := ExprCode(c, b.slots, b.nextReg);
    ValueIffResolves(c, b.slots, b.nextReg);
    var t := CondBr(v.value.value, n, if hasElse then n + 1 else n + 2);
    HeadExtends(b.Emit(v), t, IfEnter(c, hasElse, b), g);
    forall regs, st
      ensures TestLands(g, At(PointOf(b).block, PointOf(b).pc, regs, st), Eval(c, st), Point(n, 0),
                        Point(if hasElse then n + 1 else n + 2, 0), st)
    {
      var k, regs1 := TerminatedRuns(c, t, b, g, regs, st);
    }
  }

  lemma {:induction false} WhileTests(c: Expr, n: nat, e: Builder, g: Graph)
    requires Opens(e, n) && n + 4 <= |e.blocks| && Resolves(c, e.slots)
    requires Extends(g, WhileTest(c, n, e).blocks)
    ensures Tests(c, g, Point(n, 0), Point(n + 1, 0), Point(n + 3, 0))
  {
    var v := ExprCode(c, e.slots, e.nextReg);
    ValueIffResolves(c, e.slots, e.nextReg);
    var t := CondBr(v.value.value, n + 1, n + 3);
    HeadExtends(e.Emit(v), t, WhileTest(c, n, e), g);
    forall regs, st
      ensures TestLands(g, At(n, 0, regs, st), Eval(c, st), Point(n + 1, 0), Point(n + 3, 0), st)
    {
      var k, regs1 := TerminatedRuns(c, t, e, g, regs, st);
    }
  }

  lemma {:induction false} HeadExtends(b: Builder, t: Terminator, r: Builder, g: Graph)
    requires b.Valid() && !b.Terminated() && Extends(g, r.blocks) && |b.blocks| <= |r.blocks|
    requires forall l | 0 <= l < |b.blocks| :: r.blocks[l] == b.Terminate(t).blocks[l]
    ensures Extends(g, b.Terminate(t).blocks)
  {
    assert Extends(r.blocks, b.Terminate(t).blocks);
    ExtendsTrans(g, r.blocks, b.Terminate(t).blocks);
  }

  /** Statements without statements inside. */
  predicate Simple(s: H.Node) {
    !s.Block? && !s.If? && !s.While?
  }

  lemma {:induction false} JumpsSimulate(s: H.Node, b: Builder, g: Graph)
    requires s.Break? || s.Continue?
    requires b.Valid() && !b.Terminated() && Scope(s, b.slots, b.loopStack != []).Some?
    requires Extends(g, EmitStmt(s, b).blocks)
    ensures Simulates(s, g, PointOf(b), ExitOf(EmitStmt(s, b)), LoopOf(b))
  {
    JumpSimulates(s, b, if s.Break? then LoopOf(b).value.exitBB else LoopOf(b).value.continuationBB, g);
  }

  lemma {:induction false} SimpleSimulates(s: H.Node, b: Builder, g: Graph)
    requires Simple(s) && b.Valid() && !b.Terminated() && Scope(s, b.slots, b.loopStack != []).Some?
    requires Extends(g, EmitStmt(s, b).blocks)
    ensures Simulates(s, g, PointOf(b), ExitOf(EmitStmt(s, b)), LoopOf(b))
  {
    match s
    case Null => NullSimulates(g, PointOf(b), LoopOf(b));
    case Assign(t, e, d) => AssignSimulates(t, e, d, b, b.(slots := DeclaredSlots(t, d, b.slots)), g);
    case Return(None) => VoidReturnSimulates(b, g);
    case Return(Some(e)) =>
      ValueIffResolves(e, b.slots, b.nextReg);
      ReturnSimulates(e, b, g);
    case Evaluate(e) => EvaluateSimulates(e, b, g);
    case _ => JumpsSimulate(s, b, g);
  }

  /**
   Simulation: in a graph that contains the code emitted for `s`, that code does what `s`
   does, from every store, for every outcome and for every amount of fuel.
   */
  lemma {:induction false} EmitSimulates(s: H.Node, b: Builder, g: Graph)
    requires b.Valid() && !b.Terminated() && Scope(s, b.slots, b.loopStack != []).Some?
    requires Extends(g, EmitStmt(s, b).blocks)
    ensures Simulates(s, g, PointOf(b), ExitOf(EmitStmt(s, b)), LoopOf(b))
    decreases s, 3
  {
    match s
    case Block(stmts) =>
      EmitAllSimulates(stmts, b, g);
      BlockSimulates(stmts, g, PointOf(b), ExitOf(EmitAll(stmts, b)), LoopOf(b));
    case If(_, _, _) => EmitIfSimulates(s, b, g);
    case While(_, _, _) => EmitWhileSimulates(s, b, g);
    case _ => SimpleSimulates(s, b, g);
  }

  lemma {:induction false} BlockSimulates(stmts: seq<H.Node>, g: Graph, p: Point, exit: Option<Point>,
          loop: Option<LoopContext>)
    requires SimulatesAll(stmts, g, p, exit, loop)
    ensures Simulates(H.Block(stmts), g, p, exit, loop)
  {
    forall regs, st, fuel
      ensures Lands(g, At(p.block, p.pc, regs, st), H.Exec(H.Block(stmts), st, fuel), exit, loop, fuel)
    {
      assert Lands(g, At(p.block, p.pc, regs, st), H.ExecAll(stmts, st, fuel), exit, loop, fuel);
    }
  }

  lemma {:induction false} EmitAllSimulates(stmts: seq<H.Node>, b: Builder, g: Graph)
    requires b.Valid() && !b.Terminated() && ScopeAll(stmts, b.slots, b.loopStack != []).Some?
    requires Extends(g, EmitAll(stmts, b).blocks)
    ensures SimulatesAll(stmts, g, PointOf(b), ExitOf(EmitAll(stmts, b)), LoopOf(b))
    decreases stmts, 0
  {
    if stmts == [] {
      forall regs, st, fuel
        ensures Lands(g, At(PointOf(b).block, PointOf(b).pc, regs, st), H.ExecAll(stmts, st, fuel), Some(PointOf(b)),
                LoopOf(b), fuel)
      {
        assert Steps(g, At(PointOf(b).block, PointOf(b).pc, regs, st), 0)
             == At(PointOf(b).block, PointOf(b).pc, regs, st);
      }
    } else {
      var t := EmitStmt(stmts[0], b);
      var r := EmitAll(stmts[1..], t);
      TerminatedIffEnds(stmts[0], b);
      if !t.Terminated() {
        FramedExtends(t, r);
        ExtendsTrans(g, r.blocks, t.blocks);
        EmitAllSimulates(stmts[1..], t, g);
      }
      EmitSimulates(stmts[0], b, g);
      SequenceSimulates(stmts, g, PointOf(b), ExitOf(t), ExitOf(r), LoopOf(b));
    }
  }

  /** A branch of an `if`, or the body or the step of a loop, that goes on to `target`. */
  lemma {:induction false} ArmSimulates(s: H.Node, e: Builder, g: Graph, target: nat)
    requires e.Valid() && !e.Terminated() && Scope(s, e.slots, e.loopStack != []).Some?
    requires Extends(g, Closed(EmitStmt(s, e), target))
    ensures Simulates(s, g, PointOf(e), Some(Point(target, 0)), LoopOf(e))
    ensures Extends(g, e.blocks)
    decreases s, 4
  {
    var t := EmitStmt(s, e);
    ArmExtends(e, t, target, g);
    EmitSimulates(s, e, g);
    if !t.Terminated() {
      ClosedBranches(g, t, target);
    }
    Redirect(s, g, PointOf(e), ExitOf(t), target, LoopOf(e));
  }

  lemma {:induction false} EmitIfSimulates(s: H.Node, b: Builder, g: Graph)
    requires s.If? && b.Valid() && !b.Terminated() && Scope(s, b.slots, b.loopStack != []).Some?
    requires Extends(g, EmitIf(s, b).blocks)
    ensures Simulates(s, g, PointOf(b), ExitOf(EmitIf(s, b)), LoopOf(b))
    decreases s, 2
  {
    var n, e := |b.blocks|, IfEnter(s.cond, !s.elseBranch.Null?, b);
    IfParts(s, b, e, n, g);
    IfFrom(s, b, e, n, g);
  }

  /** The test and the branches together. */
  lemma {:induction false} IfFrom(s: H.Node, b: Builder, e: Builder, n: nat, g: Graph)
    requires s.If? && b.Valid() && !b.Terminated() && n == |b.blocks| && Scope(s, b.slots, b.loopStack != []).Some?
    requires e == IfEnter(s.cond, !s.elseBranch.Null?, b) && e.slots == b.slots && e.loopStack == b.loopStack
    requires Opens(e, n) && n + 3 == |e.blocks| && e.blocks[n + 1] == e.blocks[n + 2] == Block([], None)
    requires s.elseBranch.Null? ==> Extends(g, Closed(EmitStmt(s.thenBranch, e), n + 2))
    requires !s.elseBranch.Null? ==>
      Extends(g, Closed(EmitStmt(s.elseBranch, IfElseEnter(n, EmitStmt(s.thenBranch, e))), n + 2))
    ensures Simulates(s, g, PointOf(b), Some(Point(n + 2, 0)), LoopOf(b))
    decreases s, 1
  {
    var no := Point(if s.elseBranch.Null? then n + 2 else n + 1, 0);
    IfArms(s, n, e, g);
    IfTests(s.cond, !s.elseBranch.Null?, b, g, n);
    IfSimulates(s, g, PointOf(b), Point(n, 0), no, Point(n + 2, 0), LoopOf(b));
  }

  /** How the graph of an `if` is put together, as its branches need it. */
  lemma {:induction false} IfParts(s: H.Node, b: Builder, e: Builder, n: nat, g: Graph)
    requires s.If? && b.Valid() && !b.Terminated() && Scope(s, b.slots, b.loopStack != []).Some?
    requires n == |b.blocks| && e == IfEnter(s.cond, !s.elseBranch.Null?, b) && Extends(g, EmitIf(s, b).blocks)
    ensures Opens(e, n) && n + 3 == |e.blocks| && e.blocks[n + 1] == e.blocks[n + 2] == Block([], None)
    ensures e.slots == b.slots && e.loopStack == b.loopStack
    ensures s.elseBranch.Null? ==> Extends(g, Closed(EmitStmt(s.thenBranch, e), n + 2))
    ensures !s.elseBranch.Null? ==>
      Extends(g, Closed(EmitStmt(s.elseBranch, IfElseEnter(n, EmitStmt(s.thenBranch, e))), n + 2))
    ensures ExitOf(EmitIf(s, b)) == Some(Point(n + 2, 0))
  {
  }

  /** The branches of an `if` whose blocks start at `n`. */
  lemma {:induction false} IfArms(s: H.Node, n: nat, e: Builder, g: Graph)
    requires s.If? && Opens(e, n) && n + 3 == |e.blocks| && e.blocks[n + 1] == e.blocks[n + 2] == Block([], None)
    requires Scope(s, e.slots, e.loopStack != []).Some?
    requires s.elseBranch.Null? ==> Extends(g, Closed(EmitStmt(s.thenBranch, e), n + 2))
    requires !s.elseBranch.Null? ==>
      Extends(g, Closed(EmitStmt(s.elseBranch, IfElseEnter(n, EmitStmt(s.thenBranch, e))), n + 2))
    ensures Simulates(s.thenBranch, g, Point(n, 0), Some(Point(n + 2, 0)), LoopOf(e))
    ensures Simulates(s.elseBranch, g, Point(if s.elseBranch.Null? then n + 2 else n + 1, 0), Some(Point(n + 2, 0)),
            LoopOf(e))
    ensures Extends(g, e.blocks)
    decreases s, 0
  {
    if s.elseBranch.Null? {
      NullSimulates(g, Point(n + 2, 0), LoopOf(e));
    } else {
      ElseArm(s, n, e, EmitStmt(s.thenBranch, e), g);
    }
    ThenScoped(s, e.slots, e.loopStack != []);
    ThenArm(s, n, e, g);
  }

  lemma {:induction false} ThenScoped(s: H.Node, slots: set<string>, inLoop: bool)
    requires s.If? && Scope(s, slots, inLoop).Some?
    ensures Scope(s.thenBranch, slots, inLoop).Some?
  {
  }

  lemma {:induction false} ThenArm(s: H.Node, n: nat, e: Builder, g: Graph)
    requires s.If? && Opens(e, n) && Scope(s.thenBranch, e.slots, LoopOf(e).Some?).Some?
    requires Extends(g, Closed(EmitStmt(s.thenBranch, e), n + 2))
    ensures Simulates(s.thenBranch, g, Point(n, 0), Some(Point(n + 2, 0)), LoopOf(e)) && Extends(g, e.blocks)
    decreases s.thenBranch, 6
  {
    ArmFrom(s.thenBranch, e, n, e.slots, g, n + 2, LoopOf(e));
  }

  lemma {:induction false} ElseArm(s: H.Node, n: nat, e: Builder, t: Builder, g: Graph)
    requires s.If? && !s.elseBranch.Null?
    requires Opens(e, n) && n + 3 == |e.blocks| && e.blocks[n + 1] == e.blocks[n + 2] == Block([], None)
    requires t == EmitStmt(s.thenBranch, e)
    requires Scope(s, e.slots, e.loopStack != []).Some?
    requires Extends(g, Closed(EmitStmt(s.elseBranch, IfElseEnter(n, t)), n + 2))
    ensures Simulates(s.elseBranch, g, Point(n + 1, 0), Some(Point(n + 2, 0)), LoopOf(e))
    ensures Extends(g, Closed(t, n + 2))
    decreases s.elseBranch, 6
  {
    NextSlots(s.thenBranch, e, e.slots, e.loopStack != []);
    ArmFrom(s.elseBranch, IfElseEnter(n, t), n + 1, Scope(s.thenBranch, e.slots, e.loopStack != []).value, g, n + 2,
            LoopOf(e));
  }

  lemma {:induction false} ArmFrom(s: H.Node, m: Builder, l: nat, slots: set<string>, g: Graph, target: nat,
          loop: Option<LoopContext>)
    requires Opens(m, l) && m.slots == slots && LoopOf(m) == loop && Scope(s, slots, loop.Some?).Some?
    requires Extends(g, Closed(EmitStmt(s, m), target))
    ensures Simulates(s, g, Point(l, 0), Some(Point(target, 0)), loop)
    ensures Extends(g, m.blocks)
    decreases s, 5
  {
    ArmSimulates(s, m, g, target);
  }

  lemma {:induction false} EmitWhileSimulates(s: H.Node, b: Builder, g: Graph)
    requires s.While? && b.Valid() && !b.Terminated() && Scope(s, b.slots, b.loopStack != []).Some?
    requires Extends(g, EmitWhile(s, b).blocks)
    ensures Simulates(s, g, PointOf(b), ExitOf(EmitWhile(s, b)), LoopOf(b))
    decreases s, 2
  {
    var n := |b.blocks|;
    var loop := Some(LoopContext(n + 2, n + 3));
    var f := WhileArms(s, b, g, n, loop);
    WhileEntry(s, b, g, n);
    WhileExit(s, b, n);
    LoopGraphSimulates(s, g, PointOf(b), n, ExitOf(EmitWhile(s, b)), loop, LoopOf(b));
  }

  ghost predicate ArmsSimulate(s: H.Node, n: nat, g: Graph, loop: Option<LoopContext>)
    requires s.While?
  {
    && Simulates(s.body, g, Point(n + 1, 0), Some(Point(n + 2, 0)), loop)
    && Simulates(s.step, g, Point(n + 2, 0), Some(Point(n, 0)), loop)
  }

  lemma {:induction false} LoopGraphSimulates(s: H.Node, g: Graph, p: Point, n: nat, exit: Option<Point>,
          loop: Option<LoopContext>, outer: Option<LoopContext>)
    requires s.While? && (s.step.Null? || s.step.Assign?) && ArmsSimulate(s, n, g, loop)
    requires loop == Some(LoopContext(n + 2, n + 3)) && exit == Some(Point(n + 3, 0))
    requires Tests(s.cond, g, Point(n, 0), Point(n + 1, 0), Point(n + 3, 0)) && BranchesTo(g, p, n)
    ensures Simulates(s, g, p, exit, outer)
  {
    WhileSimulates(s, g, p, n, outer);
  }

  lemma {:induction false} WhileArms(s: H.Node, b: Builder, g: Graph, n: nat,
          loop: Option<LoopContext>) returns (f: Builder)
    requires s.While? && b.Valid() && !b.Terminated() && Scope(s, b.slots, b.loopStack != []).Some?
    requires Extends(g, EmitWhile(s, b).blocks)
    requires n == |b.blocks| && loop == Some(LoopContext(n + 2, n + 3))
    ensures ArmsSimulate(s, n, g, loop)
    ensures f == WhileTest(s.cond, n, WhileEnter(b)) && Extends(g, f.blocks)
    decreases s, 1
  {
    f := LoopHead(s, b, n, loop);
    LoopArms(s, n, f, g, loop, EmitWhile(s, b).blocks);
  }

  lemma {:induction false} WhileEntry(s: H.Node, b: Builder, g: Graph, n: nat)
    requires s.While? && b.Valid() && !b.Terminated() && Resolves(s.cond, b.slots) && n == |b.blocks|
    requires Extends(g, WhileTest(s.cond, n, WhileEnter(b)).blocks)
    ensures Tests(s.cond, g, Point(n, 0), Point(n + 1, 0), Point(n + 3, 0)) && BranchesTo(g, PointOf(b), n)
  {
    WhileTests(s.cond, n, WhileEnter(b), g);
    EnterBranches(b, g, s.cond, n);
  }

  lemma {:induction false} WhileExit(s: H.Node, b: Builder, n: nat)
    requires s.While? && b.Valid() && !b.Terminated() && n == |b.blocks|
    ensures ExitOf(EmitWhile(s, b)) == Some(Point(n + 3, 0))
  {
  }

  lemma {:induction false} LoopHead(s: H.Node, b: Builder, n: nat, loop: Option<LoopContext>) returns (f: Builder)
    requires s.While? && b.Valid() && !b.Terminated() && Scope(s, b.slots, b.loopStack != []).Some?
    requires n == |b.blocks| && loop == Some(LoopContext(n + 2, n + 3))
    ensures f == WhileTest(s.cond, n, WhileEnter(b))
    ensures Opens(f, n + 1) && n + 4 == |f.blocks| && f.blocks[n + 2] == f.blocks[n + 3] == Block([], None)
    ensures LoopOf(f) == loop && Scope(s, f.slots, true).Some?
    ensures EmitWhile(s, b).blocks == Closed(EmitStmt(s.step, WhileStepEnter(n, EmitStmt(s.body, f))), n)
  {
    f := WhileTest(s.cond, n, WhileEnter(b));
  }

  /** The body and the step of a loop whose blocks start at `n`. */
  lemma {:induction false} LoopArms(s: H.Node, n: nat, f: Builder, g: Graph, loop: Option<LoopContext>, r: Graph)
    requires s.While? && Opens(f, n + 1) && n + 4 == |f.blocks| && f.blocks[n + 2] == f.blocks[n + 3] == Block([], None)
    requires LoopOf(f) == loop && loop.Some? && Scope(s, f.slots, true).Some?
    requires r == Closed(EmitStmt(s.step, WhileStepEnter(n, EmitStmt(s.body, f))), n) && Extends(g, r)
    ensures ArmsSimulate(s, n, g, loop) && Extends(g, f.blocks)
    decreases s, 0
  {
    NextSlots(s.body, f, f.slots, true);
    ArmFrom(s.step, WhileStepEnter(n, EmitStmt(s.body, f)), n + 2, Scope(s.body, f.slots, true).value, g, n, loop);
    ArmFrom(s.body, f, n + 1, f.slots, g, n + 2, loop);
  }

  lemma {:induction false} EnterBranches(b: Builder, g: Graph, c: Expr, n: nat)
    requires b.Valid() && !b.Terminated() && n == |b.blocks| && Extends(g, WhileTest(c, n, WhileEnter(b)).blocks)
    ensures BranchesTo(g, PointOf(b), n)
  {
    var e := WhileEnter(b);
    assert e.blocks[b.cur] == e.blocks[..n][b.cur];
    assert WhileTest(c, n, e).blocks[b.cur].term.Some?;
  }
}
