/**
 Code generation from the mid-level tree: a builder with a moving insert point
 and a stack of loop targets.  The functions of this module say what one call
 adds to the builder; `Emitter` performs the same emission step by step.
 */
module Codegen {
  import opened Wrappers
  import opened Syntax
  import opened Cfg
  import H = Hir

  /**
   Straight-line code for the current block: the value it computes, if the generator has
   one, and the next unused register.
   */
  datatype Code = Code(instrs: seq<Instr>, value: Option<Operand>, next: nat)

  /** A block may exist before it is part of the function: `layout` lists the inserted ones. */
  datatype Builder = Builder(
    blocks: Graph,
    layout: seq<nat>,
    cur: nat,
    nextReg: nat,
    loopStack: seq<LoopContext>,
    slots: set<string>)
  {
    ghost predicate Valid() {
      && cur < |blocks|
      && forall i | 0 <= i < |loopStack| ::
           loopStack[i].continuationBB < |blocks| && loopStack[i].exitBB < |blocks|
    }

    predicate Terminated()
      requires cur < |blocks|
    {
      blocks[cur].term.Some?
    }

    /** Appends straight-line code to the current block. */
    function Emit(c: Code): Builder
      requires cur < |blocks|
    {
      this.(blocks := blocks[cur := Block(blocks[cur].instrs + c.instrs, blocks[cur].term)], nextReg := c.next)
    }

    function CreateDetached(): Builder {
      this.(blocks := blocks + [Block([], None)])
    }

    function CreateInFunction(): Builder {
      CreateDetached().(layout := layout + [|blocks|])
    }

    function Insert(l: nat): Builder {
      this.(layout := layout + [l])
    }

    function SetInsertPoint(l: nat): Builder {
      this.(cur := l)
    }

    function Terminate(t: Terminator): Builder
      requires cur < |blocks| && !Terminated()
    {
      this.(blocks := blocks[cur := Block(blocks[cur].instrs, Some(t))])
    }

    /** Branches to `l` unless the block already ends. */
    function BranchIfOpen(l: nat): Builder
      requires cur < |blocks|
    {
      if Terminated() then this else Terminate(Br(l))
    }

    function PushLoop(c: LoopContext): Builder {
      this.(loopStack := loopStack + [c])
    }

    function PopLoop(): Builder
      requires loopStack != []
    {
      this.(loopStack := loopStack[..|loopStack| - 1])
    }
  }

  /** Operators the generator has an instruction for; it yields no value for the others. */
  predicate Supported(op: BinOp) {
    op != And && op != Or
  }

  predicate Defined(c: Code) {
    c.value.Some? && c.value.value.Reg? ==> c.value.value.r < c.next
  }

  function PtrCode(a: Code, b: Code): (c: Code)
    ensures b.next <= c.next && Defined(c)
  {
    if a.value.None? || b.value.None? then Code(a.instrs + b.instrs, None, b.next)
    else Code(a.instrs + b.instrs + [ElementPtr(b.next, a.value.value, b.value.value)], Some(Reg(b.next)), b.next + 1)
  }

  /** Code for an expression, with registers from `n` on. */
  function ExprCode(e: Expr, slots: set<string>, n: nat): (c: Code)
    ensures n <= c.next && Defined(c)
    decreases e, 1
  {
    match e
    case Num(v) => Code([], Some(Const(I(v))), n)
    case BoolLit(v) => Code([], Some(Const(B(v))), n)
    case Var(x) => if x in slots then Code([Load(n, x)], Some(Reg(n)), n + 1) else Code([], None, n)
    case Unary(op, e) =>
      var a := ExprCode(e, slots, n);
      if a.value.None? then a
      else Code(a.instrs + [Un(a.next, op, a.value.value)], Some(Reg(a.next)), a.next + 1)
    case Binary(op, l, r) =>
      var a := ExprCode(l, slots, n);
      var b := ExprCode(r, slots, a.next);
      if a.value.None? || b.value.None? || !Supported(op) then Code(a.instrs + b.instrs, None, b.next)
      else Code(a.instrs + b.instrs + [Bin(b.next, op, a.value.value, b.value.value)], Some(Reg(b.next)), b.next + 1)
    case Index(arr, idx) =>
      var p := AddressCode(arr, idx, slots, n);
      if p.value.None? then p
      else Code(p.instrs + [LoadElement(p.next, p.value.value)], Some(Reg(p.next)), p.next + 1)
  }

  /** Address of a list element. */
  function AddressCode(arr: Expr, idx: Expr, slots: set<string>, n: nat): (c: Code)
    ensures n <= c.next && Defined(c)
    decreases Index(arr, idx), 0
  {
    var a := ExprCode(arr, slots, n);
    PtrCode(a, ExprCode(idx, slots, a.next))
  }

  /** The target of an assignment is evaluated before its right-hand side. */
  function AssignCode(t: Target, e: Expr, slots: set<string>, n: nat): (c: Code)
    ensures n <= c.next
  {
    match t
    case Name(x) =>
      if x !in slots then Code([], None, n)
      else
        var v := ExprCode(e, slots, n);
        if v.value.None? then v else v.(instrs := v.instrs + [Store(x, v.value.value)])
    case Element(arr, idx) =>
      var p := AddressCode(arr, idx, slots, n);
      if p.value.None? then p
      else
        var v := ExprCode(e, slots, p.next);
        if v.value.None? then v.(instrs := p.instrs + v.instrs)
        else v.(instrs := p.instrs + v.instrs + [StoreElement(p.value.value, v.value.value)])
  }

  /** A declaration gives its name a slot before its value is computed. */
  function DeclaredSlots(t: Target, isDeclaration: bool, slots: set<string>): set<string> {
    if isDeclaration && t.Name? then slots + {t.x} else slots
  }

  /**
   What any statement may do to an open builder: grow the current block, leave
   every other existing block alone, and move to a block of its own.
   */
  ghost predicate Framed(b: Builder, r: Builder) {
    && b.Valid()
    && r.Valid()
    && |b.blocks| <= |r.blocks|
    && (r.cur == b.cur || |b.blocks| <= r.cur)
    && (forall l | 0 <= l < |b.blocks| && l != b.cur :: r.blocks[l] == b.blocks[l])
    && b.blocks[b.cur].instrs <= r.blocks[b.cur].instrs
    && (b.Terminated() ==> r == b)
    && r.loopStack == b.loopStack
    && b.slots <= r.slots
    && b.nextReg <= r.nextReg
  }

  /** `b` has just moved to the empty block `l`. */
  ghost predicate Opens(b: Builder, l: nat) {
    b.Valid() && b.cur == l && b.blocks[l] == Block([], None)
  }

  /** The condition branch of an `if`; a condition without a value counts as false. */
  function IfEnter(c: Expr, hasElse: bool, b: Builder): (r: Builder)
    requires b.Valid() && !b.Terminated()
    ensures Framed(b, r) && Opens(r, |b.blocks|) && |r.blocks| == |b.blocks| + 3 && r.slots == b.slots
    ensures forall l | |b.blocks| <= l < |r.blocks| :: r.blocks[l] == Block([], None)
  {
    var v := ExprCode(c, b.slots, b.nextReg);
    var cond := if v.value.None? then Const(B(false)) else v.value.value;
    var n := |b.blocks|;
    b.Emit(v).CreateInFunction().CreateDetached().CreateDetached()
      .Terminate(CondBr(cond, n, if hasElse then n + 1 else n + 2))
      .SetInsertPoint(n)
  }

  /** Creates the four blocks of a loop, makes it the innermost one and enters its condition block. */
  function WhileEnter(b: Builder): (r: Builder)
    requires b.Valid() && !b.Terminated()
    ensures Opens(r, |b.blocks|) && |r.blocks| == |b.blocks| + 4
    ensures r.slots == b.slots && r.nextReg == b.nextReg
    ensures r.loopStack == b.loopStack + [LoopContext(|b.blocks| + 2, |b.blocks| + 3)]
    ensures r.blocks[..|b.blocks|]
         == b.blocks[b.cur := Block(b.blocks[b.cur].instrs, Some(Br(|b.blocks|)))]
    ensures forall l | |b.blocks| <= l < |r.blocks| :: r.blocks[l] == Block([], None)
  {
    var n := |b.blocks|;
    b.CreateInFunction().CreateInFunction().CreateInFunction().CreateInFunction()
      .PushLoop(LoopContext(n + 2, n + 3))
      .Terminate(Br(n))
      .SetInsertPoint(n)
  }

  /** The condition block, whose first label is `n`; a condition without a value counts as true. */
  function WhileTest(c: Expr, n: nat, b: Builder): (r: Builder)
    requires b.Valid() && !b.Terminated() && b.cur == n && n + 4 <= |b.blocks|
    ensures r.Valid() && r.cur == n + 1 && |r.blocks| == |b.blocks|
    ensures b.blocks[n + 1] == Block([], None) ==> Opens(r, n + 1)
    ensures r.loopStack == b.loopStack && r.slots == b.slots && b.nextReg <= r.nextReg
    ensures r.blocks == b.blocks[n := r.blocks[n]] && b.blocks[n].instrs <= r.blocks[n].instrs
    ensures r.blocks[n].term.Some?
  {
    var v := ExprCode(c, b.slots, b.nextReg);
    var cond := if v.value.None? then Const(B(true)) else v.value.value;
    b.Emit(v).Terminate(CondBr(cond, n + 1, n + 3)).SetInsertPoint(n + 1)
  }

  /** `u` with a branch to `l` at its insert point, unless that block already ends. */
  function Closed(u: Builder, l: nat): Graph
    requires u.cur < |u.blocks|
  {
    if u.Terminated() then u.blocks
    else u.blocks[u.cur := Block(u.blocks[u.cur].instrs, Some(Br(l)))]
  }

  /** Ends the then-branch and opens the else-block `n + 1`. */
  function IfElseEnter(n: nat, u: Builder): (r: Builder)
    requires u.Valid() && n + 2 < |u.blocks| && u.cur != n + 1 && u.blocks[n + 1] == Block([], None)
    ensures Opens(r, n + 1) && r.blocks == Closed(u, n + 2)
    ensures r.loopStack == u.loopStack && r.slots == u.slots && r.nextReg == u.nextReg
  {
    u.BranchIfOpen(n + 2).Insert(n + 1).SetInsertPoint(n + 1)
  }

  /** Ends the last branch and opens the merge block `n + 2`. */
  function IfLeave(n: nat, u: Builder): (r: Builder)
    requires u.Valid() && n + 2 < |u.blocks| && u.cur != n + 2 && u.blocks[n + 2] == Block([], None)
    ensures Opens(r, n + 2) && r.blocks == Closed(u, n + 2)
    ensures r.loopStack == u.loopStack && r.slots == u.slots && r.nextReg == u.nextReg
  {
    u.BranchIfOpen(n + 2).Insert(n + 2).SetInsertPoint(n + 2)
  }

  /** Ends the loop body and opens the step block `n + 2`. */
  function WhileStepEnter(n: nat, u: Builder): (r: Builder)
    requires u.Valid() && n + 3 < |u.blocks| && u.cur != n + 2 && u.blocks[n + 2] == Block([], None)
    ensures Opens(r, n + 2) && r.blocks == Closed(u, n + 2)
    ensures r.loopStack == u.loopStack && r.slots == u.slots && r.nextReg == u.nextReg
  {
    u.BranchIfOpen(n + 2).SetInsertPoint(n + 2)
  }

  /** Ends the step, opens the block after the loop and forgets the loop. */
  function WhileLeave(n: nat, u: Builder): (r: Builder)
    requires u.Valid() && n + 3 < |u.blocks| && u.cur != n + 3 && u.blocks[n + 3] == Block([], None)
    requires u.loopStack != []
    ensures Opens(r, n + 3) && r.blocks == Closed(u, n)
    ensures r.loopStack == u.loopStack[..|u.loopStack| - 1] && r.slots == u.slots && r.nextReg == u.nextReg
  {
    u.BranchIfOpen(n).SetInsertPoint(n + 3).PopLoop()
  }

  function EmitStmt(s: H.Node, b: Builder): (r: Builder)
    requires b.Valid()
    ensures Framed(b, r)
    decreases s, 1
  {
    if s.Null? || b.Terminated() then b
    else
      match s
      case Block(stmts) => EmitAll(stmts, b)
      case Assign(t, e, d) =>
        var slots := DeclaredSlots(t, d, b.slots);
        b.(slots := slots).Emit(AssignCode(t, e, slots, b.nextReg))
      case If(_, _, _) => EmitIf(s, b)
      case While(_, _, _) => EmitWhile(s, b)
      case Return(None) => b.Terminate(RetVoid)
      case Return(Some(e)) =>
        var v := ExprCode(e, b.slots, b.nextReg);
        b.Emit(v).Terminate(if v.value.None? then RetVoid else Ret(v.value.value))
      case Break => if b.loopStack == [] then b else b.Terminate(Br(b.loopStack[|b.loopStack| - 1].exitBB))
      case Continue =>
        if b.loopStack == [] then b else b.Terminate(Br(b.loopStack[|b.loopStack| - 1].continuationBB))
      case Evaluate(e) => b.Emit(ExprCode(e, b.slots, b.nextReg))
  }

  function EmitIf(s: H.Node, b: Builder): (r: Builder)
    requires b.Valid() && !b.Terminated() && s.If?
    ensures Framed(b, r)
    decreases s, 0
  {
    var n := |b.blocks|;
    var t := EmitStmt(s.thenBranch, IfEnter(s.cond, !s.elseBranch.Null?, b));
    if s.elseBranch.Null? then IfLeave(n, t) else IfLeave(n, EmitStmt(s.elseBranch, IfElseEnter(n, t)))
  }

  function EmitWhile(s: H.Node, b: Builder): (r: Builder)
    requires b.Valid() && !b.Terminated() && s.While?
    ensures Framed(b, r)
    decreases s, 0
  {
    var n := |b.blocks|;
    var b1 := WhileTest(s.cond, n, WhileEnter(b));
    var t := EmitStmt(s.body, b1);
    WhileLeave(n, EmitStmt(s.step, WhileStepEnter(n, t)))
  }

  /** Statements after a terminator are dropped. */
  function EmitAll(stmts: seq<H.Node>, b: Builder): (r: Builder)
    requires b.Valid()
    ensures Framed(b, r)
    decreases stmts, 0
  {
    if stmts == [] || b.Terminated() then b else EmitAll(stmts[1..], EmitStmt(stmts[0], b))
  }

  /** The arguments arrive in the first registers and are stored to the parameters' slots. */
  function ParamCode(params: seq<string>): Code {
    Code(seq(|params|, i requires 0 <= i < |params| => Store(params[i], Reg(i))), None, |params|)
  }

  function FunctionEntry(params: seq<string>): (b: Builder)
    ensures b.Valid() && !b.Terminated() && b.cur == 0 && |b.blocks| == 1
  {
    Builder([Block([], None)], [0], 0, 0, [], set x | x in params).Emit(ParamCode(params))
  }

  /** The value returned by a function that falls off its end. */
  function Fallback(isVoid: bool): Option<Value> {
    if isVoid then None else Some(I(0))
  }

  function FunctionExit(b: Builder, isVoid: bool): Builder
    requires b.Valid()
  {
    if b.Terminated() then b else b.Terminate(if isVoid then RetVoid else Ret(Const(I(0))))
  }

  function EmitFunction(params: seq<string>, body: seq<H.Node>, isVoid: bool): Builder {
    FunctionExit(EmitAll(body, FunctionEntry(params)), isVoid)
  }
}
