/**
 The code generator as it runs: one builder that is updated in place while the
 mid-level tree is walked.  Every method is proved to add exactly what the
 functions of `Codegen` say.
 */
module Emitter {
  import opened Wrappers
  import opened Syntax
  import opened Cfg
  import opened Codegen
  import H = Hir

  class FunctionEmitter {
    var blocks: Graph
    var layout: seq<nat>
    var cur: nat
    var nextReg: nat
    var loopStack: seq<LoopContext>
    var slots: set<string>

    ghost function View(): Builder
      reads this
    {
      Builder(blocks, layout, cur, nextReg, loopStack, slots)
    }

    constructor ()
      ensures View() == Builder([Block([], None)], [0], 0, 0, [], {})
    {
      blocks, layout, cur, nextReg, loopStack, slots := [Block([], None)], [0], 0, 0, [], {};
    }

    method Append(i: Instr)
      requires View().Valid()
      modifies this
      ensures View() == old(View()).Emit(Code([i], None, old(nextReg)))
    {
      blocks := blocks[cur := Block(blocks[cur].instrs + [i], blocks[cur].term)];
    }

    method FreshReg() returns (r: nat)
      modifies this`nextReg
      ensures r == old(nextReg) && nextReg == r + 1
    {
      r := nextReg;
      nextReg := nextReg + 1;
    }

    method Terminate(t: Terminator)
      requires View().Valid() && !View().Terminated()
      modifies this`blocks
      ensures View() == old(View()).Terminate(t)
    {
      blocks := blocks[cur := Block(blocks[cur].instrs, Some(t))];
    }

    method BranchIfOpen(l: nat)
      requires View().Valid()
      modifies this`blocks
      ensures View() == old(View()).BranchIfOpen(l)
    {
      if blocks[cur].term.None? {
        Terminate(Br(l));
      }
    }

    method CreateDetached() returns (l: nat)
      modifies this`blocks
      ensures l == old(|blocks|) && View() == old(View()).CreateDetached()
    {
      l := |blocks|;
      blocks := blocks + [Block([], None)];
    }

    method CreateInFunction() returns (l: nat)
      modifies this`blocks, this`layout
      ensures l == old(|blocks|) && View() == old(View()).CreateInFunction()
    {
      l := CreateDetached();
      layout := layout + [l];
    }

    /** The code added since `b`, and nothing else. */
    ghost predicate Added(b: Builder, c: Code)
      reads this
      requires b.Valid()
    {
      View() == b.Emit(c)
    }

    method EmitExpr(e: Expr) returns (v: Option<Operand>)
      requires View().Valid()
      modifies this
      ensures Added(old(View()), ExprCode(e, old(slots), old(nextReg)))
      ensures v == ExprCode(e, old(slots), old(nextReg)).value
      decreases e, 1
    {
      match e
      case Num(n) =>
        v := Some(Const(I(n)));
        EmitNothing();
      case BoolLit(b) =>
        v := Some(Const(B(b)));
        EmitNothing();
      case Var(x) =>
        if x in slots {
          var d := FreshReg();
          Append(Load(d, x));
          v := Some(Reg(d));
        } else {
          v := None;
          EmitNothing();
        }
      case Unary(op, e1) =>
        v := EmitExpr(e1);
        if v.Some? {
          v := EmitDefine(Un(nextReg, op, v.value), old(View()), ExprCode(e1, old(slots), old(nextReg)));
        }
      case Binary(op, l, r) =>
        var a := EmitExpr(l);
        var b := EmitExpr(r);
        EmittedTwice(old(View()), ExprCode(l, old(slots), old(nextReg)),
          ExprCode(r, old(slots), ExprCode(l, old(slots), old(nextReg)).next));
        if a.None? || b.None? || !Supported(op) {
          v := None;
        } else {
          v := EmitDefine(Bin(nextReg, op, a.value, b.value), old(View()),
            Two(ExprCode(l, old(slots), old(nextReg)),
                    ExprCode(r, old(slots), ExprCode(l, old(slots), old(nextReg)).next)));
        }
      case Index(arr, idx) =>
        v := EmitElementPtr(arr, idx);
        if v.Some? {
          v := EmitDefine(LoadElement(nextReg, v.value), old(View()), AddressCode(arr, idx, old(slots), old(nextReg)));
        }
    }

    /** Two stretches of code, one after the other. */
    ghost function Two(a: Code, b: Code): Code {
      Code(a.instrs + b.instrs, b.value, b.next)
    }

    lemma {:induction false} EmittedTwice(b: Builder, x: Code, y: Code)
      requires b.Valid()
      ensures b.Emit(x).Emit(y) == b.Emit(Two(x, y))
    {
      assert b.blocks[b.cur].instrs + (x.instrs + y.instrs) == (b.blocks[b.cur].instrs + x.instrs) + y.instrs;
    }

    lemma {:induction false} EmitNothing()
      requires View().Valid()
      ensures forall v :: View() == View().Emit(Code([], v, nextReg))
    {
      assert blocks[cur].instrs + [] == blocks[cur].instrs;
    }

    /** Appends `i`, which defines the next register, after the code `c`. */
    method EmitDefine(i: Instr, ghost b: Builder, ghost c: Code) returns (v: Option<Operand>)
      requires b.Valid() && Added(b, c) && View().Valid()
      modifies this
      ensures v == Some(Reg(c.next))
      ensures Added(b, Code(c.instrs + [i], v, c.next + 1))
    {
      var d := FreshReg();
      Append(i);
      v := Some(Reg(d));
      EmittedTwice(b, c, Code([i], v, d + 1));
    }

    method EmitElementPtr(arr: Expr, idx: Expr) returns (v: Option<Operand>)
      requires View().Valid()
      modifies this
      ensures Added(old(View()), AddressCode(arr, idx, old(slots), old(nextReg)))
      ensures v == AddressCode(arr, idx, old(slots), old(nextReg)).value
      decreases Index(arr, idx), 0
    {
      var a := EmitExpr(arr);
      var b := EmitExpr(idx);
      ghost var x := ExprCode(arr, old(slots), old(nextReg));
      ghost var y := ExprCode(idx, old(slots), x.next);
      EmittedTwice(old(View()), x, y);
      if a.None? || b.None? {
        v := None;
      } else {
        v := EmitDefine(ElementPtr(nextReg, a.value, b.value), old(View()), Two(x, y));
      }
    }

    method EmitAssign(t: Target, e: Expr, isDeclaration: bool)
      requires View().Valid() && !View().Terminated()
      modifies this
      ensures View() == EmitStmt(H.Assign(t, e, isDeclaration), old(View()))
    {
      match t
      case Name(x) =>
        if isDeclaration {
          slots := slots + {x};
        }
        ghost var b := View();
        if x in slots {
          var v := EmitExpr(e);
          if v.Some? {
            EmittedTwice(b, ExprCode(e, b.slots, b.nextReg), Code([Store(x, v.value)], v, nextReg));
            Append(Store(x, v.value));
          }
        } else {
          EmitNothing();
        }
      case Element(arr, idx) =>
        ghost var p := AddressCode(arr, idx, slots, nextReg);
        ghost var b := View();
        var q := EmitElementPtr(arr, idx);
        if q.Some? {
          ghost var c := ExprCode(e, slots, nextReg);
          var v := EmitExpr(e);
          EmittedTwice(b, p, c);
          if v.Some? {
            EmittedTwice(b, Two(p, c), Code([StoreElement(q.value, v.value)], v, nextReg));
            Append(StoreElement(q.value, v.value));
          }
        }
    }

    method Emit(s: H.Node)
      requires View().Valid()
      modifies this
      ensures View() == EmitStmt(s, old(View()))
      decreases s, 1
    {
      if s.Null? || blocks[cur].term.Some? {
        return;
      }
      match s
      case Block(stmts) =>
        EmitBlock(stmts);
      case Assign(t, e, d) =>
        EmitAssign(t, e, d);
      case If(_, _, _) =>
        EmitIfStmt(s);
      case While(_, _, _) =>
        EmitWhileLoop(s);
      case Return(e) =>
        var v := None;
        if e.Some? {
          v := EmitExpr(e.value);
        }
        Terminate(if v.None? then RetVoid else Ret(v.value));
      case Break =>
        if loopStack != [] {
          Terminate(Br(loopStack[|loopStack| - 1].exitBB));
        }
      case Continue =>
        if loopStack != [] {
          Terminate(Br(loopStack[|loopStack| - 1].continuationBB));
        }
      case Evaluate(e) =>
        var _ := EmitExpr(e);
    }

    /** Statement by statement; the rest of a block is skipped once the block has ended. */
    method EmitBlock(stmts: seq<H.Node>)
      requires View().Valid()
      modifies this
      ensures View() == EmitAll(stmts, old(View()))
      decreases stmts, 0
    {
      var i := 0;
      while i < |stmts| && blocks[cur].term.None?
        invariant i <= |stmts| && View().Valid()
        invariant EmitAll(stmts[i..], View()) == EmitAll(stmts, old(View()))
      {
        assert stmts[i..][1..] == stmts[i + 1..];
        Emit(stmts[i]);
        i := i + 1;
      }
    }

    method EmitIfStmt(s: H.Node)
      requires View().Valid() && !View().Terminated() && s.If?
      modifies this
      ensures View() == EmitIf(s, old(View()))
      decreases s, 0
    {
      var thenBB, elseBB, mergeBB := EnterIf(s.cond, !s.elseBranch.Null?);
      Emit(s.thenBranch);
      if !s.elseBranch.Null? {
        EnterElse(elseBB, mergeBB);
        Emit(s.elseBranch);
      }
      LeaveIf(mergeBB);
    }

    /** The branch before `elseBB` goes on at the merge block. */
    method EnterElse(elseBB: nat, mergeBB: nat)
      requires View().Valid() && mergeBB == elseBB + 1 && mergeBB < |blocks|
      requires cur != elseBB && blocks[elseBB] == Block([], None) && elseBB >= 1
      modifies this
      ensures View() == IfElseEnter(elseBB - 1, old(View()))
    {
      BranchIfOpen(mergeBB);
      layout := layout + [elseBB];
      cur := elseBB;
    }

    method LeaveIf(mergeBB: nat)
      requires View().Valid() && 2 <= mergeBB < |blocks|
      requires cur != mergeBB && blocks[mergeBB] == Block([], None)
      modifies this
      ensures View() == IfLeave(mergeBB - 2, old(View()))
    {
      BranchIfOpen(mergeBB);
      layout := layout + [mergeBB];
      cur := mergeBB;
    }

    method EnterIf(c: Expr, hasElse: bool) returns (thenBB: nat, elseBB: nat, mergeBB: nat)
      requires View().Valid() && !View().Terminated()
      modifies this
      ensures thenBB == old(|blocks|) && elseBB == thenBB + 1 && mergeBB == thenBB + 2
      ensures View() == IfEnter(c, hasElse, old(View()))
    {
      var v := EmitExpr(c);
      var cond := if v.None? then Const(B(false)) else v.value;
      thenBB := CreateInFunction();
      elseBB := CreateDetached();
      mergeBB := CreateDetached();
      Terminate(CondBr(cond, thenBB, if hasElse then elseBB else mergeBB));
      cur := thenBB;
    }

    method EmitWhileLoop(s: H.Node)
      requires View().Valid() && !View().Terminated() && s.While?
      modifies this
      ensures View() == EmitWhile(s, old(View()))
      decreases s, 0
    {
      var condBB, bodyBB, exprBB, afterBB := EnterLoop();
      EmitLoopTest(s.cond, condBB, bodyBB, afterBB);
      Emit(s.body);
      EnterStep(condBB, exprBB);
      Emit(s.step);
      LeaveLoop(condBB, afterBB);
    }

    method EmitLoopTest(c: Expr, condBB: nat, bodyBB: nat, afterBB: nat)
      requires View().Valid() && !View().Terminated() && cur == condBB && bodyBB == condBB + 1 && afterBB == condBB + 3
      requires condBB + 4 <= |blocks|
      modifies this
      ensures View() == WhileTest(c, condBB, old(View()))
    {
      var v := EmitExpr(c);
      Terminate(CondBr(if v.None? then Const(B(true)) else v.value, bodyBB, afterBB));
      cur := bodyBB;
    }

    method EnterStep(condBB: nat, exprBB: nat)
      requires View().Valid() && exprBB == condBB + 2 && condBB + 3 < |blocks|
      requires cur != exprBB && blocks[exprBB] == Block([], None)
      modifies this
      ensures View() == WhileStepEnter(condBB, old(View()))
    {
      BranchIfOpen(exprBB);
      cur := exprBB;
    }

    /** Creates the blocks of a loop and moves to its condition block. */
    method EnterLoop() returns (condBB: nat, bodyBB: nat, exprBB: nat, afterBB: nat)
      requires View().Valid() && !View().Terminated()
      modifies this
      ensures condBB == old(|blocks|) && bodyBB == condBB + 1 && exprBB == condBB + 2 && afterBB == condBB + 3
      ensures View() == WhileEnter(old(View()))
    {
      condBB := CreateInFunction();
      bodyBB := CreateInFunction();
      exprBB := CreateInFunction();
      afterBB := CreateInFunction();
      loopStack := loopStack + [LoopContext(exprBB, afterBB)];
      Terminate(Br(condBB));
      cur := condBB;
    }

    method LeaveLoop(condBB: nat, afterBB: nat)
      requires View().Valid() && loopStack != [] && afterBB == condBB + 3 && afterBB < |blocks|
      requires cur != afterBB && blocks[afterBB] == Block([], None)
      modifies this
      ensures View() == WhileLeave(condBB, old(View()))
    {
      BranchIfOpen(condBB);
      cur := afterBB;
      loopStack := loopStack[..|loopStack| - 1];
    }

    /** The whole function: parameters, body and the return for a body that falls off its end. */
    method EmitBody(params: seq<string>, body: seq<H.Node>, isVoid: bool)
      requires View() == Builder([Block([], None)], [0], 0, 0, [], {})
      modifies this
      ensures View() == EmitFunction(params, body, isVoid)
    {
      nextReg := |params|;
      slots := set x | x in params;
      ghost var b := View();
      assert b.blocks[0].instrs + [] == b.blocks[0].instrs && ParamCode(params).instrs[..0] == [];
      for i := 0 to |params|
        invariant View() == b.Emit(Code(ParamCode(params).instrs[..i], None, |params|))
      {
        Append(Store(params[i], Reg(i)));
        EmittedTwice(b, Code(ParamCode(params).instrs[..i], None, |params|),
                Code([Store(params[i], Reg(i))], None, |params|));
        assert ParamCode(params).instrs[..i] + [Store(params[i], Reg(i))] == ParamCode(params).instrs[..i + 1];
      }
      assert ParamCode(params).instrs[..|params|] == ParamCode(params).instrs;
      EmitBlock(body);
      if blocks[cur].term.None? {
        Terminate(if isVoid then RetVoid else Ret(Const(I(0))));
      }
    }
  }
}
