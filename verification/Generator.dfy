/**
 The lowering as the compiler performs it: a generator object with a running loop number
 that appends statements to vectors.  Each method is proved to produce what the function
 of the same pass in `HirGen` says.
 */
module Generator {
  import opened Wrappers
  import opened Syntax
  import opened HirGen
  import A = Ast
  import H = Hir

  class StatementVector {
    var stmts: seq<H.Node>

    constructor ()
      ensures stmts == []
    {
      stmts := [];
    }

    method PushBack(n: H.Node)
      modifies this
      ensures stmts == old(stmts) + [n]
    {
      stmts := stmts + [n];
    }
  }

  class HirGenerator {
    const currentParams: set<string>
    var loopCounter: nat

    constructor (params: set<string>, counter: nat)
      ensures currentParams == params && loopCounter == counter
    {
      currentParams := params;
      loopCounter := counter;
    }

    method Generate(n: A.Node) returns (m: H.Node)
      modifies this
      ensures Lowered(m, loopCounter) == Lower(n, currentParams, old(loopCounter))
      decreases n, if n.Seq? then 3 else 1
    {
      match n
      case Null => m := H.Null;
      case Seq(_, _) =>
        var block := new StatementVector();
        FlattenSequence(n, block);
        assert block.stmts == Flatten(n, currentParams, old(loopCounter)).stmts;
        m := H.Block(block.stmts);
      case Assign(t, aop, e, d) => m := CreateAssignment(t, e, aop, d);
      case If(cond, thn, els) =>
        var thenBranch := Generate(thn);
        var elseBranch := Generate(els);
        m := H.If(cond, thenBranch, elseBranch);
      case While(_, _, _) => m := EmitWhileLoop(n);
      case ForRange(_, _, _, _, _, _) => m := EmitForRangeLoop(n);
      case ForList(_, _, _, _, _) => m := EmitForLoop(n);
      case Return(e) => m := H.Return(e);
      case Break => m := H.Break;
      case Continue => m := H.Continue;
      case Evaluate(e) => m := H.Evaluate(e);
    }

    /** Appends the leaves of a sequence tree to `out`. */
    method FlattenSequence(n: A.Node, out: StatementVector)
      modifies this, out
      ensures var r := Flatten(n, currentParams, old(loopCounter));
        out.stmts == old(out.stmts) + r.stmts && loopCounter == r.next
      decreases n, 2
    {
      match n
      case Null =>
      case Seq(a, b) =>
        FlattenSequence(a, out);
        FlattenSequence(b, out);
      case _ =>
        var m := Generate(n);
        out.PushBack(m);
    }

    method EmitWhileLoop(n: A.Node) returns (m: H.Node)
      requires n.While?
      modifies this
      ensures Lowered(m, loopCounter) == Lower(n, currentParams, old(loopCounter))
      decreases n, 0
    {
      var body := new StatementVector();
      FlattenSequence(n.body, body);
      assert body.stmts == Flatten(n.body, currentParams, old(loopCounter)).stmts;
      var step := Generate(n.step);
      m := H.While(n.cond, H.Block(body.stmts), step);
    }

    /** The loop counts by a step appended to its body; the loop's own step stays empty. */
    method EmitForRangeLoop(n: A.Node) returns (m: H.Node)
      requires n.ForRange?
      modifies this
      ensures Lowered(m, loopCounter) == Lower(n, currentParams, old(loopCounter))
      decreases n, 0
    {
      var descending := A.Descending(n.start, n.end);
      var stride := match n.stride case Some(e) => e case None => Num(if descending then -1 else 1);
      var root := new StatementVector();
      root.PushBack(CreateAssignment(Name(n.iter), n.start, A.Plain, true));
      var condOp := if n.inclusive then (if descending then Ge else Le) else if descending then Gt else Lt;
      var cond := Binary(condOp, Var(n.iter), n.end);
      var body := new StatementVector();
      FlattenSequence(n.body, body);
      assert body.stmts == Flatten(n.body, currentParams, old(loopCounter)).stmts;
      body.PushBack(CreateAssignment(Name(n.iter), Binary(Add, Var(n.iter), stride), A.Plain, true));
      root.PushBack(H.While(cond, H.Block(body.stmts), H.Null));
      m := H.Block(root.stmts);
      assert m == RangeBlock(n, Flatten(n.body, currentParams, old(loopCounter)).stmts);
    }

    /** The loop's number is taken before its body is lowered, so an inner loop gets another one. */
    method EmitForLoop(n: A.Node) returns (m: H.Node)
      requires n.ForList?
      modifies this
      ensures Lowered(m, loopCounter) == Lower(n, currentParams, old(loopCounter))
      decreases n, 0
    {
      var idxVar, arrVar := IdxName(loopCounter), ArrName(loopCounter);
      var countVar := arrVar + A.COUNT_SUFFIX;
      loopCounter := loopCounter + 1;
      var isParam := A.IsListParam(n.iterable, currentParams);
      var root := new StatementVector();
      root.PushBack(H.Assign(Name(n.iter), if n.boolElements then BoolLit(false) else Num(0), true));
      if isParam {
        root.PushBack(CreateAssignment(Name(countVar), Var(n.iterable.name + A.COUNT_SUFFIX), A.Plain, true));
      }
      root.PushBack(CreateAssignment(Name(arrVar), n.iterable, A.Plain, true));
      root.PushBack(CreateAssignment(Name(idxVar), Num(0), A.Plain, true));
      assert root.stmts == ListSetup(n, currentParams, old(loopCounter));
      var limit := if isParam then Var(countVar) else Num(n.size);
      var cond := Binary(Lt, Var(idxVar), limit);
      var body := new StatementVector();
      var fetch := CreateAssignment(Name(n.iter), Index(Var(arrVar), Var(idxVar)), A.Plain, false);
      body.PushBack(fetch);
      FlattenSequence(n.body, body);
      assert body.stmts == [fetch] + Flatten(n.body, currentParams, old(loopCounter) + 1).stmts;
      body.PushBack(CreateAssignment(Name(idxVar), Binary(Add, Var(idxVar), Num(1)), A.Plain, false));
      assert H.While(cond, H.Block(body.stmts), H.Null)
          == ListLoop(n, currentParams, old(loopCounter), Flatten(n.body, currentParams, old(loopCounter) + 1).stmts);
      root.PushBack(H.While(cond, H.Block(body.stmts), H.Null));
      m := H.Block(root.stmts);
    }
  }
}
