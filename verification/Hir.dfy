/**
 The mid-level tree: blocks are flat statement vectors and `while` is the only
 loop.  Its meaning is a big-step interpreter in which every loop iteration
 costs one unit of fuel.
 */
module Hir {
  import opened Wrappers
  import opened Syntax

  /** `Null` stands for a null node pointer (an absent branch or an empty statement). */
  datatype Node =
    | Null
    | Block(stmts: seq<Node>)
    | Assign(target: Target, value: Expr, isDeclaration: bool)
    | If(cond: Expr, thenBranch: Node, elseBranch: Node)
    | While(cond: Expr, body: Node, step: Node)
    | Return(result: Option<Expr>)
    | Break
    | Continue
    | Evaluate(e: Expr)

  function Exec(n: Node, st: State, fuel: nat): Outcome
    decreases fuel, n, 1
  {
    match n
    case Null => Normal(st)
    case Block(stmts) => ExecAll(stmts, st, fuel)
    case Assign(t, e, _) => ExecAssign(t, e, st)
    case If(c, thn, els) =>
      (match Eval(c, st)
       case Some(B(b)) => if b then Exec(thn, st, fuel) else Exec(els, st, fuel)
       case _ => Stuck)
    case While(_, _, _) =>
      if fuel == 0 then Timeout
      else
        (match Iterate(n, st, fuel)
         case Again(s) => Exec(n, s, fuel - 1)
         case Exit(o) => o)
    case Return(None) => Returned(None, st)
    case Return(Some(e)) => if Eval(e, st).None? then Stuck else Returned(Eval(e, st), st)
    case Break => Broke(st)
    case Continue => Continued(st)
    case Evaluate(e) => if Eval(e, st).None? then Stuck else Normal(st)
  }

  /** What one turn of a loop leads to: the next turn, or the end of the loop. */
  datatype Turn = Again(st: State) | Exit(o: Outcome)

  function Iterate(n: Node, st: State, fuel: nat): Turn
    requires n.While?
    decreases fuel, n, 0
  {
    match Eval(n.cond, st)
    case Some(B(b)) =>
      if !b then Exit(Normal(st))
      else
        var o := Exec(n.body, st, fuel);
        if o.Normal? || o.Continued? then
          var p := Exec(n.step, o.st, fuel);
          if p.Normal? then Again(p.st) else Exit(p)
        else if o.Broke? then Exit(Normal(o.st))
        else Exit(o)
    case _ => Exit(Stuck)
  }

  function ExecAll(stmts: seq<Node>, st: State, fuel: nat): Outcome
    decreases fuel, stmts, 0
  {
    if stmts == [] then Normal(st)
    else
      var o := Exec(stmts[0], st, fuel);
      if o.Normal? then ExecAll(stmts[1..], o.st, fuel) else o
  }

  function ExecAssign(t: Target, e: Expr, st: State): Outcome {
    var v := Eval(e, st);
    if v.None? then Stuck
    else
      var s := Put(t, v.value, st);
      if s.None? then Stuck else Normal(s.value)
  }

  /** Running a concatenation is running the first part and then the second. */
  lemma {:induction false} ExecAllConcat(a: seq<Node>, b: seq<Node>, st: State, fuel: nat)
    ensures ExecAll(a + b, st, fuel)
         == var o := ExecAll(a, st, fuel); if o.Normal? then ExecAll(b, o.st, fuel) else o
  {
    if a == [] {
      assert a + b == b;
    } else {
      assert (a + b)[0] == a[0] && (a + b)[1..] == a[1..] + b;
      var o := Exec(a[0], st, fuel);
      if o.Normal? {
        ExecAllConcat(a[1..], b, o.st, fuel);
      }
    }
  }

  /** The function result: falling off the end yields the default value. */
  datatype Result = Done(value: Option<Value>, st: State) | Undefined | OutOfFuel

  function ExecBody(body: seq<Node>, fallback: Option<Value>, st: State, fuel: nat): Result {
    match ExecAll(body, st, fuel)
    case Normal(s) => Done(fallback, s)
    case Returned(v, s) => Done(v, s)
    case Timeout => OutOfFuel
    case _ => Undefined
  }
}
