/**
 Lowering of the syntax tree to the mid-level tree: sequences become statement
 vectors, compound assignments a read and a write, and both kinds of `for` the
 universal `while` loop.
 */
module HirGen {
  import opened Syntax
  import A = Ast
  import H = Hir

  // ---------- generated names ----------

  function Digits(n: nat): (s: string)
    ensures s != [] && forall i | 0 <= i < |s| :: '0' <= s[i] <= '9'
  {
    if n < 10 then [('0' as int + n) as char] else Digits(n / 10) + [('0' as int + n % 10) as char]
  }

  function IdxName(c: nat): string {
    [A.MARK] + "__idx__" + Digits(c)
  }

  function ArrName(c: nat): string {
    [A.MARK] + "__arr__" + Digits(c)
  }

  function CountName(c: nat): string {
    ArrName(c) + A.COUNT_SUFFIX
  }

  // ---------- lowering ----------

  /** The expression that reads an assignment target. */
  function CloneTarget(t: Target): Expr {
    match t
    case Name(x) => Var(x)
    case Element(arr, idx) => Index(arr, idx)
  }

  function CreateAssignment(t: Target, value: Expr, aop: A.AssignOp, isDeclaration: bool): H.Node {
    match aop
    case Plain => H.Assign(t, value, isDeclaration)
    case Compound(op) => H.Assign(t, Binary(op, CloneTarget(t), value), isDeclaration)
  }

  function RangeCondOp(descending: bool, inclusive: bool): BinOp {
    if inclusive then if descending then Ge else Le
    else if descending then Gt else Lt
  }

  /** The loop a range `for` becomes; the step is the last statement of the body. */
  function RangeLoop(n: A.Node, body: seq<H.Node>): H.Node
    requires n.ForRange?
  {
    var step := H.Assign(Name(n.iter), Binary(Add, Var(n.iter), A.StrideOf(n.start, n.end, n.stride)), true);
    H.While(Binary(RangeCondOp(A.Descending(n.start, n.end), n.inclusive), Var(n.iter), n.end),
            H.Block(body + [step]), H.Null)
  }

  function RangeBlock(n: A.Node, body: seq<H.Node>): H.Node
    requires n.ForRange?
  {
    H.Block([H.Assign(Name(n.iter), n.start, true), RangeLoop(n, body)])
  }

  function ZeroLiteral(n: A.Node): Expr
    requires n.ForList?
  {
    if n.boolElements then BoolLit(false) else Num(0)
  }

  /** The loop a list `for` becomes: an index runs up to the list's length. */
  function ListLoop(n: A.Node, ps: set<string>, c: nat, body: seq<H.Node>): H.Node
    requires n.ForList?
  {
    var limit := if A.IsListParam(n.iterable, ps) then Var(CountName(c)) else Num(n.size);
    var fetch := H.Assign(Name(n.iter), Index(Var(ArrName(c)), Var(IdxName(c))), false);
    var step := H.Assign(Name(IdxName(c)), Binary(Add, Var(IdxName(c)), Num(1)), false);
    H.While(Binary(Lt, Var(IdxName(c)), limit), H.Block([fetch] + body + [step]), H.Null)
  }

  function ListSetup(n: A.Node, ps: set<string>, c: nat): seq<H.Node>
    requires n.ForList?
  {
    [H.Assign(Name(n.iter), ZeroLiteral(n), true)]
    + (if A.IsListParam(n.iterable, ps)
       then [H.Assign(Name(CountName(c)), Var(n.iterable.name + A.COUNT_SUFFIX), true)] else [])
    + [H.Assign(Name(ArrName(c)), n.iterable, true), H.Assign(Name(IdxName(c)), Num(0), true)]
  }

  function ListBlock(n: A.Node, ps: set<string>, c: nat, body: seq<H.Node>): H.Node
    requires n.ForList?
  {
    H.Block(ListSetup(n, ps, c) + [ListLoop(n, ps, c, body)])
  }

  /** A lowered tree and the next unused loop number. */
  datatype Lowered = Lowered(node: H.Node, next: nat)
  datatype LoweredAll = LoweredAll(stmts: seq<H.Node>, next: nat)

  function Lower(n: A.Node, ps: set<string>, c: nat): (r: Lowered)
    ensures c <= r.next
    decreases n, 0
  {
    match n
    case Null => Lowered(H.Null, c)
    case Seq(a, b) =>
      var x := Flatten(a, ps, c);
      var y := Flatten(b, ps, x.next);
      Lowered(H.Block(x.stmts + y.stmts), y.next)
    case Assign(t, aop, e, d) => Lowered(CreateAssignment(t, e, aop, d), c)
    case If(cond, thn, els) =>
      var x := Lower(thn, ps, c);
      var y := Lower(els, ps, x.next);
      Lowered(H.If(cond, x.node, y.node), y.next)
    case While(cond, body, step) =>
      var x := Flatten(body, ps, c);
      var y := Lower(step, ps, x.next);
      Lowered(H.While(cond, H.Block(x.stmts), y.node), y.next)
    case ForRange(_, _, _, _, _, body) =>
      var x := Flatten(body, ps, c);
      Lowered(RangeBlock(n, x.stmts), x.next)
    case ForList(_, _, _, _, body) =>
      var x := Flatten(body, ps, c + 1);
      Lowered(ListBlock(n, ps, c, x.stmts), x.next)
    case Return(e) => Lowered(H.Return(e), c)
    case Break => Lowered(H.Break, c)
    case Continue => Lowered(H.Continue, c)
    case Evaluate(e) => Lowered(H.Evaluate(e), c)
  }

  /** The leaves of a sequence tree, lowered in order. */
  function Flatten(n: A.Node, ps: set<string>, c: nat): (r: LoweredAll)
    ensures c <= r.next
    decreases n, 1
  {
    match n
    case Null => LoweredAll([], c)
    case Seq(a, b) =>
      var x := Flatten(a, ps, c);
      var y := Flatten(b, ps, x.next);
      LoweredAll(x.stmts + y.stmts, y.next)
    case _ =>
      var x := Lower(n, ps, c);
      LoweredAll([x.node], x.next)
  }
}
