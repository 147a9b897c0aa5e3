/**
 The front end's syntax tree: statements, loops over ranges and lists, compound
 assignment.  What a program means is said in `Lexical`.  Here is what it does when
 every name stands for one variable of the function, as slots do: a stepping stone
 between scopes and the mid-level tree, on which a range loop still runs over the
 values of a closed form.  One unit of fuel pays for one loop turn, as in the mid-level tree.
 */
module Ast {
  import opened Wrappers
  import opened Syntax

  datatype AssignOp = Plain | Compound(op: BinOp)

  datatype Node =
    | Null
    | Seq(a: Node, b: Node)
    | Assign(target: Target, aop: AssignOp, rhs: Expr, isDeclaration: bool)
    | If(cond: Expr, thenBranch: Node, elseBranch: Node)
    | While(cond: Expr, body: Node, step: Node)
    | ForRange(iter: string, start: Expr, end: Expr, stride: Option<Expr>, inclusive: bool, body: Node)
    | ForList(iter: string, iterable: Expr, size: I64, boolElements: bool, body: Node)
    | Return(result: Option<Expr>)
    | Break
    | Continue
    | Evaluate(e: Expr)

  // ---------- ranges ----------

  /** A range counts down only if both ends are literals and the first is larger. */
  predicate Descending(start: Expr, end: Expr) {
    start.Num? && end.Num? && start.n > end.n
  }

  function StrideOf(start: Expr, end: Expr, stride: Option<Expr>): Expr {
    match stride
    case Some(e) => e
    case None => Num(if Descending(start, end) then -1 else 1)
  }

  predicate InRange(x: int, end: int, descending: bool, inclusive: bool) {
    if descending then x > end || (inclusive && x == end) else x < end || (inclusive && x == end)
  }

  /** Number of values in a range with stride `d`, which must be non-zero. */
  function RangeCount(start: int, end: int, d: int, descending: bool, inclusive: bool): nat
    requires d != 0
  {
    var span := (if descending then start - end else end - start) - (if inclusive then 0 else 1);
    if span < 0 then 0 else span / Abs(d) + 1
  }

  /** The `k`-th value of a progression. */
  function Nth(start: int, d: int, k: int): int {
    start + k * d
  }

  /**
   The values of a range followed by the first value past its end.  None if the stride
   points the wrong way or a value does not fit the iterator's type.
   */
  function RangeValues(start: I64, end: int, d: int, descending: bool, inclusive: bool): (r: Option<seq<I64>>)
    ensures r.Some? ==> r.value != []
  {
    if d == 0 || descending != (d < 0) then None
    else
      var n := RangeCount(start, end, d, descending, inclusive);
      if forall k | 0 <= k <= n :: InI64(Nth(start, d, k)) then
        Some(seq(n + 1, k requires 0 <= k <= n => Nth(start, d, k) as I64))
      else None
  }

  // ---------- runs with one variable for each name ----------
  //
  // `ps` are the parameters of the enclosing function.

  /** `t op= e` evaluates the place it writes once. */
  function ExecCompound(t: Target, op: BinOp, e: Expr, st: State): Outcome {
    var v := Eval(e, st);
    match t
    case Name(x) =>
      if x !in st.vars || v.None? then Stuck
      else
        var w := Apply(op, st.vars[x], v.value);
        if w.None? then Stuck else Normal(st.Set(x, w.value))
    case Element(arr, idx) =>
      var p := EvalAddress(arr, idx, st);
      if p.None? || !st.Live(p.value) || v.None? then Stuck
      else
        var w := Apply(op, st.Read(p.value), v.value);
        if w.None? then Stuck else Normal(st.Write(p.value, w.value))
  }

  function ExecAssign(t: Target, aop: AssignOp, e: Expr, st: State): Outcome {
    match aop
    case Compound(op) => ExecCompound(t, op, e, st)
    case Plain =>
      var v := Eval(e, st);
      if v.None? then Stuck
      else
        var s := Put(t, v.value, st);
        if s.None? then Stuck else Normal(s.value)
  }

  function Exec(n: Node, ps: set<string>, st: State, fuel: nat): Outcome
    decreases fuel, n, 1
  {
    match n
    case Null => Normal(st)
    case Seq(a, b) =>
      var o := Exec(a, ps, st, fuel);
      if o.Normal? then Exec(b, ps, o.st, fuel) else o
    case Assign(t, aop, e, _) => ExecAssign(t, aop, e, st)
    case If(c, thn, els) =>
      (match Eval(c, st)
       case Some(B(b)) => if b then Exec(thn, ps, st, fuel) else Exec(els, ps, st, fuel)
       case _ => Stuck)
    case While(c, body, step) =>
      if fuel == 0 then Timeout
      else
        (match Eval(c, st)
         case Some(B(b)) =>
           if !b then Normal(st)
           else
             var o := Exec(body, ps, st, fuel);
             if o.Normal? || o.Continued? then
               var p := Exec(step, ps, o.st, fuel);
               if p.Normal? then Exec(n, ps, p.st, fuel - 1) else p
             else if o.Broke? then Normal(o.st)
             else o
         case _ => Stuck)
    case ForRange(_, start, end, stride, inclusive, _) =>
      (match (Eval(start, st), Eval(end, st), Eval(StrideOf(start, end, stride), st))
       case (Some(I(s)), Some(I(e)), Some(I(d))) =>
         var vals := RangeValues(s, e, d, Descending(start, end), inclusive);
         if vals.None? then Stuck else ExecRange(n, ps, vals.value, st, fuel)
       case _ => Stuck)
    case ForList(i, iterable, _, _, _) =>
      (match Eval(iterable, st)
       case Some(Ref(r)) =>
         if r in st.heap && ListLength(n, ps, st) == Some(|st.heap[r]|)
         then ExecElements(n, ps, r, 0, |st.heap[r]|, st.Set(i, ZeroElement(n)), fuel)
         else Stuck
       case _ => Stuck)
    case Return(None) => Returned(None, st)
    case Return(Some(e)) => if Eval(e, st).None? then Stuck else Returned(Eval(e, st), st)
    case Break => Broke(st)
    case Continue => Continued(st)
    case Evaluate(e) => if Eval(e, st).None? then Stuck else Normal(st)
  }

  /** The iterator takes the values in turn; after the last turn it holds the value past the end. */
  function ExecRange(n: Node, ps: set<string>, vals: seq<I64>, st: State, fuel: nat): Outcome
    requires n.ForRange? && vals != []
    decreases fuel, n, 0
  {
    if fuel == 0 then Timeout
    else if |vals| == 1 then Normal(st.Set(n.iter, I(vals[0])))
    else
      var o := Exec(n.body, ps, st.Set(n.iter, I(vals[0])), fuel);
      if o.Normal? || o.Continued? then ExecRange(n, ps, vals[1..], o.st, fuel - 1)
      else if o.Broke? then Normal(o.st)
      else o
  }

  /** Elements `k` to `len` of list `r`, read when their turn comes. */
  function ExecElements(n: Node, ps: set<string>, r: nat, k: nat, len: nat, st: State, fuel: nat): Outcome
    requires n.ForList? && k <= len
    decreases fuel, n, 0
  {
    if fuel == 0 then Timeout
    else if k == len then Normal(st)
    else if !st.Live(Cell(r, k)) then Stuck
    else
      var o := Exec(n.body, ps, st.Set(n.iter, st.Read(Cell(r, k))), fuel);
      if o.Normal? || o.Continued? then ExecElements(n, ps, r, k + 1, len, o.st, fuel - 1)
      else if o.Broke? then Normal(o.st)
      else o
  }

  function ZeroElement(n: Node): Value
    requires n.ForList?
  {
    if n.boolElements then B(false) else I(0)
  }

  // ---------- names ----------

  predicate Letter(c: char) {
    'a' <= c <= 'z' || 'A' <= c <= 'Z' || c == '_'
  }

  /** What the lexer takes for an identifier: a letter or `@`, then letters and digits. */
  predicate Identifier(x: string) {
    && x != [] && (Letter(x[0]) || x[0] == '@')
    && forall i | 1 <= i < |x| :: Letter(x[i]) || '0' <= x[i] <= '9'
  }

  /** No identifier the lexer accepts contains this character. */
  const MARK: char := '\U{0003}'

  const COUNT_SUFFIX: string := [MARK] + "_count"

  /** Names a variable may have; those with `@` in front are names of builtins and get no slot. */
  predicate Lexable(x: string) {
    x != [] && x[0] != '@' && MARK !in x
  }

  /** A list parameter comes with a companion parameter that holds its length. */
  predicate IsListParam(e: Expr, ps: set<string>) {
    e.Var? && e.name in ps && e.name + COUNT_SUFFIX in ps
  }

  /** The length a list loop is compiled for: that of the companion parameter, or that of the list's type. */
  function ListLength(n: Node, ps: set<string>, st: State): Option<int>
    requires n.ForList?
  {
    if IsListParam(n.iterable, ps) then
      match Eval(Var(n.iterable.name + COUNT_SUFFIX), st)
      case Some(I(len)) => Some(len)
      case _ => None
    else Some(n.size)
  }
}
