/**
 The values, stores and expressions shared by the three program representations
 (syntax tree, mid-level tree and control-flow graph).

 One integer type is modelled, the 64-bit signed one, next to booleans and lists
 of scalars.  A list is held by reference, as in the generated code: copying a
 list variable copies the reference, and element stores go to a shared heap.
 */
module Syntax {
  import opened Wrappers

  const I64_MIN: int := -0x8000_0000_0000_0000
  const I64_MAX: int := 0x7FFF_FFFF_FFFF_FFFF
  const TWO_TO_THE_64: int := 0x1_0000_0000_0000_0000

  type I64 = n: int | I64_MIN <= n <= I64_MAX

  predicate InI64(n: int) {
    I64_MIN <= n <= I64_MAX
  }

  /** Two's complement wrap-around to 64 bits. */
  function Wrap(n: int): (r: I64)
    ensures InI64(n) ==> r == n
    ensures exists k :: r == n - k * TWO_TO_THE_64
  {
    var m := (n - I64_MIN) % TWO_TO_THE_64;
    assert m + I64_MIN == n - ((n - I64_MIN) / TWO_TO_THE_64) * TWO_TO_THE_64;
    m + I64_MIN
  }

  /** C's truncating division, with the operands for which it is undefined excluded. */
  function TruncDiv(a: int, b: int): int
    requires b != 0
  {
    if (a < 0) == (b < 0) then Abs(a) / Abs(b) else -(Abs(a) / Abs(b))
  }

  function Abs(n: int): nat {
    if n < 0 then -n else n
  }

  /** `Cell` is the address of one list element; it only occurs in registers. */
  datatype Value = I(n: I64) | B(b: bool) | Ref(addr: nat) | Cell(base: nat, k: int)

  datatype BinOp = Add | Sub | Mul | Div | Mod | And | Or | Eq | Neq | Lt | Le | Gt | Ge
  datatype UnOp = Neg | Not

  datatype Expr =
    | Num(n: I64)
    | BoolLit(b: bool)
    | Var(name: string)
    | Unary(uop: UnOp, e: Expr)
    | Binary(op: BinOp, l: Expr, r: Expr)
    | Index(arr: Expr, idx: Expr)

  /** The variables of the running function, and the list cells it can reach. */
  datatype State = State(vars: map<string, Value>, heap: map<nat, seq<Value>>) {
    function Set(x: string, v: Value): State {
      State(vars[x := v], heap)
    }

    predicate Live(v: Value) {
      v.Cell? && v.base in heap && 0 <= v.k < |heap[v.base]|
    }

    function Read(v: Value): Value
      requires Live(v)
    {
      heap[v.base][v.k]
    }

    function Write(v: Value, w: Value): State
      requires Live(v)
    {
      State(vars, heap[v.base := heap[v.base][v.k := w]])
    }
  }

  /** The meaning of one operator; None where C or the target leave it undefined. */
  function Apply(op: BinOp, a: Value, b: Value): Option<Value> {
    match (op, a, b)
    case (Add, I(x), I(y)) => Some(I(Wrap(x + y)))
    case (Sub, I(x), I(y)) => Some(I(Wrap(x - y)))
    case (Mul, I(x), I(y)) => Some(I(Wrap(x * y)))
    case (Div, I(x), I(y)) => if y == 0 || (x == I64_MIN && y == -1) then None else Some(I(Wrap(TruncDiv(x, y))))
    case (Mod, I(x), I(y)) =>
      if y == 0 || (x == I64_MIN && y == -1) then None else Some(I(Wrap(x - TruncDiv(x, y) * y)))
    case (And, B(x), B(y)) => Some(B(x && y))
    case (Or, B(x), B(y)) => Some(B(x || y))
    case (Eq, I(x), I(y)) => Some(B(x == y))
    case (Neq, I(x), I(y)) => Some(B(x != y))
    case (Lt, I(x), I(y)) => Some(B(x < y))
    case (Le, I(x), I(y)) => Some(B(x <= y))
    case (Gt, I(x), I(y)) => Some(B(x > y))
    case (Ge, I(x), I(y)) => Some(B(x >= y))
    case (Eq, B(x), B(y)) => Some(B(x == y))
    case (Neq, B(x), B(y)) => Some(B(x != y))
    case _ => None
  }

  function ApplyUnary(op: UnOp, a: Value): Option<Value> {
    match (op, a)
    case (Neg, I(x)) => Some(I(Wrap(0 - x)))
    case (Not, B(x)) => Some(B(!x))
    case _ => None
  }

  /** The address of element `i` of list `a`; bounds are checked when it is used. */
  function ElementAddress(a: Value, i: Value): Option<Value> {
    if a.Ref? && i.I? then Some(Cell(a.addr, i.n)) else None
  }

  /** Value of an expression; expressions have no side effects. */
  function Eval(e: Expr, st: State): Option<Value> {
    match e
    case Num(n) => Some(I(n))
    case BoolLit(b) => Some(B(b))
    case Var(x) => if x in st.vars then Some(st.vars[x]) else None
    case Unary(op, e) =>
      var v := Eval(e, st);
      if v.None? then None else ApplyUnary(op, v.value)
    case Binary(op, l, r) =>
      var a, b := Eval(l, st), Eval(r, st);
      if a.None? || b.None? then None else Apply(op, a.value, b.value)
    case Index(arr, idx) =>
      var a, i := Eval(arr, st), Eval(idx, st);
      if a.None? || i.None? then None
      else
        var p := ElementAddress(a.value, i.value);
        if p.None? || !st.Live(p.value) then None else Some(st.Read(p.value))
  }

  function EvalAddress(arr: Expr, idx: Expr, st: State): Option<Value> {
    var a, i := Eval(arr, st), Eval(idx, st);
    if a.None? || i.None? then None else ElementAddress(a.value, i.value)
  }

  function Vars(e: Expr): set<string> {
    match e
    case Num(_) => {}
    case BoolLit(_) => {}
    case Var(x) => {x}
    case Unary(_, e) => Vars(e)
    case Binary(_, l, r) => Vars(l) + Vars(r)
    case Index(a, i) => Vars(a) + Vars(i)
  }

  /** An assignment writes a variable or one list element. */
  datatype Target = Name(x: string) | Element(arr: Expr, idx: Expr)

  function TargetVars(t: Target): set<string> {
    match t
    case Name(x) => {x}
    case Element(a, i) => Vars(a) + Vars(i)
  }

  /** Store `v` where `t` points, or None if it points nowhere. */
  function Put(t: Target, v: Value, st: State): Option<State> {
    match t
    case Name(x) => Some(st.Set(x, v))
    case Element(a, i) =>
      var p := EvalAddress(a, i, st);
      if p.Some? && st.Live(p.value) then Some(st.Write(p.value, v)) else None
  }

  /** How a statement ends; `Stuck` is undefined behaviour, `Timeout` exhausted fuel. */
  datatype Outcome =
    | Normal(st: State)
    | Broke(st: State)
    | Continued(st: State)
    | Returned(value: Option<Value>, st: State)
    | Stuck
    | Timeout
  {
    predicate HasState() {
      !Stuck? && !Timeout?
    }
  }

  /** An expression reads only its own variables and the heap. */
  lemma {:induction false} EvalFrame(e: Expr, s: State, t: State)
    requires s.heap == t.heap
    requires forall x | x in Vars(e) :: x in s.vars <==> x in t.vars
    requires forall x | x in Vars(e) && x in s.vars :: s.vars[x] == t.vars[x]
    ensures Eval(e, s) == Eval(e, t)
  {
    match e
    case Num(_) =>
    case BoolLit(_) =>
    case Var(x) =>
      assert x in Vars(e);
    case Unary(_, e1) =>
      EvalFrame(e1, s, t);
    case Binary(_, l, r) =>
      EvalFrame(l, s, t);
      EvalFrame(r, s, t);
    case Index(a, i) =>
      EvalFrame(a, s, t);
      EvalFrame(i, s, t);
  }
}
