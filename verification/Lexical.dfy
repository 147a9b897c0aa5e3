/**
 What a source function means.  Names are scoped lexically, as the checker resolves them: the
 body of a function is one scope and every `for` opens another, which holds its iterator and
 the names declared in its body and is new in every turn; `if` and `while` open none.  A
 range loop runs its body once for each value of the range, a list loop once for each element.
 */
module Lexical {
  import opened Wrappers
  import opened Syntax
  import opened Ast

  // ---------- symbols ----------

  /** What the type of a variable says about lists: their length, or that a companion holds it. */
  datatype Kind = Scalar | Sized(size: int) | Group

  /** `depth` is the number of `for` loops around the scope that declares the name. */
  datatype Symbol = Symbol(depth: nat, kind: Kind)

  /** The names that can be seen, each with the declaration it refers to. */
  type Table = map<string, Symbol>

  function KindOf(e: Expr, tab: Table): Kind {
    if e.Var? && e.name in tab then tab[e.name].kind else Scalar
  }

  function StoredKind(aop: AssignOp, e: Expr, tab: Table): Kind {
    if aop.Plain? then KindOf(e, tab) else Scalar
  }

  /** What can be seen behind a statement of a scope at depth `d`. */
  function Declare(n: Node, d: nat, tab: Table): Table {
    match n
    case Seq(a, b) => Declare(b, d, Declare(a, d, tab))
    case Assign(Name(x), aop, e, true) => tab[x := Symbol(d, StoredKind(aop, e, tab))]
    case If(_, thn, els) => Declare(els, d, Declare(thn, d, tab))
    case While(_, body, step) => Declare(step, d, Declare(body, d, tab))
    case _ => tab
  }

  /** What the body of a `for` at depth `d` sees. */
  function InLoop(i: string, d: nat, tab: Table): Table {
    tab[i := Symbol(d + 1, Scalar)]
  }

  // ---------- stores ----------

  datatype Variable = Variable(depth: nat, name: string)

  datatype Store = Store(vars: map<Variable, Value>, heap: map<nat, seq<Value>>) {
    /** The variables that the names of `tab` refer to. */
    function View(tab: Table): State {
      State(map x | x in tab && Variable(tab[x].depth, x) in vars :: vars[Variable(tab[x].depth, x)], heap)
    }

    function Set(d: nat, x: string, v: Value): Store {
      Store(vars[Variable(d, x) := v], heap)
    }

    /** Only the scopes up to depth `d` remain. */
    function Leave(d: nat): Store {
      Store(map k | k in vars && k.depth <= d :: vars[k], heap)
    }

    /** The variables of the function's own scope. */
    function Locals(): State {
      State(map k | k in vars && k.depth == 0 :: k.name := vars[k], heap)
    }
  }

  datatype Ending =
    | Ends(st: Store)
    | Breaks(st: Store)
    | Continues(st: Store)
    | Returns(value: Option<Value>, st: Store)
    | Undefined
    | OutOfFuel
  {
    /** The end of a turn of a `for` at depth `d`. */
    function Leave(d: nat): Ending {
      match this
      case Ends(s) => Ends(s.Leave(d))
      case Breaks(s) => Breaks(s.Leave(d))
      case Continues(s) => Continues(s.Leave(d))
      case Returns(v, s) => Returns(v, s.Leave(d))
      case Undefined => Undefined
      case OutOfFuel => OutOfFuel
    }
  }

  // ---------- meaning ----------

  /** A declaration makes a variable of the current scope; its value is computed before the name is known. */
  function ExecStore(t: Target, aop: AssignOp, e: Expr, isDeclaration: bool, d: nat, tab: Table, st: Store): Ending {
    var o := ExecAssign(t, aop, e, st.View(tab));
    if !o.Normal? then Undefined
    else
      match t
      case Element(_, _) => Ends(Store(st.vars, o.st.heap))
      case Name(x) =>
        if isDeclaration then Ends(st.Set(d, x, o.st.vars[x]))
        else if x in tab then Ends(st.Set(tab[x].depth, x, o.st.vars[x]))
        else Undefined
  }

  /** `n` stands in a scope at depth `d`, where `tab` can be seen. */
  function Exec(n: Node, d: nat, tab: Table, st: Store, fuel: nat): Ending
    decreases fuel, n, 1
  {
    match n
    case Null => Ends(st)
    case Seq(a, b) =>
      var o := Exec(a, d, tab, st, fuel);
      if o.Ends? then Exec(b, d, Declare(a, d, tab), o.st, fuel) else o
    case Assign(t, aop, e, isDeclaration) => ExecStore(t, aop, e, isDeclaration, d, tab, st)
    case If(c, thn, els) =>
      (match Eval(c, st.View(tab))
       case Some(B(b)) =>
         if b then Exec(thn, d, tab, st, fuel) else Exec(els, d, Declare(thn, d, tab), st, fuel)
       case _ => Undefined)
    case While(c, body, step) =>
      if fuel == 0 then OutOfFuel
      else
        (match Eval(c, st.View(tab))
         case Some(B(b)) =>
           if !b then Ends(st)
           else
             var o := Exec(body, d, tab, st, fuel);
             if o.Ends? || o.Continues? then
               var p := Exec(step, d, Declare(body, d, tab), o.st, fuel);
               if p.Ends? then Exec(n, d, tab, p.st, fuel - 1) else p
             else if o.Breaks? then Ends(o.st)
             else o
         case _ => Undefined)
    case ForRange(_, start, end, stride, inclusive, _) =>
      var view := st.View(tab);
      (match (Eval(start, view), Eval(end, view), Eval(StrideOf(start, end, stride), view))
       case (Some(I(s)), Some(I(e)), Some(I(w))) =>
         var vals := RangeValues(s, e, w, Descending(start, end), inclusive);
         if vals.None? then Undefined else ExecRange(n, d, tab, vals.value, st, fuel)
       case _ => Undefined)
    case ForList(_, iterable, _, _, _) =>
      (match Eval(iterable, st.View(tab))
       case Some(Ref(r)) => if r in st.heap then ExecElements(n, d, tab, r, 0, st, fuel) else Undefined
       case _ => Undefined)
    case Return(None) => Returns(None, st)
    case Return(Some(e)) =>
      if Eval(e, st.View(tab)).None? then Undefined else Returns(Eval(e, st.View(tab)), st)
    case Break => Breaks(st)
    case Continue => Continues(st)
    case Evaluate(e) => if Eval(e, st.View(tab)).None? then Undefined else Ends(st)
  }

  /** One turn of a `for`, with the value of its iterator. */
  function ExecTurn(n: Node, d: nat, tab: Table, v: Value, st: Store, fuel: nat): Ending
    requires n.ForRange? || n.ForList?
    decreases fuel, n.body, 2
  {
    Exec(n.body, d + 1, InLoop(n.iter, d, tab), st.Set(d + 1, n.iter, v), fuel).Leave(d)
  }

  /**
   A turn for each of `vals` but the last, which lies past the end of the range.  (A range for
   which that one does not fit the type has no meaning.)
   */
  function ExecRange(n: Node, d: nat, tab: Table, vals: seq<I64>, st: Store, fuel: nat): Ending
    requires n.ForRange? && vals != []
    decreases fuel, n, 0
  {
    if fuel == 0 then OutOfFuel
    else if |vals| == 1 then Ends(st)
    else
      var o := ExecTurn(n, d, tab, I(vals[0]), st, fuel);
      if o.Ends? || o.Continues? then ExecRange(n, d, tab, vals[1..], o.st, fuel - 1)
      else if o.Breaks? then Ends(o.st)
      else o
  }

  /** A turn for each element of list `r` from index `k` on, read when its turn comes. */
  function ExecElements(n: Node, d: nat, tab: Table, r: nat, k: nat, st: Store, fuel: nat): Ending
    requires n.ForList?
    decreases fuel, n, 0
  {
    if fuel == 0 then OutOfFuel
    else if r !in st.heap then Undefined
    else if k >= |st.heap[r]| then Ends(st)
    else
      var o := ExecTurn(n, d, tab, st.heap[r][k], st, fuel);
      if o.Ends? || o.Continues? then ExecElements(n, d, tab, r, k + 1, o.st, fuel - 1)
      else if o.Breaks? then Ends(o.st)
      else o
  }

  // ---------- what the checker demands ----------

  /** Everything that can be seen behind a statement, together with what was live before. */
  function After(n: Node, d: nat, tab: Table, live: Table): Table {
    live + Declare(n, d, tab)
  }

  /** Each name of `s` has the same declaration in `t`. */
  predicate Sub(s: Table, t: Table) {
    forall x | x in s :: x in t && t[x] == s[x]
  }

  /** A list is iterated with the length its type or its companion tells. */
  predicate LengthKnown(n: Node, ps: set<string>, tab: Table)
    requires n.ForList?
  {
    match KindOf(n.iterable, tab)
    case Scalar => false
    case Sized(size) => size == n.size && !IsListParam(n.iterable, ps)
    case Group => IsListParam(n.iterable, ps)
  }

  /**
   Names and list lengths are in order.  No scope declares a name twice; lists keep the length
   of their type and a variadic group keeps its variable.  And no `for` shadows: its iterator
   and the names declared in its body are none of `live`, the names of enclosing scopes that
   may have a value.
   */
  predicate Scoped(n: Node, ps: set<string>, d: nat, tab: Table, live: Table) {
    match n
    case Seq(a, b) => Scoped(a, ps, d, tab, live) && Scoped(b, ps, d, Declare(a, d, tab), After(a, d, tab, live))
    case Assign(Name(x), aop, e, true) =>
      && x !in tab && StoredKind(aop, e, tab) != Group
      && (x in live ==> live[x] == Symbol(d, StoredKind(aop, e, tab)))
    case Assign(Name(x), aop, e, false) =>
      x in tab ==> tab[x].kind == StoredKind(aop, e, tab) && tab[x].kind != Group
    case If(_, thn, els) =>
      && Scoped(thn, ps, d, tab, live)
      && Scoped(els, ps, d, Declare(thn, d, tab), After(thn, d, tab, live))
    case While(_, body, step) =>
      && Sub(live, After(n, d, tab, live))
      && Scoped(body, ps, d, tab, After(n, d, tab, live))
      && Scoped(step, ps, d, Declare(body, d, tab), After(n, d, tab, live))
    case ForRange(i, _, _, _, _, body) =>
      i !in live && Scoped(body, ps, d + 1, InLoop(i, d, tab), InLoop(i, d, live))
    case ForList(i, _, _, _, body) =>
      && LengthKnown(n, ps, tab)
      && i !in live && Scoped(body, ps, d + 1, InLoop(i, d, tab), InLoop(i, d, live))
    case _ => true
  }
}
