/** What running a statement leaves alone, and which statements can be lowered faithfully. */
module AstFacts {
  import opened Wrappers
  import opened Syntax
  import opened Ast

  function Assigned(n: Node): set<string> {
    match n
    case Seq(a, b) => Assigned(a) + Assigned(b)
    case Assign(Name(x), _, _, _) => {x}
    case If(_, thn, els) => Assigned(thn) + Assigned(els)
    case While(_, body, step) => Assigned(body) + Assigned(step)
    case ForRange(i, _, _, _, _, body) => {i} + Assigned(body)
    case ForList(i, _, _, _, body) => {i} + Assigned(body)
    case _ => {}
  }

  predicate StoresElements(n: Node) {
    match n
    case Seq(a, b) => StoresElements(a) || StoresElements(b)
    case Assign(t, _, _, _) => t.Element?
    case If(_, thn, els) => StoresElements(thn) || StoresElements(els)
    case While(_, body, step) => StoresElements(body) || StoresElements(step)
    case ForRange(_, _, _, _, _, body) => StoresElements(body)
    case ForList(_, _, _, _, body) => StoresElements(body)
    case _ => false
  }

  predicate ReadsElements(e: Expr) {
    match e
    case Unary(_, e) => ReadsElements(e)
    case Binary(_, l, r) => ReadsElements(l) || ReadsElements(r)
    case Index(_, _) => true
    case _ => false
  }

  /** `e` keeps its value while `body` runs, as far as its text tells. */
  predicate Frozen(e: Expr, body: Node) {
    Vars(e) !! Assigned(body) && !(ReadsElements(e) && StoresElements(body))
  }

  /** There is a `continue` that leaves the statement. */
  predicate FreeContinue(n: Node) {
    match n
    case Seq(a, b) => FreeContinue(a) || FreeContinue(b)
    case If(_, thn, els) => FreeContinue(thn) || FreeContinue(els)
    case Continue => true
    case _ => false
  }

  predicate AllLexable(xs: set<string>) {
    forall x | x in xs :: Lexable(x)
  }

  /**
   Statements whose lowering keeps their meaning: names come from the lexer, the end and the
   stride of a range are not changed by its body, nor is its iterator, and no `continue`
   belongs to a `for`.
   */
  predicate Regular(n: Node) {
    match n
    case Seq(a, b) => Regular(a) && Regular(b)
    case Assign(t, _, e, _) => AllLexable(TargetVars(t) + Vars(e))
    case If(c, thn, els) => AllLexable(Vars(c)) && Regular(thn) && Regular(els)
    case While(c, body, step) => AllLexable(Vars(c)) && Regular(body) && Regular(step) && (step.Null? || step.Assign?)
    case ForRange(i, start, end, stride, _, body) =>
      && AllLexable({i} + Vars(start) + Vars(end) + Vars(StrideOf(start, end, stride)))
      && i !in Vars(end) + Vars(StrideOf(start, end, stride)) + Assigned(body)
      && Frozen(end, body) && Frozen(StrideOf(start, end, stride), body)
      && Regular(body) && !FreeContinue(body)
    case ForList(i, iterable, _, _, body) =>
      && AllLexable({i} + Vars(iterable)) && i !in Vars(iterable)
      && Regular(body) && !FreeContinue(body)
    case Return(Some(e)) => AllLexable(Vars(e))
    case Evaluate(e) => AllLexable(Vars(e))
    case _ => true
  }

  ghost predicate SameVar(x: string, s: State, t: State) {
    (x in s.vars <==> x in t.vars) && (x in s.vars ==> s.vars[x] == t.vars[x])
  }

  /** Only the names `xs` and, if `writes`, elements of lists differ; no list changes its length. */
  ghost predicate Kept(xs: set<string>, writes: bool, s: State, t: State) {
    && (forall x | x !in xs :: SameVar(x, s, t))
    && (!writes ==> t.heap == s.heap)
    && s.heap.Keys == t.heap.Keys
    && forall r | r in s.heap :: |t.heap[r]| == |s.heap[r]|
  }

  ghost predicate Keeps(n: Node, s: State, o: Outcome) {
    o.HasState() ==> Kept(Assigned(n), StoresElements(n), s, o.st)
  }

  lemma {:induction false} KeptTrans(xs: set<string>, ys: set<string>, wx: bool, wy: bool, s: State, t: State, u: State)
    requires Kept(xs, wx, s, t) && Kept(ys, wy, t, u)
    ensures Kept(xs + ys, wx || wy, s, u)
  {
    forall x | x !in xs + ys
      ensures SameVar(x, s, u)
    {
      assert SameVar(x, s, t) && SameVar(x, t, u);
    }
  }

  lemma {:induction false} AssignKeeps(n: Node, st: State)
    requires n.Assign?
    ensures Keeps(n, st, ExecAssign(n.target, n.aop, n.rhs, st))
  {
  }

  /** A statement changes only the variables it assigns. */
  lemma {:induction false} ExecKeeps(n: Node, ps: set<string>, st: State, fuel: nat)
    ensures Keeps(n, st, Exec(n, ps, st, fuel))
    decreases fuel, n, 1
  {
    match n
    case Seq(a, b) =>
      ExecKeeps(a, ps, st, fuel);
      var o := Exec(a, ps, st, fuel);
      if o.Normal? {
        ExecKeeps(b, ps, o.st, fuel);
        if Exec(b, ps, o.st, fuel).HasState() {
          var p := Exec(b, ps, o.st, fuel);
          KeptTrans(Assigned(a), Assigned(b), StoresElements(a), StoresElements(b), st, o.st, p.st);
        }
      }
    case Assign(_, _, _, _) =>
      AssignKeeps(n, st);
    case If(_, thn, els) =>
      ExecKeeps(thn, ps, st, fuel);
      ExecKeeps(els, ps, st, fuel);
    case While(_, _, _) =>
      if fuel != 0 {
        WhileKeeps(n, ps, st, fuel);
      }
    case ForRange(_, start, end, stride, _, _) =>
      match (Eval(start, st), Eval(end, st), Eval(StrideOf(start, end, stride), st)) {
        case (Some(I(s)), Some(I(e)), Some(I(d))) =>
          var vals := RangeValues(s, e, d, Descending(start, end), n.inclusive);
          if vals.Some? {
            RangeKeeps(n, ps, vals.value, st, fuel);
          }
        case _ =>
      }
    case ForList(i, iterable, _, _, _) =>
      var v := Eval(iterable, st);
      if v.Some? && v.value.Ref? && v.value.addr in st.heap {
        var st1 := st.Set(i, ZeroElement(n));
        ElementsKeep(n, ps, v.value.addr, 0, |st.heap[v.value.addr]|, st1, fuel);
        var o := ExecElements(n, ps, v.value.addr, 0, |st.heap[v.value.addr]|, st1, fuel);
        if o.HasState() {
          KeptTrans({i}, Assigned(n), false, StoresElements(n), st, st1, o.st);
          assert {i} + Assigned(n) == Assigned(n);
        }
      }
    case _ =>
  }

  lemma {:induction false} WhileKeeps(n: Node, ps: set<string>, st: State, fuel: nat)
    requires n.While? && fuel != 0
    ensures Keeps(n, st, Exec(n, ps, st, fuel))
    decreases fuel, n, 0
  {
    if Eval(n.cond, st) == Some(B(true)) {
      ExecKeeps(n.body, ps, st, fuel);
      var o := Exec(n.body, ps, st, fuel);
      if o.Normal? || o.Continued? {
        ExecKeeps(n.step, ps, o.st, fuel);
        var p := Exec(n.step, ps, o.st, fuel);
        if p.HasState() {
          KeptTrans(Assigned(n.body), Assigned(n.step), StoresElements(n.body), StoresElements(n.step), st, o.st, p.st);
        }
        if p.Normal? {
          ExecKeeps(n, ps, p.st, fuel - 1);
          var q := Exec(n, ps, p.st, fuel - 1);
          if q.HasState() {
            KeptTrans(Assigned(n), Assigned(n), StoresElements(n), StoresElements(n), st, p.st, q.st);
            assert Assigned(n) + Assigned(n) == Assigned(n);
          }
        }
      }
    }
  }

  lemma {:induction false} RangeKeeps(n: Node, ps: set<string>, vals: seq<I64>, st: State, fuel: nat)
    requires n.ForRange? && vals != []
    ensures Keeps(n, st, ExecRange(n, ps, vals, st, fuel))
    decreases fuel, n, 0
  {
    if fuel != 0 && |vals| != 1 {
      TurnKeeps(n, ps, n.iter, I(vals[0]), n.body, st, fuel);
      var o := Exec(n.body, ps, st.Set(n.iter, I(vals[0])), fuel);
      if o.Normal? || o.Continued? {
        RangeKeeps(n, ps, vals[1..], o.st, fuel - 1);
        JoinKeeps(n, st, o.st, ExecRange(n, ps, vals[1..], o.st, fuel - 1));
      }
    }
  }

  lemma {:induction false} ElementsKeep(n: Node, ps: set<string>, r: nat, k: nat, len: nat, st: State, fuel: nat)
    requires n.ForList? && k <= len
    ensures Keeps(n, st, ExecElements(n, ps, r, k, len, st, fuel))
    decreases fuel, n, 0
  {
    if fuel != 0 && k != len && st.Live(Cell(r, k)) {
      var v := st.Read(Cell(r, k));
      TurnKeeps(n, ps, n.iter, v, n.body, st, fuel);
      var o := Exec(n.body, ps, st.Set(n.iter, v), fuel);
      if o.Normal? || o.Continued? {
        ElementsKeep(n, ps, r, k + 1, len, o.st, fuel - 1);
        JoinKeeps(n, st, o.st, ExecElements(n, ps, r, k + 1, len, o.st, fuel - 1));
      }
    }
  }

  lemma {:induction false} TurnKeeps(n: Node, ps: set<string>, i: string, v: Value, body: Node, st: State, fuel: nat)
    requires body < n && Assigned(n) == {i} + Assigned(body) && StoresElements(n) == StoresElements(body)
    ensures Keeps(n, st, Exec(body, ps, st.Set(i, v), fuel))
    decreases fuel, body, 2
  {
    ExecKeeps(body, ps, st.Set(i, v), fuel);
    var o := Exec(body, ps, st.Set(i, v), fuel);
    if o.HasState() {
      KeptTrans({i}, Assigned(body), false, StoresElements(body), st, st.Set(i, v), o.st);
    }
  }

  lemma {:induction false} JoinKeeps(n: Node, s: State, t: State, o: Outcome)
    requires Kept(Assigned(n), StoresElements(n), s, t) && Keeps(n, t, o)
    ensures Keeps(n, s, o)
  {
    if o.HasState() {
      KeptTrans(Assigned(n), Assigned(n), StoresElements(n), StoresElements(n), s, t, o.st);
      assert Assigned(n) + Assigned(n) == Assigned(n);
    }
  }

  /** An expression that is frozen in `body` has the same value after it. */
  lemma {:induction false} FrozenKeeps(e: Expr, xs: set<string>, writes: bool, s: State, t: State)
    requires Kept(xs, writes, s, t) && Vars(e) !! xs && !(ReadsElements(e) && writes)
    ensures Eval(e, s) == Eval(e, t)
  {
    match e
    case Num(_) =>
    case BoolLit(_) =>
    case Var(x) =>
      assert SameVar(x, s, t);
    case Unary(_, e1) =>
      FrozenKeeps(e1, xs, writes, s, t);
    case Binary(_, l, r) =>
      FrozenKeeps(l, xs, writes, s, t);
      FrozenKeeps(r, xs, writes, s, t);
    case Index(a, i) =>
      FrozenKeeps(a, xs, writes, s, t);
      FrozenKeeps(i, xs, writes, s, t);
  }

  /** Without a `continue` that leaves it, a statement never ends by one. */
  lemma {:induction false} NeverContinues(n: Node, ps: set<string>, st: State, fuel: nat)
    requires Regular(n) && !FreeContinue(n)
    ensures !Exec(n, ps, st, fuel).Continued?
    decreases fuel, n
  {
    match n
    case Seq(a, b) =>
      NeverContinues(a, ps, st, fuel);
      var o := Exec(a, ps, st, fuel);
      if o.Normal? {
        NeverContinues(b, ps, o.st, fuel);
      }
    case If(_, thn, els) =>
      NeverContinues(thn, ps, st, fuel);
      NeverContinues(els, ps, st, fuel);
    case While(_, body, step) =>
      if fuel != 0 && Eval(n.cond, st) == Some(B(true)) {
        var o := Exec(body, ps, st, fuel);
        if o.Normal? || o.Continued? {
          var p := Exec(step, ps, o.st, fuel);
          if p.Normal? {
            NeverContinues(n, ps, p.st, fuel - 1);
          }
        }
      }
    case ForRange(_, start, end, stride, _, _) =>
      match (Eval(start, st), Eval(end, st), Eval(StrideOf(start, end, stride), st)) {
        case (Some(I(s)), Some(I(e)), Some(I(d))) =>
          var vals := RangeValues(s, e, d, Descending(start, end), n.inclusive);
          if vals.Some? {
            RangeNeverContinues(n, ps, vals.value, st, fuel);
          }
        case _ =>
      }
    case ForList(i, iterable, _, _, _) =>
      var v := Eval(iterable, st);
      if v.Some? && v.value.Ref? && v.value.addr in st.heap {
        ElementsNeverContinue(n, ps, v.value.addr, 0, |st.heap[v.value.addr]|, st.Set(i, ZeroElement(n)), fuel);
      }
    case _ =>
  }

  lemma {:induction false} RangeNeverContinues(n: Node, ps: set<string>, vals: seq<I64>, st: State, fuel: nat)
    requires n.ForRange? && vals != []
    ensures !ExecRange(n, ps, vals, st, fuel).Continued?
    decreases fuel
  {
    if fuel != 0 && |vals| != 1 {
      var o := Exec(n.body, ps, st.Set(n.iter, I(vals[0])), fuel);
      if o.Normal? || o.Continued? {
        RangeNeverContinues(n, ps, vals[1..], o.st, fuel - 1);
      }
    }
  }

  lemma {:induction false} ElementsNeverContinue(n: Node, ps: set<string>, r: nat, k: nat, len: nat, st: State,
          fuel: nat)
    requires n.ForList? && k <= len
    ensures !ExecElements(n, ps, r, k, len, st, fuel).Continued?
    decreases fuel
  {
    if fuel != 0 && k != len && st.Live(Cell(r, k)) {
      var o := Exec(n.body, ps, st.Set(n.iter, st.Read(Cell(r, k))), fuel);
      if o.Normal? || o.Continued? {
        ElementsNeverContinue(n, ps, r, k + 1, len, o.st, fuel - 1);
      }
    }
  }
}
