/** Lowering keeps the meaning of regular programs. */
module HirGenProof {
  import opened Wrappers
  import opened Syntax
  import opened HirGen
  import opened HirGenNames
  import opened AstFacts
  import A = Ast
  import H = Hir

  /** The store without generated names: what the program can see. */
  ghost function Visible(h: State): State {
    State(map x | x in h.vars && !Hidden(x) :: h.vars[x], h.heap)
  }

  ghost function VisibleOutcome(o: Outcome): Outcome {
    match o
    case Normal(st) => Normal(Visible(st))
    case Broke(st) => Broke(Visible(st))
    case Continued(st) => Continued(Visible(st))
    case Returned(v, st) => Returned(v, Visible(st))
    case Stuck => Stuck
    case Timeout => Timeout
  }

  /** The generated names of loops numbered below `c` are untouched. */
  ghost predicate Guarded(h: State, h': State, c: nat) {
    forall k: nat, x | k < c && x in LoopNames(k) :: SameVar(x, h, h')
  }

  /** Where the source is defined, the lowered program ends alike, with the same visible store. */
  ghost predicate Agrees(o: Outcome, o': Outcome, h: State, c: nat) {
    o == Stuck || (VisibleOutcome(o') == o && (o'.HasState() ==> Guarded(h, o'.st, c)))
  }

  ghost predicate Refines(n: A.Node, ps: set<string>, m: H.Node, c: nat) {
    forall h, fuel :: Agrees(A.Exec(n, ps, Visible(h), fuel), H.Exec(m, h, fuel), h, c)
  }

  ghost predicate RefinesAll(n: A.Node, ps: set<string>, stmts: seq<H.Node>, c: nat) {
    forall h, fuel :: Agrees(A.Exec(n, ps, Visible(h), fuel), H.ExecAll(stmts, h, fuel), h, c)
  }

  lemma {:induction false} EvalVisible(e: Expr, h: State)
    requires AllLexable(Vars(e))
    ensures Eval(e, Visible(h)) == Eval(e, h)
  {
    forall x | x in Vars(e)
      ensures !Hidden(x)
    {
      LexableVisible(x);
    }
    EvalFrame(e, Visible(h), h);
  }

  lemma {:induction false} SetVisible(h: State, x: string, v: Value)
    ensures Visible(h.Set(x, v)) == if Hidden(x) then Visible(h) else Visible(h).Set(x, v)
  {
    assert Visible(h.Set(x, v)).vars == (if Hidden(x) then Visible(h) else Visible(h).Set(x, v)).vars;
  }

  lemma {:induction false} SetGuarded(h: State, x: string, v: Value, c: nat)
    requires forall k: nat | k < c :: x !in LoopNames(k)
    ensures Guarded(h, h.Set(x, v), c)
  {
  }

  lemma {:induction false} LexableUnguarded(x: string, c: nat)
    requires A.Lexable(x)
    ensures forall k: nat | k < c :: x !in LoopNames(k)
  {
    forall k: nat | k < c
      ensures x !in LoopNames(k)
    {
      NamesHidden(k);
      LexableVisible(x);
    }
  }

  lemma {:induction false} GuardedTrans(h: State, h1: State, h2: State, c: nat, d: nat)
    requires Guarded(h, h1, c) && Guarded(h1, h2, d) && c <= d
    ensures Guarded(h, h2, c)
  {
    forall k: nat, x | k < c && x in LoopNames(k)
      ensures SameVar(x, h, h2)
    {
      assert SameVar(x, h, h1) && SameVar(x, h1, h2);
    }
  }

  lemma {:induction false} AgreesLater(o: Outcome, o': Outcome, h: State, h1: State, c: nat, d: nat)
    requires Guarded(h, h1, c) && Agrees(o, o', h1, d) && c <= d
    ensures Agrees(o, o', h, c)
  {
    if o != Stuck && o'.HasState() {
      GuardedTrans(h, h1, o'.st, c, d);
    }
  }

  // ---------- assignments ----------

  /** A compound assignment is a read and a write through a copy of its target. */
  lemma {:induction false} CompoundIsReadModifyWrite(t: Target, op: BinOp, e: Expr, st: State)
    ensures H.ExecAssign(t, Binary(op, CloneTarget(t), e), st) == A.ExecCompound(t, op, e, st)
  {
    match t
    case Name(x) =>
      assert Eval(CloneTarget(t), st) == if x in st.vars then Some(st.vars[x]) else None;
    case Element(arr, idx) =>
      var p := EvalAddress(arr, idx, st);
      assert Eval(CloneTarget(t), st) == if p.None? || !st.Live(p.value) then None else Some(st.Read(p.value));
  }

  lemma {:induction false} AssignRefines(n: A.Node, ps: set<string>, c: nat)
    requires n.Assign? && Regular(n)
    ensures Refines(n, ps, CreateAssignment(n.target, n.rhs, n.aop, n.isDeclaration), c)
  {
    var m := CreateAssignment(n.target, n.rhs, n.aop, n.isDeclaration);
    forall h, fuel
      ensures Agrees(A.Exec(n, ps, Visible(h), fuel), H.Exec(m, h, fuel), h, c)
    {
      var value := m.value;
      if n.aop.Compound? {
        CompoundIsReadModifyWrite(n.target, n.aop.op, n.rhs, Visible(h));
      }
      EvalVisible(value, h);
      match n.target
      case Name(x) =>
        assert x in TargetVars(n.target) + Vars(n.rhs);
        LexableVisible(x);
        LexableUnguarded(x, c);
        if Eval(value, h).Some? {
          SetVisible(h, x, Eval(value, h).value);
          SetGuarded(h, x, Eval(value, h).value, c);
        }
      case Element(arr, idx) =>
        EvalVisible(arr, h);
        EvalVisible(idx, h);
    }
  }

  // ---------- sequences, `if` and `while` ----------

  lemma {:induction false} NullRefines(ps: set<string>, c: nat)
    ensures RefinesAll(A.Null, ps, [], c) && Refines(A.Null, ps, H.Null, c)
  {
  }

  lemma {:induction false} LeafRefines(n: A.Node, ps: set<string>, m: H.Node, c: nat)
    requires Refines(n, ps, m, c)
    ensures RefinesAll(n, ps, [m], c)
  {
    forall h, fuel
      ensures Agrees(A.Exec(n, ps, Visible(h), fuel), H.ExecAll([m], h, fuel), h, c)
    {
      assert Agrees(A.Exec(n, ps, Visible(h), fuel), H.Exec(m, h, fuel), h, c);
      assert [m][1..] == [];
    }
  }

  lemma {:induction false} BlockRefines(n: A.Node, ps: set<string>, stmts: seq<H.Node>, c: nat)
    requires RefinesAll(n, ps, stmts, c)
    ensures Refines(n, ps, H.Block(stmts), c)
  {
    forall h, fuel
      ensures Agrees(A.Exec(n, ps, Visible(h), fuel), H.Exec(H.Block(stmts), h, fuel), h, c)
    {
      assert Agrees(A.Exec(n, ps, Visible(h), fuel), H.ExecAll(stmts, h, fuel), h, c);
    }
  }

  /** Flattening a sequence keeps its order. */
  lemma {:induction false} SeqRefines(n: A.Node, ps: set<string>, x: seq<H.Node>, y: seq<H.Node>, c: nat, d: nat)
    requires n.Seq? && c <= d && RefinesAll(n.a, ps, x, c) && RefinesAll(n.b, ps, y, d)
    ensures RefinesAll(n, ps, x + y, c)
  {
    forall h, fuel
      ensures Agrees(A.Exec(n, ps, Visible(h), fuel), H.ExecAll(x + y, h, fuel), h, c)
    {
      var o := A.Exec(n.a, ps, Visible(h), fuel);
      var o' := H.ExecAll(x, h, fuel);
      assert Agrees(o, o', h, c);
      H.ExecAllConcat(x, y, h, fuel);
      if o.Normal? {
        var p := A.Exec(n.b, ps, Visible(o'.st), fuel);
        assert Agrees(p, H.ExecAll(y, o'.st, fuel), o'.st, d);
        AgreesLater(p, H.ExecAll(y, o'.st, fuel), h, o'.st, c, d);
      }
    }
  }

  lemma {:induction false} AgreesEarlier(o: Outcome, o': Outcome, h: State, c: nat, d: nat)
    requires Agrees(o, o', h, d) && c <= d
    ensures Agrees(o, o', h, c)
  {
    if o != Stuck && o'.HasState() {
      assert Guarded(h, o'.st, c) by {
        assert Guarded(h, o'.st, d);
      }
    }
  }

  lemma {:induction false} IfRefines(n: A.Node, ps: set<string>, thn: H.Node, els: H.Node, c: nat, d: nat)
    requires n.If? && c <= d && AllLexable(Vars(n.cond))
    requires Refines(n.thenBranch, ps, thn, c) && Refines(n.elseBranch, ps, els, d)
    ensures Refines(n, ps, H.If(n.cond, thn, els), c)
  {
    forall h, fuel
      ensures Agrees(A.Exec(n, ps, Visible(h), fuel), H.Exec(H.If(n.cond, thn, els), h, fuel), h, c)
    {
      EvalVisible(n.cond, h);
      assert Agrees(A.Exec(n.thenBranch, ps, Visible(h), fuel), H.Exec(thn, h, fuel), h, c);
      assert Agrees(A.Exec(n.elseBranch, ps, Visible(h), fuel), H.Exec(els, h, fuel), h, d);
      AgreesEarlier(A.Exec(n.elseBranch, ps, Visible(h), fuel), H.Exec(els, h, fuel), h, c, d);
    }
  }

  /** `continue` in a `while` still runs the step. */
  lemma {:induction false} WhileAgrees(n: A.Node, ps: set<string>, body: H.Node, step: H.Node, c: nat, d: nat,
          h: State, fuel: nat)
    requires n.While? && c <= d && AllLexable(Vars(n.cond))
    requires Refines(n.body, ps, body, c) && Refines(n.step, ps, step, d)
    ensures Agrees(A.Exec(n, ps, Visible(h), fuel), H.Exec(H.While(n.cond, body, step), h, fuel), h, c)
    decreases fuel
  {
    var m := H.While(n.cond, body, step);
    EvalVisible(n.cond, h);
    if fuel != 0 && Eval(n.cond, h) == Some(B(true)) {
      var o, o' := A.Exec(n.body, ps, Visible(h), fuel), H.Exec(body, h, fuel);
      assert Agrees(o, o', h, c);
      if o.Normal? || o.Continued? {
        var h1 := o'.st;
        var p, p' := A.Exec(n.step, ps, Visible(h1), fuel), H.Exec(step, h1, fuel);
        assert Agrees(p, p', h1, d);
        AgreesLater(p, p', h, h1, c, d);
        if p.Normal? {
          WhileAgrees(n, ps, body, step, c, d, p'.st, fuel - 1);
          AgreesLater(A.Exec(n, ps, Visible(p'.st), fuel - 1), H.Exec(m, p'.st, fuel - 1), h, p'.st, c, c);
        }
      }
    }
  }

  lemma {:induction false} WhileRefines(n: A.Node, ps: set<string>, body: H.Node, step: H.Node, c: nat, d: nat)
    requires n.While? && c <= d && AllLexable(Vars(n.cond))
    requires Refines(n.body, ps, body, c) && Refines(n.step, ps, step, d)
    ensures Refines(n, ps, H.While(n.cond, body, step), c)
  {
    forall h, fuel
      ensures Agrees(A.Exec(n, ps, Visible(h), fuel), H.Exec(H.While(n.cond, body, step), h, fuel), h, c)
    {
      WhileAgrees(n, ps, body, step, c, d, h, fuel);
    }
  }
}
