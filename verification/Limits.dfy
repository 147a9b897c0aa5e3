/** Where the two passes do not keep the meaning, and the exact conditions under which they do. */
module Limits {
  import opened Wrappers
  import opened Syntax
  import opened Cfg
  import opened Codegen
  import opened CodegenExprProof
  import opened HirGen
  import opened HirGenNames
  import opened AstFacts
  import opened RangeLowering
  import A = Ast
  import E = ListLowering
  import H = Hir
  import L = Lexical
  import S = LexicalProof

  // ---------- `continue` in a range loop ----------

  /** Adding a non-zero stride always changes a 64-bit value. */
  lemma {:induction false} StrideMoves(x: I64, d: I64)
    requires d != 0
    ensures Wrap(x + d) != x
  {
    var m := x + d - I64_MIN;
    var q := m / TWO_TO_THE_64;
    assert Wrap(x + d) == x + d - q * TWO_TO_THE_64;
    assert d == q * TWO_TO_THE_64 ==> q == 0;
  }

  /**
   A turn of the lowered loop whose body runs to its end or to a `continue`, leaving iterator
   and stride as they were: the iterator moves on exactly if there was no `continue`, because
   the step is the last statement of the body.
   */
  lemma {:induction false} TurnAdvancesIff(n: A.Node, stmts: seq<H.Node>, x: I64, e: I64, d: I64, h: State, fuel: nat)
    requires n.ForRange? && d != 0
    requires AtHead(n, x, e, d, h) && A.InRange(x, e, A.Descending(n.start, n.end), n.inclusive)
    requires var o := H.ExecAll(stmts, h, fuel);
      && (o.Normal? || o.Continued?)
      && AtHead(n, x, e, d, o.st)
    ensures var o := H.ExecAll(stmts, h, fuel); var turn := H.Iterate(RangeLoop(n, stmts), h, fuel);
      && turn.Again? && n.iter in turn.st.vars
      && (turn.st.vars[n.iter] == I(Wrap(x + d)) <==> o.Normal?)
      && (o.Continued? ==> turn.st == o.st)
  {
    var m := RangeLoop(n, stmts);
    var step := H.Assign(Name(n.iter), Binary(Add, Var(n.iter), Stride(n)), true);
    var o := H.ExecAll(stmts, h, fuel);
    ConditionIsInRange(n, x, e, d, h);
    H.ExecAllConcat(stmts, [step], h, fuel);
    assert H.Exec(m.body, h, fuel) == H.ExecAll(stmts + [step], h, fuel);
    StrideMoves(x, d);
    if o.Normal? {
      assert Eval(Binary(Add, Var(n.iter), Stride(n)), o.st) == Some(I(Wrap(x + d)));
      SingleStmt(step, o.st, fuel);
    }
  }

  lemma {:induction false} WrapInjective(x: I64, y: I64, d: int)
    ensures Wrap(x + d) == Wrap(y + d) <==> x == y
  {
    var p, q := (x + d - I64_MIN) / TWO_TO_THE_64, (y + d - I64_MIN) / TWO_TO_THE_64;
    assert Wrap(x + d) == x + d - p * TWO_TO_THE_64 && Wrap(y + d) == y + d - q * TWO_TO_THE_64;
    assert x - y == (p - q) * TWO_TO_THE_64 ==> p == q;
  }

  /**
   After a body that runs to its end and leaves end and stride as they were, the lowered loop
   is at the head with the next value of the range exactly if the body left the iterator alone.
   That it is not assigned in the body is sufficient for that.
   */
  lemma {:induction false} NextHeadIff(n: A.Node, stmts: seq<H.Node>, x: I64, y: I64, e: I64, d: I64, h: State,
          fuel: nat)
    requires n.ForRange? && n.iter !in Vars(n.end) + Vars(Stride(n))
    requires AtHead(n, x, e, d, h) && A.InRange(x, e, A.Descending(n.start, n.end), n.inclusive)
    requires var o := H.ExecAll(stmts, h, fuel); o.Normal? && AtHead(n, y, e, d, o.st)
    ensures var turn := H.Iterate(RangeLoop(n, stmts), h, fuel);
      turn.Again? && (AtHead(n, Wrap(x + d), e, d, turn.st) <==> y == x)
  {
    var m := RangeLoop(n, stmts);
    var step := H.Assign(Name(n.iter), Binary(Add, Var(n.iter), Stride(n)), true);
    var h1 := H.ExecAll(stmts, h, fuel).st;
    var h2 := h1.Set(n.iter, I(Wrap(y + d)));
    ConditionIsInRange(n, x, e, d, h);
    H.ExecAllConcat(stmts, [step], h, fuel);
    assert H.Exec(m.body, h, fuel) == H.ExecAll(stmts + [step], h, fuel);
    assert Eval(Binary(Add, Var(n.iter), Stride(n)), h1) == Some(I(Wrap(y + d)));
    SingleStmt(step, h1, fuel);
    EvalFrame(n.end, h1, h2);
    EvalFrame(Stride(n), h1, h2);
    WrapInjective(x, y, d);
  }

  lemma {:induction false} ContinueStalls(n: A.Node, x: I64, e: I64, d: I64, h: State, fuel: nat)
    requires n.ForRange? && d != 0
    requires AtHead(n, x, e, d, h) && A.InRange(x, e, A.Descending(n.start, n.end), n.inclusive)
    ensures H.Exec(RangeLoop(n, [H.Continue]), h, fuel) == Timeout
    decreases fuel
  {
    if fuel != 0 {
      assert H.ExecAll([H.Continue], h, fuel) == Continued(h);
      TurnAdvancesIff(n, [H.Continue], x, e, d, h, fuel);
      assert H.Iterate(RangeLoop(n, [H.Continue]), h, fuel) == H.Again(h);
      ContinueStalls(n, x, e, d, h, fuel - 1);
    }
  }

  /** A range loop whose body is `continue` never ends when lowered, exactly if its range has a value. */
  lemma {:induction false} ContinueDivergesIff(n: A.Node, ps: set<string>, c: nat, x: I64, e: I64, d: I64, h: State,
          fuel: nat)
    requires n.ForRange? && n.body == A.Continue && d != 0 && n.iter !in Vars(n.end) + Vars(Stride(n))
    requires Eval(n.start, h) == Some(I(x)) && Eval(n.end, h) == Some(I(e)) && Eval(Stride(n), h) == Some(I(d))
    ensures fuel != 0 ==>
      (H.Exec(Lower(n, ps, c).node, h, fuel) == Timeout
       <==> A.InRange(x, e, A.Descending(n.start, n.end), n.inclusive))
  {
    var h1 := h.Set(n.iter, I(x));
    assert Flatten(A.Continue, ps, c).stmts == [H.Continue];
    InitThenLoop(n.iter, n.start, I(x), RangeLoop(n, [H.Continue]), h, fuel);
    EvalFrame(n.end, h, h1);
    EvalFrame(Stride(n), h, h1);
    if A.InRange(x, e, A.Descending(n.start, n.end), n.inclusive) {
      ContinueStalls(n, x, e, d, h1, fuel);
    } else {
      ConditionIsInRange(n, x, e, d, h1);
    }
  }

  lemma {:induction false} ContinueTurn(n: A.Node, d: nat, tab: L.Table, v: Value, st: L.Store, fuel: nat)
    requires (n.ForRange? || n.ForList?) && n.body == A.Continue && st.Leave(d) == st
    ensures L.ExecTurn(n, d, tab, v, st, fuel) == L.Continues(st)
  {
    assert st.Set(d + 1, n.iter, v).Leave(d).vars == st.Leave(d).vars;
  }

  lemma {:induction false} ContinueRange(n: A.Node, d: nat, tab: L.Table, vals: seq<I64>, st: L.Store, fuel: nat)
    requires n.ForRange? && n.body == A.Continue && vals != [] && |vals| <= fuel && st.Leave(d) == st
    ensures L.ExecRange(n, d, tab, vals, st, fuel) == L.Ends(st)
    decreases |vals|
  {
    if |vals| != 1 {
      ContinueTurn(n, d, tab, I(vals[0]), st, fuel);
      ContinueRange(n, d, tab, vals[1..], st, fuel - 1);
    }
  }

  /** In the source it always ends, and leaves everything as it was. */
  lemma {:induction false} ContinueEnds(n: A.Node, d: nat, tab: L.Table, x: I64, e: I64, w: I64, st: L.Store, fuel: nat)
    requires n.ForRange? && n.body == A.Continue && st.Leave(d) == st
    requires var v := st.View(tab);
      Eval(n.start, v) == Some(I(x)) && Eval(n.end, v) == Some(I(e)) && Eval(Stride(n), v) == Some(I(w))
    requires var vals := A.RangeValues(x, e, w, A.Descending(n.start, n.end), n.inclusive);
      vals.Some? && |vals.value| <= fuel
    ensures L.Exec(n, d, tab, st, fuel) == L.Ends(st)
  {
    S.RunsRange(n, d, tab, st, x, e, w, fuel);
    ContinueRange(n, d, tab, A.RangeValues(x, e, w, A.Descending(n.start, n.end), n.inclusive).value, st, fuel);
  }

  // ---------- `continue` in a list loop ----------

  /**
   A turn of the lowered list loop whose body runs to its end or to a `continue`, leaving the
   generated names alone: the index moves on exactly if there was no `continue`.
   */
  lemma {:induction false} IndexAdvancesIff(n: A.Node, ps: set<string>, stmts: seq<H.Node>, c: nat, r: nat, k: nat,
          len: nat, h: State, fuel: nat)
    requires n.ForList? && E.AtElement(n, ps, c, r, k, len, h) && k < len
    requires var o := H.ExecAll(stmts, h.Set(n.iter, h.heap[r][k]), fuel);
      && (o.Normal? || o.Continued?)
      && E.AtElement(n, ps, c, r, k, len, o.st)
    ensures var o := H.ExecAll(stmts, h.Set(n.iter, h.heap[r][k]), fuel);
      var turn := H.Iterate(ListLoop(n, ps, c, stmts), h, fuel);
      && turn.Again? && IdxName(c) in turn.st.vars
      && (turn.st.vars[IdxName(c)] == I(k + 1) <==> o.Normal?)
      && (o.Continued? ==> turn.st == o.st)
  {
    var m, h1 := ListLoop(n, ps, c, stmts), h.Set(n.iter, h.heap[r][k]);
    var o := H.ExecAll(stmts, h1, fuel);
    E.FetchInBounds(n, ps, c, r, k, len, h, fuel);
    E.BodyRuns(n, c, stmts, h, h1, fuel);
    assert H.Exec(m.body, h, fuel) == H.ExecAll([E.Fetch(n, c)] + stmts + [E.Advance(c)], h, fuel);
    E.AdvanceHead(n, ps, c, r, k, len, o.st, fuel);
  }

  lemma {:induction false} ListStalls(n: A.Node, ps: set<string>, c: nat, r: nat, k: nat, len: nat, h: State, fuel: nat)
    requires n.ForList? && A.Lexable(n.iter) && E.AtElement(n, ps, c, r, k, len, h) && k < len
    ensures H.Exec(ListLoop(n, ps, c, [H.Continue]), h, fuel) == Timeout
    decreases fuel
  {
    if fuel != 0 {
      var h1 := h.Set(n.iter, h.heap[r][k]);
      assert H.ExecAll([H.Continue], h1, fuel) == Continued(h1);
      E.SetLexable(n, ps, c, r, k, len, h, n.iter, h.heap[r][k]);
      IndexAdvancesIff(n, ps, [H.Continue], c, r, k, len, h, fuel);
      assert H.Iterate(ListLoop(n, ps, c, [H.Continue]), h, fuel) == H.Again(h1);
      ListStalls(n, ps, c, r, k, len, h1, fuel - 1);
    }
  }

  /** A list loop whose body is `continue` never ends when lowered, exactly if its list has an element. */
  lemma {:induction false} ListContinueDivergesIff(n: A.Node, ps: set<string>, c: nat, r: nat, len: nat, h: State,
          fuel: nat)
    requires n.ForList? && n.body == A.Continue
    requires AllLexable({n.iter} + Vars(n.iterable)) && n.iter !in Vars(n.iterable)
    requires Eval(n.iterable, h) == Some(Ref(r)) && r in h.heap && |h.heap[r]| == len <= I64_MAX
    requires A.ListLength(n, ps, h) == Some(len)
    ensures fuel != 0 ==> (H.Exec(Lower(n, ps, c).node, h, fuel) == Timeout <==> len != 0)
  {
    var loop, h1 := ListLoop(n, ps, c, [H.Continue]), E.AfterSetup(n, ps, c, r, len, h);
    assert Flatten(A.Continue, ps, c + 1).stmts == [H.Continue];
    E.SetupRuns(n, ps, c, r, len, [loop], h, fuel);
    SingleStmt(loop, h1, fuel);
    E.SetupReachesHead(n, ps, c, r, len, h);
    if len != 0 {
      ListStalls(n, ps, c, r, 0, len, h1, fuel);
    } else {
      E.FetchInBounds(n, ps, c, r, 0, len, h1, fuel);
    }
  }

  lemma {:induction false} ContinueElements(n: A.Node, d: nat, tab: L.Table, r: nat, k: nat, st: L.Store, fuel: nat)
    requires n.ForList? && n.body == A.Continue && st.Leave(d) == st
    requires r in st.heap && k <= |st.heap[r]| && |st.heap[r]| - k < fuel
    ensures L.ExecElements(n, d, tab, r, k, st, fuel) == L.Ends(st)
    decreases |st.heap[r]| - k
  {
    if k != |st.heap[r]| {
      ContinueTurn(n, d, tab, st.heap[r][k], st, fuel);
      ContinueElements(n, d, tab, r, k + 1, st, fuel - 1);
    }
  }

  /** In the source it always ends. */
  lemma {:induction false} ListContinueEnds(n: A.Node, d: nat, tab: L.Table, r: nat, st: L.Store, fuel: nat)
    requires n.ForList? && n.body == A.Continue && st.Leave(d) == st
    requires Eval(n.iterable, st.View(tab)) == Some(Ref(r)) && r in st.heap && |st.heap[r]| < fuel
    ensures L.Exec(n, d, tab, st, fuel) == L.Ends(st)
  {
    ContinueElements(n, d, tab, r, 0, st, fuel);
  }

  // ---------- lists whose type has no length ----------

  lemma {:induction false} NoTurn(n: A.Node, ps: set<string>, c: nat, r: nat, h: State, fuel: nat)
    requires n.ForList? && n.size == 0 && !A.IsListParam(n.iterable, ps) && fuel != 0
    requires AllLexable({n.iter} + Vars(n.iterable)) && n.iter !in Vars(n.iterable)
    requires Eval(n.iterable, h) == Some(Ref(r))
    ensures H.Exec(Lower(n, ps, c).node, h, fuel) == Normal(E.AfterSetup(n, ps, c, r, 0, h))
  {
    var loop, h1 := ListLoop(n, ps, c, Flatten(n.body, ps, c + 1).stmts), E.AfterSetup(n, ps, c, r, 0, h);
    E.SetupRuns(n, ps, c, r, 0, [loop], h, fuel);
    SingleStmt(loop, h1, fuel);
    assert Eval(loop.cond, h1) == Some(B(false));
  }

  lemma {:induction false} FirstTurnReturns(n: A.Node, v: I64, r: nat, d: nat, tab: L.Table, st: L.Store, fuel: nat)
    requires n.ForList? && n.body == A.Return(Some(Num(v)))
    requires r in st.heap && fuel != 0
    ensures L.ExecElements(n, d, tab, r, 0, st, fuel).Ends? <==> st.heap[r] == []
  {
    if st.heap[r] != [] {
      assert L.ExecTurn(n, d, tab, st.heap[r][0], st, fuel).Returns?;
    }
  }

  lemma {:induction false} RunsElements(n: A.Node, r: nat, d: nat, tab: L.Table, st: L.Store, fuel: nat)
    requires n.ForList? && Eval(n.iterable, st.View(tab)) == Some(Ref(r)) && r in st.heap
    ensures L.Exec(n, d, tab, st, fuel) == L.ExecElements(n, d, tab, r, 0, st, fuel)
  {
  }

  /**
   A variadic group that is copied to another variable leaves its companion behind, and its
   type says length 0: lowered, a loop over the copy makes no turn.  So `for x in xs { return v }`
   ends as in the source exactly if the list is empty.
   */
  lemma {:induction false} CopiedGroupIff(n: A.Node, ps: set<string>, c: nat, v: I64, r: nat, d: nat, tab: L.Table,
          st: L.Store, h: State, fuel: nat)
    requires n.ForList? && n.size == 0 && !A.IsListParam(n.iterable, ps) && n.body == A.Return(Some(Num(v)))
    requires AllLexable({n.iter} + Vars(n.iterable)) && n.iter !in Vars(n.iterable)
    requires Eval(n.iterable, st.View(tab)) == Some(Ref(r)) && Eval(n.iterable, h) == Some(Ref(r))
    requires r in st.heap && fuel != 0
    ensures H.Exec(Lower(n, ps, c).node, h, fuel).Normal?
    ensures L.Exec(n, d, tab, st, fuel).Ends? <==> st.heap[r] == []
  {
    NoTurn(n, ps, c, r, h, fuel);
    FirstTurnReturns(n, v, r, d, tab, st, fuel);
    RunsElements(n, r, d, tab, st, fuel);
  }

  /** The head of a list loop that is compiled for `bound` elements, whatever its list has. */
  ghost predicate AtStale(n: A.Node, ps: set<string>, c: nat, r: nat, k: nat, bound: nat, h: State)
    requires n.ForList?
  {
    && k <= bound <= I64_MAX && r in h.heap && k <= |h.heap[r]|
    && IdxName(c) in h.vars && h.vars[IdxName(c)] == I(k)
    && ArrName(c) in h.vars && h.vars[ArrName(c)] == Ref(r)
    && Eval(E.Limit(n, ps, c), h) == Some(I(bound))
  }

  predicate IndexIs(st: State, c: nat, k: int) {
    IdxName(c) in st.vars && st.vars[IdxName(c)].I? && st.vars[IdxName(c)].n == k
  }

  /** The loop stops by its bound, or reads past the end of a shorter list. */
  ghost predicate StaleEnd(o: Outcome, c: nat, bound: nat, len: nat) {
    if bound <= len then o.Normal? && IndexIs(o.st, c, bound) else o == Stuck
  }

  lemma {:induction false} StaleFetch(n: A.Node, ps: set<string>, c: nat, r: nat, k: nat, bound: nat, h: State,
          fuel: nat)
    requires n.ForList? && AtStale(n, ps, c, r, k, bound, h)
    ensures Eval(Binary(Lt, Var(IdxName(c)), E.Limit(n, ps, c)), h) == Some(B(k < bound))
    ensures H.Exec(E.Fetch(n, c), h, fuel)
         == if k < |h.heap[r]| then Normal(h.Set(n.iter, h.heap[r][k])) else Stuck
  {
    assert EvalAddress(Var(ArrName(c)), Var(IdxName(c)), h) == Some(Cell(r, k));
  }

  lemma {:induction false} StaleTurn(n: A.Node, ps: set<string>, c: nat, r: nat, k: nat, bound: nat, h: State,
          fuel: nat)
    requires n.ForList? && A.Lexable(n.iter) && AtStale(n, ps, c, r, k, bound, h) && k < bound && k < |h.heap[r]|
    ensures var h2 := h.Set(n.iter, h.heap[r][k]).Set(IdxName(c), I(k + 1));
      && H.Iterate(ListLoop(n, ps, c, []), h, fuel) == H.Again(h2)
      && AtStale(n, ps, c, r, k + 1, bound, h2)
  {
    var h1 := h.Set(n.iter, h.heap[r][k]);
    StaleFetch(n, ps, c, r, k, bound, h, fuel);
    NamesDistinct(c, c);
    NamesHidden(c);
    E.BodyRuns(n, c, [], h, h1, fuel);
    assert h1.vars[IdxName(c)] == I(k);
    assert Eval(Binary(Add, Var(IdxName(c)), Num(1)), h1) == Some(I(Wrap(k + 1)));
    assert H.Exec(E.Advance(c), h1, fuel) == Normal(h1.Set(IdxName(c), I(k + 1)));
    SingleStmt(E.Advance(c), h1, fuel);
  }

  /** With nothing in its body. */
  lemma {:induction false} StaleLoop(n: A.Node, ps: set<string>, c: nat, r: nat, k: nat, bound: nat, h: State,
          fuel: nat)
    requires n.ForList? && A.Lexable(n.iter) && AtStale(n, ps, c, r, k, bound, h) && bound - k < fuel
    ensures StaleEnd(H.Exec(ListLoop(n, ps, c, []), h, fuel), c, bound, |h.heap[r]|)
    decreases bound - k
  {
    var m, fetch := ListLoop(n, ps, c, []), E.Fetch(n, c);
    StaleFetch(n, ps, c, r, k, bound, h, fuel);
    assert [fetch] + [] + [E.Advance(c)] == [fetch, E.Advance(c)];
    assert m.body == H.Block([fetch] + [] + [E.Advance(c)]);
    if k < bound && k < |h.heap[r]| {
      var h1 := h.Set(n.iter, h.heap[r][k]);
      var h2 := h1.Set(IdxName(c), I(k + 1));
      StaleTurn(n, ps, c, r, k, bound, h, fuel);
      StaleLoop(n, ps, c, r, k + 1, bound, h2, fuel - 1);
      assert H.Exec(m, h, fuel) == H.Exec(m, h2, fuel - 1);
    } else if k < bound {
      assert H.Exec(fetch, h, fuel) == Stuck;
      assert H.ExecAll([fetch, E.Advance(c)], h, fuel) == Stuck;
      assert H.Exec(m.body, h, fuel) == Stuck;
      assert H.Iterate(m, h, fuel) == H.Exit(Stuck);
    }
  }

  /**
   `xs = ys; for x in xs {}` with two variadic groups: the assignment leaves the companion of
   `xs` behind.  Lowered, the loop makes as many turns as the old list had elements if the new
   one has at least as many, and reads past its end otherwise; it stops behind the last element
   of the new list exactly if the lengths are equal.
   */
  lemma {:induction false} StaleGroupIff(n: A.Node, ys: string, ps: set<string>, c: nat, q: nat, r: nat, h: State,
          fuel: nat)
    requires n.ForList? && n.body == A.Null && A.IsListParam(n.iterable, ps)
    requires var xs := n.iterable.name;
      && A.Lexable(xs) && A.Lexable(n.iter) && n.iter != xs
      && xs in h.vars && h.vars[xs] == Ref(q) && q in h.heap && S.GroupKnown(xs, h)
      && ys in h.vars && h.vars[ys] == Ref(r) && r in h.heap
    requires |h.heap[q]| < fuel
    ensures var stmts := [H.Assign(Name(n.iterable.name), Var(ys), false), Lower(n, ps, c).node];
      var o, was, len := H.ExecAll(stmts, h, fuel), |h.heap[q]|, |h.heap[r]|;
      && StaleEnd(o, c, was, len)
      && (o.Normal? && IndexIs(o.st, c, len) <==> was == len)
  {
    var xs, was := n.iterable.name, |h.heap[q]|;
    var assign, h1 := H.Assign(Name(xs), Var(ys), false), h.Set(xs, Ref(r));
    var loop, h2 := ListLoop(n, ps, c, []), E.AfterSetup(n, ps, c, r, was, h1);
    assert (xs + A.COUNT_SUFFIX)[|xs|] == A.MARK;
    assert Flatten(A.Null, ps, c + 1).stmts == [];
    assert [assign, Lower(n, ps, c).node] == [assign] + [Lower(n, ps, c).node];
    E.AssignThen(xs, Var(ys), false, [Lower(n, ps, c).node], Ref(r), h, fuel);
    SingleStmt(Lower(n, ps, c).node, h1, fuel);
    E.SetupRuns(n, ps, c, r, was, [loop], h1, fuel);
    SingleStmt(loop, h2, fuel);
    NamesDistinct(c, c);
    NamesHidden(c);
    StaleLoop(n, ps, c, r, 0, was, h2, fuel);
  }

  // ---------- conditions without a value ----------

  /** A `while` tests its condition exactly if the generator has a value for it; otherwise it never leaves by it. */
  lemma {:induction false} WhileTestsIff(c: Expr, n: nat, b: Builder)
    requires b.Valid() && !b.Terminated() && b.cur == n && n + 4 <= |b.blocks|
    ensures (WhileTest(c, n, b).blocks[n].term == Some(CondBr(Const(B(true)), n + 1, n + 3)))
      <==> (!Resolves(c, b.slots) || c == BoolLit(true))
  {
    ValueIffResolves(c, b.slots, b.nextReg);
    ConstantOnlyLiteral(c, b.slots, b.nextReg);
  }

  lemma {:induction false} ConstantOnlyLiteral(c: Expr, slots: set<string>, n: nat)
    ensures ExprCode(c, slots, n).value == Some(Const(B(true))) <==> c == BoolLit(true)
    ensures ExprCode(c, slots, n).value == Some(Const(B(false))) <==> c == BoolLit(false)
  {
  }

  /** An `if` tests its condition exactly if there is a value for it; otherwise it never takes its first arm. */
  lemma {:induction false} IfTestsIff(c: Expr, hasElse: bool, b: Builder)
    requires b.Valid() && !b.Terminated()
    ensures var n := |b.blocks|;
      (IfEnter(c, hasElse, b).blocks[b.cur].term == Some(CondBr(Const(B(false)), n, if hasElse then n + 1 else n + 2)))
      <==> (!Resolves(c, b.slots) || c == BoolLit(false))
  {
    ValueIffResolves(c, b.slots, b.nextReg);
    ConstantOnlyLiteral(c, b.slots, b.nextReg);
  }

  function Operators(e: Expr): set<BinOp> {
    match e
    case Unary(_, e) => Operators(e)
    case Binary(op, l, r) => {op} + Operators(l) + Operators(r)
    case Index(a, i) => Operators(a) + Operators(i)
    case _ => {}
  }

  lemma {:induction false} ResolvesIff(e: Expr, slots: set<string>)
    ensures Resolves(e, slots) <==> Vars(e) <= slots && And !in Operators(e) && Or !in Operators(e)
  {
    match e
    case Unary(_, e1) => ResolvesIff(e1, slots);
    case Binary(_, l, r) =>
      ResolvesIff(l, slots);
      ResolvesIff(r, slots);
    case Index(a, i) =>
      ResolvesIff(a, slots);
      ResolvesIff(i, slots);
    case _ =>
  }

  /**
   The generator has a value for an expression exactly if all its names have slots and there
   is no `&&` and no `||` anywhere in it.
   */
  lemma {:induction false} LogicalHasNoValue(e: Expr, slots: set<string>, n: nat)
    ensures ExprCode(e, slots, n).value.Some?
      <==> Vars(e) <= slots && And !in Operators(e) && Or !in Operators(e)
  {
    ValueIffResolves(e, slots, n);
    ResolvesIff(e, slots);
  }
}
