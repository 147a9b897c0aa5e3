/** A lowered list loop runs its body once for each element, in order, and never reads out of bounds. */
module ListLowering {
  import opened Wrappers
  import opened Syntax
  import opened HirGen
  import opened HirGenNames
  import opened HirGenProof
  import opened AstFacts
  import A = Ast
  import H = Hir

  function Limit(n: A.Node, ps: set<string>, c: nat): Expr
    requires n.ForList?
  {
    if A.IsListParam(n.iterable, ps) then Var(CountName(c)) else Num(n.size)
  }

  function Fetch(n: A.Node, c: nat): H.Node
    requires n.ForList?
  {
    H.Assign(Name(n.iter), Index(Var(ArrName(c)), Var(IdxName(c))), false)
  }

  function Advance(c: nat): H.Node {
    H.Assign(Name(IdxName(c)), Binary(Add, Var(IdxName(c)), Num(1)), false)
  }

  /** The store at the loop head: the generated names hold the index, the list and its length. */
  ghost predicate AtElement(n: A.Node, ps: set<string>, c: nat, r: nat, k: nat, len: nat, h: State)
    requires n.ForList?
  {
    && k <= len <= I64_MAX
    && IdxName(c) in h.vars && h.vars[IdxName(c)] == I(k)
    && ArrName(c) in h.vars && h.vars[ArrName(c)] == Ref(r)
    && Eval(Limit(n, ps, c), h) == Some(I(len))
    && r in h.heap && |h.heap[r]| == len
  }

  /** The generated read of an element is inside the list. */
  lemma {:induction false} FetchInBounds(n: A.Node, ps: set<string>, c: nat, r: nat, k: nat, len: nat, h: State,
          fuel: nat)
    requires n.ForList? && AtElement(n, ps, c, r, k, len, h)
    ensures Eval(Binary(Lt, Var(IdxName(c)), Limit(n, ps, c)), h) == Some(B(k < len))
    ensures k < len ==> H.Exec(Fetch(n, c), h, fuel) == Normal(h.Set(n.iter, h.heap[r][k]))
  {
    if k < len {
      assert EvalAddress(Var(ArrName(c)), Var(IdxName(c)), h) == Some(Cell(r, k));
      assert Eval(Index(Var(ArrName(c)), Var(IdxName(c))), h) == Some(h.heap[r][k]);
    }
  }

  /** The program's own variables and the loops inside leave the names of loop `c` alone. */
  lemma {:induction false} SetLexable(n: A.Node, ps: set<string>, c: nat, r: nat, k: nat, len: nat, h: State,
          x: string, v: Value)
    requires n.ForList? && A.Lexable(x) && AtElement(n, ps, c, r, k, len, h)
    ensures var h1 := h.Set(x, v);
      AtElement(n, ps, c, r, k, len, h1) && Guarded(h, h1, c) && Visible(h1) == Visible(h).Set(x, v)
  {
    NamesHidden(c);
    LexableVisible(x);
    LexableUnguarded(x, c);
    SetVisible(h, x, v);
    SetGuarded(h, x, v, c);
  }

  lemma {:induction false} BodyKeepsHead(n: A.Node, ps: set<string>, c: nat, r: nat, k: nat, len: nat, h: State,
          h1: State,
                                         fuel: nat)
    requires n.ForList? && AtElement(n, ps, c, r, k, len, h) && Guarded(h, h1, c + 1)
    requires A.Exec(n.body, ps, Visible(h), fuel) == Normal(Visible(h1))
    ensures AtElement(n, ps, c, r, k, len, h1)
  {
    ExecKeeps(n.body, ps, Visible(h), fuel);
    assert IdxName(c) in LoopNames(c) && ArrName(c) in LoopNames(c) && CountName(c) in LoopNames(c);
    assert SameVar(IdxName(c), h, h1) && SameVar(ArrName(c), h, h1) && SameVar(CountName(c), h, h1);
  }

  lemma {:induction false} AdvanceHead(n: A.Node, ps: set<string>, c: nat, r: nat, k: nat, len: nat, h: State,
          fuel: nat)
    requires n.ForList? && AtElement(n, ps, c, r, k, len, h) && k < len
    ensures var h1 := h.Set(IdxName(c), I(k + 1));
      && H.ExecAll([Advance(c)], h, fuel) == Normal(h1)
      && AtElement(n, ps, c, r, k + 1, len, h1) && Guarded(h, h1, c) && Visible(h1) == Visible(h)
  {
    NamesDistinct(c, c);
    NamesHidden(c);
    assert [Advance(c)][1..] == [];
    assert Eval(Binary(Add, Var(IdxName(c)), Num(1)), h) == Some(I(Wrap(k + 1)));
    assert H.Exec(Advance(c), h, fuel) == Normal(h.Set(IdxName(c), I(k + 1)));
    SetVisible(h, IdxName(c), I(k + 1));
    forall d: nat | d < c
      ensures IdxName(c) !in LoopNames(d)
    {
      NamesDistinct(c, d);
    }
    SetGuarded(h, IdxName(c), I(k + 1), c);
  }

  /** What one turn of the lowered loop does, in terms of the outcome `o` of the source body. */
  ghost predicate TurnAgrees(turn: H.Turn, o: Outcome, h: State, c: nat) {
    match o
    case Stuck => true
    case Normal(st) => turn.Again? && Guarded(h, turn.st, c) && Visible(turn.st) == st
    case Broke(st) => turn.Exit? && Agrees(Normal(st), turn.o, h, c)
    case Continued(_) => false
    case _ => turn.Exit? && Agrees(o, turn.o, h, c)
  }

  lemma {:induction false} BodyRuns(n: A.Node, c: nat, stmts: seq<H.Node>, h: State, h1: State, fuel: nat)
    requires n.ForList? && H.Exec(Fetch(n, c), h, fuel) == Normal(h1)
    ensures var o := H.ExecAll(stmts, h1, fuel);
      H.ExecAll([Fetch(n, c)] + stmts + [Advance(c)], h, fuel)
      == if o.Normal? then H.ExecAll([Advance(c)], o.st, fuel) else o
  {
    var fetch := Fetch(n, c);
    assert [fetch] + stmts + [Advance(c)] == [fetch] + (stmts + [Advance(c)]);
    H.ExecAllConcat([fetch], stmts + [Advance(c)], h, fuel);
    assert [fetch][1..] == [];
    assert H.ExecAll([fetch], h, fuel) == Normal(h1);
    H.ExecAllConcat(stmts, [Advance(c)], h1, fuel);
  }

  lemma {:induction false} ElementTurn(n: A.Node, ps: set<string>, stmts: seq<H.Node>, c: nat, r: nat, k: nat, len: nat,
                                       h: State, h1: State, fuel: nat)
    requires n.ForList? && Regular(n) && RefinesAll(n.body, ps, stmts, c + 1)
    requires AtElement(n, ps, c, r, k, len, h) && k < len && h1 == h.Set(n.iter, h.heap[r][k])
    ensures var turn := H.Iterate(ListLoop(n, ps, c, stmts), h, fuel); var o := A.Exec(n.body, ps, Visible(h1), fuel);
      && TurnAgrees(turn, o, h, c)
      && (o.Normal? ==> AtElement(n, ps, c, r, k + 1, len, turn.st))
  {
    var m := ListLoop(n, ps, c, stmts);
    var o, o' := A.Exec(n.body, ps, Visible(h1), fuel), H.ExecAll(stmts, h1, fuel);
    FetchInBounds(n, ps, c, r, k, len, h, fuel);
    SetLexable(n, ps, c, r, k, len, h, n.iter, h.heap[r][k]);
    assert Agrees(o, o', h1, c + 1);
    NeverContinues(n.body, ps, Visible(h1), fuel);
    BodyRuns(n, c, stmts, h, h1, fuel);
    assert H.Exec(m.body, h, fuel) == H.ExecAll([Fetch(n, c)] + stmts + [Advance(c)], h, fuel);
    if o.Normal? {
      var h2 := o'.st;
      BodyKeepsHead(n, ps, c, r, k, len, h1, h2, fuel);
      AdvanceHead(n, ps, c, r, k, len, h2, fuel);
      GuardedTrans(h, h1, h2, c, c + 1);
      GuardedTrans(h, h2, h2.Set(IdxName(c), I(k + 1)), c, c);
    } else {
      AgreesLater(o, o', h, h1, c, c + 1);
    }
  }

  lemma {:induction false} TurnThenRest(n: A.Node, ps: set<string>, m: H.Node, c: nat, r: nat, k: nat, len: nat,
          h: State, fuel: nat,
                     o: Outcome, turn: H.Turn)
    requires n.ForList? && k < len && Visible(h).Live(Cell(r, k)) && m.While? && fuel != 0
    requires o == A.Exec(n.body, ps, Visible(h).Set(n.iter, h.heap[r][k]), fuel) && turn == H.Iterate(m, h, fuel)
    requires TurnAgrees(turn, o, h, c)
    requires o.Normal? ==> Agrees(A.ExecElements(n, ps, r, k + 1, len, o.st, fuel - 1), H.Exec(m, turn.st, fuel - 1),
            turn.st, c)
    ensures Agrees(A.ExecElements(n, ps, r, k, len, Visible(h), fuel), H.Exec(m, h, fuel), h, c)
  {
    if o.Normal? {
      AgreesLater(A.ExecElements(n, ps, r, k + 1, len, o.st, fuel - 1), H.Exec(m, turn.st, fuel - 1), h, turn.st, c, c);
    }
  }

  lemma {:induction false} ElementsAgree(n: A.Node, ps: set<string>, stmts: seq<H.Node>, c: nat, r: nat, k: nat,
          len: nat,
                                         h: State, fuel: nat)
    requires n.ForList? && Regular(n) && RefinesAll(n.body, ps, stmts, c + 1)
    requires AtElement(n, ps, c, r, k, len, h)
    ensures Agrees(A.ExecElements(n, ps, r, k, len, Visible(h), fuel), H.Exec(ListLoop(n, ps, c, stmts), h, fuel), h, c)
    decreases fuel
  {
    if fuel != 0 {
      if k == len {
        FetchInBounds(n, ps, c, r, k, len, h, fuel);
      } else {
        var m := ListLoop(n, ps, c, stmts);
        var h1 := h.Set(n.iter, h.heap[r][k]);
        var turn := H.Iterate(m, h, fuel);
        var o := A.Exec(n.body, ps, Visible(h1), fuel);
        SetLexable(n, ps, c, r, k, len, h, n.iter, h.heap[r][k]);
        ElementTurn(n, ps, stmts, c, r, k, len, h, h1, fuel);
        if o.Normal? {
          ElementsAgree(n, ps, stmts, c, r, k + 1, len, turn.st, fuel - 1);
        }
        TurnThenRest(n, ps, m, c, r, k, len, h, fuel, o, turn);
      }
    }
  }

  // ---------- what comes before the loop ----------

  /** The store when the loop starts. */
  ghost function AfterSetup(n: A.Node, ps: set<string>, c: nat, r: nat, len: I64, h: State): State
    requires n.ForList?
  {
    var h1 := h.Set(n.iter, A.ZeroElement(n));
    var h2 := if A.IsListParam(n.iterable, ps) then h1.Set(CountName(c), I(len)) else h1;
    h2.Set(ArrName(c), Ref(r)).Set(IdxName(c), I(0))
  }

  lemma {:induction false} AssignThen(x: string, e: Expr, d: bool, rest: seq<H.Node>, v: Value, h: State, fuel: nat)
    requires Eval(e, h) == Some(v)
    ensures H.ExecAll([H.Assign(Name(x), e, d)] + rest, h, fuel) == H.ExecAll(rest, h.Set(x, v), fuel)
  {
    assert ([H.Assign(Name(x), e, d)] + rest)[1..] == rest;
    assert H.Exec(H.Assign(Name(x), e, d), h, fuel) == Normal(h.Set(x, v));
  }

  lemma {:induction false} EvalAfterSet(e: Expr, x: string, v: Value, h: State)
    requires x !in Vars(e)
    ensures Eval(e, h.Set(x, v)) == Eval(e, h)
  {
    EvalFrame(e, h.Set(x, v), h);
  }

  /** No generated name occurs in the iterable. */
  lemma {:induction false} HiddenNotIn(e: Expr, c: nat)
    requires AllLexable(Vars(e))
    ensures Vars(e) !! LoopNames(c)
  {
    NamesHidden(c);
  }

  lemma {:induction false} SetupRuns(n: A.Node, ps: set<string>, c: nat, r: nat, len: I64, rest: seq<H.Node>,
          h: State, fuel: nat)
    requires n.ForList? && AllLexable({n.iter} + Vars(n.iterable)) && n.iter !in Vars(n.iterable)
    requires Eval(n.iterable, h) == Some(Ref(r)) && A.ListLength(n, ps, h) == Some(len)
    ensures H.ExecAll(ListSetup(n, ps, c) + rest, h, fuel) == H.ExecAll(rest, AfterSetup(n, ps, c, r, len, h), fuel)
  {
    var param := A.IsListParam(n.iterable, ps);
    var zero := H.Assign(Name(n.iter), ZeroLiteral(n), true);
    var count := if param then [H.Assign(Name(CountName(c)), Var(n.iterable.name + A.COUNT_SUFFIX), true)] else [];
    var arr := H.Assign(Name(ArrName(c)), n.iterable, true);
    var idx := H.Assign(Name(IdxName(c)), Num(0), true);
    assert ListSetup(n, ps, c) + rest == [zero] + (count + ([arr] + ([idx] + rest)));
    HiddenNotIn(n.iterable, c);
    var h1 := h.Set(n.iter, A.ZeroElement(n));
    AssignThen(n.iter, ZeroLiteral(n), true, count + ([arr] + ([idx] + rest)), A.ZeroElement(n), h, fuel);
    EvalAfterSet(n.iterable, n.iter, A.ZeroElement(n), h);
    var h2 := if param then h1.Set(CountName(c), I(len)) else h1;
    if param {
      assert A.MARK in n.iterable.name + A.COUNT_SUFFIX by {
        assert (n.iterable.name + A.COUNT_SUFFIX)[|n.iterable.name|] == A.MARK;
      }
      AssignThen(CountName(c), Var(n.iterable.name + A.COUNT_SUFFIX), true, [arr] + ([idx] + rest), I(len), h1, fuel);
      EvalAfterSet(n.iterable, CountName(c), I(len), h1);
    } else {
      assert count + ([arr] + ([idx] + rest)) == [arr] + ([idx] + rest);
    }
    AssignThen(ArrName(c), n.iterable, true, [idx] + rest, Ref(r), h2, fuel);
    AssignThen(IdxName(c), Num(0), true, rest, I(0), h2.Set(ArrName(c), Ref(r)), fuel);
  }

  lemma {:induction false} SetHidden(h: State, x: string, v: Value, c: nat)
    requires x in LoopNames(c)
    ensures Visible(h.Set(x, v)) == Visible(h) && Guarded(h, h.Set(x, v), c)
  {
    NamesHidden(c);
    SetVisible(h, x, v);
    forall d: nat | d < c
      ensures x !in LoopNames(d)
    {
      NamesDistinct(c, d);
    }
    SetGuarded(h, x, v, c);
  }

  lemma {:induction false} SetupReachesHead(n: A.Node, ps: set<string>, c: nat, r: nat, len: nat, h: State)
    requires n.ForList? && A.Lexable(n.iter) && len <= I64_MAX && r in h.heap && |h.heap[r]| == len
    requires A.ListLength(n, ps, h) == Some(len)
    ensures var h' := AfterSetup(n, ps, c, r, len, h);
      && AtElement(n, ps, c, r, 0, len, h') && Guarded(h, h', c)
      && Visible(h') == Visible(h).Set(n.iter, A.ZeroElement(n))
  {
    var h1 := h.Set(n.iter, A.ZeroElement(n));
    var h2 := if A.IsListParam(n.iterable, ps) then h1.Set(CountName(c), I(len)) else h1;
    var h3 := h2.Set(ArrName(c), Ref(r));
    LexableVisible(n.iter);
    LexableUnguarded(n.iter, c);
    SetVisible(h, n.iter, A.ZeroElement(n));
    SetGuarded(h, n.iter, A.ZeroElement(n), c);
    SetHidden(h1, CountName(c), I(len), c);
    SetHidden(h2, ArrName(c), Ref(r), c);
    SetHidden(h3, IdxName(c), I(0), c);
    NamesDistinct(c, c);
    GuardedTrans(h, h1, h2, c, c);
    GuardedTrans(h, h2, h3, c, c);
    GuardedTrans(h, h3, h3.Set(IdxName(c), I(0)), c, c);
  }

  /** The length the loop is compiled for is the same with and without the generated names. */
  lemma {:induction false} LengthVisible(n: A.Node, ps: set<string>, h: State)
    requires n.ForList? && AllLexable(Vars(n.iterable))
    ensures A.ListLength(n, ps, Visible(h)) == A.ListLength(n, ps, h)
  {
    if A.IsListParam(n.iterable, ps) {
      assert n.iterable.name in Vars(n.iterable);
      LexableVisible(n.iterable.name);
    }
  }

  lemma {:induction false} ListFromStart(n: A.Node, ps: set<string>, stmts: seq<H.Node>, c: nat, r: nat, len: nat,
          h: State, fuel: nat)
    requires n.ForList? && Regular(n) && RefinesAll(n.body, ps, stmts, c + 1)
    requires Eval(n.iterable, h) == Some(Ref(r)) && r in h.heap && |h.heap[r]| == len <= I64_MAX
    requires A.ListLength(n, ps, h) == Some(len)
    ensures Agrees(A.ExecElements(n, ps, r, 0, len, Visible(h).Set(n.iter, A.ZeroElement(n)), fuel),
                   H.Exec(ListBlock(n, ps, c, stmts), h, fuel), h, c)
  {
    var loop := ListLoop(n, ps, c, stmts);
    var h1 := AfterSetup(n, ps, c, r, len, h);
    SetupRuns(n, ps, c, r, len, [loop], h, fuel);
    assert [loop][1..] == [];
    assert H.ExecAll([loop], h1, fuel) == H.Exec(loop, h1, fuel);
    SetupReachesHead(n, ps, c, r, len, h);
    ElementsAgree(n, ps, stmts, c, r, 0, len, h1, fuel);
    AgreesLater(A.ExecElements(n, ps, r, 0, len, Visible(h1), fuel), H.Exec(loop, h1, fuel), h, h1, c, c);
  }

  /** The lowered loop, with its set-up, means what the list loop means. */
  lemma {:induction false} ListRefines(n: A.Node, ps: set<string>, stmts: seq<H.Node>, c: nat)
    requires n.ForList? && Regular(n) && RefinesAll(n.body, ps, stmts, c + 1)
    ensures Refines(n, ps, ListBlock(n, ps, c, stmts), c)
  {
    forall h, fuel
      ensures Agrees(A.Exec(n, ps, Visible(h), fuel), H.Exec(ListBlock(n, ps, c, stmts), h, fuel), h, c)
    {
      if A.Exec(n, ps, Visible(h), fuel) != Stuck {
        EvalVisible(n.iterable, h);
        LengthVisible(n, ps, h);
        LengthFits(n, ps, h);
        var r := Eval(n.iterable, h).value.addr;
        ListFromStart(n, ps, stmts, c, r, |h.heap[r]|, h, fuel);
      }
    }
  }

  lemma {:induction false} LengthFits(n: A.Node, ps: set<string>, h: State)
    requires n.ForList?
    ensures var len := A.ListLength(n, ps, h); len.Some? ==> InI64(len.value)
  {
  }
}
