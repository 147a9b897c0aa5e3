/** A lowered range loop runs its body once for each value of the range, in order. */
module RangeLowering {
  import opened Wrappers
  import opened Syntax
  import opened HirGen
  import opened HirGenNames
  import opened HirGenProof
  import opened AstFacts
  import opened RangeFacts
  import A = Ast
  import H = Hir

  ghost function Stride(n: A.Node): Expr
    requires n.ForRange?
  {
    A.StrideOf(n.start, n.end, n.stride)
  }

  /** `vals` are range values with stride `d`, followed by one value past the end `e`. */
  ghost predicate Values(n: A.Node, vals: seq<I64>, e: int, d: int)
    requires n.ForRange?
  {
    var descending := A.Descending(n.start, n.end);
    && vals != []
    && (forall k | 0 <= k < |vals| - 1 :: A.InRange(vals[k], e, descending, n.inclusive) && vals[k + 1] == vals[k] + d)
    && !A.InRange(vals[|vals| - 1], e, descending, n.inclusive)
  }

  /** The store at the loop head: the iterator holds the next value, end and stride are as at the start. */
  ghost predicate AtHead(n: A.Node, x: I64, e: I64, d: I64, h: State)
    requires n.ForRange?
  {
    && n.iter in h.vars && h.vars[n.iter] == I(x)
    && Eval(n.end, h) == Some(I(e))
    && Eval(Stride(n), h) == Some(I(d))
  }

  lemma {:induction false} ConditionIsInRange(n: A.Node, x: I64, e: I64, d: I64, h: State)
    requires n.ForRange? && AtHead(n, x, e, d, h)
    ensures var descending := A.Descending(n.start, n.end);
      Eval(Binary(RangeCondOp(descending, n.inclusive), Var(n.iter), n.end), h)
      == Some(B(A.InRange(x, e, descending, n.inclusive)))
  {
  }

  /** After a turn, adding the stride leads to the head with the next value. */
  lemma {:induction false} NextHead(n: A.Node, ps: set<string>, x: I64, y: I64, e: I64, d: I64, h: State, h1: State,
          fuel: nat)
    requires n.ForRange? && Regular(n) && AtHead(n, x, e, d, h) && y == x + d
    requires A.Exec(n.body, ps, Visible(h), fuel) == Normal(Visible(h1))
    ensures Eval(Binary(Add, Var(n.iter), Stride(n)), h1) == Some(I(y))
    ensures AtHead(n, y, e, d, h1.Set(n.iter, I(y)))
  {
    var h2 := h1.Set(n.iter, I(y));
    ExecKeeps(n.body, ps, Visible(h), fuel);
    LexableVisible(n.iter);
    assert SameVar(n.iter, Visible(h), Visible(h1));
    FrozenThrough(n.end, n.body, h, h1);
    FrozenThrough(Stride(n), n.body, h, h1);
    EvalFrame(n.end, h1, h2);
    EvalFrame(Stride(n), h1, h2);
  }

  lemma {:induction false} FrozenThrough(e: Expr, body: A.Node, h: State, h1: State)
    requires AllLexable(Vars(e)) && Frozen(e, body) && Kept(Assigned(body), StoresElements(body), Visible(h),
            Visible(h1))
    ensures Eval(e, h) == Eval(e, h1)
  {
    EvalVisible(e, h);
    EvalVisible(e, h1);
    FrozenKeeps(e, Assigned(body), StoresElements(body), Visible(h), Visible(h1));
  }

  /** What one turn of the lowered loop does, in terms of the outcome `o` of the source body. */
  ghost predicate TurnAgrees(turn: H.Turn, o: Outcome, n: A.Node, y: I64, h: State, c: nat)
    requires n.ForRange?
  {
    match o
    case Stuck => true
    case Normal(st) => turn.Again? && Guarded(h, turn.st, c) && Visible(turn.st) == st.Set(n.iter, I(y))
    case Broke(st) => turn.Exit? && Agrees(Normal(st), turn.o, h, c)
    case Continued(_) => false
    case _ => turn.Exit? && Agrees(o, turn.o, h, c)
  }

  lemma {:induction false} RangeTurn(n: A.Node, ps: set<string>, stmts: seq<H.Node>, c: nat, x: I64, y: I64, e: I64,
          d: I64, h: State, fuel: nat)
    requires n.ForRange? && Regular(n) && RefinesAll(n.body, ps, stmts, c)
    requires AtHead(n, x, e, d, h) && y == x + d && A.InRange(x, e, A.Descending(n.start, n.end), n.inclusive)
    ensures var turn := H.Iterate(RangeLoop(n, stmts), h, fuel); var o := A.Exec(n.body, ps, Visible(h), fuel);
      && TurnAgrees(turn, o, n, y, h, c)
      && (o.Normal? ==> AtHead(n, y, e, d, turn.st))
  {
    var m := RangeLoop(n, stmts);
    var step := H.Assign(Name(n.iter), Binary(Add, Var(n.iter), Stride(n)), true);
    var o, o' := A.Exec(n.body, ps, Visible(h), fuel), H.ExecAll(stmts, h, fuel);
    ConditionIsInRange(n, x, e, d, h);
    assert Agrees(o, o', h, c);
    NeverContinues(n.body, ps, Visible(h), fuel);
    H.ExecAllConcat(stmts, [step], h, fuel);
    assert H.Exec(m.body, h, fuel) == H.ExecAll(stmts + [step], h, fuel);
    if o.Normal? {
      var h1 := o'.st;
      var h2 := h1.Set(n.iter, I(y));
      NextHead(n, ps, x, y, e, d, h, h1, fuel);
      assert [step][1..] == [];
      assert H.ExecAll([step], h1, fuel) == Normal(h2);
      LexableVisible(n.iter);
      LexableUnguarded(n.iter, c);
      SetVisible(h1, n.iter, I(y));
      SetGuarded(h1, n.iter, I(y), c);
      GuardedTrans(h, h1, h2, c, c);
    }
  }

  lemma {:induction false} RangeAgrees(n: A.Node, ps: set<string>, stmts: seq<H.Node>, c: nat, vals: seq<I64>, e: I64,
          d: I64,
                                       st: State, h: State, fuel: nat)
    requires n.ForRange? && Regular(n) && RefinesAll(n.body, ps, stmts, c)
    requires Values(n, vals, e, d) && AtHead(n, vals[0], e, d, h) && Visible(h) == st.Set(n.iter, I(vals[0]))
    ensures Agrees(A.ExecRange(n, ps, vals, st, fuel), H.Exec(RangeLoop(n, stmts), h, fuel), h, c)
    decreases fuel
  {
    if fuel != 0 {
      if |vals| == 1 {
        ConditionIsInRange(n, vals[0], e, d, h);
      } else {
        var m := RangeLoop(n, stmts);
        var turn := H.Iterate(m, h, fuel);
        var o := A.Exec(n.body, ps, Visible(h), fuel);
        RangeTurn(n, ps, stmts, c, vals[0], vals[1], e, d, h, fuel);
        TailValues(n, vals, e, d);
        if o.Normal? {
          RangeAgrees(n, ps, stmts, c, vals[1..], e, d, o.st, turn.st, fuel - 1);
        }
        TurnThenRest(n, ps, m, c, vals, st, h, fuel, o, turn);
      }
    }
  }

  /** A turn that agrees, followed by the remaining turns, which agree too. */
  lemma {:induction false} TurnThenRest(n: A.Node, ps: set<string>, m: H.Node, c: nat, vals: seq<I64>, st: State,
          h: State, fuel: nat,
                     o: Outcome, turn: H.Turn)
    requires n.ForRange? && |vals| > 1 && m.While? && fuel != 0
    requires o == A.Exec(n.body, ps, st.Set(n.iter, I(vals[0])), fuel) && turn == H.Iterate(m, h, fuel)
    requires TurnAgrees(turn, o, n, vals[1], h, c)
    requires o.Normal? ==> Agrees(A.ExecRange(n, ps, vals[1..], o.st, fuel - 1), H.Exec(m, turn.st, fuel - 1),
            turn.st, c)
    ensures Agrees(A.ExecRange(n, ps, vals, st, fuel), H.Exec(m, h, fuel), h, c)
  {
    if o.Normal? {
      AgreesLater(A.ExecRange(n, ps, vals[1..], o.st, fuel - 1), H.Exec(m, turn.st, fuel - 1), h, turn.st, c, c);
    }
  }

  lemma {:induction false} TailValues(n: A.Node, vals: seq<I64>, e: int, d: int)
    requires n.ForRange? && Values(n, vals, e, d) && |vals| > 1
    ensures Values(n, vals[1..], e, d) && vals[1..][0] == vals[1]
  {
  }

  lemma {:induction false} SingleStmt(m: H.Node, h: State, fuel: nat)
    ensures H.ExecAll([m], h, fuel) == H.Exec(m, h, fuel)
  {
    assert [m][1..] == [];
  }

  /** An initializer in front of a loop. */
  lemma {:induction false} InitThenLoop(x: string, e: Expr, v: Value, m: H.Node, h: State, fuel: nat)
    requires Eval(e, h) == Some(v)
    ensures H.Exec(H.Block([H.Assign(Name(x), e, true), m]), h, fuel) == H.Exec(m, h.Set(x, v), fuel)
  {
    var init := H.Assign(Name(x), e, true);
    assert H.Exec(init, h, fuel) == Normal(h.Set(x, v));
    assert [init] + [m] == [init, m];
    H.ExecAllConcat([init], [m], h, fuel);
    SingleStmt(init, h, fuel);
    SingleStmt(m, h.Set(x, v), fuel);
  }

  /** The initializer leads to the loop head. */
  lemma {:induction false} RangeStarts(n: A.Node, s: I64, e: I64, d: I64, h: State, c: nat)
    requires n.ForRange? && Regular(n)
    requires Eval(n.start, h) == Some(I(s)) && Eval(n.end, h) == Some(I(e)) && Eval(Stride(n), h) == Some(I(d))
    ensures var h1 := h.Set(n.iter, I(s));
      AtHead(n, s, e, d, h1) && Visible(h1) == Visible(h).Set(n.iter, I(s)) && Guarded(h, h1, c)
  {
    var h1 := h.Set(n.iter, I(s));
    EvalFrame(n.end, h, h1);
    EvalFrame(Stride(n), h, h1);
    LexableVisible(n.iter);
    LexableUnguarded(n.iter, c);
    SetVisible(h, n.iter, I(s));
    SetGuarded(h, n.iter, I(s), c);
  }

  /** The loop, started at the first of its values. */
  lemma {:induction false} RangeFromStart(n: A.Node, ps: set<string>, stmts: seq<H.Node>, c: nat, s: I64, e: I64,
          d: I64, h: State, fuel: nat)
    requires n.ForRange? && Regular(n) && RefinesAll(n.body, ps, stmts, c)
    requires Eval(n.start, h) == Some(I(s)) && Eval(n.end, h) == Some(I(e)) && Eval(Stride(n), h) == Some(I(d))
    requires A.RangeValues(s, e, d, A.Descending(n.start, n.end), n.inclusive).Some?
    ensures var vals := A.RangeValues(s, e, d, A.Descending(n.start, n.end), n.inclusive).value;
      Agrees(A.ExecRange(n, ps, vals, Visible(h), fuel), H.Exec(RangeBlock(n, stmts), h, fuel), h, c)
  {
    var vals := A.RangeValues(s, e, d, A.Descending(n.start, n.end), n.inclusive).value;
    var loop := RangeLoop(n, stmts);
    var h1 := h.Set(n.iter, I(s));
    RangeValuesCorrect(s, e, d, A.Descending(n.start, n.end), n.inclusive);
    RangeStarts(n, s, e, d, h, c);
    RangeAgrees(n, ps, stmts, c, vals, e, d, Visible(h), h1, fuel);
    InitThenLoop(n.iter, n.start, I(s), loop, h, fuel);
    AgreesLater(A.ExecRange(n, ps, vals, Visible(h), fuel), H.Exec(loop, h1, fuel), h, h1, c, c);
  }

  /** Where the range is defined, its meaning is a run over its values. */
  lemma {:induction false} RangeMeaning(n: A.Node, ps: set<string>, st: State, fuel: nat)
    requires n.ForRange? && A.Exec(n, ps, st, fuel) != Stuck
    ensures exists s: I64, e: I64, d: I64 ::
      && Eval(n.start, st) == Some(I(s)) && Eval(n.end, st) == Some(I(e)) && Eval(Stride(n), st) == Some(I(d))
      && A.RangeValues(s, e, d, A.Descending(n.start, n.end), n.inclusive).Some?
      && A.Exec(n, ps, st, fuel) == A.ExecRange(n, ps,
              A.RangeValues(s, e, d, A.Descending(n.start, n.end), n.inclusive).value, st, fuel)
  {
  }

  lemma {:induction false} RangeOperands(n: A.Node, ps: set<string>, h: State, fuel: nat)
      returns (s: I64, e: I64, d: I64)
    requires n.ForRange? && Regular(n) && A.Exec(n, ps, Visible(h), fuel) != Stuck
    ensures Eval(n.start, h) == Some(I(s)) && Eval(n.end, h) == Some(I(e)) && Eval(Stride(n), h) == Some(I(d))
    ensures var vals := A.RangeValues(s, e, d, A.Descending(n.start, n.end), n.inclusive);
      vals.Some? && A.Exec(n, ps, Visible(h), fuel) == A.ExecRange(n, ps, vals.value, Visible(h), fuel)
  {
    EvalVisible(n.start, h);
    EvalVisible(n.end, h);
    EvalVisible(Stride(n), h);
    RangeMeaning(n, ps, Visible(h), fuel);
    s, e, d :| Eval(n.start, h) == Some(I(s)) && Eval(n.end, h) == Some(I(e)) && Eval(Stride(n), h) == Some(I(d));
  }

  lemma {:induction false} RangeBlockAgrees(n: A.Node, ps: set<string>, stmts: seq<H.Node>, c: nat, h: State, fuel: nat)
    requires n.ForRange? && Regular(n) && RefinesAll(n.body, ps, stmts, c)
    ensures Agrees(A.Exec(n, ps, Visible(h), fuel), H.Exec(RangeBlock(n, stmts), h, fuel), h, c)
  {
    if A.Exec(n, ps, Visible(h), fuel) != Stuck {
      var s, e, d := RangeOperands(n, ps, h, fuel);
      RangeFromStart(n, ps, stmts, c, s, e, d, h, fuel);
    }
  }

  /** The lowered loop, with its initializer, means what the range loop means. */
  lemma {:induction false} RangeRefines(n: A.Node, ps: set<string>, stmts: seq<H.Node>, c: nat)
    requires n.ForRange? && Regular(n) && RefinesAll(n.body, ps, stmts, c)
    ensures Refines(n, ps, RangeBlock(n, stmts), c)
  {
    forall h, fuel
      ensures Agrees(A.Exec(n, ps, Visible(h), fuel), H.Exec(RangeBlock(n, stmts), h, fuel), h, c)
    {
      RangeBlockAgrees(n, ps, stmts, c, h, fuel);
    }
  }

  // ---------- which way a range runs ----------

  /** A range of literals runs down exactly if the first is larger; every other range runs up. */
  lemma {:induction false} LoweredDirection(n: A.Node, ps: set<string>, c: nat)
    requires n.ForRange?
    ensures var m := Lower(n, ps, c).node; var down := n.start.Num? && n.end.Num? && n.end.n < n.start.n;
      && m.Block? && |m.stmts| == 2 && m.stmts[0] == H.Assign(Name(n.iter), n.start, true)
      && var loop := m.stmts[1];
         && loop.While? && loop.step.Null? && loop.body.Block? && loop.body.stmts != []
         && loop.cond == Binary(if down && n.inclusive then Ge else if down then Gt else if n.inclusive then Le else Lt,
                                Var(n.iter), n.end)
         && loop.body.stmts[|loop.body.stmts| - 1]
            == H.Assign(Name(n.iter),
                        Binary(Add, Var(n.iter),
                               if n.stride.Some? then n.stride.value else if down then Num(-1) else Num(1)),
                        true)
  {
  }
}
