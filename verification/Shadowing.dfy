/**
 Names that stand for two variables in the source and for one slot in the compiled function:
 shadowed iterators, names declared again in a loop, and nested loops without an iterator name.
 Each lemma says exactly for which inputs source and compiled program still agree.
 */
module Shadowing {
  import opened Arithmetic
  import opened Wrappers
  import opened Syntax
  import opened HirGen
  import opened AstFacts
  import opened RangeFacts
  import opened RangeLowering
  import A = Ast
  import E = CodegenExprProof
  import F = FunctionProof
  import G = Cfg
  import H = Hir
  import L = Lexical
  import M = HirGenProof
  import P = Pipeline
  import R = LoweringProof
  import S = LexicalProof
  import T = SourceScope

  /** `for x in from..to { body }` */
  function Loop(x: string, from: Expr, to: Expr, body: A.Node): A.Node {
    A.ForRange(x, from, to, None, false, body)
  }

  /** The stride of a range that names none. */
  function Unit(from: Expr, to: Expr): I64 {
    if A.Descending(from, to) then -1 else 1
  }

  /** How many turns the loop makes if its ends have these values. */
  function Turns(from: Expr, to: Expr, s: int, e: int): nat {
    if A.Descending(from, to) then Abs(e - s) else if s < e then e - s else 0
  }

  /** The first value that is not in the range. */
  function Past(from: Expr, to: Expr, s: I64, e: I64): I64 {
    if A.Descending(from, to) || s < e then e else s
  }

  ghost predicate Ends(from: Expr, to: Expr, s: I64, e: I64, st: State) {
    Eval(from, st) == Some(I(s)) && Eval(to, st) == Some(I(e))
  }

  /** `vals` are the values of the range and the one past its end. */
  ghost predicate Between(vals: seq<I64>, from: Expr, to: Expr, s: I64, e: I64) {
    && |vals| == Turns(from, to, s, e) + 1 && vals[|vals| - 1] == Past(from, to, s, e)
    && forall k | 0 <= k < |vals| :: vals[k] == if A.Descending(from, to) then s - k else s + k
  }

  lemma {:induction false} LoopValues(from: Expr, to: Expr, s: I64, e: I64, st: State)
    requires Ends(from, to, s, e, st)
    ensures var r := A.RangeValues(s, e, Unit(from, to), A.Descending(from, to), false);
      r.Some? && Between(r.value, from, to, s, e)
  {
    var w, down := Unit(from, to), A.Descending(from, to);
    assert A.RangeCount(s, e, w, down, false) == Turns(from, to, s, e);
    forall k | 0 <= k <= Turns(from, to, s, e)
      ensures A.Nth(s, w, k) == if down then s - k else s + k
    {
    }
  }

  lemma {:induction false} SourceRuns(x: string, from: Expr, to: Expr, s: I64, e: I64, body: A.Node, d: nat,
          tab: L.Table, st: L.Store, fuel: nat) returns (vals: seq<I64>)
    requires Ends(from, to, s, e, st.View(tab))
    ensures Between(vals, from, to, s, e)
    ensures L.Exec(Loop(x, from, to, body), d, tab, st, fuel)
         == L.ExecRange(Loop(x, from, to, body), d, tab, vals, st, fuel)
  {
    LoopValues(from, to, s, e, st.View(tab));
    vals := A.RangeValues(s, e, Unit(from, to), A.Descending(from, to), false).value;
    S.RunsRange(Loop(x, from, to, body), d, tab, st, s, e, Unit(from, to), fuel);
  }

  /** With at least `need` units of fuel, a turn leads from store `a` to store `b`. */
  ghost predicate Leads(n: A.Node, d: nat, tab: L.Table, v: Value, a: L.Store, b: L.Store, need: nat)
    requires n.ForRange?
  {
    forall fuel: nat | need <= fuel :: L.ExecTurn(n, d, tab, v, a, fuel) == L.Ends(b)
  }

  /** Turn after turn a loop leads through `stores`. */
  lemma {:induction false} TurnsLead(n: A.Node, d: nat, tab: L.Table, vals: seq<I64>, stores: seq<L.Store>, need: nat,
          fuel: nat)
    requires n.ForRange? && vals != [] && |stores| == |vals| && need + |vals| <= fuel
    requires forall k | 0 <= k < |vals| - 1 :: Leads(n, d, tab, I(vals[k]), stores[k], stores[k + 1], need)
    ensures L.ExecRange(n, d, tab, vals, stores[0], fuel) == L.Ends(stores[|stores| - 1])
    decreases |vals|
  {
    if |vals| != 1 {
      assert Leads(n, d, tab, I(vals[0]), stores[0], stores[1], need);
      forall k | 0 <= k < |vals| - 2
        ensures Leads(n, d, tab, I(vals[1..][k]), stores[1..][k], stores[1..][k + 1], need)
      {
        assert Leads(n, d, tab, I(vals[k + 1]), stores[k + 1], stores[k + 2], need);
      }
      TurnsLead(n, d, tab, vals[1..], stores[1..], need, fuel - 1);
    }
  }

  ghost predicate LeadsThrough(n: A.Node, d: nat, tab: L.Table, stores: seq<L.Store>, need: nat)
    requires n.ForRange?
  {
    forall k, v: I64 | 0 <= k < |stores| - 1 :: Leads(n, d, tab, I(v), stores[k], stores[k + 1], need)
  }

  /** A loop with as many values as there are stores to lead through. */
  lemma {:induction false} LoopLeads(x: string, from: Expr, to: Expr, s: I64, e: I64, body: A.Node, d: nat,
          tab: L.Table, stores: seq<L.Store>, need: nat, fuel: nat)
    requires |stores| == Turns(from, to, s, e) + 1 && need + |stores| <= fuel
    requires Ends(from, to, s, e, stores[0].View(tab)) && LeadsThrough(Loop(x, from, to, body), d, tab, stores, need)
    ensures L.Exec(Loop(x, from, to, body), d, tab, stores[0], fuel) == L.Ends(stores[|stores| - 1])
  {
    var vals := SourceRuns(x, from, to, s, e, body, d, tab, stores[0], fuel);
    TurnsLead(Loop(x, from, to, body), d, tab, vals, stores, need, fuel);
  }

  // ---------- nested loops without an iterator name ----------

  /** The iterator of a range loop that names none. */
  const ANONYMOUS: string := "__SA temp idx__"

  const COUNTER: string := "s"

  function Anonymous(e: Expr, body: A.Node): A.Node {
    Loop(ANONYMOUS, Num(0), e, body)
  }

  const COUNT := A.Assign(Name(COUNTER), A.Plain, Binary(Add, Var(COUNTER), Num(1)), false)
  const COUNT_STMT := H.Assign(Name(COUNTER), Binary(Add, Var(COUNTER), Num(1)), false)

  /** `for 0..a { for 0..b { s = s + 1 } }` */
  function Nested(a: Expr, b: Expr): A.Node {
    Anonymous(a, Anonymous(b, COUNT))
  }

  /**
   An end of a range: any expression that does not change while counting.  The front end never
   writes a sign into a literal; `-3` is a negation, and a range that starts with 0 ascends.
   */
  ghost predicate Bound(e: Expr, n: I64, st: State) {
    && Vars(e) !! {ANONYMOUS, COUNTER} && (e.Num? ==> 0 <= e.n)
    && Eval(e, st) == Some(I(n))
  }

  /** The turns of a loop from 0. */
  function Up(n: int): nat {
    if n < 0 then 0 else n
  }

  lemma {:induction false} WrapAdd(m: int, k: int)
    ensures Wrap(Wrap(m) + k) == Wrap(m + k)
  {
    var p, q := (m - I64_MIN) / TWO_TO_THE_64, (Wrap(m) + k - I64_MIN) / TWO_TO_THE_64;
    var r := (m + k - I64_MIN) / TWO_TO_THE_64;
    assert Wrap(m) == m - p * TWO_TO_THE_64;
    assert Wrap(Wrap(m) + k) == Wrap(m) + k - q * TWO_TO_THE_64;
    assert Wrap(m + k) == m + k - r * TWO_TO_THE_64;
    assert Wrap(Wrap(m) + k) - Wrap(m + k) == (r - p - q) * TWO_TO_THE_64;
  }

  // What the source counts.  The counter is a variable of the function.

  ghost predicate Counts(tab: L.Table, st: L.Store) {
    && COUNTER in tab && tab[COUNTER].depth == 0
    && L.Variable(0, COUNTER) in st.vars && st.Leave(0) == st
  }

  function Tally(st: L.Store, m: int): L.Store {
    st.Set(0, COUNTER, I(Wrap(m)))
  }

  /** A store in the outer loop's scope. */
  function InOuter(st: L.Store, m: int, i: Value): L.Store {
    Tally(st, m).Set(1, ANONYMOUS, i)
  }

  /** What the outer loop's body sees. */
  function OuterTable(tab: L.Table): L.Table {
    L.InLoop(ANONYMOUS, 0, tab)
  }

  /** Counting changes the counter wherever it can be seen. */
  lemma {:induction false} CountSets(d: nat, tab: L.Table, st: L.Store, m: int, fuel: nat)
    requires COUNTER in tab && tab[COUNTER].depth == 0
    requires L.Variable(0, COUNTER) in st.vars && st.vars[L.Variable(0, COUNTER)] == I(Wrap(m))
    ensures L.Exec(COUNT, d, tab, st, fuel) == L.Ends(st.Set(0, COUNTER, I(Wrap(m + 1))))
  {
    WrapAdd(m, 1);
    assert Eval(Binary(Add, Var(COUNTER), Num(1)), st.View(tab)) == Some(I(Wrap(m + 1)));
  }

  /** Counting inside two scopes that hold iterators. */
  lemma {:induction false} CountInside(tab: L.Table, st: L.Store, m: int, i: Value, j: Value, fuel: nat)
    requires Counts(tab, st)
    ensures L.Exec(COUNT, 2, L.InLoop(ANONYMOUS, 1, OuterTable(tab)), InOuter(st, m, i).Set(2, ANONYMOUS, j), fuel)
              .Leave(1)
         == L.Ends(InOuter(st, m + 1, i))
  {
    var inner := InOuter(st, m, i).Set(2, ANONYMOUS, j);
    CountSets(2, L.InLoop(ANONYMOUS, 1, OuterTable(tab)), inner, m, fuel);
    assert forall k | k in st.Leave(0).vars :: k.depth == 0;
    assert inner.Set(0, COUNTER, I(Wrap(m + 1))).Leave(1).vars == InOuter(st, m + 1, i).vars;
  }

  /** A bound keeps its value while counting. */
  lemma {:induction false} BoundInside(e: Expr, n: I64, tab: L.Table, st: L.Store, m: int)
    requires Bound(e, n, st.View(tab))
    ensures Eval(e, Tally(st, m).View(tab)) == Some(I(n))
  {
    EvalFrame(e, st.View(tab), Tally(st, m).View(tab));
  }

  lemma {:induction false} SeenInOuter(x: string, tab: L.Table, st: L.Store, m: int, i: Value)
    requires x != ANONYMOUS && x != COUNTER
    ensures SameVar(x, st.View(tab), InOuter(st, m, i).View(OuterTable(tab)))
  {
  }

  lemma {:induction false} EvalSame(e: Expr, s: State, t: State)
    requires s.heap == t.heap && forall x | x in Vars(e) :: SameVar(x, s, t)
    ensures Eval(e, s) == Eval(e, t)
  {
    EvalFrame(e, s, t);
  }

  lemma {:induction false} BoundInOuter(e: Expr, n: I64, tab: L.Table, st: L.Store, m: int, i: Value)
    requires Bound(e, n, st.View(tab))
    ensures Eval(e, InOuter(st, m, i).View(OuterTable(tab))) == Some(I(n))
  {
    var s, t := st.View(tab), InOuter(st, m, i).View(OuterTable(tab));
    forall x | x in Vars(e)
      ensures SameVar(x, s, t)
    {
      assert x !in Vars(e) * {ANONYMOUS, COUNTER};
      SeenInOuter(x, tab, st, m, i);
    }
    EvalSame(e, s, t);
  }

  /** A turn of the inner loop counts one. */
  ghost predicate Ticks(n: A.Node, tab: L.Table, st: L.Store, m: int, i: Value, j: Value)
    requires n.ForRange?
  {
    Leads(n, 1, tab, j, InOuter(st, m, i), InOuter(st, m + 1, i), 0)
  }

  lemma {:induction false} InnerTicks(b: Expr, tab: L.Table, st: L.Store, m: int, i: Value, j: Value)
    requires Counts(tab, st)
    ensures Ticks(Anonymous(b, COUNT), OuterTable(tab), st, m, i, j)
  {
    forall fuel: nat
      ensures L.ExecTurn(Anonymous(b, COUNT), 1, OuterTable(tab), j, InOuter(st, m, i), fuel)
           == L.Ends(InOuter(st, m + 1, i))
    {
      CountInside(tab, st, m, i, j, fuel);
    }
  }

  /** The stores that the inner loop leads through. */
  function InnerStores(n: nat, st: L.Store, m: int, i: Value): (r: seq<L.Store>)
    ensures |r| == n + 1 && r[0] == InOuter(st, m, i) && r[|r| - 1] == InOuter(st, m + n, i)
    ensures forall k | 0 <= k < |r| :: r[k] == InOuter(st, m + k, i)
  {
    seq(n + 1, k requires 0 <= k => InOuter(st, m + k, i))
  }

  lemma {:induction false} InnerLeadsThrough(n: A.Node, tab: L.Table, turns: nat, st: L.Store, m: int, i: Value)
    requires n.ForRange? && forall k: int, j: Value :: Ticks(n, tab, st, k, i, j)
    ensures LeadsThrough(n, 1, tab, InnerStores(turns, st, m, i), 0)
  {
    var stores := InnerStores(turns, st, m, i);
    forall k, j: I64 | 0 <= k < |stores| - 1
      ensures Leads(n, 1, tab, I(j), stores[k], stores[k + 1], 0)
    {
      assert Ticks(n, tab, st, m + k, i, I(j));
    }
  }

  lemma {:induction false} AllTick(b: Expr, tab: L.Table, st: L.Store, i: Value)
    requires Counts(tab, st)
    ensures forall k: int, j: Value :: Ticks(Anonymous(b, COUNT), OuterTable(tab), st, k, i, j)
  {
    forall k: int, j: Value
      ensures Ticks(Anonymous(b, COUNT), OuterTable(tab), st, k, i, j)
    {
      InnerTicks(b, tab, st, k, i, j);
    }
  }

  lemma {:induction false} InnerSource(b: Expr, nb: I64, tab: L.Table, outer: L.Table, st: L.Store, m: int, i: Value,
          fuel: nat)
    requires Counts(tab, st) && Bound(b, nb, st.View(tab)) && Up(nb) < fuel && outer == OuterTable(tab)
    ensures L.Exec(Anonymous(b, COUNT), 1, outer, InOuter(st, m, i), fuel) == L.Ends(InOuter(st, m + Up(nb), i))
  {
    AllTick(b, tab, st, i);
    BoundInOuter(b, nb, tab, st, m, i);
    InnerLeadsThrough(Anonymous(b, COUNT), outer, Up(nb), st, m, i);
    LoopLeads(ANONYMOUS, Num(0), b, 0, nb, COUNT, 1, outer, InnerStores(Up(nb), st, m, i), 0, fuel);
  }

  lemma {:induction false} OuterLeads(a: Expr, b: Expr, nb: I64, tab: L.Table, st: L.Store, m: int, i: Value)
    requires Counts(tab, st) && Bound(b, nb, st.View(tab))
    ensures Leads(Nested(a, b), 0, tab, i, Tally(st, m), Tally(st, m + Up(nb)), Up(nb) + 1)
  {
    forall fuel: nat | Up(nb) + 1 <= fuel
      ensures L.ExecTurn(Nested(a, b), 0, tab, i, Tally(st, m), fuel) == L.Ends(Tally(st, m + Up(nb)))
    {
      InnerSource(b, nb, tab, OuterTable(tab), st, m, i, fuel);
      assert forall k | k in st.Leave(0).vars :: k.depth == 0;
      assert InOuter(st, m + Up(nb), i).Leave(0).vars == Tally(st, m + Up(nb)).vars;
    }
  }

  /** The stores that the outer loop leads through, `p` counts each turn. */
  function OuterStores(n: nat, p: nat, st: L.Store, m: int): (r: seq<L.Store>)
    ensures |r| == n + 1 && r[0] == Tally(st, m) && r[|r| - 1] == Tally(st, m + n * p)
    ensures forall k | 0 <= k < |r| :: r[k] == Tally(st, m + k * p)
  {
    seq(n + 1, k requires 0 <= k => Tally(st, m + k * p))
  }

  /** A turn of the outer loop counts `p`. */
  ghost predicate Strikes(n: A.Node, tab: L.Table, st: L.Store, p: nat, m: int, i: Value)
    requires n.ForRange?
  {
    Leads(n, 0, tab, i, Tally(st, m), Tally(st, m + p), p + 1)
  }

  lemma {:induction false} OuterLeadsThrough(n: A.Node, tab: L.Table, turns: nat, p: nat, st: L.Store, m: int)
    requires n.ForRange? && forall k: int, i: Value :: Strikes(n, tab, st, p, k, i)
    ensures LeadsThrough(n, 0, tab, OuterStores(turns, p, st, m), p + 1)
  {
    var stores := OuterStores(turns, p, st, m);
    forall k, i: I64 | 0 <= k < |stores| - 1
      ensures Leads(n, 0, tab, I(i), stores[k], stores[k + 1], p + 1)
    {
      assert Strikes(n, tab, st, p, m + k * p, I(i));
      assert (k + 1) * p == k * p + p;
    }
  }

  lemma {:induction false} OuterStrikes(a: Expr, b: Expr, nb: I64, tab: L.Table, st: L.Store)
    requires Counts(tab, st) && Bound(b, nb, st.View(tab))
    ensures forall k: int, i: Value :: Strikes(Nested(a, b), tab, st, Up(nb), k, i)
  {
    forall k: int, i: Value
      ensures Strikes(Nested(a, b), tab, st, Up(nb), k, i)
    {
      OuterLeads(a, b, nb, tab, st, k, i);
    }
  }

  lemma {:induction false} OuterSource(a: Expr, b: Expr, na: I64, nb: I64, tab: L.Table, st: L.Store, m: int, fuel: nat)
    requires Counts(tab, st) && Bound(a, na, st.View(tab)) && Bound(b, nb, st.View(tab)) && Up(na) + Up(nb) + 2 <= fuel
    ensures L.Exec(Nested(a, b), 0, tab, Tally(st, m), fuel) == L.Ends(Tally(st, m + Up(na) * Up(nb)))
  {
    BoundInside(a, na, tab, st, m);
    OuterStrikes(a, b, nb, tab, st);
    OuterLeadsThrough(Nested(a, b), tab, Up(na), Up(nb), st, m);
    LoopLeads(ANONYMOUS, Num(0), a, 0, na, Anonymous(b, COUNT), 0, tab, OuterStores(Up(na), Up(nb), st, m), Up(nb) + 1,
              fuel);
  }

  // What the lowered loops count.

  function Counted(h: State, i: I64, m: int): State {
    h.Set(ANONYMOUS, I(i)).Set(COUNTER, I(Wrap(m)))
  }

  lemma {:induction false} CountedSets(h: State, i: I64, m: int, j: I64, k: int)
    ensures Counted(h, i, m).Set(ANONYMOUS, I(j)) == Counted(h, j, m)
    ensures Counted(h, i, m).Set(COUNTER, I(Wrap(k))) == Counted(h, i, k)
  {
    assert Counted(h, i, m).Set(ANONYMOUS, I(j)).vars == Counted(h, j, m).vars;
    assert Counted(h, i, m).Set(COUNTER, I(Wrap(k))).vars == Counted(h, i, k).vars;
  }

  lemma {:induction false} CountRuns(h: State, i: I64, m: int, fuel: nat)
    ensures H.ExecAll([COUNT_STMT], Counted(h, i, m), fuel) == Normal(Counted(h, i, m + 1))
  {
    WrapAdd(m, 1);
    SingleStmt(COUNT_STMT, Counted(h, i, m), fuel);
    assert Eval(Binary(Add, Var(COUNTER), Num(1)), Counted(h, i, m)) == Some(I(Wrap(m + 1)));
    CountedSets(h, i, m, i, m + 1);
  }

  /** The head of a lowered loop from 0. */
  lemma {:induction false} HeadOf(e: Expr, n: I64, body: A.Node, h: State, i: I64, m: int)
    requires Bound(e, n, h)
    ensures var loop := Anonymous(e, body);
      && AtHead(loop, i, n, 1, Counted(h, i, m)) && !A.Descending(loop.start, loop.end) && Stride(loop) == Num(1)
  {
    EvalFrame(e, h, Counted(h, i, m));
  }

  /** A turn of a lowered loop, once it is known what its statements do. */
  lemma {:induction false} CountedTurn(e: Expr, n: I64, body: A.Node, stmts: seq<H.Node>, h: State, i: I64, m: int,
          j: I64, t: int, fuel: nat)
    requires Bound(e, n, h) && i < n && H.ExecAll(stmts, Counted(h, i, m), fuel) == Normal(Counted(h, j, t))
    ensures H.Iterate(RangeLoop(Anonymous(e, body), stmts), Counted(h, i, m), fuel)
         == H.Again(Counted(h, Wrap(j + 1), t))
  {
    var loop, step := Anonymous(e, body), H.Assign(Name(ANONYMOUS), Binary(Add, Var(ANONYMOUS), Num(1)), true);
    HeadOf(e, n, body, h, i, m);
    ConditionIsInRange(loop, i, n, 1, Counted(h, i, m));
    H.ExecAllConcat(stmts, [step], Counted(h, i, m), fuel);
    SingleStmt(step, Counted(h, j, t), fuel);
    CountedSets(h, j, t, Wrap(j + 1), t);
    assert Eval(Binary(Add, Var(ANONYMOUS), Num(1)), Counted(h, j, t)) == Some(I(Wrap(j + 1)));
    assert H.Exec(step, Counted(h, j, t), fuel) == Normal(Counted(h, Wrap(j + 1), t));
    assert H.Exec(RangeLoop(loop, stmts).body, Counted(h, i, m), fuel) == Normal(Counted(h, Wrap(j + 1), t));
  }

  lemma {:induction false} TurnTimesOut(e: Expr, n: I64, body: A.Node, stmts: seq<H.Node>, h: State, i: I64, m: int,
          fuel: nat)
    requires Bound(e, n, h) && i < n && H.ExecAll(stmts, Counted(h, i, m), fuel) == Timeout
    ensures H.Iterate(RangeLoop(Anonymous(e, body), stmts), Counted(h, i, m), fuel) == H.Exit(Timeout)
  {
    var loop, step := Anonymous(e, body), H.Assign(Name(ANONYMOUS), Binary(Add, Var(ANONYMOUS), Num(1)), true);
    HeadOf(e, n, body, h, i, m);
    ConditionIsInRange(loop, i, n, 1, Counted(h, i, m));
    H.ExecAllConcat(stmts, [step], Counted(h, i, m), fuel);
    assert H.Exec(RangeLoop(loop, stmts).body, Counted(h, i, m), fuel) == Timeout;
  }

  lemma {:induction false} Leaves(e: Expr, n: I64, body: A.Node, stmts: seq<H.Node>, h: State, i: I64, m: int,
          fuel: nat)
    requires Bound(e, n, h) && fuel != 0 && i >= n
    ensures H.Exec(RangeLoop(Anonymous(e, body), stmts), Counted(h, i, m), fuel) == Normal(Counted(h, i, m))
  {
    HeadOf(e, n, body, h, i, m);
    ConditionIsInRange(Anonymous(e, body), i, n, 1, Counted(h, i, m));
  }

  /** The inner loop, with its iterator not past the end. */
  lemma {:induction false} InnerLoop(b: Expr, n: I64, h: State, i: I64, m: int, fuel: nat)
    requires Bound(b, n, h) && 0 <= i <= Up(n)
    ensures H.Exec(RangeLoop(Anonymous(b, COUNT), [COUNT_STMT]), Counted(h, i, m), fuel)
         == if Up(n) - i < fuel then Normal(Counted(h, Up(n), m + Up(n) - i)) else Timeout
    decreases fuel
  {
    if fuel != 0 {
      if i == Up(n) {
        Leaves(b, n, COUNT, [COUNT_STMT], h, i, m, fuel);
      } else {
        CountRuns(h, i, m, fuel);
        CountedTurn(b, n, COUNT, [COUNT_STMT], h, i, m, i, m + 1, fuel);
        InnerLoop(b, n, h, i + 1, m + 1, fuel - 1);
      }
    }
  }

  function InnerStmt(b: Expr): H.Node {
    RangeBlock(Anonymous(b, COUNT), [COUNT_STMT])
  }

  lemma {:induction false} InnerRuns(b: Expr, n: I64, h: State, i: I64, m: int, fuel: nat)
    requires Bound(b, n, h)
    ensures H.ExecAll([InnerStmt(b)], Counted(h, i, m), fuel)
         == if Up(n) < fuel then Normal(Counted(h, Up(n), m + Up(n))) else Timeout
  {
    SingleStmt(InnerStmt(b), Counted(h, i, m), fuel);
    InitThenLoop(ANONYMOUS, Num(0), I(0), RangeLoop(Anonymous(b, COUNT), [COUNT_STMT]), Counted(h, i, m), fuel);
    CountedSets(h, i, m, 0, m);
    InnerLoop(b, n, h, 0, m, fuel);
  }

  /** After every turn of the outer loop the shared iterator holds this. */
  function Rest(nb: I64): I64 {
    Wrap(Up(nb) + 1)
  }

  /** If that is inside the outer range, the outer loop goes on for ever. */
  lemma {:induction false} OuterForEver(a: Expr, b: Expr, na: I64, nb: I64, h: State, i: I64, m: int, fuel: nat)
    requires Bound(a, na, h) && Bound(b, nb, h) && i < na && Rest(nb) < na
    ensures H.Exec(RangeLoop(Nested(a, b), [InnerStmt(b)]), Counted(h, i, m), fuel) == Timeout
    decreases fuel
  {
    if fuel != 0 {
      InnerRuns(b, nb, h, i, m, fuel);
      if Up(nb) < fuel {
        CountedTurn(a, na, Anonymous(b, COUNT), [InnerStmt(b)], h, i, m, Up(nb), m + Up(nb), fuel);
        OuterForEver(a, b, na, nb, h, Rest(nb), m + Up(nb), fuel - 1);
      } else {
        TurnTimesOut(a, na, Anonymous(b, COUNT), [InnerStmt(b)], h, i, m, fuel);
      }
    }
  }

  /** The lowered loops end. */
  predicate LoweredEnds(na: I64, nb: I64) {
    na <= 0 || na <= Rest(nb)
  }

  /** What they have counted then. */
  function LoweredCount(na: I64, nb: I64): nat {
    if na <= 0 then 0 else Up(nb)
  }

  lemma {:induction false} OuterOnce(a: Expr, b: Expr, na: I64, nb: I64, h: State, m: int, fuel: nat)
    requires Bound(a, na, h) && Bound(b, nb, h) && LoweredEnds(na, nb) && Up(nb) + 1 < fuel
    ensures H.Exec(RangeLoop(Nested(a, b), [InnerStmt(b)]), Counted(h, 0, m), fuel)
         == Normal(Counted(h, if na <= 0 then 0 else Rest(nb), m + LoweredCount(na, nb)))
  {
    if na <= 0 {
      Leaves(a, na, Anonymous(b, COUNT), [InnerStmt(b)], h, 0, m, fuel);
    } else {
      InnerRuns(b, nb, h, 0, m, fuel);
      CountedTurn(a, na, Anonymous(b, COUNT), [InnerStmt(b)], h, 0, m, Up(nb), m + Up(nb), fuel);
      var loop := RangeLoop(Nested(a, b), [InnerStmt(b)]);
      assert H.Exec(loop, Counted(h, 0, m), fuel) == H.Exec(loop, Counted(h, Rest(nb), m + Up(nb)), fuel - 1);
      Leaves(a, na, Anonymous(b, COUNT), [InnerStmt(b)], h, Rest(nb), m + Up(nb), fuel - 1);
    }
  }

  lemma {:induction false} LoweredNested(a: Expr, b: Expr, ps: set<string>, c: nat, h: State, m: int, fuel: nat)
    requires COUNTER in h.vars && h.vars[COUNTER] == I(Wrap(m))
    ensures H.Exec(Lower(Nested(a, b), ps, c).node, h, fuel)
         == H.Exec(RangeLoop(Nested(a, b), [InnerStmt(b)]), Counted(h, 0, m), fuel)
  {
    assert Flatten(COUNT, ps, c).stmts == [COUNT_STMT];
    assert Flatten(Anonymous(b, COUNT), ps, c).stmts == [InnerStmt(b)];
    InitThenLoop(ANONYMOUS, Num(0), I(0), RangeLoop(Nested(a, b), [InnerStmt(b)]), h, fuel);
    assert h.Set(ANONYMOUS, I(0)).vars == Counted(h, 0, m).vars;
  }

  /**
   `for 0..a { for 0..b { s = s + 1 } }`, both loops without an iterator name, for any ends with
   values `na` and `nb`.  The source counts the product of the turns.  Lowered, the loops share
   one iterator: either the outer one makes at most one turn, or it never ends.
   */
  lemma {:induction false} AnonymousLoopsInterfere(a: Expr, b: Expr, na: I64, nb: I64, ps: set<string>, c: nat,
          tab: L.Table, st: L.Store, h: State, m: int, fuel: nat)
    requires Counts(tab, st) && Tally(st, m) == st && COUNTER in h.vars && h.vars[COUNTER] == I(Wrap(m))
    requires Bound(a, na, st.View(tab)) && Bound(b, nb, st.View(tab)) && Bound(a, na, h) && Bound(b, nb, h)
    ensures Up(na) + Up(nb) + 2 <= fuel ==>
      L.Exec(Nested(a, b), 0, tab, st, fuel) == L.Ends(Tally(st, m + Up(na) * Up(nb)))
    ensures var o := H.Exec(Lower(Nested(a, b), ps, c).node, h, fuel);
      && (!LoweredEnds(na, nb) ==> o == Timeout)
      && (LoweredEnds(na, nb) && Up(nb) + 1 < fuel ==>
            o == Normal(Counted(h, if na <= 0 then 0 else Rest(nb), m + LoweredCount(na, nb))))
  {
    if Up(na) + Up(nb) + 2 <= fuel {
      OuterSource(a, b, na, nb, tab, st, m, fuel);
    }
    LoweredNested(a, b, ps, c, h, m, fuel);
    if !LoweredEnds(na, nb) {
      OuterForEver(a, b, na, nb, h, 0, m, fuel);
    } else if Up(nb) + 1 < fuel {
      OuterOnce(a, b, na, nb, h, m, fuel);
    }
  }

  /**
   The lowered loops end exactly if the outer one makes no turn or the inner one carries the
   shared iterator past the outer end; and then their count is right exactly if the outer loop
   makes at most one turn.
   */
  lemma {:induction false} InterferenceIff(na: I64, nb: I64)
    ensures LoweredEnds(na, nb) <==> na <= 0 || na - 1 <= Up(nb) < I64_MAX
    ensures LoweredEnds(na, nb) ==> (LoweredCount(na, nb) == Up(na) * Up(nb) <==> na <= 1)
  {
    if Up(nb) == I64_MAX {
      WrapOnce(I64_MAX, 1);
    }
    if na > 1 && LoweredEnds(na, nb) {
      MulMonotone(2, na, Up(nb));
    }
  }

  // ---------- shadowed names ----------

  /** An integer expression without names. */
  predicate Constant(e: Expr) {
    E.Resolves(e, {}) && Eval(e, State(map[], map[])).Some? && Eval(e, State(map[], map[])).value.I?
  }

  function ValueOf(e: Expr): I64
    requires Constant(e)
  {
    Eval(e, State(map[], map[])).value.n
  }

  /** What has a value in the empty store has it in every store. */
  lemma {:induction false} EvalAnywhere(e: Expr, st: State)
    requires Eval(e, State(map[], map[])).Some?
    ensures Eval(e, st) == Eval(e, State(map[], map[]))
  {
    match e
    case Unary(_, e1) => EvalAnywhere(e1, st);
    case Binary(_, l, r) =>
      EvalAnywhere(l, st);
      EvalAnywhere(r, st);
    case _ =>
  }

  lemma {:induction false} ClosedVars(e: Expr)
    requires E.Resolves(e, {})
    ensures Vars(e) == {}
  {
    match e
    case Unary(_, e1) => ClosedVars(e1);
    case Binary(_, l, r) =>
      ClosedVars(l);
      ClosedVars(r);
    case Index(a, i) =>
      ClosedVars(a);
      ClosedVars(i);
    case _ =>
  }

  /** `y = v; for x in s..e { z = w }; return y`, where both assignments declare. */
  datatype Shadow = Shadow(y: string, v: Expr, x: string, s: Expr, e: Expr, z: string, w: Expr) {
    /** All names are identifiers; the checker does not let a loop declare its own iterator. */
    predicate Valid() {
      && A.Lexable(x) && A.Lexable(y) && A.Lexable(z) && x != z
      && Constant(v) && Constant(s) && Constant(e) && Constant(w)
    }

    function TheLoop(): A.Node {
      Loop(x, s, e, Declaration(z, w))
    }

    function Body(): A.Node {
      A.Seq(Declaration(y, v), A.Seq(TheLoop(), A.Return(Some(Var(y)))))
    }

    function Program(c: nat): P.Function {
      P.Function([], [], Body(), false, c)
    }

    function TurnCount(): nat
      requires Valid()
    {
      Turns(s, e, ValueOf(s), ValueOf(e))
    }

    /** What the slot of `y` holds in the end. */
    function SlotValue(): I64
      requires Valid()
    {
      if y == x then Past(s, e, ValueOf(s), ValueOf(e))
      else if y == z && TurnCount() != 0 then ValueOf(w)
      else ValueOf(v)
    }
  }

  function Declaration(x: string, e: Expr): A.Node {
    A.Assign(Name(x), A.Plain, e, true)
  }

  lemma {:induction false} DeclarationRuns(y: string, e: Expr, d: nat, tab: L.Table, st: L.Store, fuel: nat)
    requires Constant(e)
    ensures L.Exec(Declaration(y, e), d, tab, st, fuel) == L.Ends(st.Set(d, y, I(ValueOf(e))))
    ensures L.Declare(Declaration(y, e), d, tab) == tab[y := L.Symbol(d, L.Scalar)]
  {
    EvalAnywhere(e, st.View(tab));
  }

  lemma {:induction false} SourceTurn(p: Shadow, tab: L.Table, st: L.Store, i: Value)
    requires p.Valid() && st.Leave(0) == st
    ensures Leads(p.TheLoop(), 0, tab, i, st, st, 0)
  {
    forall fuel: nat
      ensures L.ExecTurn(p.TheLoop(), 0, tab, i, st, fuel) == L.Ends(st)
    {
      DeclarationRuns(p.z, p.w, 1, L.InLoop(p.x, 0, tab), st.Set(1, p.x, i), fuel);
      assert st.Set(1, p.x, i).Set(1, p.z, I(ValueOf(p.w))).Leave(0).vars == st.Leave(0).vars;
    }
  }

  /** In the source the loop leaves everything alone. */
  lemma {:induction false} SourceKeeps(p: Shadow, tab: L.Table, st: L.Store, fuel: nat)
    requires p.Valid() && st.Leave(0) == st && p.TurnCount() + 1 <= fuel
    ensures L.Exec(p.TheLoop(), 0, tab, st, fuel) == L.Ends(st)
  {
    var n, stores := p.TheLoop(), seq(p.TurnCount() + 1, _ => st);
    assert LeadsThrough(n, 0, tab, stores, 0) by {
      forall k, i: I64 | 0 <= k < |stores| - 1
        ensures Leads(n, 0, tab, I(i), stores[k], stores[k + 1], 0)
      {
        SourceTurn(p, tab, st, I(i));
      }
    }
    EvalAnywhere(p.s, st.View(tab));
    EvalAnywhere(p.e, st.View(tab));
    LoopLeads(p.x, p.s, p.e, ValueOf(p.s), ValueOf(p.e), Declaration(p.z, p.w), 0, tab, stores, 0, fuel);
  }

  lemma {:induction false} ThreeParts(a: A.Node, b: A.Node, r: A.Node, tab: L.Table, st: L.Store, st1: L.Store,
          st2: L.Store, fuel: nat)
    requires L.Exec(a, 0, tab, st, fuel) == L.Ends(st1)
    requires L.Exec(b, 0, L.Declare(a, 0, tab), st1, fuel) == L.Ends(st2)
    ensures L.Exec(A.Seq(a, A.Seq(b, r)), 0, tab, st, fuel)
         == L.Exec(r, 0, L.Declare(b, 0, L.Declare(a, 0, tab)), st2, fuel)
  {
  }

  lemma {:induction false} ReturnsVariable(y: string, v: I64, tab: L.Table, st: L.Store, fuel: nat)
    requires y in tab && tab[y].depth == 0 && L.Variable(0, y) in st.vars && st.vars[L.Variable(0, y)] == I(v)
    ensures L.Exec(A.Return(Some(Var(y))), 0, tab, st, fuel) == L.Returns(Some(I(v)), st)
  {
    assert Eval(Var(y), st.View(tab)) == Some(I(v));
  }

  lemma {:induction false} BodyReturns(p: Shadow, tab: L.Table, st: L.Store, fuel: nat)
    requires p.Valid() && p.TurnCount() + 1 <= fuel && st.Leave(0) == st
    ensures var st1 := st.Set(0, p.y, I(ValueOf(p.v)));
      L.Exec(p.Body(), 0, tab, st, fuel) == L.Returns(Some(I(ValueOf(p.v))), st1)
  {
    var tab1, st1 := tab[p.y := L.Symbol(0, L.Scalar)], st.Set(0, p.y, I(ValueOf(p.v)));
    DeclarationRuns(p.y, p.v, 0, tab, st, fuel);
    assert forall k | k in st.Leave(0).vars :: k.depth == 0;
    assert st1.Leave(0).vars == st1.vars;
    SourceKeeps(p, tab1, st1, fuel);
    ThreeParts(Declaration(p.y, p.v), p.TheLoop(), A.Return(Some(Var(p.y))), tab, st, st1, st1, fuel);
    ReturnsVariable(p.y, ValueOf(p.v), tab1, st1, fuel);
  }

  lemma {:induction false} SourceReturns(p: Shadow, c: nat, heap: map<nat, seq<Value>>, fuel: nat)
    requires p.Valid() && p.TurnCount() + 1 <= fuel
    ensures var r := p.Program(c).Run([], heap, fuel); r.Done? && r.value == Some(I(ValueOf(p.v)))
  {
    var f, st := p.Program(c), L.Store(map[], heap);
    assert f.Entered([], heap) == st && f.Table() == map[];
    assert st.Leave(0).vars == map[];
    BodyReturns(p, map[], st, fuel);
  }

  lemma {:induction false} FlatDeclaration(y: string, e: Expr, st: State, fuel: nat)
    requires Constant(e)
    ensures A.Exec(Declaration(y, e), {}, st, fuel) == Normal(st.Set(y, I(ValueOf(e))))
  {
    EvalAnywhere(e, st);
  }

  /** With one variable for each name, a turn overwrites iterator and declared name. */
  lemma {:induction false} FlatTurn(p: Shadow, vals: seq<I64>, st: State, fuel: nat)
    requires p.Valid() && |vals| > 1 && fuel != 0
    ensures A.ExecRange(p.TheLoop(), {}, vals, st, fuel)
         == A.ExecRange(p.TheLoop(), {}, vals[1..], st.Set(p.x, I(vals[0])).Set(p.z, I(ValueOf(p.w))), fuel - 1)
  {
    FlatDeclaration(p.z, p.w, st.Set(p.x, I(vals[0])), fuel);
  }

  /** The store after the loop, whether or not it made a turn. */
  function FlatEnd(x: string, z: string, w: I64, last: I64, turned: bool, st: State): State {
    (if turned then st.Set(z, I(w)) else st).Set(x, I(last))
  }

  lemma {:induction false} FlatEndAbsorbs(x: string, z: string, w: I64, last: I64, turned: bool, st: State, v: Value)
    requires x != z
    ensures FlatEnd(x, z, w, last, turned, st.Set(x, v).Set(z, I(w))) == FlatEnd(x, z, w, last, true, st)
  {
    assert FlatEnd(x, z, w, last, turned, st.Set(x, v).Set(z, I(w))).vars == FlatEnd(x, z, w, last, true, st).vars;
  }

  lemma {:induction false} FlatValues(p: Shadow, vals: seq<I64>, st: State, fuel: nat)
    requires p.Valid() && vals != [] && |vals| <= fuel
    ensures A.ExecRange(p.TheLoop(), {}, vals, st, fuel)
         == Normal(FlatEnd(p.x, p.z, ValueOf(p.w), vals[|vals| - 1], |vals| > 1, st))
    decreases |vals|
  {
    if |vals| != 1 {
      FlatTurn(p, vals, st, fuel);
      FlatValues(p, vals[1..], st.Set(p.x, I(vals[0])).Set(p.z, I(ValueOf(p.w))), fuel - 1);
      FlatEndAbsorbs(p.x, p.z, ValueOf(p.w), vals[|vals| - 1], |vals| > 2, st, I(vals[0]));
    }
  }

  lemma {:induction false} FlatLoop(p: Shadow, st: State, fuel: nat)
    requires p.Valid() && p.TurnCount() + 1 <= fuel
    ensures A.Exec(p.TheLoop(), {}, st, fuel)
         == Normal(FlatEnd(p.x, p.z, ValueOf(p.w), Past(p.s, p.e, ValueOf(p.s), ValueOf(p.e)), p.TurnCount() != 0, st))
  {
    var s, e := ValueOf(p.s), ValueOf(p.e);
    EvalAnywhere(p.s, st);
    EvalAnywhere(p.e, st);
    LoopValues(p.s, p.e, s, e, st);
    S.RunsFlatRange(p.TheLoop(), {}, st, s, e, Unit(p.s, p.e), fuel);
    FlatValues(p, A.RangeValues(s, e, Unit(p.s, p.e), A.Descending(p.s, p.e), false).value, st, fuel);
  }

  lemma {:induction false} FlatReturns(p: Shadow, st: State, fuel: nat)
    requires p.Valid() && p.TurnCount() + 1 <= fuel
    ensures var o := A.Exec(p.Body(), {}, st, fuel); o.Returned? && o.value == Some(I(p.SlotValue()))
  {
    var r, st1 := A.Return(Some(Var(p.y))), st.Set(p.y, I(ValueOf(p.v)));
    var past := Past(p.s, p.e, ValueOf(p.s), ValueOf(p.e));
    var st2 := FlatEnd(p.x, p.z, ValueOf(p.w), past, p.TurnCount() != 0, st1);
    FlatDeclaration(p.y, p.v, st, fuel);
    FlatLoop(p, st1, fuel);
    assert A.Exec(A.Seq(p.TheLoop(), r), {}, st1, fuel) == A.Exec(r, {}, st2, fuel);
    assert Eval(Var(p.y), st2) == Some(I(p.SlotValue()));
  }

  /** All names have slots where they are used. */
  lemma {:induction false} ShadowScope(p: Shadow)
    requires p.Valid()
    ensures Regular(p.Body()) && T.ScopeOf(p.Body(), {}, {}, false).Some?
  {
    var n, r := p.TheLoop(), A.Return(Some(Var(p.y)));
    ClosedVars(p.v);
    ClosedVars(p.s);
    ClosedVars(p.e);
    ClosedVars(p.w);
    assert Regular(Declaration(p.z, p.w)) && Regular(r);
    assert Regular(n);
    assert Regular(A.Seq(n, r));
    var s1: set<string> := {} + {p.y};
    var s2 := s1 + {p.x};
    var s3 := s2 + {p.z};
    T.ResolvesMore(p.v, {}, s1);
    T.ResolvesMore(p.s, {}, s2);
    T.ResolvesMore(p.e, {}, s2);
    T.ResolvesMore(p.w, {}, s3);
    assert T.ScopeOf(Declaration(p.y, p.v), {}, {}, false) == Some(s1);
    assert T.ScopeOf(Declaration(p.z, p.w), {}, s2, true) == Some(s3);
    assert T.ScopeOf(n, {}, s1, false) == Some(s3);
    assert T.ScopeOf(r, {}, s3, false) == Some(s3);
    assert T.ScopeOf(A.Seq(n, r), {}, s1, false) == Some(s3);
  }

  /** Only shadowing keeps the function from being compilable. */
  lemma {:induction false} CompilableIff(p: Shadow, c: nat)
    requires p.Valid()
    ensures p.Program(c).Compilable() <==> p.y != p.x && p.y != p.z
  {
    var f, d := p.Program(c), Declaration(p.y, p.v);
    var n, tab: L.Table := p.TheLoop(), map[p.y := L.Symbol(0, L.Scalar)];
    ShadowScope(p);
    assert f.Names() == {} && f.Table() == map[];
    assert L.Declare(d, 0, map[]) == tab && L.After(d, 0, map[], map[]) == tab;
    assert L.Scoped(d, {}, 0, map[], map[]);
    assert L.Scoped(n, {}, 0, tab, tab) <==> p.y != p.x && p.y != p.z;
    assert L.Scoped(A.Seq(n, A.Return(Some(Var(p.y)))), {}, 0, tab, tab) <==> p.y != p.x && p.y != p.z;
  }

  lemma {:induction false} GraphReturns(p: Shadow, c: nat, heap: map<nat, seq<Value>>) returns (st: State)
    requires p.Valid()
    ensures P.GraphHalts(p.Program(c), [], heap, Some(I(p.SlotValue())), st)
  {
    var f, h, fuel := p.Program(c), State(map[], heap), p.TurnCount() + 1;
    assert f.Names() == {} && F.Bind([], []) == map[];
    ShadowScope(p);
    T.FlattenScoped(f.body, {}, c, {}, {}, false);
    R.FlattenRefines(f.body, {}, c);
    FlatReturns(p, h, fuel);
    assert M.Visible(h).vars == h.vars;
    assert M.Agrees(A.Exec(f.body, {}, M.Visible(h), fuel), H.ExecAll(f.Lowered(), h, fuel), h, c);
    F.FunctionForward([], f.Lowered(), false, [], heap, fuel);
    st := H.ExecAll(f.Lowered(), h, fuel).st;
  }

  /** A graph has one result. */
  lemma {:induction false} OneResult(f: P.Function, heap: map<nat, seq<Value>>, v: Option<Value>, s: State,
          w: Option<Value>, t: State)
    requires f.params == [] && P.GraphHalts(f, [], heap, v, s) && P.GraphHalts(f, [], heap, w, t)
    ensures v == w && s == t
  {
    var g, c := f.Compiled(), F.Start([], heap);
    var j: nat :| G.Steps(g, c, j) == G.Halted(v, s);
    var k: nat :| G.Steps(g, c, k) == G.Halted(w, t);
    G.FinalUnique(g, c, j, k);
  }

  /**
   `y = v; for x in s..e { z = w }; return y`: the source returns `v`, whatever the names.  The
   compiled function returns what is left in the slot of `y`: the value past the range if `y`
   is the iterator, `w` if it is declared again in the loop and the loop makes a turn.  It
   returns `v` exactly if that is `v`, and the function is compilable exactly if neither name
   shadows `y`.
   */
  lemma {:induction false} ShadowedNameIff(p: Shadow, c: nat, heap: map<nat, seq<Value>>)
    requires p.Valid()
    ensures exists fuel: nat :: var r := p.Program(c).Run([], heap, fuel);
      r.Done? && r.value == Some(I(ValueOf(p.v)))
    ensures (exists st :: P.GraphHalts(p.Program(c), [], heap, Some(I(ValueOf(p.v))), st))
      <==> p.SlotValue() == ValueOf(p.v)
    ensures p.Program(c).Compilable() <==> p.y != p.x && p.y != p.z
  {
    SourceReturns(p, c, heap, p.TurnCount() + 1);
    var end := GraphReturns(p, c, heap);
    if st :| P.GraphHalts(p.Program(c), [], heap, Some(I(ValueOf(p.v))), st) {
      OneResult(p.Program(c), heap, Some(I(ValueOf(p.v))), st, Some(I(p.SlotValue())), end);
    }
    CompilableIff(p, c);
  }
}
