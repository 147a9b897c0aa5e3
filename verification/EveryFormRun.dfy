/** What the functions of `EveryForm` compute: in the source turn by turn, and so when compiled. */
module EveryFormRun {
  import Arithmetic
  import opened Wrappers
  import opened Syntax
  import opened Ast
  import opened EveryForm
  import opened Pipeline
  import opened RangeFacts
  import F = FunctionProof
  import L = Lexical
  import S = LexicalProof

  function Numbers(u: seq<I64>): (s: seq<Value>)
    ensures |s| == |u| && forall i | 0 <= i < |u| :: s[i] == I(u[i])
  {
    seq(|u|, i requires 0 <= i < |u| => I(u[i]))
  }

  /** The sum of the numbers before the first `n`. */
  function SumBefore(u: seq<I64>, n: I64): int
    decreases |u|
  {
    if u == [] || u[0] == n then 0 else u[0] + SumBefore(u[1..], n)
  }

  function AddUp(t: I64, u: seq<I64>, n: I64): I64 {
    Wrap(t + SumBefore(u, n))
  }

  /** Every second element below `n` is replaced. */
  function Marked(s: seq<Value>, n: int, v: Value): (r: seq<Value>)
    ensures |r| == |s| && forall j | 0 <= j < |s| :: r[j] == if j % 2 == 0 && j < n then v else s[j]
  {
    seq(|s|, j requires 0 <= j < |s| => if j % 2 == 0 && j < n then v else s[j])
  }

  function Min(x: I64, y: I64): I64 {
    if y < x then y else x
  }

  // ---------- states at the function's own level ----------

  predicate Holds(st: L.Store, x: string, v: Value) {
    L.Variable(0, x) in st.vars && st.vars[L.Variable(0, x)] == v
  }

  /** No variables of loops are left, and total and limit can be seen. */
  predicate Outside(w: Names, tab: L.Table, st: L.Store, total: I64, limit: I64) {
    && (forall k | k in st.vars :: k.depth == 0)
    && w.total in tab && tab[w.total].depth == 0 && Holds(st, w.total, I(total))
    && w.limit in tab && tab[w.limit].depth == 0 && Holds(st, w.limit, I(limit))
    && w.total != w.limit
  }

  lemma {:induction false} SetTwice(st: L.Store, x: string, v: Value, v': Value)
    ensures st.Set(0, x, v).Set(0, x, v') == st.Set(0, x, v')
    ensures Holds(st, x, v) ==> st.Set(0, x, v) == st
  {
    assert st.Set(0, x, v).Set(0, x, v').vars == st.Set(0, x, v').vars;
    assert Holds(st, x, v) ==> st.Set(0, x, v).vars == st.vars;
  }

  lemma {:induction false} OutsideLater(w: Names, tab: L.Table, st: L.Store, total: I64, limit: I64, next: I64)
    requires Outside(w, tab, st, total, limit)
    ensures Outside(w, tab, st.Set(0, w.total, I(next)), next, limit)
  {
  }

  /** At the end of a turn the iterator is gone. */
  lemma {:induction false} LeavesNothing(st: L.Store, x: string, v: Value)
    requires forall k | k in st.vars :: k.depth == 0
    ensures st.Set(1, x, v).Leave(0) == st
    ensures forall y, v' :: st.Set(1, x, v).Set(0, y, v').Leave(0) == st.Set(0, y, v')
  {
    assert st.Set(1, x, v).Leave(0).vars == st.vars;
    forall y, v'
      ensures st.Set(1, x, v).Set(0, y, v').Leave(0) == st.Set(0, y, v')
    {
      assert st.Set(1, x, v).Set(0, y, v').Leave(0).vars == st.Set(0, y, v').vars;
    }
  }

  /** What a turn sees. */
  lemma {:induction false} InTurn(w: Names, tab: L.Table, st: L.Store, total: I64, limit: I64, x: string, v: Value)
    requires Outside(w, tab, st, total, limit) && x != w.total && x != w.limit
    ensures var view := st.Set(1, x, v).View(L.InLoop(x, 0, tab));
      && x in view.vars && view.vars[x] == v
      && w.total in view.vars && view.vars[w.total] == I(total)
      && w.limit in view.vars && view.vars[w.limit] == I(limit)
  {
  }

  // ---------- the list loops ----------

  lemma {:induction false} AddRuns(w: Names, x: string, tab: L.Table, st: L.Store, total: I64, v: I64, fuel: nat)
    requires w.total in tab && tab[w.total].depth == 0
    requires var view := st.View(tab);
      && x in view.vars && view.vars[x] == I(v) && w.total in view.vars && view.vars[w.total] == I(total)
    ensures L.Exec(Assign(Name(w.total), Compound(Add), Var(x), false), 1, tab, st, fuel)
         == L.Ends(st.Set(0, w.total, I(Wrap(total + v))))
  {
    var view := st.View(tab);
    assert Eval(Var(x), view) == Some(I(v));
    assert ExecAssign(Name(w.total), Compound(Add), Var(x), view) == Normal(view.Set(w.total, I(Wrap(total + v))));
  }

  /** An `if` with a condition that has a truth value, and no declarations in its first branch. */
  lemma {:induction false} IfRuns(n: Node, d: nat, tab: L.Table, st: L.Store, b: bool, fuel: nat)
    requires n.If? && Eval(n.cond, st.View(tab)) == Some(B(b)) && L.Declare(n.thenBranch, d, tab) == tab
    ensures L.Exec(n, d, tab, st, fuel) == L.Exec(if b then n.thenBranch else n.elseBranch, d, tab, st, fuel)
  {
  }

  lemma {:induction false} ListBody(w: Names, x: string, tab: L.Table, st: L.Store, total: I64, limit: I64, v: I64,
          fuel: nat)
    requires w.total in tab && tab[w.total].depth == 0
    requires var view := st.View(tab);
      && x in view.vars && view.vars[x] == I(v) && w.total in view.vars && view.vars[w.total] == I(total)
      && w.limit in view.vars && view.vars[w.limit] == I(limit)
    ensures L.Exec(ListPart(w.group, 0, x, w).body, 1, tab, st, fuel)
         == if v == limit then L.Breaks(st) else L.Ends(st.Set(0, w.total, I(Wrap(total + v))))
  {
    var body, view := ListPart(w.group, 0, x, w).body, st.View(tab);
    AddRuns(w, x, tab, st, total, v, fuel);
    assert Eval(Var(x), view) == Some(I(v)) && Eval(Var(w.limit), view) == Some(I(limit));
    assert Eval(body.cond, view) == Some(B(v == limit));
    assert L.Declare(Break, 1, tab) == tab && L.Exec(Break, 1, tab, st, fuel) == L.Breaks(st);
    IfRuns(body, 1, tab, st, v == limit, fuel);
  }

  lemma {:induction false} ListTurn(w: Names, a: string, size: I64, x: string, tab: L.Table, st: L.Store, total: I64,
          limit: I64, v: I64, fuel: nat)
    requires Outside(w, tab, st, total, limit) && x != w.total && x != w.limit
    ensures L.ExecTurn(ListPart(a, size, x, w), 0, tab, I(v), st, fuel)
         == if v == limit then L.Breaks(st) else L.Ends(st.Set(0, w.total, I(Wrap(total + v))))
  {
    InTurn(w, tab, st, total, limit, x, I(v));
    LeavesNothing(st, x, I(v));
    ListBody(w, x, L.InLoop(x, 0, tab), st.Set(1, x, I(v)), total, limit, v, fuel);
  }

  /** Each turn of the loop adds its element to the total, or leaves the loop at the limit. */
  ghost predicate TurnsAdd(n: Node, w: Names, tab: L.Table) {
    && n.ForList?
    && forall st: L.Store, total: I64, limit: I64, v: I64, fuel: nat | Outside(w, tab, st, total, limit) ::
         L.ExecTurn(n, 0, tab, I(v), st, fuel)
         == if v == limit then L.Breaks(st) else L.Ends(st.Set(0, w.total, I(Wrap(total + v))))
  }

  /** How a list loop goes on at element `k`. */
  lemma {:induction false} ElementStep(n: Node, tab: L.Table, r: nat, k: nat, st: L.Store, fuel: nat)
    requires n.ForList? && fuel != 0 && r in st.heap
    ensures k >= |st.heap[r]| ==> L.ExecElements(n, 0, tab, r, k, st, fuel) == L.Ends(st)
    ensures k < |st.heap[r]| ==>
      var o := L.ExecTurn(n, 0, tab, st.heap[r][k], st, fuel);
      && (o.Breaks? ==> L.ExecElements(n, 0, tab, r, k, st, fuel) == L.Ends(o.st))
      && (o.Ends? ==> L.ExecElements(n, 0, tab, r, k, st, fuel) == L.ExecElements(n, 0, tab, r, k + 1, o.st, fuel - 1))
  {
  }

  lemma {:induction false} WrapPlus(x: int, y: int)
    ensures Wrap(Wrap(x) + y) == Wrap(x + y)
  {
    var k :| Wrap(x) == x - k * TWO_TO_THE_64;
    Arithmetic.Negate(k, TWO_TO_THE_64);
    Arithmetic.ModCongruent(x + y - I64_MIN, -k, TWO_TO_THE_64);
  }

  lemma {:induction false} AddUpStep(total: I64, u: seq<I64>, k: nat, limit: I64)
    requires k <= |u|
    ensures k == |u| || u[k] == limit ==> AddUp(total, u[k..], limit) == total
    ensures k < |u| && u[k] != limit ==> AddUp(total, u[k..], limit) == AddUp(Wrap(total + u[k]), u[k + 1..], limit)
  {
    assert k < |u| ==> u[k..][1..] == u[k + 1..];
    if k < |u| {
      WrapPlus(total + u[k], SumBefore(u[k + 1..], limit));
    }
  }

  /** After a turn that stored `next`, the rest of the loop decides. */
  lemma {:induction false} ThenTheRest(n: Node, tab: L.Table, r: nat, k: nat, st: L.Store, x: string, next: I64,
          last: I64, fuel: nat)
    requires n.ForList? && fuel != 0 && r in st.heap && k < |st.heap[r]|
    requires L.ExecTurn(n, 0, tab, st.heap[r][k], st, fuel) == L.Ends(st.Set(0, x, I(next)))
    requires L.ExecElements(n, 0, tab, r, k + 1, st.Set(0, x, I(next)), fuel - 1)
          == L.Ends(st.Set(0, x, I(next)).Set(0, x, I(last)))
    ensures L.ExecElements(n, 0, tab, r, k, st, fuel) == L.Ends(st.Set(0, x, I(last)))
  {
    ElementStep(n, tab, r, k, st, fuel);
    SetTwice(st, x, I(next), I(last));
  }

  lemma {:induction false} TurnAt(n: Node, w: Names, tab: L.Table, st: L.Store, total: I64, limit: I64, r: nat,
          u: seq<I64>, k: nat, fuel: nat)
    requires TurnsAdd(n, w, tab) && Outside(w, tab, st, total, limit)
    requires r in st.heap && st.heap[r] == Numbers(u) && k < |u|
    ensures L.ExecTurn(n, 0, tab, st.heap[r][k], st, fuel)
         == if u[k] == limit then L.Breaks(st) else L.Ends(st.Set(0, w.total, I(Wrap(total + u[k]))))
  {
    assert st.heap[r][k] == I(u[k]);
  }

  /** At the end of the list and at the limit the total stays. */
  lemma {:induction false} StopsAt(n: Node, w: Names, tab: L.Table, st: L.Store, total: I64, limit: I64, r: nat,
          u: seq<I64>, k: nat, fuel: nat)
    requires TurnsAdd(n, w, tab) && Outside(w, tab, st, total, limit) && fuel != 0
    requires r in st.heap && st.heap[r] == Numbers(u) && k <= |u| && (k == |u| || u[k] == limit)
    ensures L.ExecElements(n, 0, tab, r, k, st, fuel) == L.Ends(st.Set(0, w.total, I(total)))
  {
    ElementStep(n, tab, r, k, st, fuel);
    SetTwice(st, w.total, I(total), I(total));
    if k < |u| {
      TurnAt(n, w, tab, st, total, limit, r, u, k, fuel);
    }
  }

  lemma {:induction false} GoesOn(n: Node, w: Names, tab: L.Table, st: L.Store, total: I64, limit: I64, r: nat,
          u: seq<I64>, k: nat, next: I64, last: I64, fuel: nat)
    requires TurnsAdd(n, w, tab) && Outside(w, tab, st, total, limit) && fuel != 0
    requires r in st.heap && st.heap[r] == Numbers(u) && k < |u| && u[k] != limit && next == Wrap(total + u[k])
    requires var st1 := st.Set(0, w.total, I(next));
      L.ExecElements(n, 0, tab, r, k + 1, st1, fuel - 1) == L.Ends(st1.Set(0, w.total, I(last)))
    ensures L.ExecElements(n, 0, tab, r, k, st, fuel) == L.Ends(st.Set(0, w.total, I(last)))
  {
    TurnAt(n, w, tab, st, total, limit, r, u, k, fuel);
    ThenTheRest(n, tab, r, k, st, w.total, next, last, fuel);
  }

  /** From element `k` on the loop adds up the rest. */
  lemma {:induction false} ElementsAddUp(n: Node, w: Names, tab: L.Table, st: L.Store, total: I64, limit: I64, r: nat,
          u: seq<I64>, k: nat, last: I64, fuel: nat)
    requires TurnsAdd(n, w, tab) && Outside(w, tab, st, total, limit)
    requires r in st.heap && st.heap[r] == Numbers(u) && k <= |u| && |u| - k < fuel
    requires last == AddUp(total, u[k..], limit)
    ensures L.ExecElements(n, 0, tab, r, k, st, fuel) == L.Ends(st.Set(0, w.total, I(last)))
    decreases |u| - k
  {
    AddUpStep(total, u, k, limit);
    if k == |u| || u[k] == limit {
      StopsAt(n, w, tab, st, total, limit, r, u, k, fuel);
    } else {
      var next := Wrap(total + u[k]);
      var st1 := st.Set(0, w.total, I(next));
      OutsideLater(w, tab, st, total, limit, next);
      ElementsAddUp(n, w, tab, st1, next, limit, r, u, k + 1, last, fuel - 1);
      GoesOn(n, w, tab, st, total, limit, r, u, k, next, last, fuel);
    }
  }

  /** The list loop adds up the numbers before the limit. */
  lemma {:induction false} ListAddsUp(w: Names, a: string, size: I64, x: string, tab: L.Table, st: L.Store,
          total: I64, limit: I64, r: nat, u: seq<I64>, fuel: nat)
    requires Outside(w, tab, st, total, limit) && x != w.total && x != w.limit
    requires a in tab && tab[a].depth == 0 && Holds(st, a, Ref(r)) && r in st.heap && st.heap[r] == Numbers(u)
    requires |u| < fuel
    ensures L.Exec(ListPart(a, size, x, w), 0, tab, st, fuel) == L.Ends(st.Set(0, w.total, I(AddUp(total, u, limit))))
  {
    var n := ListPart(a, size, x, w);
    assert Eval(Var(a), st.View(tab)) == Some(Ref(r));
    assert u[0..] == u;
    assert TurnsAdd(n, w, tab) by {
      forall st: L.Store, total: I64, limit: I64, v: I64, fuel: nat | Outside(w, tab, st, total, limit)
        ensures L.ExecTurn(n, 0, tab, I(v), st, fuel)
             == if v == limit then L.Breaks(st) else L.Ends(st.Set(0, w.total, I(Wrap(total + v))))
      {
        ListTurn(w, a, size, x, tab, st, total, limit, v, fuel);
      }
    }
    ElementsAddUp(n, w, tab, st, total, limit, r, u, 0, AddUp(total, u, limit), fuel);
  }

  // ---------- the range loop ----------

  /** The even numbers from 0, the last one the first that is not below `n`. */
  function Evens(n: I64): (vals: seq<I64>)
    requires n < I64_MAX
    ensures |vals| == (if n <= 0 then 0 else (n + 1) / 2) + 1
    ensures forall j | 0 <= j < |vals| :: vals[j] == 2 * j
  {
    var m := if n <= 0 then 0 else (n + 1) / 2;
    seq(m + 1, j requires 0 <= j <= m => 2 * j)
  }

  lemma {:induction false} EvensStep(n: I64)
    requires n < I64_MAX
    ensures StepsThrough(Evens(n), 0, n, 2, false, false)
  {
  }

  lemma {:induction false} RangeTurn(w: Names, tab: L.Table, st: L.Store, total: I64, limit: I64, r: nat, j: I64,
          fuel: nat)
    requires Outside(w, tab, st, total, limit) && w.i !in {w.total, w.limit, w.list}
    requires w.list in tab && tab[w.list].depth == 0 && Holds(st, w.list, Ref(r))
    requires r in st.heap && 0 <= j < |st.heap[r]|
    ensures L.ExecTurn(RangePart(w), 0, tab, I(j), st, fuel)
         == L.Ends(L.Store(st.vars, st.heap[r := st.heap[r][j := I(total)]]))
  {
    var st1, tab1 := st.Set(1, w.i, I(j)), L.InLoop(w.i, 0, tab);
    var view := st1.View(tab1);
    InTurn(w, tab, st, total, limit, w.i, I(j));
    LeavesNothing(st, w.i, I(j));
    assert Eval(Var(w.list), view) == Some(Ref(r)) && Eval(Var(w.i), view) == Some(I(j));
    assert Eval(Var(w.total), view) == Some(I(total));
    assert EvalAddress(Var(w.list), Var(w.i), view) == Some(Cell(r, j)) && view.Live(Cell(r, j));
  }

  /** How a range loop goes on with `vals`. */
  lemma {:induction false} RangeStep(n: Node, tab: L.Table, vals: seq<I64>, st: L.Store, fuel: nat)
    requires n.ForRange? && fuel != 0 && vals != []
    ensures |vals| == 1 ==> L.ExecRange(n, 0, tab, vals, st, fuel) == L.Ends(st)
    ensures |vals| > 1 ==>
      var o := L.ExecTurn(n, 0, tab, I(vals[0]), st, fuel);
      o.Ends? ==> L.ExecRange(n, 0, tab, vals, st, fuel) == L.ExecRange(n, 0, tab, vals[1..], o.st, fuel - 1)
  {
  }

  lemma {:induction false} MarkedNext(s: seq<Value>, k: nat, v: Value)
    requires 2 * k < |s|
    ensures Marked(s, 2 * k, v)[2 * k := v] == Marked(s, 2 * (k + 1), v)
  {
  }

  /** From the `k`-th value on the loop marks the rest. */
  lemma {:induction false} RangeMarks(w: Names, tab: L.Table, st: L.Store, total: I64, limit: I64, r: nat,
          s: seq<Value>, vals: seq<I64>, k: nat, fuel: nat)
    requires Outside(w, tab, st, total, limit) && w.i !in {w.total, w.limit, w.list}
    requires w.list in tab && tab[w.list].depth == 0 && Holds(st, w.list, Ref(r))
    requires r in st.heap && st.heap[r] == Marked(s, 2 * k, I(total)) && k < |vals| && |vals| - k <= fuel
    requires forall j | 0 <= j < |vals| :: vals[j] == 2 * j
    requires 2 * (|vals| - 2) < |s|
    ensures L.ExecRange(RangePart(w), 0, tab, vals[k..], st, fuel)
         == L.Ends(L.Store(st.vars, st.heap[r := Marked(s, 2 * (|vals| - 1), I(total))]))
    decreases |vals| - k
  {
    RangeStep(RangePart(w), tab, vals[k..], st, fuel);
    if k == |vals| - 1 {
      assert st.heap[r := st.heap[r]] == st.heap;
    } else {
      var st1 := L.Store(st.vars, st.heap[r := Marked(s, 2 * (k + 1), I(total))]);
      RangeTurn(w, tab, st, total, limit, r, vals[k], fuel);
      MarkedNext(s, k, I(total));
      RangeMarks(w, tab, st1, total, limit, r, s, vals, k + 1, fuel - 1);
      assert vals[k..][1..] == vals[k + 1..];
      var last := Marked(s, 2 * (|vals| - 1), I(total));
      assert st1.heap[r := last] == st.heap[r := last];
    }
  }

  lemma {:induction false} RangeRuns(w: Names, tab: L.Table, st: L.Store, total: I64, limit: I64, r: nat, fuel: nat)
    requires Outside(w, tab, st, total, limit) && w.i !in {w.total, w.limit, w.list}
    requires w.list in tab && tab[w.list].depth == 0 && Holds(st, w.list, Ref(r)) && r in st.heap
    requires limit <= |st.heap[r]| && limit < I64_MAX && |st.heap[r]| + 1 < fuel
    ensures L.Exec(RangePart(w), 0, tab, st, fuel)
         == L.Ends(L.Store(st.vars, st.heap[r := Marked(st.heap[r], limit, I(total))]))
  {
    var s, vals, n := st.heap[r], Evens(limit), RangePart(w);
    var view := st.View(tab);
    assert Eval(n.start, view) == Some(I(0)) && Eval(n.end, view) == Some(I(limit));
    assert Eval(n.stride.value, view) == Some(I(2));
    EvensStep(limit);
    S.RangeRunsByStride(n, 0, tab, st, 0, limit, 2, fuel);
    assert Marked(s, 0, I(total)) == s && vals[0..] == vals;
    RangeMarks(w, tab, st, total, limit, r, s, vals, 0, fuel);
    assert Marked(s, 2 * (|vals| - 1), I(total)) == Marked(s, limit, I(total));
  }

  // ---------- the while loop and the end ----------

  lemma {:induction false} WhileTurn(w: Names, tab: L.Table, st: L.Store, total: I64, limit: I64, fuel: nat)
    requires Outside(w, tab, st, total, limit) && limit < total && fuel != 0
    ensures L.Exec(WhilePart(w), 0, tab, st, fuel)
         == L.Exec(WhilePart(w), 0, tab, st.Set(0, w.total, I(total - 1)), fuel - 1)
  {
    var n, view := WhilePart(w), st.View(tab);
    assert Eval(Var(w.total), view) == Some(I(total)) && Eval(Var(w.limit), view) == Some(I(limit));
    assert Eval(n.cond, view) == Some(B(true)) == Eval(n.body.cond, view);
    assert L.Declare(Continue, 0, tab) == tab && L.Exec(Continue, 0, tab, st, fuel) == L.Continues(st);
    IfRuns(n.body, 0, tab, st, true, fuel);
    assert L.Declare(n.body, 0, tab) == tab;
    assert ExecAssign(n.step.target, n.step.aop, n.step.rhs, view) == Normal(view.Set(w.total, I(total - 1)));
    assert L.Exec(n.step, 0, tab, st, fuel) == L.Ends(st.Set(0, w.total, I(total - 1)));
  }

  lemma {:induction false} WhileRuns(w: Names, tab: L.Table, st: L.Store, total: I64, limit: I64, fuel: nat)
    requires Outside(w, tab, st, total, limit) && fuel != 0 && total - limit < fuel
    ensures L.Exec(WhilePart(w), 0, tab, st, fuel) == L.Ends(st.Set(0, w.total, I(Min(total, limit))))
    decreases fuel
  {
    SetTwice(st, w.total, I(total), I(total));
    if limit < total {
      WhileTurn(w, tab, st, total, limit, fuel);
      OutsideLater(w, tab, st, total, limit, total - 1);
      WhileRuns(w, tab, st.Set(0, w.total, I(total - 1)), total - 1, limit, fuel - 1);
      SetTwice(st, w.total, I(total - 1), I(limit));
    } else {
      var view := st.View(tab);
      assert Eval(Var(w.total), view) == Some(I(total)) && Eval(Var(w.limit), view) == Some(I(limit));
      assert Eval(WhilePart(w).cond, view) == Some(B(false));
    }
  }

  // ---------- the whole function ----------

  /** A statement that ends, and what follows it. */
  lemma {:induction false} SeqRuns(p: Node, q: Node, tab: L.Table, st: L.Store, st1: L.Store, fuel: nat)
    requires L.Exec(p, 0, tab, st, fuel) == L.Ends(st1)
    ensures L.Exec(Seq(p, q), 0, tab, st, fuel) == L.Exec(q, 0, L.Declare(p, 0, tab), st1, fuel)
  {
  }

  lemma {:induction false} TailReturns(w: Names, tab: L.Table, st: L.Store, total: I64, limit: I64, fuel: nat)
    requires Outside(w, tab, st, total, limit) && fuel != 0 && total - limit < fuel
    ensures L.Exec(Tail(w), 0, tab, st, fuel)
         == L.Returns(Some(I(Min(total, limit))), st.Set(0, w.total, I(Min(total, limit))))
  {
    var last := Min(total, limit);
    var st1 := st.Set(0, w.total, I(last));
    var say, give := Evaluate(Unary(Neg, Var(w.total))), Return(Some(Var(w.total)));
    WhileRuns(w, tab, st, total, limit, fuel);
    OutsideLater(w, tab, st, total, limit, last);
    assert L.Declare(Continue, 0, tab) == tab == L.Declare(WhilePart(w).body, 0, tab);
    assert L.Declare(WhilePart(w), 0, tab) == tab;
    SeqRuns(WhilePart(w), Seq(say, give), tab, st, st1, fuel);
    assert Eval(Var(w.total), st1.View(tab)) == Some(I(last));
    assert L.Exec(say, 0, tab, st1, fuel) == L.Ends(st1);
    SeqRuns(say, give, tab, st1, st1, fuel);
  }

  /** Fuel enough for every loop of the function. */
  predicate Enough(fuel: nat, u: seq<I64>, v: seq<I64>, total: int, limit: int) {
    |u| < fuel && |v| + 1 < fuel && total - limit < fuel
  }

  /** The total that the two list loops add up. */
  function Total(u: seq<I64>, v: seq<I64>, k: I64): I64 {
    AddUp(AddUp(0, u, k), v, k)
  }

  lemma {:induction false} LoopsReturn(w: Names, tab: L.Table, st: L.Store, total: I64, limit: I64, size: I64,
          v: seq<I64>, fuel: nat)
    requires w.Good() && Outside(w, tab, st, total, limit)
    requires w.list in tab && tab[w.list].depth == 0 && Holds(st, w.list, Ref(1))
    requires w.copy in tab && tab[w.copy].depth == 0 && Holds(st, w.copy, Ref(1))
    requires 1 in st.heap && st.heap[1] == Numbers(v) && limit <= |v| && limit < I64_MAX
    requires var sum := AddUp(total, v, limit); |v| + 1 < fuel && sum - limit < fuel
    ensures var sum := AddUp(total, v, limit); var o := L.Exec(Loops(w, size), 0, tab, st, fuel);
      && o.Returns? && o.value == Some(I(Min(sum, limit))) && Holds(o.st, w.total, I(Min(sum, limit)))
      && o.st.heap == st.heap[1 := Marked(Numbers(v), limit, I(sum))]
  {
    var sum := AddUp(total, v, limit);
    NamesDiffer(w);
    ListAddsUp(w, w.copy, size, w.y, tab, st, total, limit, 1, v, fuel);
    var st1 := st.Set(0, w.total, I(sum));
    OutsideLater(w, tab, st, total, limit, sum);
    SeqRuns(ListPart(w.copy, size, w.y, w), Seq(RangePart(w), Tail(w)), tab, st, st1, fuel);
    RangeRuns(w, tab, st1, sum, limit, 1, fuel);
    var st2 := L.Store(st1.vars, st1.heap[1 := Marked(Numbers(v), limit, I(sum))]);
    SeqRuns(RangePart(w), Tail(w), tab, st1, st2, fuel);
    TailReturns(w, tab, st2, sum, limit, fuel);
  }

  /** The store behind the declaration of `x`. */
  lemma {:induction false} DeclareRuns(x: string, e: Expr, v: Value, tab: L.Table, st: L.Store, fuel: nat)
    requires Eval(e, st.View(tab)) == Some(v)
    ensures L.Exec(Assign(Name(x), Plain, e, true), 0, tab, st, fuel) == L.Ends(st.Set(0, x, v))
  {
  }

  /** On entry: two lists of numbers and the limit. */
  predicate Entry(w: Names, st: L.Store, u: seq<I64>, v: seq<I64>, k: I64) {
    && (forall x | x in st.vars :: x.depth == 0)
    && Holds(st, w.group, Ref(0)) && Holds(st, w.list, Ref(1)) && Holds(st, w.limit, I(k))
    && 0 in st.heap && st.heap[0] == Numbers(u) && 1 in st.heap && st.heap[1] == Numbers(v)
  }

  /** The body behind the first loop. */
  function Rest(w: Names, size: I64): Node {
    Seq(Assign(Name(w.copy), Plain, Var(w.list), true), Loops(w, size))
  }

  lemma {:induction false} FirstLoopEnds(w: Names, size: I64, st: L.Store, u: seq<I64>, v: seq<I64>, k: I64, fuel: nat)
    requires w.Good() && Entry(w, st, u, v, k) && |u| < fuel
    ensures L.Exec(ListPart(w.group, 0, w.x, w), 0, WithTotal(w, size), st.Set(0, w.total, I(0)), fuel)
         == L.Ends(st.Set(0, w.total, I(AddUp(0, u, k))))
  {
    NamesDiffer(w);
    ListAddsUp(w, w.group, 0, w.x, WithTotal(w, size), st.Set(0, w.total, I(0)), 0, k, 0, u, fuel);
    SetTwice(st, w.total, I(0), I(AddUp(0, u, k)));
  }

  /** Two statements that end, the second without declarations, and what follows them. */
  lemma {:induction false} TwoRun(p: Node, q: Node, rest: Node, tab: L.Table, tab': L.Table, st: L.Store,
          st1: L.Store, st2: L.Store, fuel: nat)
    requires L.Exec(p, 0, tab, st, fuel) == L.Ends(st1) && L.Declare(p, 0, tab) == tab'
    requires L.Exec(q, 0, tab', st1, fuel) == L.Ends(st2) && L.Declare(q, 0, tab') == tab'
    ensures L.Exec(Seq(p, Seq(q, rest)), 0, tab, st, fuel) == L.Exec(rest, 0, tab', st2, fuel)
  {
    SeqRuns(p, Seq(q, rest), tab, st, st1, fuel);
    SeqRuns(q, rest, tab', st1, st2, fuel);
  }

  lemma {:induction false} FirstLoopRuns(w: Names, size: I64, st: L.Store, u: seq<I64>, v: seq<I64>, k: I64, fuel: nat)
    requires w.Good() && Entry(w, st, u, v, k) && |u| < fuel
    ensures L.Exec(Body(w, size), 0, ParamSymbols(w, size), st, fuel)
         == L.Exec(Rest(w, size), 0, WithTotal(w, size), st.Set(0, w.total, I(AddUp(0, u, k))), fuel)
  {
    var tab := ParamSymbols(w, size);
    DeclareRuns(w.total, Num(0), I(0), tab, st, fuel);
    FirstLoopEnds(w, size, st, u, v, k, fuel);
    TwoRun(Assign(Name(w.total), Plain, Num(0), true), ListPart(w.group, 0, w.x, w), Rest(w, size), tab,
           WithTotal(w, size), st, st.Set(0, w.total, I(0)), st.Set(0, w.total, I(AddUp(0, u, k))), fuel);
  }

  lemma {:induction false} CopyRuns(w: Names, size: I64, st: L.Store, fuel: nat)
    requires w.Good() && Holds(st, w.list, Ref(1))
    ensures L.Exec(Rest(w, size), 0, WithTotal(w, size), st, fuel)
         == L.Exec(Loops(w, size), 0, WithCopy(w, size), st.Set(0, w.copy, Ref(1)), fuel)
  {
    var tab := WithTotal(w, size);
    NamesDiffer(w);
    Companions(w);
    assert Eval(Var(w.list), st.View(tab)) == Some(Ref(1));
    DeclareRuns(w.copy, Var(w.list), Ref(1), tab, st, fuel);
    assert L.StoredKind(Plain, Var(w.list), tab) == L.Sized(size);
    SeqRuns(Assign(Name(w.copy), Plain, Var(w.list), true), Loops(w, size), tab, st, st.Set(0, w.copy, Ref(1)), fuel);
  }

  /** The body from the copy of the second list on. */
  lemma {:induction false} RestReturns(w: Names, size: I64, st: L.Store, u: seq<I64>, v: seq<I64>, k: I64, total: I64,
          fuel: nat)
    requires w.Good() && Entry(w, st, u, v, k) && k <= |v| && k < I64_MAX && Enough(fuel, u, v, AddUp(total, v, k), k)
    ensures var sum := AddUp(total, v, k);
      var o := L.Exec(Rest(w, size), 0, WithTotal(w, size), st.Set(0, w.total, I(total)), fuel);
      && o.Returns? && o.value == Some(I(Min(sum, k))) && Holds(o.st, w.total, I(Min(sum, k)))
      && o.st.heap == st.heap[1 := Marked(Numbers(v), k, I(sum))]
  {
    var st1 := st.Set(0, w.total, I(total));
    NamesDiffer(w);
    Companions(w);
    CopyRuns(w, size, st1, fuel);
    LoopsReturn(w, WithCopy(w, size), st1.Set(0, w.copy, Ref(1)), total, k, size, v, fuel);
  }

  function Heap(u: seq<I64>, v: seq<I64>): map<nat, seq<Value>> {
    map[0 := Numbers(u), 1 := Numbers(v)]
  }

  /** The source of such a function ends, with this result, for any amount of fuel that is enough. */
  lemma {:induction false} SourceComputes(w: Names, size: I64, c: nat, u: seq<I64>, v: seq<I64>, k: I64, fuel: nat)
    requires w.Identifiers() && |u| <= I64_MAX && k <= |v| && k < I64_MAX && Enough(fuel, u, v, Total(u, v, k), k)
    ensures var r := Program(w, size, c).Run(Arguments(Numbers(u), k), Heap(u, v), fuel);
      && r.Done? && r.value == Some(I(Min(Total(u, v, k), k)))
      && w.total in r.st.vars && r.st.vars[w.total] == I(Min(Total(u, v, k), k))
      && r.st.heap == Heap(u, v)[1 := Marked(Numbers(v), k, I(Total(u, v, k)))]
  {
    var f := Program(w, size, c);
    var st := f.Entered(Arguments(Numbers(u), k), Heap(u, v));
    NamesGood(w);
    ProgramTable(w, size, c);
    ProgramArguments(w, size, c, Numbers(u), k);
    NamesDiffer(w);
    Companions(w);
    assert Entry(w, st, u, v, k);
    FirstLoopRuns(w, size, st, u, v, k, fuel);
    RestReturns(w, size, st, u, v, k, AddUp(0, u, k), fuel);
  }

  lemma {:induction false} SourceEnds(w: Names, size: I64, c: nat, u: seq<I64>, v: seq<I64>, k: I64)
      returns (s: State)
    requires w.Identifiers() && |u| <= I64_MAX && k <= |v| && k < I64_MAX
    ensures SourceYields(Program(w, size, c), Arguments(Numbers(u), k), Heap(u, v),
                         Some(I(Min(Total(u, v, k), k))), s)
    ensures w.total in s.vars && s.vars[w.total] == I(Min(Total(u, v, k), k))
    ensures s.heap == Heap(u, v)[1 := Marked(Numbers(v), k, I(Total(u, v, k)))]
  {
    var sum := Total(u, v, k);
    var fuel: nat := |u| + |v| + 2 + if k < sum then sum - k else 0;
    SourceComputes(w, size, c, u, v, k, fuel);
    s := Program(w, size, c).Run(Arguments(Numbers(u), k), Heap(u, v), fuel).st;
  }

  /** What a compilable function yields, its graph halts with. */
  lemma {:induction false} GraphYields(f: Function, args: seq<Value>, heap: map<nat, seq<Value>>, v: Option<Value>,
          r: State) returns (s: State)
    requires f.Compilable() && f.Fits(args, heap) && SourceYields(f, args, heap, v, r)
    ensures GraphHalts(f, args, heap, v, s) && S.Below(r, s)
  {
    s := ForwardYields(f, args, heap, v, r);
  }

  lemma {:induction false} ProgramYields(w: Names, size: I64, c: nat, f: Function, args: seq<Value>,
          heap: map<nat, seq<Value>>, v: Option<Value>, r: State) returns (s: State)
    requires f == Program(w, size, c) && w.Identifiers() && f.Fits(args, heap) && SourceYields(f, args, heap, v, r)
    ensures GraphHalts(f, args, heap, v, s) && S.Below(r, s)
  {
    EveryFormCompilable(w, size, c);
    s := GraphYields(f, args, heap, v, r);
  }

  lemma {:induction false} TotalIsSum(u: seq<I64>, v: seq<I64>, k: I64)
    ensures Total(u, v, k) == Wrap(SumBefore(u, k) + SumBefore(v, k))
  {
    WrapPlus(SumBefore(u, k), SumBefore(v, k));
  }

  /**
   Compiled, every such function called with two lists of numbers and a limit up to the length of
   the second halts with the smaller of the limit and the sum, in 64 bits, of the numbers in both
   lists before the limit, which is also in the variable that is returned; every second element of
   the second list below the limit holds that sum.
   */
  lemma {:induction false} GraphComputes(w: Names, size: I64, c: nat, u: seq<I64>, v: seq<I64>, k: I64, f: Function)
      returns (s: State)
    requires w.Identifiers() && |u| <= I64_MAX && |v| == size && k <= size && k < I64_MAX && f == Program(w, size, c)
    ensures var sum := Wrap(SumBefore(u, k) + SumBefore(v, k));
      var result := I(if k < sum then k else sum);
      && GraphHalts(f, Arguments(Numbers(u), k), Heap(u, v), Some(result), s)
      && w.total in s.vars && s.vars[w.total] == result
      && s.heap == Heap(u, v)[1 := Marked(Numbers(v), k, I(sum))]
  {
    var r := SourceEnds(w, size, c, u, v, k);
    TotalIsSum(u, v, k);
    EveryFormFits(w, size, c, Numbers(u), Numbers(v), k);
    s := ProgramYields(w, size, c, f, Arguments(Numbers(u), k), Heap(u, v), Some(I(Min(Total(u, v, k), k))), r);
  }
}
