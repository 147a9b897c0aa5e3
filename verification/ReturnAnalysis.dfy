/**
 The check that a function returns on every path, and what code generation relies on it for.

 The analysis reads the first character of an `if` condition as if it were a literal's text.
 The syntax tree keeps that text where other nodes keep something else: a variable its name,
 an element access its list, whose first byte is a node kind, and an operator application
 its operator, which is no address at all.
 */
module ReturnAnalysis {
  import opened Wrappers
  import opened Syntax
  import opened Ast
  import opened AstFacts
  import opened Pipeline
  import C = Codegen
  import F = FunctionProof
  import G = Cfg
  import H = Hir
  import L = Lexical
  import P = LoweringProof
  import S = LexicalProof

  /** The number of a node's kind, as a byte. */
  function KindByte(e: Expr): char {
    match e
    case Num(_) => '\U{0000}'
    case Binary(_, _, _) => '\U{0001}'
    case Unary(_, _) => '\U{0002}'
    case Var(_) => '\U{0003}'
    case BoolLit(_) => '\U{0004}'
    case Index(_, _) => '\U{0013}'
  }

  /** The character found behind a condition's text pointer; None if it points nowhere. */
  function Peek(cond: Expr): Option<char> {
    match cond
    case BoolLit(b) => Some(if b then 't' else 'f')
    case Var(x) => Some(if x == [] then '\U{0000}' else x[0])
    case Num(_) => Some('0')
    case Index(arr, _) => Some(KindByte(arr))
    case Unary(_, _) => None
    case Binary(_, _, _) => None
  }

  /** Besides the literals only variables are taken for them, by the first letter of their names. */
  lemma {:induction false} TakenForLiteralIff(e: Expr)
    ensures Peek(e) == Some('t') <==> e == BoolLit(true) || (e.Var? && e.name != [] && e.name[0] == 't')
    ensures Peek(e) == Some('f') <==> e == BoolLit(false) || (e.Var? && e.name != [] && e.name[0] == 'f')
    ensures Peek(e) == None <==> e.Unary? || e.Binary?
  {
    assert e.Index? ==> KindByte(e.arr) < '\U{0020}';
  }

  datatype ReturnInfo = ReturnInfo(alwaysReturn: bool, alwaysFallthrough: bool)

  /** None if the analysis reads through an operator. */
  function Analyze(n: Node): Option<ReturnInfo> {
    match n
    case Null => Some(ReturnInfo(false, true))
    case Return(_) => Some(ReturnInfo(true, false))
    case Seq(a, b) =>
      var left := Analyze(a);
      if left.None? then None
      else if left.value.alwaysReturn then Some(ReturnInfo(true, false))
      else
        var right := Analyze(b);
        if right.None? then None
        else
          Some(ReturnInfo(left.value.alwaysFallthrough && right.value.alwaysReturn,
                          left.value.alwaysFallthrough && right.value.alwaysFallthrough))
    case If(cond, thn, els) =>
      var thenInfo := Analyze(thn);
      if thenInfo.None? || Peek(cond).None? then None
      else if Peek(cond) == Some('t') then Some(ReturnInfo(true, true))
      else if els.Null? then Some(ReturnInfo(false, true))
      else
        var elseInfo := Analyze(els);
        if elseInfo.None? then None
        else
          Some(ReturnInfo(
            if Peek(cond) == Some('f') then elseInfo.value.alwaysReturn
            else thenInfo.value.alwaysReturn && elseInfo.value.alwaysReturn,
            thenInfo.value.alwaysFallthrough && elseInfo.value.alwaysFallthrough))
    case Break => Some(ReturnInfo(false, false))
    case Continue => Some(ReturnInfo(false, false))
    case _ => Some(ReturnInfo(false, true))
  }

  predicate AlwaysReturns(body: Node) {
    Analyze(body).Some? && Analyze(body).value.alwaysReturn
  }

  // ---------- where the analysis is defined ----------

  predicate IsOperator(e: Expr) {
    e.Unary? || e.Binary?
  }

  /** The conditions outside loops that are not behind a statement counted as returning. */
  function Inspected(n: Node): set<Expr> {
    match n
    case Seq(a, b) => Inspected(a) + if AlwaysReturns(a) then {} else Inspected(b)
    case If(cond, thn, els) => Inspected(thn) + {cond} + if Peek(cond) == Some('t') then {} else Inspected(els)
    case _ => {}
  }

  ghost predicate NoOperator(s: set<Expr>) {
    forall c | c in s :: !IsOperator(c)
  }

  lemma {:induction false} NoOperatorUnion(s: set<Expr>, t: set<Expr>)
    ensures NoOperator(s + t) <==> NoOperator(s) && NoOperator(t)
  {
    forall c | c in s || c in t
      ensures c in s + t
    {
    }
  }

  /** The analysis is defined exactly if none of the conditions it looks at applies an operator. */
  lemma {:induction false} AnalysisDefinedIff(n: Node)
    ensures Analyze(n).Some? <==> NoOperator(Inspected(n))
  {
    match n
    case Seq(a, b) =>
      AnalysisDefinedIff(a);
      AnalysisDefinedIff(b);
      NoOperatorUnion(Inspected(a), if AlwaysReturns(a) then {} else Inspected(b));
    case If(cond, thn, els) =>
      AnalysisDefinedIff(thn);
      AnalysisDefinedIff(els);
      assert NoOperator({cond}) <==> !IsOperator(cond) by {
        assert cond in {cond};
      }
      NoOperatorUnion(Inspected(thn), {cond});
      NoOperatorUnion(Inspected(thn) + {cond}, if Peek(cond) == Some('t') then {} else Inspected(els));
    case _ =>
  }

  // ---------- exactly which bodies it accepts ----------

  /** Conditions that are inspected like any other: no operator, and no text that begins with `t`. */
  predicate Plain(n: Node) {
    match n
    case Seq(a, b) => Plain(a) && Plain(b)
    case If(cond, thn, els) => !IsOperator(cond) && Peek(cond) != Some('t') && Plain(thn) && Plain(els)
    case _ => true
  }

  /**
   The paths through a statement, as the simple statements and loops on them.  A branch whose
   condition text begins with `f` is not counted.
   */
  ghost function Paths(n: Node): set<seq<Node>> {
    match n
    case Null => {[]}
    case Seq(a, b) => set p, q | p in Paths(a) && q in Paths(b) :: p + q
    case If(cond, thn, els) => if Peek(cond) == Some('f') then Paths(els) else Paths(thn) + Paths(els)
    case _ => {[n]}
  }

  ghost predicate HasReturn(path: seq<Node>) {
    exists i :: 0 <= i < |path| && path[i].Return?
  }

  ghost predicate EveryPathReturns(n: Node) {
    forall p | p in Paths(n) :: HasReturn(p)
  }

  /** A `return`, `break` or `continue` that stands neither in a loop nor in an `if` without `else`. */
  predicate MayLeave(n: Node) {
    match n
    case Seq(a, b) => MayLeave(a) || MayLeave(b)
    case If(_, thn, els) => !els.Null? && (MayLeave(thn) || MayLeave(els))
    case Return(_) => true
    case Break => true
    case Continue => true
    case _ => false
  }

  /** Nothing that may leave stands before the part in which every path returns. */
  ghost predicate Settled(n: Node) {
    match n
    case Seq(a, b) => if EveryPathReturns(a) then Settled(a) else !MayLeave(a) && Settled(b)
    case If(cond, thn, els) => (Peek(cond) == Some('f') || Settled(thn)) && Settled(els)
    case _ => true
  }

  lemma {:induction false} PathExists(n: Node) returns (p: seq<Node>)
    ensures p in Paths(n)
  {
    match n
    case Null => p := [];
    case Seq(a, b) =>
      var q := PathExists(a);
      var r := PathExists(b);
      p := q + r;
    case If(_, _, els) => p := PathExists(els);
    case _ => p := [n];
  }

  /** A path without a `return`, if there is one. */
  lemma {:induction false} PathWithout(n: Node) returns (p: seq<Node>)
    requires !EveryPathReturns(n)
    ensures p in Paths(n) && !HasReturn(p)
  {
    p :| p in Paths(n) && !HasReturn(p);
  }

  lemma {:induction false} HasReturnConcat(p: seq<Node>, q: seq<Node>)
    ensures HasReturn(p + q) <==> HasReturn(p) || HasReturn(q)
  {
    forall i | 0 <= i < |p|
      ensures (p + q)[i] == p[i]
    {
    }
    forall i | 0 <= i < |q|
      ensures (p + q)[|p| + i] == q[i]
    {
    }
    if HasReturn(p + q) {
      var i :| 0 <= i < |p + q| && (p + q)[i].Return?;
      assert if i < |p| then p[i].Return? else q[i - |p|].Return?;
    }
  }

  lemma {:induction false} SeqReturns(a: Node, b: Node)
    ensures EveryPathReturns(Seq(a, b)) <==> EveryPathReturns(a) || EveryPathReturns(b)
  {
    forall p, q | p in Paths(a) && q in Paths(b)
      ensures HasReturn(p + q) <==> HasReturn(p) || HasReturn(q)
    {
      HasReturnConcat(p, q);
    }
    if !EveryPathReturns(a) && !EveryPathReturns(b) {
      var p := PathWithout(a);
      var q := PathWithout(b);
      assert p + q in Paths(Seq(a, b));
    }
  }

  lemma {:induction false} LeafReturns(n: Node)
    requires !n.Seq? && !n.If?
    ensures EveryPathReturns(n) <==> n.Return?
  {
    var p := if n.Null? then [] else [n];
    assert Paths(n) == {p};
    if n.Return? {
      assert p[0].Return?;
    }
  }

  lemma {:induction false} ReturningMayLeave(n: Node)
    requires EveryPathReturns(n)
    ensures MayLeave(n)
  {
    match n
    case Seq(a, b) =>
      SeqReturns(a, b);
      if EveryPathReturns(a) { ReturningMayLeave(a); } else { ReturningMayLeave(b); }
    case If(_, thn, els) =>
      ReturningMayLeave(els);
      LeafReturns(Null);
    case _ =>
      LeafReturns(n);
  }

  /**
   The analysis accepts a body exactly if every path through it meets a `return`, and nothing
   that may leave stands before the part in which that is so.
   */
  lemma {:induction false} AlwaysReturnsIff(n: Node)
    requires Plain(n)
    ensures Analyze(n).Some?
    ensures Analyze(n).value.alwaysFallthrough <==> !MayLeave(n)
    ensures AlwaysReturns(n) <==> EveryPathReturns(n) && Settled(n)
  {
    match n
    case Seq(a, b) =>
      AlwaysReturnsIff(a);
      AlwaysReturnsIff(b);
      SeqReturns(a, b);
      if EveryPathReturns(a) { ReturningMayLeave(a); }
    case If(_, thn, els) =>
      AlwaysReturnsIff(thn);
      AlwaysReturnsIff(els);
      LeafReturns(Null);
    case _ =>
      LeafReturns(n);
  }

  /** What the rule for sequences gives away: `if c { return .. } else { s }` and then a `return` is refused. */
  lemma {:induction false} LateReturnRefused(cond: Expr, u: Option<Expr>, s: Node, v: Option<Expr>)
    requires !IsOperator(cond) && Peek(cond) != Some('t') && Plain(s) && !s.Null?
    ensures var n := Seq(If(cond, Return(u), s), Return(v));
      EveryPathReturns(n) && (AlwaysReturns(n) <==> AlwaysReturns(s))
  {
    var i := If(cond, Return(u), s);
    SeqReturns(i, Return(v));
    LeafReturns(Return(u));
    LeafReturns(Return(v));
    AlwaysReturnsIff(s);
    assert Analyze(Return(u)) == Some(ReturnInfo(true, false)) == Analyze(Return(v));
    assert Analyze(i).Some? && !Analyze(i).value.alwaysFallthrough;
    assert AlwaysReturns(i) <==> AlwaysReturns(s);
  }

  // ---------- what it is right about ----------

  /** The shortcuts for constant conditions are not misled: they only skip branches that return or cannot run. */
  predicate Honest(n: Node) {
    match n
    case Seq(a, b) => Honest(a) && Honest(b)
    case If(cond, thn, els) =>
      && Honest(thn) && Honest(els)
      && (Peek(cond) == Some('t') ==> AlwaysReturns(thn) && (cond == BoolLit(true) || AlwaysReturns(els)))
      && (Peek(cond) == Some('f') ==> cond == BoolLit(false) || AlwaysReturns(thn))
    case _ => true
  }

  /** A `break` or `continue` that leaves the statement. */
  predicate FreeJump(n: Node) {
    match n
    case Seq(a, b) => FreeJump(a) || FreeJump(b)
    case If(_, thn, els) => FreeJump(thn) || FreeJump(els)
    case Break => true
    case Continue => true
    case _ => false
  }

  /** A statement that always returns never falls through. */
  lemma {:induction false} AlwaysReturnsSound(n: Node, d: nat, tab: L.Table, st: L.Store, fuel: nat)
    requires Honest(n) && AlwaysReturns(n)
    ensures !L.Exec(n, d, tab, st, fuel).Ends?
  {
    match n
    case Seq(a, b) =>
      if AlwaysReturns(a) {
        AlwaysReturnsSound(a, d, tab, st, fuel);
      } else if L.Exec(a, d, tab, st, fuel).Ends? {
        AlwaysReturnsSound(b, d, L.Declare(a, d, tab), L.Exec(a, d, tab, st, fuel).st, fuel);
      }
    case If(cond, thn, els) =>
      if AlwaysReturns(thn) {
        AlwaysReturnsSound(thn, d, tab, st, fuel);
      }
      if AlwaysReturns(els) {
        AlwaysReturnsSound(els, d, L.Declare(thn, d, tab), st, fuel);
      }
    case _ =>
  }

  predicate Jumps(o: L.Ending) {
    o.Breaks? || o.Continues?
  }

  /** Jumps stay inside the loops they belong to. */
  lemma {:induction false} JumpsStayInside(n: Node, d: nat, tab: L.Table, st: L.Store, fuel: nat)
    requires !FreeJump(n) && Regular(n)
    ensures !Jumps(L.Exec(n, d, tab, st, fuel))
    decreases n
  {
    match n
    case Seq(a, b) =>
      JumpsStayInside(a, d, tab, st, fuel);
      if L.Exec(a, d, tab, st, fuel).Ends? {
        JumpsStayInside(b, d, L.Declare(a, d, tab), L.Exec(a, d, tab, st, fuel).st, fuel);
      }
    case If(_, thn, els) =>
      JumpsStayInside(thn, d, tab, st, fuel);
      JumpsStayInside(els, d, L.Declare(thn, d, tab), st, fuel);
    case While(_, _, _) =>
      WhileContains(n, d, tab, st, fuel);
    case ForRange(_, _, _, _, _, _) =>
      if L.Exec(n, d, tab, st, fuel) != L.Undefined {
        S.RangeBounds(n, d, tab, st, fuel);
        var view := st.View(tab);
        var x: I64, e: I64, w: I64 :| Eval(n.start, view) == Some(I(x)) && Eval(n.end, view) == Some(I(e))
          && Eval(StrideOf(n.start, n.end, n.stride), view) == Some(I(w));
        S.RunsRange(n, d, tab, st, x, e, w, fuel);
        RangeContains(n, d, tab, RangeValues(x, e, w, Descending(n.start, n.end), n.inclusive).value, st, fuel);
      }
    case ForList(_, iterable, _, _, _) =>
      var v := Eval(iterable, st.View(tab));
      if v.Some? && v.value.Ref? && v.value.addr in st.heap {
        ElementsContain(n, d, tab, v.value.addr, 0, st, fuel);
      }
    case _ =>
  }

  /** Returning on every path means exactly that, for a body with no stray jumps. */
  lemma {:induction false} ReturnsOnEveryPath(n: Node, d: nat, tab: L.Table, st: L.Store, fuel: nat)
    requires Regular(n) && !FreeJump(n) && Honest(n) && AlwaysReturns(n)
    ensures var o := L.Exec(n, d, tab, st, fuel); o.Returns? || o.Undefined? || o.OutOfFuel?
  {
    AlwaysReturnsSound(n, d, tab, st, fuel);
    JumpsStayInside(n, d, tab, st, fuel);
  }

  lemma {:induction false} WhileContains(n: Node, d: nat, tab: L.Table, st: L.Store, fuel: nat)
    requires n.While? && (n.step.Null? || n.step.Assign?)
    ensures !Jumps(L.Exec(n, d, tab, st, fuel))
    decreases fuel
  {
    if fuel != 0 && Eval(n.cond, st.View(tab)) == Some(B(true)) {
      var o := L.Exec(n.body, d, tab, st, fuel);
      if o.Ends? || o.Continues? {
        var p := L.Exec(n.step, d, L.Declare(n.body, d, tab), o.st, fuel);
        if p.Ends? {
          WhileContains(n, d, tab, p.st, fuel - 1);
        }
      }
    }
  }

  lemma {:induction false} RangeContains(n: Node, d: nat, tab: L.Table, vals: seq<I64>, st: L.Store, fuel: nat)
    requires n.ForRange? && vals != []
    ensures !Jumps(L.ExecRange(n, d, tab, vals, st, fuel))
    decreases fuel
  {
    if fuel != 0 && |vals| != 1 {
      var o := L.ExecTurn(n, d, tab, I(vals[0]), st, fuel);
      if o.Ends? || o.Continues? {
        RangeContains(n, d, tab, vals[1..], o.st, fuel - 1);
      }
    }
  }

  lemma {:induction false} ElementsContain(n: Node, d: nat, tab: L.Table, r: nat, k: nat, st: L.Store, fuel: nat)
    requires n.ForList?
    ensures !Jumps(L.ExecElements(n, d, tab, r, k, st, fuel))
    decreases fuel
  {
    if fuel != 0 && r in st.heap && k < |st.heap[r]| {
      var o := L.ExecTurn(n, d, tab, st.heap[r][k], st, fuel);
      if o.Ends? || o.Continues? {
        ElementsContain(n, d, tab, r, k + 1, o.st, fuel - 1);
      }
    }
  }

  // ---------- what goes wrong without honesty ----------

  /** `if true { thn }`, with any `else`, counts as returning although it falls through whenever `thn` does. */
  lemma {:induction false} ConstantTrueIsUnsound(thn: Node, els: Node, d: nat, tab: L.Table, st: L.Store, fuel: nat)
    requires Analyze(thn).Some?
    ensures var n := If(BoolLit(true), thn, els);
      AlwaysReturns(n) && (L.Exec(n, d, tab, st, fuel).Ends? <==> L.Exec(thn, d, tab, st, fuel).Ends?)
  {
  }

  /**
   A variable whose name begins with `t` is taken for the literal: the statement counts as
   returning, and falls through exactly if the branch that the variable chooses does.
   */
  lemma {:induction false} VariableTakenForTrue(x: string, b: bool, thn: Node, els: Node, d: nat, tab: L.Table,
          st: L.Store, fuel: nat)
    requires x != [] && x[0] == 't' && Analyze(thn).Some?
    requires Eval(Var(x), st.View(tab)) == Some(B(b))
    ensures var n := If(Var(x), thn, els);
      && AlwaysReturns(n)
      && (L.Exec(n, d, tab, st, fuel).Ends? <==>
            if b then L.Exec(thn, d, tab, st, fuel).Ends?
            else L.Exec(els, d, L.Declare(thn, d, tab), st, fuel).Ends?)
  {
    assert Peek(Var(x)) == Some('t');
  }

  // ---------- the fallback return ----------

  /** An honest function that always returns: each result it has is that of a `return`. */
  lemma {:induction false} ResultIsReturned(f: Function, args: seq<Value>, heap: map<nat, seq<Value>>,
          v: Option<Value>, s: State)
    requires f.Compilable() && f.Fits(args, heap) && Honest(f.body) && AlwaysReturns(f.body)
    requires forall fuel: nat :: !f.Run(args, heap, fuel).Undefined?
    requires GraphHalts(f, args, heap, v, s)
    ensures exists fuel: nat, st :: L.Exec(f.body, 0, f.Table(), f.Entered(args, heap), fuel) == L.Returns(v, st)
  {
    var fuel := BackwardYields(f, args, heap, v, s);
    AlwaysReturnsSound(f.body, 0, f.Table(), f.Entered(args, heap), fuel);
    assert L.Exec(f.body, 0, f.Table(), f.Entered(args, heap), fuel).Returns?;
  }

  /** The lowered body of such a function never runs to its end. */
  lemma {:induction false} NeverFallsThrough(f: Function, args: seq<Value>, heap: map<nat, seq<Value>>, fuel: nat)
    requires f.Compilable() && f.Fits(args, heap) && Honest(f.body) && AlwaysReturns(f.body)
    requires !f.Run(args, heap, fuel).Undefined?
    ensures !H.ExecAll(f.Lowered(), State(F.Bind(f.params, args), heap), fuel).Normal?
  {
    var h := State(F.Bind(f.params, args), heap);
    EntryTracks(f, args, heap);
    BindVisible(f.params, args, heap);
    P.FlattenKeepsMeaning(f.body, f.Names(), f.c, 0, f.Table(), f.Table(), f.Entered(args, heap), h, fuel);
    AlwaysReturnsSound(f.body, 0, f.Table(), f.Entered(args, heap), fuel);
  }

  lemma {:induction false} YieldsBoth(body: seq<H.Node>, isVoid: bool, st: State, c: G.Config)
    requires forall fuel: nat ::
      H.ExecBody(body, C.Fallback(isVoid), st, fuel) == H.ExecBody(body, C.Fallback(!isVoid), st, fuel)
    requires F.Yields(body, isVoid, st, c)
    ensures F.Yields(body, !isVoid, st, c)
  {
    var fuel: nat :| F.FinalOf(H.ExecBody(body, C.Fallback(isVoid), st, fuel)) == Some(c);
    assert F.FinalOf(H.ExecBody(body, C.Fallback(!isVoid), st, fuel)) == Some(c);
  }

  /**
   The return that code generation adds at the end of a function is never reached: a function
   that always returns has the same results whichever fallback it is compiled with.
   */
  lemma {:induction false} FallbackUnreachable(f: Function, args: seq<Value>, heap: map<nat, seq<Value>>,
          v: Option<Value>, s: State)
    requires f.Compilable() && f.Fits(args, heap) && Honest(f.body) && AlwaysReturns(f.body)
    requires forall fuel: nat :: !f.Run(args, heap, fuel).Undefined?
    ensures GraphHalts(f, args, heap, v, s) <==> GraphHalts(f.(isVoid := !f.isVoid), args, heap, v, s)
  {
    var st, g := State(F.Bind(f.params, args), heap), f.(isVoid := !f.isVoid);
    forall fuel: nat
      ensures H.ExecBody(f.Lowered(), C.Fallback(f.isVoid), st, fuel)
           == H.ExecBody(f.Lowered(), C.Fallback(!f.isVoid), st, fuel)
    {
      NeverFallsThrough(f, args, heap, fuel);
    }
    CompilableScoped(f);
    F.ResultIff(f.params, f.Lowered(), f.isVoid, args, heap, G.Halted(v, s));
    F.ResultIff(g.params, g.Lowered(), g.isVoid, args, heap, G.Halted(v, s));
    if F.Yields(f.Lowered(), f.isVoid, st, G.Halted(v, s)) {
      YieldsBoth(f.Lowered(), f.isVoid, st, G.Halted(v, s));
    }
    if F.Yields(f.Lowered(), !f.isVoid, st, G.Halted(v, s)) {
      YieldsBoth(f.Lowered(), !f.isVoid, st, G.Halted(v, s));
    }
  }
}
