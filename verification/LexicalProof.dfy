/**
 Scoping: where nothing shadows, one variable for each name is enough.  A statement has its
 lexical meaning when it runs on a store of names, and therefore when it is lowered.
 */
module LexicalProof {
  import opened Wrappers
  import opened Syntax
  import opened Ast
  import opened AstFacts
  import L = Lexical
  import R = RangeFacts

  // ---------- what is visible ----------

  ghost predicate NoNewGroups(live: L.Table, after: L.Table) {
    forall x | x in after && after[x].kind == L.Group :: x in live
  }

  /** A statement declares names of its own scope only. */
  lemma {:induction false} DeclareAdds(n: Node, d: nat, tab: L.Table)
    ensures tab.Keys <= L.Declare(n, d, tab).Keys
    ensures forall x | x in L.Declare(n, d, tab) ::
      L.Declare(n, d, tab)[x].depth == d || (x in tab && L.Declare(n, d, tab)[x] == tab[x])
  {
    match n
    case Seq(a, b) =>
      DeclareAdds(a, d, tab);
      DeclareAdds(b, d, L.Declare(a, d, tab));
    case If(_, thn, els) =>
      DeclareAdds(thn, d, tab);
      DeclareAdds(els, d, L.Declare(thn, d, tab));
    case While(_, body, step) =>
      DeclareAdds(body, d, tab);
      DeclareAdds(step, d, L.Declare(body, d, tab));
    case _ =>
  }

  /** A scoped statement declares no name that can be seen already, and no group. */
  lemma {:induction false} DeclareKeeps(n: Node, ps: set<string>, d: nat, tab: L.Table, live: L.Table)
    requires L.Scoped(n, ps, d, tab, live)
    ensures L.Sub(tab, L.Declare(n, d, tab))
    ensures forall x | x in L.Declare(n, d, tab) && x !in tab :: L.Declare(n, d, tab)[x].kind != L.Group
  {
    match n
    case Seq(a, b) =>
      DeclareKeeps(a, ps, d, tab, live);
      DeclareKeeps(b, ps, d, L.Declare(a, d, tab), L.After(a, d, tab, live));
    case If(_, thn, els) =>
      DeclareKeeps(thn, ps, d, tab, live);
      DeclareKeeps(els, ps, d, L.Declare(thn, d, tab), L.After(thn, d, tab, live));
    case While(_, body, step) =>
      DeclareKeeps(body, ps, d, tab, L.After(n, d, tab, live));
      DeclareKeeps(step, ps, d, L.Declare(body, d, tab), L.After(n, d, tab, live));
    case _ =>
  }

  /** What it declares agrees with what is live. */
  lemma {:induction false} AfterKeeps(n: Node, ps: set<string>, d: nat, tab: L.Table, live: L.Table)
    requires L.Scoped(n, ps, d, tab, live) && L.Sub(tab, live)
    ensures L.Sub(live, L.After(n, d, tab, live)) && NoNewGroups(live, L.After(n, d, tab, live))
  {
    DeclareKeeps(n, ps, d, tab, live);
    match n
    case Seq(a, b) =>
      AfterKeeps(a, ps, d, tab, live);
      DeclareKeeps(a, ps, d, tab, live);
      DeclareKeeps(b, ps, d, L.Declare(a, d, tab), L.After(a, d, tab, live));
      AfterKeeps(b, ps, d, L.Declare(a, d, tab), L.After(a, d, tab, live));
    case If(_, thn, els) =>
      AfterKeeps(thn, ps, d, tab, live);
      DeclareKeeps(thn, ps, d, tab, live);
      DeclareKeeps(els, ps, d, L.Declare(thn, d, tab), L.After(thn, d, tab, live));
      AfterKeeps(els, ps, d, L.Declare(thn, d, tab), L.After(thn, d, tab, live));
    case _ =>
  }

  // ---------- scoped stores and stores of names ----------

  ghost predicate HasKind(k: L.Kind, v: Value, heap: map<nat, seq<Value>>) {
    k.Sized? ==> v.Ref? && (v.addr in heap ==> |heap[v.addr]| == k.size)
  }

  /** Variable `k` is the one that its name stands for. */
  ghost predicate Tracked(k: L.Variable, st: L.Store, s: State, live: L.Table)
    requires k in st.vars
  {
    && k.name in live && live[k.name].depth == k.depth
    && k.name in s.vars && s.vars[k.name] == st.vars[k]
    && HasKind(live[k.name].kind, st.vars[k], st.heap)
  }

  /** The companion of `x` holds the length of the list in `x`. */
  ghost predicate GroupKnown(x: string, s: State) {
    && x in s.vars && s.vars[x].Ref? && x + COUNT_SUFFIX in s.vars && s.vars[x + COUNT_SUFFIX].I?
    && (s.vars[x].addr in s.heap ==> s.vars[x + COUNT_SUFFIX].n == |s.heap[s.vars[x].addr]|)
  }

  ghost predicate Tracks(st: L.Store, s: State, live: L.Table) {
    && st.heap == s.heap
    && (forall k | k in st.vars :: Tracked(k, st, s, live))
    && (forall x | x in live && live[x].kind == L.Group :: GroupKnown(x, s))
  }

  /** What is in `s` is in `t`. */
  ghost predicate Below(s: State, t: State) {
    s.heap == t.heap && forall x | x in s.vars :: x in t.vars && t.vars[x] == s.vars[x]
  }

  lemma {:induction false} ViewBelow(st: L.Store, s: State, tab: L.Table, live: L.Table)
    requires Tracks(st, s, live)
    ensures Below(st.View(tab), s)
  {
    forall x | x in st.View(tab).vars
      ensures x in s.vars && s.vars[x] == st.View(tab).vars[x]
    {
      assert Tracked(L.Variable(tab[x].depth, x), st, s, live);
    }
  }

  /** An expression that has a value keeps it when more is known. */
  lemma {:induction false} EvalMore(e: Expr, s: State, t: State)
    requires Below(s, t) && Eval(e, s).Some?
    ensures Eval(e, t) == Eval(e, s)
  {
    match e
    case Unary(_, e1) => EvalMore(e1, s, t);
    case Binary(_, l, r) =>
      EvalMore(l, s, t);
      EvalMore(r, s, t);
    case Index(a, i) =>
      EvalMore(a, s, t);
      EvalMore(i, s, t);
    case _ =>
  }

  lemma {:induction false} TracksMore(st: L.Store, s: State, live: L.Table, more: L.Table)
    requires Tracks(st, s, live) && L.Sub(live, more) && NoNewGroups(live, more)
    ensures Tracks(st, s, more)
  {
    forall k | k in st.vars
      ensures Tracked(k, st, s, more)
    {
      assert Tracked(k, st, s, live);
    }
  }

  /** A variable that is no list group takes a value. */
  lemma {:induction false} SetTracks(st: L.Store, s: State, live: L.Table, d: nat, x: string, k: L.Kind, v: Value)
    requires Tracks(st, s, live) && Lexable(x) && k != L.Group
    requires x in live ==> live[x] == L.Symbol(d, k)
    requires HasKind(k, v, st.heap)
    ensures Tracks(st.Set(d, x, v), s.Set(x, v), live[x := L.Symbol(d, k)])
  {
    var st1, s1, more := st.Set(d, x, v), s.Set(x, v), live[x := L.Symbol(d, k)];
    forall j | j in st1.vars
      ensures Tracked(j, st1, s1, more)
    {
      if j != L.Variable(d, x) {
        assert Tracked(j, st, s, live);
      }
    }
    forall y | y in more && more[y].kind == L.Group
      ensures GroupKnown(y, s1)
    {
      assert y in live && live[y].kind == L.Group;
      assert (y + COUNT_SUFFIX)[|y|] == MARK;
      assert GroupKnown(y, s);
    }
  }

  /** Storing into an element changes no length. */
  lemma {:induction false} HeapTracks(st: L.Store, s: State, live: L.Table, heap: map<nat, seq<Value>>)
    requires Tracks(st, s, live)
    requires heap.Keys == st.heap.Keys && forall r | r in heap :: |heap[r]| == |st.heap[r]|
    ensures Tracks(L.Store(st.vars, heap), State(s.vars, heap), live)
  {
    var st1, s1 := L.Store(st.vars, heap), State(s.vars, heap);
    forall k | k in st1.vars
      ensures Tracked(k, st1, s1, live)
    {
      assert Tracked(k, st, s, live);
    }
    forall y | y in live && live[y].kind == L.Group
      ensures GroupKnown(y, s1)
    {
      assert GroupKnown(y, s);
    }
  }

  /** The end `o` of a statement is matched by the end `o'` of its run on names. */
  ghost predicate Matches(o: L.Ending, o': Outcome, live: L.Table) {
    match o
    case Ends(st) => o'.Normal? && Tracks(st, o'.st, live)
    case Breaks(st) => o'.Broke? && Tracks(st, o'.st, live)
    case Continues(st) => o'.Continued? && Tracks(st, o'.st, live)
    case Returns(v, st) => o'.Returned? && o'.value == v && Tracks(st, o'.st, live)
    case Undefined => true
    case OutOfFuel => o'.Timeout?
  }

  lemma {:induction false} MatchesMore(o: L.Ending, o': Outcome, live: L.Table, more: L.Table)
    requires Matches(o, o', live) && L.Sub(live, more) && NoNewGroups(live, more)
    ensures Matches(o, o', more)
  {
    match o
    case Ends(st) => TracksMore(st, o'.st, live, more);
    case Breaks(st) => TracksMore(st, o'.st, live, more);
    case Continues(st) => TracksMore(st, o'.st, live, more);
    case Returns(_, st) => TracksMore(st, o'.st, live, more);
    case _ =>
  }

  // ---------- assignments ----------

  lemma {:induction false} AssignMore(t: Target, aop: AssignOp, e: Expr, s: State, u: State)
    requires Below(s, u) && ExecAssign(t, aop, e, s).Normal?
    ensures var w := ExecAssign(t, aop, e, s).st; var o := ExecAssign(t, aop, e, u);
      && o.Normal?
      && (t.Name? ==> t.x in w.vars && o.st == u.Set(t.x, w.vars[t.x]))
      && (t.Element? ==> o.st == State(u.vars, w.heap) && Kept({}, true, s, w))
  {
    EvalMore(e, s, u);
    if t.Element? {
      EvalMore(t.arr, s, u);
      EvalMore(t.idx, s, u);
    }
  }

  /** The kind of a stored value is that of the expression. */
  lemma {:induction false} StoredHasKind(n: Node, d: nat, tab: L.Table, live: L.Table, st: L.Store, s: State)
    requires n.Assign? && n.target.Name? && L.Sub(tab, live) && Tracks(st, s, live)
    requires ExecAssign(n.target, n.aop, n.rhs, st.View(tab)).Normal?
    ensures var w := ExecAssign(n.target, n.aop, n.rhs, st.View(tab)).st;
      n.target.x in w.vars && HasKind(L.StoredKind(n.aop, n.rhs, tab), w.vars[n.target.x], st.heap)
  {
    if n.aop.Plain? && n.rhs.Var? && n.rhs.name in tab {
      assert Tracked(L.Variable(tab[n.rhs.name].depth, n.rhs.name), st, s, live);
    }
  }

  /** A name is given a value: as a new variable, or the one that can be seen. */
  lemma {:induction false} NameMatches(n: Node, ps: set<string>, d: nat, tab: L.Table, live: L.Table, st: L.Store,
          s: State, v: Value)
    requires n.Assign? && n.target.Name? && Lexable(n.target.x)
    requires L.Scoped(n, ps, d, tab, live) && L.Sub(tab, live) && Tracks(st, s, live)
    requires HasKind(L.StoredKind(n.aop, n.rhs, tab), v, st.heap)
    ensures var x := n.target.x;
      && (n.isDeclaration ==> Tracks(st.Set(d, x, v), s.Set(x, v), L.After(n, d, tab, live)))
      && (!n.isDeclaration && x in tab ==>
            Tracks(st.Set(tab[x].depth, x, v), s.Set(x, v), L.After(n, d, tab, live)))
  {
    var x, k := n.target.x, L.StoredKind(n.aop, n.rhs, tab);
    if n.isDeclaration {
      SetTracks(st, s, live, d, x, k, v);
      TracksMore(st.Set(d, x, v), s.Set(x, v), live[x := L.Symbol(d, k)], L.After(n, d, tab, live));
    } else if x in tab {
      SetTracks(st, s, live, tab[x].depth, x, k, v);
      assert live[x := L.Symbol(tab[x].depth, k)] == live;
      TracksMore(st.Set(tab[x].depth, x, v), s.Set(x, v), live, L.After(n, d, tab, live));
    }
  }

  lemma {:induction false} AssignMatches(n: Node, ps: set<string>, d: nat, tab: L.Table, live: L.Table, st: L.Store,
          s: State, fuel: nat)
    requires n.Assign? && Regular(n) && L.Scoped(n, ps, d, tab, live) && L.Sub(tab, live) && Tracks(st, s, live)
    ensures Matches(L.Exec(n, d, tab, st, fuel), Exec(n, ps, s, fuel), L.After(n, d, tab, live))
  {
    var o := ExecAssign(n.target, n.aop, n.rhs, st.View(tab));
    if o.Normal? {
      ViewBelow(st, s, tab, live);
      AssignMore(n.target, n.aop, n.rhs, st.View(tab), s);
      match n.target
      case Element(_, _) =>
        HeapTracks(st, s, live, o.st.heap);
        TracksMore(L.Store(st.vars, o.st.heap), State(s.vars, o.st.heap), live, L.After(n, d, tab, live));
      case Name(x) =>
        assert x in TargetVars(n.target) + Vars(n.rhs);
        StoredHasKind(n, d, tab, live, st, s);
        NameMatches(n, ps, d, tab, live, st, s, o.st.vars[x]);
        assert L.Exec(n, d, tab, st, fuel) == L.ExecStore(n.target, n.aop, n.rhs, n.isDeclaration, d, tab, st);
    }
  }

  // ---------- loops ----------

  ghost predicate Shallow(live: L.Table, d: nat) {
    forall x | x in live :: live[x].depth <= d
  }

  /** What the body of a `for` leaves behind is outside what can be seen after it. */
  lemma {:induction false} InnerScope(i: string, body: Node, ps: set<string>, d: nat, tab: L.Table, live: L.Table)
    requires L.Sub(tab, live) && Shallow(live, d) && i !in live
    requires L.Scoped(body, ps, d + 1, L.InLoop(i, d, tab), L.InLoop(i, d, live))
    ensures L.Sub(L.InLoop(i, d, tab), L.InLoop(i, d, live)) && Shallow(L.InLoop(i, d, live), d + 1)
    ensures var inner := L.After(body, d + 1, L.InLoop(i, d, tab), L.InLoop(i, d, live));
      L.Sub(live, inner) && forall x | x in inner && inner[x].depth <= d :: x in live
  {
    AfterKeeps(body, ps, d + 1, L.InLoop(i, d, tab), L.InLoop(i, d, live));
    DeclareAdds(body, d + 1, L.InLoop(i, d, tab));
  }

  lemma {:induction false} LeaveTracks(st: L.Store, s: State, inner: L.Table, live: L.Table, d: nat)
    requires Tracks(st, s, inner) && L.Sub(live, inner)
    requires forall x | x in inner && inner[x].depth <= d :: x in live
    ensures Tracks(st.Leave(d), s, live)
  {
    forall k | k in st.Leave(d).vars
      ensures Tracked(k, st.Leave(d), s, live)
    {
      assert Tracked(k, st, s, inner);
    }
  }

  lemma {:induction false} LeaveMatches(o: L.Ending, o': Outcome, inner: L.Table, live: L.Table, d: nat)
    requires Matches(o, o', inner) && L.Sub(live, inner)
    requires forall x | x in inner && inner[x].depth <= d :: x in live
    ensures Matches(o.Leave(d), o', live)
  {
    match o
    case Ends(st) => LeaveTracks(st, o'.st, inner, live, d);
    case Breaks(st) => LeaveTracks(st, o'.st, inner, live, d);
    case Continues(st) => LeaveTracks(st, o'.st, inner, live, d);
    case Returns(_, st) => LeaveTracks(st, o'.st, inner, live, d);
    case _ =>
  }

  /** The iterator and the body of a `for` are in order. */
  ghost predicate ForScoped(n: Node, ps: set<string>, d: nat, tab: L.Table, live: L.Table) {
    && (n.ForRange? || n.ForList?) && Lexable(n.iter) && Regular(n.body)
    && L.Sub(tab, live) && Shallow(live, d) && n.iter !in live
    && L.Scoped(n.body, ps, d + 1, L.InLoop(n.iter, d, tab), L.InLoop(n.iter, d, live))
  }

  lemma {:induction false} TurnMatches(n: Node, ps: set<string>, d: nat, tab: L.Table, live: L.Table, v: Value,
          st: L.Store, s: State, fuel: nat)
    requires ForScoped(n, ps, d, tab, live) && Tracks(st, s, live)
    ensures Matches(L.ExecTurn(n, d, tab, v, st, fuel), Exec(n.body, ps, s.Set(n.iter, v), fuel), live)
    decreases fuel, n.body, 3
  {
    var tabI, liveI := L.InLoop(n.iter, d, tab), L.InLoop(n.iter, d, live);
    SetTracks(st, s, live, d + 1, n.iter, L.Scalar, v);
    InnerScope(n.iter, n.body, ps, d, tab, live);
    ScopedMeaning(n.body, ps, d + 1, tabI, liveI, st.Set(d + 1, n.iter, v), s.Set(n.iter, v), fuel);
    LeaveMatches(L.Exec(n.body, d + 1, tabI, st.Set(d + 1, n.iter, v), fuel), Exec(n.body, ps, s.Set(n.iter, v), fuel),
                 L.After(n.body, d + 1, tabI, liveI), live, d);
  }

  /** A name that is not live may take any value. */
  lemma {:induction false} SetHidden(st: L.Store, s: State, live: L.Table, x: string, v: Value)
    requires Tracks(st, s, live) && x !in live && Lexable(x)
    ensures Tracks(st, s.Set(x, v), live)
  {
    var s1 := s.Set(x, v);
    forall k | k in st.vars
      ensures Tracked(k, st, s1, live)
    {
      assert Tracked(k, st, s, live);
    }
    forall y | y in live && live[y].kind == L.Group
      ensures GroupKnown(y, s1)
    {
      assert (y + COUNT_SUFFIX)[|y|] == MARK;
      assert GroupKnown(y, s);
    }
  }

  lemma {:induction false} RangeMatches(n: Node, ps: set<string>, d: nat, tab: L.Table, live: L.Table, vals: seq<I64>,
          st: L.Store, s: State, fuel: nat)
    requires n.ForRange? && ForScoped(n, ps, d, tab, live) && Tracks(st, s, live) && vals != []
    ensures Matches(L.ExecRange(n, d, tab, vals, st, fuel), ExecRange(n, ps, vals, s, fuel), live)
    decreases fuel, n, 0
  {
    if fuel != 0 {
      if |vals| == 1 {
        SetHidden(st, s, live, n.iter, I(vals[0]));
      } else {
        var o := L.ExecTurn(n, d, tab, I(vals[0]), st, fuel);
        TurnMatches(n, ps, d, tab, live, I(vals[0]), st, s, fuel);
        if o.Ends? || o.Continues? {
          RangeMatches(n, ps, d, tab, live, vals[1..], o.st, Exec(n.body, ps, s.Set(n.iter, I(vals[0])), fuel).st,
                       fuel - 1);
        }
      }
    }
  }

  lemma {:induction false} ElementsMatch(n: Node, ps: set<string>, d: nat, tab: L.Table, live: L.Table, r: nat, k: nat,
          len: nat, st: L.Store, s: State, fuel: nat)
    requires n.ForList? && ForScoped(n, ps, d, tab, live) && Tracks(st, s, live)
    requires r in s.heap && |s.heap[r]| == len && k <= len
    ensures Matches(L.ExecElements(n, d, tab, r, k, st, fuel), ExecElements(n, ps, r, k, len, s, fuel), live)
    decreases fuel, n, 0
  {
    if fuel != 0 && k != len {
      var v := s.heap[r][k];
      var o, o' := L.ExecTurn(n, d, tab, v, st, fuel), Exec(n.body, ps, s.Set(n.iter, v), fuel);
      TurnMatches(n, ps, d, tab, live, v, st, s, fuel);
      if o.Ends? || o.Continues? {
        ExecKeeps(n.body, ps, s.Set(n.iter, v), fuel);
        ElementsMatch(n, ps, d, tab, live, r, k + 1, len, o.st, o'.st, fuel - 1);
      }
    }
  }

  /** The length a list loop is compiled with is the number of elements of its list. */
  lemma {:induction false} BoundIsExact(n: Node, ps: set<string>, d: nat, tab: L.Table, live: L.Table, st: L.Store,
          s: State)
    requires n.ForList? && L.LengthKnown(n, ps, tab) && L.Sub(tab, live) && Tracks(st, s, live)
    requires Eval(n.iterable, st.View(tab)).Some?
    ensures var v := Eval(n.iterable, st.View(tab)).value;
      && Eval(n.iterable, s) == Some(v) && v.Ref?
      && (v.addr in s.heap ==> ListLength(n, ps, s) == Some(|s.heap[v.addr]|))
  {
    var x := n.iterable.name;
    ViewBelow(st, s, tab, live);
    assert Tracked(L.Variable(tab[x].depth, x), st, s, live);
    if tab[x].kind == L.Group {
      assert GroupKnown(x, s);
    }
  }

  lemma {:induction false} WhileEntered(n: Node, ps: set<string>, d: nat, tab: L.Table, live: L.Table, st: L.Store,
          s: State)
    requires n.While? && L.Scoped(n, ps, d, tab, live) && L.Sub(tab, live) && Shallow(live, d) && Tracks(st, s, live)
    ensures var more := L.After(n, d, tab, live);
      L.Sub(tab, more) && Shallow(more, d) && Tracks(st, s, more) && L.Sub(L.Declare(n, d, tab), more)
  {
    AfterKeeps(n, ps, d, tab, live);
    DeclareAdds(n, d, tab);
    TracksMore(st, s, live, L.After(n, d, tab, live));
  }

  /** All that the parts of a loop declare is live already. */
  lemma {:induction false} WithinLive(n: Node, ps: set<string>, d: nat, tab: L.Table, live: L.Table)
    requires n.While? && L.Scoped(n.step, ps, d, L.Declare(n.body, d, tab), live) && L.Sub(L.Declare(n, d, tab), live)
    ensures L.Sub(L.Declare(n.body, d, tab), live)
    ensures L.After(n.body, d, tab, live) == live && L.After(n.step, d, L.Declare(n.body, d, tab), live) == live
  {
    DeclareKeeps(n.step, ps, d, L.Declare(n.body, d, tab), live);
  }

  /** A turn that is matched, followed by turns that are. */
  lemma {:induction false} TurnThenLoop(n: Node, ps: set<string>, d: nat, tab: L.Table, live: L.Table, st: L.Store,
          s: State, fuel: nat)
    requires n.While? && Tracks(st, s, live)
    requires var o, o' := L.Exec(n.body, d, tab, st, fuel), Exec(n.body, ps, s, fuel);
      && Matches(o, o', live)
      && (o.Ends? || o.Continues? ==>
            var p, p' := L.Exec(n.step, d, L.Declare(n.body, d, tab), o.st, fuel), Exec(n.step, ps, o'.st, fuel);
            && Matches(p, p', live)
            && (p.Ends? && fuel != 0 ==>
                  Matches(L.Exec(n, d, tab, p.st, fuel - 1), Exec(n, ps, p'.st, fuel - 1), live)))
    ensures Matches(L.Exec(n, d, tab, st, fuel), Exec(n, ps, s, fuel), live)
  {
    ViewBelow(st, s, tab, live);
    if Eval(n.cond, st.View(tab)).Some? {
      EvalMore(n.cond, st.View(tab), s);
    }
  }

  lemma {:induction false} WhileMatches(n: Node, ps: set<string>, d: nat, tab: L.Table, live: L.Table, st: L.Store,
          s: State, fuel: nat)
    requires n.While? && Regular(n) && L.Sub(tab, live) && Shallow(live, d) && Tracks(st, s, live)
    requires L.Scoped(n.body, ps, d, tab, live) && L.Scoped(n.step, ps, d, L.Declare(n.body, d, tab), live)
    requires L.Sub(L.Declare(n, d, tab), live)
    ensures Matches(L.Exec(n, d, tab, st, fuel), Exec(n, ps, s, fuel), live)
    decreases fuel, n, 1
  {
    var mid := L.Declare(n.body, d, tab);
    var o, o' := L.Exec(n.body, d, tab, st, fuel), Exec(n.body, ps, s, fuel);
    WithinLive(n, ps, d, tab, live);
    ScopedMeaning(n.body, ps, d, tab, live, st, s, fuel);
    if o.Ends? || o.Continues? {
      var p, p' := L.Exec(n.step, d, mid, o.st, fuel), Exec(n.step, ps, o'.st, fuel);
      ScopedMeaning(n.step, ps, d, mid, live, o.st, o'.st, fuel);
      if p.Ends? && fuel != 0 {
        WhileMatches(n, ps, d, tab, live, p.st, p'.st, fuel - 1);
      }
    }
    TurnThenLoop(n, ps, d, tab, live, st, s, fuel);
  }

  lemma {:induction false} SimpleMatches(n: Node, ps: set<string>, d: nat, tab: L.Table, live: L.Table, st: L.Store,
          s: State, fuel: nat)
    requires n.Null? || n.Return? || n.Break? || n.Continue? || n.Evaluate?
    requires L.Sub(tab, live) && Tracks(st, s, live)
    ensures Matches(L.Exec(n, d, tab, st, fuel), Exec(n, ps, s, fuel), L.After(n, d, tab, live))
  {
    ViewBelow(st, s, tab, live);
    assert L.After(n, d, tab, live) == live;
    var e := if n.Evaluate? then Some(n.e) else if n.Return? then n.result else None;
    if e.Some? && Eval(e.value, st.View(tab)).Some? {
      EvalMore(e.value, st.View(tab), s);
    }
  }

  /** The tables behind two statements of one scope. */
  lemma {:induction false} SecondPart(a: Node, b: Node, ps: set<string>, d: nat, tab: L.Table, live: L.Table)
    requires L.Sub(tab, live) && Shallow(live, d) && L.Scoped(a, ps, d, tab, live)
    requires L.Scoped(b, ps, d, L.Declare(a, d, tab), L.After(a, d, tab, live))
    ensures var mid, liveA := L.Declare(a, d, tab), L.After(a, d, tab, live);
      && L.Sub(mid, liveA) && Shallow(liveA, d) && L.Sub(live, liveA) && NoNewGroups(live, liveA)
      && L.After(b, d, mid, liveA) == live + L.Declare(b, d, mid)
      && L.Sub(liveA, live + L.Declare(b, d, mid)) && NoNewGroups(liveA, live + L.Declare(b, d, mid))
  {
    var mid, liveA := L.Declare(a, d, tab), L.After(a, d, tab, live);
    AfterKeeps(a, ps, d, tab, live);
    DeclareAdds(a, d, tab);
    DeclareKeeps(b, ps, d, mid, liveA);
    AfterKeeps(b, ps, d, mid, liveA);
    assert L.After(b, d, mid, liveA) == live + L.Declare(b, d, mid);
  }

  lemma {:induction false} SeqMatches(n: Node, ps: set<string>, d: nat, tab: L.Table, live: L.Table, st: L.Store,
          s: State, fuel: nat)
    requires n.Seq? && Regular(n) && L.Scoped(n, ps, d, tab, live)
    requires L.Sub(tab, live) && Shallow(live, d) && Tracks(st, s, live)
    ensures Matches(L.Exec(n, d, tab, st, fuel), Exec(n, ps, s, fuel), L.After(n, d, tab, live))
    decreases fuel, n, 1
  {
    var mid, liveA := L.Declare(n.a, d, tab), L.After(n.a, d, tab, live);
    var o, o' := L.Exec(n.a, d, tab, st, fuel), Exec(n.a, ps, s, fuel);
    ScopedMeaning(n.a, ps, d, tab, live, st, s, fuel);
    SecondPart(n.a, n.b, ps, d, tab, live);
    if o.Ends? {
      ScopedMeaning(n.b, ps, d, mid, liveA, o.st, o'.st, fuel);
    } else {
      MatchesMore(o, o', liveA, L.After(n, d, tab, live));
    }
  }

  lemma {:induction false} ChosenMatches(n: Node, ps: set<string>, d: nat, tab: L.Table, live: L.Table, st: L.Store,
          s: State, fuel: nat)
    requires n.If? && Tracks(st, s, live)
    requires Matches(L.Exec(n.thenBranch, d, tab, st, fuel), Exec(n.thenBranch, ps, s, fuel), L.After(n, d, tab, live))
    requires Matches(L.Exec(n.elseBranch, d, L.Declare(n.thenBranch, d, tab), st, fuel),
                     Exec(n.elseBranch, ps, s, fuel), L.After(n, d, tab, live))
    ensures Matches(L.Exec(n, d, tab, st, fuel), Exec(n, ps, s, fuel), L.After(n, d, tab, live))
  {
    ViewBelow(st, s, tab, live);
    if Eval(n.cond, st.View(tab)).Some? {
      EvalMore(n.cond, st.View(tab), s);
    }
  }

  lemma {:induction false} IfMatches(n: Node, ps: set<string>, d: nat, tab: L.Table, live: L.Table, st: L.Store,
          s: State, fuel: nat)
    requires n.If? && Regular(n) && L.Scoped(n, ps, d, tab, live)
    requires L.Sub(tab, live) && Shallow(live, d) && Tracks(st, s, live)
    ensures Matches(L.Exec(n, d, tab, st, fuel), Exec(n, ps, s, fuel), L.After(n, d, tab, live))
    decreases fuel, n, 1
  {
    var thn, els := n.thenBranch, n.elseBranch;
    var mid, liveA := L.Declare(thn, d, tab), L.After(thn, d, tab, live);
    SecondPart(thn, els, ps, d, tab, live);
    ScopedMeaning(thn, ps, d, tab, live, st, s, fuel);
    MatchesMore(L.Exec(thn, d, tab, st, fuel), Exec(thn, ps, s, fuel), liveA, L.After(n, d, tab, live));
    TracksMore(st, s, live, liveA);
    ScopedMeaning(els, ps, d, mid, liveA, st, s, fuel);
    ChosenMatches(n, ps, d, tab, live, st, s, fuel);
  }

  /** A range loop with these bounds runs over the values of the range. */
  lemma {:induction false} RunsRange(n: Node, d: nat, tab: L.Table, st: L.Store, x: I64, e: I64, w: I64, fuel: nat)
    requires n.ForRange? && Eval(n.start, st.View(tab)) == Some(I(x)) && Eval(n.end, st.View(tab)) == Some(I(e))
    requires Eval(StrideOf(n.start, n.end, n.stride), st.View(tab)) == Some(I(w))
    ensures L.Exec(n, d, tab, st, fuel)
         == var vals := RangeValues(x, e, w, Descending(n.start, n.end), n.inclusive);
            if vals.None? then L.Undefined else L.ExecRange(n, d, tab, vals.value, st, fuel)
  {
  }

  lemma {:induction false} RunsFlatRange(n: Node, ps: set<string>, s: State, x: I64, e: I64, w: I64, fuel: nat)
    requires n.ForRange? && Eval(n.start, s) == Some(I(x)) && Eval(n.end, s) == Some(I(e))
    requires Eval(StrideOf(n.start, n.end, n.stride), s) == Some(I(w))
    ensures Exec(n, ps, s, fuel)
         == var vals := RangeValues(x, e, w, Descending(n.start, n.end), n.inclusive);
            if vals.None? then Stuck else ExecRange(n, ps, vals.value, s, fuel)
  {
  }

  lemma {:induction false} RangeBounds(n: Node, d: nat, tab: L.Table, st: L.Store, fuel: nat)
    requires n.ForRange? && L.Exec(n, d, tab, st, fuel) != L.Undefined
    ensures exists x: I64, e: I64, w: I64 ::
      && Eval(n.start, st.View(tab)) == Some(I(x)) && Eval(n.end, st.View(tab)) == Some(I(e))
      && Eval(StrideOf(n.start, n.end, n.stride), st.View(tab)) == Some(I(w))
  {
  }

  lemma {:induction false} ForRangeMatches(n: Node, ps: set<string>, d: nat, tab: L.Table, live: L.Table, st: L.Store,
          s: State, fuel: nat)
    requires n.ForRange? && Regular(n) && L.Scoped(n, ps, d, tab, live)
    requires L.Sub(tab, live) && Shallow(live, d) && Tracks(st, s, live)
    ensures Matches(L.Exec(n, d, tab, st, fuel), Exec(n, ps, s, fuel), live)
    decreases fuel, n, 1
  {
    if L.Exec(n, d, tab, st, fuel) != L.Undefined {
      var view, stride := st.View(tab), StrideOf(n.start, n.end, n.stride);
      ViewBelow(st, s, tab, live);
      RangeBounds(n, d, tab, st, fuel);
      var x: I64, e: I64, w: I64 :|
        Eval(n.start, view) == Some(I(x)) && Eval(n.end, view) == Some(I(e)) && Eval(stride, view) == Some(I(w));
      EvalMore(n.start, view, s);
      EvalMore(n.end, view, s);
      EvalMore(stride, view, s);
      RunsRange(n, d, tab, st, x, e, w, fuel);
      RunsFlatRange(n, ps, s, x, e, w, fuel);
      var vals := RangeValues(x, e, w, Descending(n.start, n.end), n.inclusive);
      RangeMatches(n, ps, d, tab, live, vals.value, st, s, fuel);
    }
  }

  lemma {:induction false} ForListMatches(n: Node, ps: set<string>, d: nat, tab: L.Table, live: L.Table, st: L.Store,
          s: State, fuel: nat)
    requires n.ForList? && Regular(n) && L.Scoped(n, ps, d, tab, live)
    requires L.Sub(tab, live) && Shallow(live, d) && Tracks(st, s, live)
    ensures Matches(L.Exec(n, d, tab, st, fuel), Exec(n, ps, s, fuel), L.After(n, d, tab, live))
    decreases fuel, n, 1
  {
    assert L.After(n, d, tab, live) == live;
    var v := Eval(n.iterable, st.View(tab));
    if v.Some? {
      BoundIsExact(n, ps, d, tab, live, st, s);
      var r := v.value.addr;
      if r in st.heap {
        SetHidden(st, s, live, n.iter, ZeroElement(n));
        ElementsMatch(n, ps, d, tab, live, r, 0, |s.heap[r]|, st, s.Set(n.iter, ZeroElement(n)), fuel);
      }
    }
  }

  /** Where nothing shadows, a statement has its lexical meaning when every name has one variable. */
  lemma {:induction false} ScopedMeaning(n: Node, ps: set<string>, d: nat, tab: L.Table, live: L.Table, st: L.Store,
          s: State, fuel: nat)
    requires Regular(n) && L.Scoped(n, ps, d, tab, live) && L.Sub(tab, live) && Shallow(live, d) && Tracks(st, s, live)
    ensures Matches(L.Exec(n, d, tab, st, fuel), Exec(n, ps, s, fuel), L.After(n, d, tab, live))
    decreases fuel, n, 2
  {
    match n
    case Assign(_, _, _, _) =>
      AssignMatches(n, ps, d, tab, live, st, s, fuel);
    case Seq(a, b) =>
      SeqMatches(n, ps, d, tab, live, st, s, fuel);
    case If(_, _, _) =>
      IfMatches(n, ps, d, tab, live, st, s, fuel);
    case While(_, _, _) =>
      WhileEntered(n, ps, d, tab, live, st, s);
      WhileMatches(n, ps, d, tab, L.After(n, d, tab, live), st, s, fuel);
    case ForRange(_, _, _, _, _, _) =>
      assert L.After(n, d, tab, live) == live;
      ForRangeMatches(n, ps, d, tab, live, st, s, fuel);
    case ForList(_, _, _, _, _) =>
      ForListMatches(n, ps, d, tab, live, st, s, fuel);
    case _ =>
      SimpleMatches(n, ps, d, tab, live, st, s, fuel);
  }

  // ---------- which values a range loop runs over ----------

  /** The numbers of turns from `s` to `e`, one by one. */
  function TurnsBetween(s: int, e: int, down: bool, inclusive: bool): nat {
    var span := (if down then s - e else e - s) + (if inclusive then 1 else 0);
    if span < 0 then 0 else span
  }

  /** `vals` are `s`, the next ones up or down one by one, and the one past the last. */
  ghost predicate OneByOne(vals: seq<I64>, s: int, turns: nat, down: bool) {
    |vals| == turns + 1 && forall k | 0 <= k <= turns :: vals[k] == if down then s - k else s + k
  }

  lemma {:induction false} UnitValues(s: I64, e: I64, down: bool, inclusive: bool)
    requires down ==> e < s
    ensures var turns := TurnsBetween(s, e, down, inclusive);
      var r := RangeValues(s, e, if down then -1 else 1, down, inclusive);
      && (r.Some? <==> InI64(if down then s - turns else s + turns))
      && (r.Some? ==> OneByOne(r.value, s, turns, down))
  {
    var w, turns := if down then -1 else 1, TurnsBetween(s, e, down, inclusive);
    assert RangeCount(s, e, w, down, inclusive) == turns;
    forall k | 0 <= k <= turns
      ensures Nth(s, w, k) == if down then s - k else s + k
    {
    }
    assert InI64(Nth(s, w, turns)) ==> forall k | 0 <= k <= turns :: InI64(Nth(s, w, k));
  }

  /**
   A range loop without a stride runs its body for `s`, `s - 1`, .., down to `e` if both ends are
   literals and the first is larger, and for `s`, `s + 1`, .., up to `e` otherwise, the end
   itself included or not.  It has no meaning if the value past the last does not fit.
   */
  lemma {:induction false} RangeRunsOneByOne(n: Node, d: nat, tab: L.Table, st: L.Store, s: I64, e: I64, fuel: nat)
    requires n.ForRange? && n.stride == None
    requires Eval(n.start, st.View(tab)) == Some(I(s)) && Eval(n.end, st.View(tab)) == Some(I(e))
    ensures var down := n.start.Num? && n.end.Num? && e < s;
      var turns := TurnsBetween(s, e, down, n.inclusive);
      if InI64(if down then s - turns else s + turns)
      then exists vals :: OneByOne(vals, s, turns, down) && L.Exec(n, d, tab, st, fuel)
                          == L.ExecRange(n, d, tab, vals, st, fuel)
      else L.Exec(n, d, tab, st, fuel) == L.Undefined
  {
    var down := n.start.Num? && n.end.Num? && e < s;
    UnitValues(s, e, down, n.inclusive);
    RunsRange(n, d, tab, st, s, e, if down then -1 else 1, fuel);
  }

  /**
   A range loop with stride `w` runs its body for `s`, `s + w`, .. as long as these lie before the
   end: above it if both ends are literals and the first is larger, otherwise below it.  It has no
   meaning if `w` points the other way or is 0, or if the first value behind the end does not fit.
   */
  lemma {:induction false} RangeRunsByStride(n: Node, d: nat, tab: L.Table, st: L.Store, s: I64, e: I64, w: I64,
          fuel: nat)
    requires n.ForRange? && n.stride.Some?
    requires Eval(n.start, st.View(tab)) == Some(I(s)) && Eval(n.end, st.View(tab)) == Some(I(e))
    requires Eval(n.stride.value, st.View(tab)) == Some(I(w))
    ensures var down := n.start.Num? && n.end.Num? && e < s;
      if w != 0 && down == (w < 0) && exists vals :: R.StepsThrough(vals, s, e, w, down, n.inclusive)
      then forall vals | R.StepsThrough(vals, s, e, w, down, n.inclusive) ::
        L.Exec(n, d, tab, st, fuel) == L.ExecRange(n, d, tab, vals, st, fuel)
      else L.Exec(n, d, tab, st, fuel) == L.Undefined
  {
    var down := n.start.Num? && n.end.Num? && e < s;
    RunsRange(n, d, tab, st, s, e, w, fuel);
    forall vals
      ensures RangeValues(s, e, w, down, n.inclusive) == Some(vals)
        <==> w != 0 && down == (w < 0) && R.StepsThrough(vals, s, e, w, down, n.inclusive)
    {
      R.RangeValuesExact(s, e, w, down, n.inclusive, vals);
    }
  }

  // ---------- what stays ----------

  /** Every variable up to depth `d` still has a value. */
  ghost predicate NoneLost(st: L.Store, st': L.Store, d: nat) {
    forall k | k in st.vars && k.depth <= d :: k in st'.vars
  }

  ghost predicate Keeping(st: L.Store, o: L.Ending, d: nat) {
    (o.Ends? || o.Breaks? || o.Continues? || o.Returns?) ==> NoneLost(st, o.st, d)
  }

  /** No statement takes a variable of its scope or of an enclosing one away. */
  lemma {:induction false} VariablesStay(n: Node, d: nat, tab: L.Table, st: L.Store, fuel: nat)
    ensures Keeping(st, L.Exec(n, d, tab, st, fuel), d)
    decreases fuel, n, 1
  {
    match n
    case Seq(a, b) =>
      VariablesStay(a, d, tab, st, fuel);
      var o := L.Exec(a, d, tab, st, fuel);
      if o.Ends? {
        VariablesStay(b, d, L.Declare(a, d, tab), o.st, fuel);
      }
    case If(_, thn, els) =>
      VariablesStay(thn, d, tab, st, fuel);
      VariablesStay(els, d, L.Declare(thn, d, tab), st, fuel);
    case While(_, body, step) =>
      if fuel != 0 {
        VariablesStay(body, d, tab, st, fuel);
        var o := L.Exec(body, d, tab, st, fuel);
        if o.Ends? || o.Continues? {
          VariablesStay(step, d, L.Declare(body, d, tab), o.st, fuel);
          var p := L.Exec(step, d, L.Declare(body, d, tab), o.st, fuel);
          if p.Ends? {
            VariablesStay(n, d, tab, p.st, fuel - 1);
          }
        }
      }
    case ForRange(_, start, end, stride, inclusive, _) =>
      var view := st.View(tab);
      match (Eval(start, view), Eval(end, view), Eval(StrideOf(start, end, stride), view)) {
        case (Some(I(s)), Some(I(e)), Some(I(w))) =>
          var vals := RangeValues(s, e, w, Descending(start, end), inclusive);
          if vals.Some? {
            RangeKeeps(n, d, tab, vals.value, st, fuel);
          }
        case _ =>
      }
    case ForList(_, iterable, _, _, _) =>
      var v := Eval(iterable, st.View(tab));
      if v.Some? && v.value.Ref? {
        ElementsKeep(n, d, tab, v.value.addr, 0, st, fuel);
      }
    case _ =>
  }

  lemma {:induction false} TurnKeeps(n: Node, d: nat, tab: L.Table, v: Value, st: L.Store, fuel: nat)
    requires n.ForRange? || n.ForList?
    ensures Keeping(st, L.ExecTurn(n, d, tab, v, st, fuel), d)
    decreases fuel, n.body, 2
  {
    VariablesStay(n.body, d + 1, L.InLoop(n.iter, d, tab), st.Set(d + 1, n.iter, v), fuel);
  }

  lemma {:induction false} RangeKeeps(n: Node, d: nat, tab: L.Table, vals: seq<I64>, st: L.Store, fuel: nat)
    requires n.ForRange? && vals != []
    ensures Keeping(st, L.ExecRange(n, d, tab, vals, st, fuel), d)
    decreases fuel, n, 0
  {
    if fuel != 0 && |vals| != 1 {
      TurnKeeps(n, d, tab, I(vals[0]), st, fuel);
      var o := L.ExecTurn(n, d, tab, I(vals[0]), st, fuel);
      if o.Ends? || o.Continues? {
        RangeKeeps(n, d, tab, vals[1..], o.st, fuel - 1);
      }
    }
  }

  lemma {:induction false} ElementsKeep(n: Node, d: nat, tab: L.Table, r: nat, k: nat, st: L.Store, fuel: nat)
    requires n.ForList?
    ensures Keeping(st, L.ExecElements(n, d, tab, r, k, st, fuel), d)
    decreases fuel, n, 0
  {
    if fuel != 0 && r in st.heap && k < |st.heap[r]| {
      TurnKeeps(n, d, tab, st.heap[r][k], st, fuel);
      var o := L.ExecTurn(n, d, tab, st.heap[r][k], st, fuel);
      if o.Ends? || o.Continues? {
        ElementsKeep(n, d, tab, r, k + 1, o.st, fuel - 1);
      }
    }
  }

  /** In the function's own scope an expression has the value that the function's variables give it. */
  lemma {:induction false} LocalsSeen(e: Expr, tab: L.Table, st: L.Store)
    requires Vars(e) <= tab.Keys && forall x | x in tab :: tab[x].depth == 0
    ensures Eval(e, st.View(tab)) == Eval(e, st.Locals())
  {
    var s, t := st.View(tab), st.Locals();
    forall x | x in Vars(e)
      ensures (x in s.vars <==> x in t.vars) && (x in s.vars ==> s.vars[x] == t.vars[x])
    {
      var k := L.Variable(0, x);
      assert k in st.vars ==> t.vars[k.name] == st.vars[k];
    }
    EvalFrame(e, s, t);
  }
}
