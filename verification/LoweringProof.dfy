/** The whole lowering, by induction over the syntax tree. */
module LoweringProof {
  import opened Wrappers
  import opened Syntax
  import opened HirGen
  import opened AstFacts
  import opened HirGenProof
  import opened RangeLowering
  import opened ListLowering
  import A = Ast
  import H = Hir
  import L = Lexical
  import S = LexicalProof

  lemma {:induction false} LowerRefines(n: A.Node, ps: set<string>, c: nat)
    requires Regular(n)
    ensures Refines(n, ps, Lower(n, ps, c).node, c)
    decreases n, 0
  {
    match n
    case Null =>
    case Seq(a, b) =>
      FlattenRefines(a, ps, c);
      var x := Flatten(a, ps, c);
      FlattenRefines(b, ps, x.next);
      SeqRefines(n, ps, x.stmts, Flatten(b, ps, x.next).stmts, c, x.next);
      BlockRefines(n, ps, x.stmts + Flatten(b, ps, x.next).stmts, c);
    case Assign(_, _, _, _) =>
      AssignRefines(n, ps, c);
    case If(_, thn, els) =>
      LowerRefines(thn, ps, c);
      var x := Lower(thn, ps, c);
      LowerRefines(els, ps, x.next);
      IfRefines(n, ps, x.node, Lower(els, ps, x.next).node, c, x.next);
    case While(_, body, step) =>
      FlattenRefines(body, ps, c);
      var x := Flatten(body, ps, c);
      BlockRefines(body, ps, x.stmts, c);
      LowerRefines(step, ps, x.next);
      WhileRefines(n, ps, H.Block(x.stmts), Lower(step, ps, x.next).node, c, x.next);
    case ForRange(_, _, _, _, _, body) =>
      FlattenRefines(body, ps, c);
      RangeRefines(n, ps, Flatten(body, ps, c).stmts, c);
    case ForList(_, _, _, _, body) =>
      FlattenRefines(body, ps, c + 1);
      ListRefines(n, ps, Flatten(body, ps, c + 1).stmts, c);
    case _ =>
      SimpleRefines(n, ps, c);
  }

  lemma {:induction false} SimpleRefines(n: A.Node, ps: set<string>, c: nat)
    requires Regular(n) && (n.Return? || n.Break? || n.Continue? || n.Evaluate?)
    ensures Refines(n, ps, Lower(n, ps, c).node, c)
  {
    var m := Lower(n, ps, c).node;
    forall h, fuel
      ensures Agrees(A.Exec(n, ps, Visible(h), fuel), H.Exec(m, h, fuel), h, c)
    {
      match n
      case Return(Some(e)) => EvalVisible(e, h);
      case Evaluate(e) => EvalVisible(e, h);
      case _ =>
    }
  }

  lemma {:induction false} FlattenRefines(n: A.Node, ps: set<string>, c: nat)
    requires Regular(n)
    ensures RefinesAll(n, ps, Flatten(n, ps, c).stmts, c)
    decreases n, 1
  {
    match n
    case Null =>
      NullRefines(ps, c);
    case Seq(a, b) =>
      FlattenRefines(a, ps, c);
      var x := Flatten(a, ps, c);
      FlattenRefines(b, ps, x.next);
      SeqRefines(n, ps, x.stmts, Flatten(b, ps, x.next).stmts, c, x.next);
    case _ =>
      LowerRefines(n, ps, c);
      LeafRefines(n, ps, Lower(n, ps, c).node, c);
  }

  /**
   Every regular statement in which nothing shadows has its lexical meaning when lowered: it
   ends in the same way, with the same heap and the same values of all variables in scope, and
   leaves the generated names of outer loops alone.
   */
  lemma {:induction false} LowerKeepsMeaning(n: A.Node, ps: set<string>, c: nat, d: nat, tab: L.Table, live: L.Table,
          st: L.Store, h: State, fuel: nat)
    requires Regular(n) && L.Scoped(n, ps, d, tab, live) && L.Sub(tab, live) && S.Shallow(live, d)
    requires S.Tracks(st, Visible(h), live)
    ensures var o, o' := L.Exec(n, d, tab, st, fuel), H.Exec(Lower(n, ps, c).node, h, fuel);
      && S.Matches(o, VisibleOutcome(o'), L.After(n, d, tab, live))
      && (!o.Undefined? && o'.HasState() ==> Guarded(h, o'.st, c))
  {
    S.ScopedMeaning(n, ps, d, tab, live, st, Visible(h), fuel);
    LowerRefines(n, ps, c);
    assert Agrees(A.Exec(n, ps, Visible(h), fuel), H.Exec(Lower(n, ps, c).node, h, fuel), h, c);
  }

  /** The same for the statement vector of a sequence tree. */
  lemma {:induction false} FlattenKeepsMeaning(n: A.Node, ps: set<string>, c: nat, d: nat, tab: L.Table, live: L.Table,
          st: L.Store, h: State, fuel: nat)
    requires Regular(n) && L.Scoped(n, ps, d, tab, live) && L.Sub(tab, live) && S.Shallow(live, d)
    requires S.Tracks(st, Visible(h), live)
    ensures S.Matches(L.Exec(n, d, tab, st, fuel), VisibleOutcome(H.ExecAll(Flatten(n, ps, c).stmts, h, fuel)),
                      L.After(n, d, tab, live))
  {
    S.ScopedMeaning(n, ps, d, tab, live, st, Visible(h), fuel);
    FlattenRefines(n, ps, c);
    assert Agrees(A.Exec(n, ps, Visible(h), fuel), H.ExecAll(Flatten(n, ps, c).stmts, h, fuel), h, c);
  }
}
