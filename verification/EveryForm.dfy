/** A family of functions with a statement of every form: all of them are among those the compiler theorem is about. */
module EveryForm {
  import opened Wrappers
  import opened Syntax
  import opened Ast
  import opened AstFacts
  import opened Pipeline
  import opened SourceScope
  import E = CodegenExprProof
  import F = FunctionProof
  import L = Lexical
  import N = HirGenNames
  import S = LexicalProof

  /** The names such a function uses: parameters, variables of its own, and iterators. */
  datatype Names = Names(group: string, list: string, limit: string, total: string, copy: string,
                         x: string, y: string, i: string)
  {
    function All(): seq<string> {
      [group, list, limit, total, copy, x, y, i]
    }

    predicate Identifiers() {
      Distinct(All()) && forall k | 0 <= k < |All()| :: Identifier(All()[k]) && All()[k][0] != '@'
    }

    /** Good names for variables, which differ. */
    predicate Good() {
      && Lexable(group) && Lexable(list) && Lexable(limit) && Lexable(total) && Lexable(copy)
      && Lexable(x) && Lexable(y) && Lexable(i)
      && Distinct(All())
    }

    function Companion(): string {
      group + COUNT_SUFFIX
    }
  }

  // ---------- the function ----------

  /** Adds the elements of `a` to the total, up to the first that equals the limit. */
  function ListPart(a: string, size: I64, x: string, w: Names): Node {
    ForList(x, Var(a), size, false,
            If(Binary(Eq, Var(x), Var(w.limit)), Break, Assign(Name(w.total), Compound(Add), Var(x), false)))
  }

  /** Stores the total in every second element of the list below the limit. */
  function RangePart(w: Names): Node {
    ForRange(w.i, Num(0), Var(w.limit), Some(Num(2)), false,
             Assign(Element(Var(w.list), Var(w.i)), Plain, Var(w.total), false))
  }

  /** Counts the total down to the limit; `continue` does not skip the continuation assignment. */
  function WhilePart(w: Names): Node {
    While(Binary(Gt, Var(w.total), Var(w.limit)), If(Binary(Gt, Var(w.total), Var(w.limit)), Continue, Null),
          Assign(Name(w.total), Compound(Sub), Num(1), false))
  }

  function Tail(w: Names): Node {
    Seq(WhilePart(w), Seq(Evaluate(Unary(Neg, Var(w.total))), Return(Some(Var(w.total)))))
  }

  function Loops(w: Names, size: I64): Node {
    Seq(ListPart(w.copy, size, w.y, w), Seq(RangePart(w), Tail(w)))
  }

  function Body(w: Names, size: I64): Node {
    Seq(Assign(Name(w.total), Plain, Num(0), true),
        Seq(ListPart(w.group, 0, w.x, w), Seq(Assign(Name(w.copy), Plain, Var(w.list), true), Loops(w, size))))
  }

  /** `group` is variadic, `list` has `size` elements, and `limit` is a number. */
  function Program(w: Names, size: I64, c: nat): Function {
    Function([w.group, w.Companion(), w.list, w.limit], [L.Group, L.Scalar, L.Sized(size), L.Scalar],
             Body(w, size), false, c)
  }

  // ---------- its names ----------

  lemma {:induction false} NamesGood(w: Names)
    requires w.Identifiers()
    ensures w.Good()
  {
    var xs := w.All();
    forall k | 0 <= k < |xs|
      ensures Lexable(xs[k])
    {
      N.IdentifiersLexable(xs[k]);
    }
    assert Lexable(xs[0]) && Lexable(xs[1]) && Lexable(xs[2]) && Lexable(xs[3]);
    assert Lexable(xs[4]) && Lexable(xs[5]) && Lexable(xs[6]) && Lexable(xs[7]);
  }

  lemma {:induction false} NamesDiffer(w: Names)
    requires w.Good()
    ensures w.group !in {w.list, w.limit, w.total, w.copy, w.x, w.y, w.i}
    ensures w.list !in {w.limit, w.total, w.copy, w.x, w.y, w.i}
    ensures w.limit !in {w.total, w.copy, w.x, w.y, w.i} && w.total !in {w.copy, w.x, w.y, w.i}
    ensures w.copy !in {w.x, w.y, w.i} && w.x !in {w.y, w.i} && w.y != w.i
  {
    var xs := w.All();
    assert xs[0] !in {xs[1], xs[2], xs[3], xs[4], xs[5], xs[6], xs[7]};
    assert xs[1] !in {xs[2], xs[3], xs[4], xs[5], xs[6], xs[7]};
    assert xs[2] !in {xs[3], xs[4], xs[5], xs[6], xs[7]} && xs[3] !in {xs[4], xs[5], xs[6], xs[7]};
    assert xs[4] !in {xs[5], xs[6], xs[7]} && xs[5] !in {xs[6], xs[7]} && xs[6] != xs[7];
  }

  lemma {:induction false} CompanionIsNone(x: string, y: string)
    requires Lexable(y)
    ensures x + COUNT_SUFFIX != y
  {
    assert (x + COUNT_SUFFIX)[|x|] == MARK;
  }

  lemma {:induction false} CompanionsDiffer(x: string, y: string)
    ensures x + COUNT_SUFFIX == y + COUNT_SUFFIX ==> x == y
  {
    assert (x + COUNT_SUFFIX)[..|x|] == x && (y + COUNT_SUFFIX)[..|y|] == y;
  }

  /** No name of the function is the companion of its group or list. */
  lemma {:induction false} Companions(w: Names)
    requires w.Good()
    ensures w.Companion() !in {w.group, w.list, w.limit, w.total, w.copy, w.x, w.y, w.i}
    ensures w.copy + COUNT_SUFFIX !in {w.group, w.Companion(), w.list, w.limit}
  {
    NamesDiffer(w);
    CompanionsDiffer(w.copy, w.group);
    forall y | Lexable(y)
      ensures w.Companion() != y && w.copy + COUNT_SUFFIX != y
    {
      CompanionIsNone(w.group, y);
      CompanionIsNone(w.copy, y);
    }
  }

  // ---------- it is regular ----------

  lemma {:induction false} ListPartRegular(a: string, size: I64, x: string, w: Names)
    requires Lexable(a) && Lexable(x) && Lexable(w.limit) && Lexable(w.total) && x != a
    ensures Regular(ListPart(a, size, x, w))
  {
    var add := Assign(Name(w.total), Compound(Add), Var(x), false);
    assert Vars(Binary(Eq, Var(x), Var(w.limit))) == {x, w.limit};
    assert Regular(add) && Regular(Break);
    assert Regular(If(Binary(Eq, Var(x), Var(w.limit)), Break, add));
  }

  lemma {:induction false} RangePartRegular(w: Names)
    requires w.Good()
    ensures Regular(RangePart(w))
  {
    NamesDiffer(w);
    var store := Assign(Element(Var(w.list), Var(w.i)), Plain, Var(w.total), false);
    assert TargetVars(store.target) + Vars(store.rhs) == {w.list, w.i, w.total};
    assert Regular(store) && Assigned(store) == {};
    assert Vars(Num(0)) == {} && Vars(Num(2)) == {} && Vars(Var(w.limit)) == {w.limit};
    assert StrideOf(Num(0), Var(w.limit), Some(Num(2))) == Num(2);
  }

  lemma {:induction false} TailRegular(w: Names)
    requires w.Good()
    ensures Regular(Tail(w))
  {
    var skip := If(Binary(Gt, Var(w.total), Var(w.limit)), Continue, Null);
    assert Vars(skip.cond) == {w.total, w.limit};
    assert Vars(WhilePart(w).cond) == {w.total, w.limit};
    assert Vars(Unary(Neg, Var(w.total))) == {w.total};
    assert Regular(Continue) && Regular(Null) && AllLexable(Vars(skip.cond));
    assert Regular(skip);
    assert Regular(Assign(Name(w.total), Compound(Sub), Num(1), false));
    assert Regular(WhilePart(w));
    assert Regular(Evaluate(Unary(Neg, Var(w.total)))) && Regular(Return(Some(Var(w.total))));
  }

  lemma {:induction false} BodyRegular(w: Names, size: I64)
    requires w.Good()
    ensures Regular(Body(w, size))
  {
    NamesDiffer(w);
    ListPartRegular(w.group, 0, w.x, w);
    ListPartRegular(w.copy, size, w.y, w);
    RangePartRegular(w);
    TailRegular(w);
    var copy := Assign(Name(w.copy), Plain, Var(w.list), true);
    assert Regular(Assign(Name(w.total), Plain, Num(0), true)) && Regular(copy);
    assert Regular(Seq(RangePart(w), Tail(w)));
    assert Regular(Loops(w, size));
    assert Regular(Seq(copy, Loops(w, size)));
    assert Regular(Seq(ListPart(w.group, 0, w.x, w), Seq(copy, Loops(w, size))));
  }

  // ---------- slots ----------

  lemma {:induction false} ListPartSlots(a: string, size: I64, x: string, w: Names, ps: set<string>,
          slots: set<string>)
    requires {a, w.limit, w.total} <= slots && ps <= slots
    ensures ScopeOf(ListPart(a, size, x, w), ps, slots, false) == Some(slots + {x})
  {
    var s := slots + {x};
    var add := Assign(Name(w.total), Compound(Add), Var(x), false);
    assert E.Resolves(Var(w.total), s) && E.Resolves(Var(x), s) && E.Resolves(Var(w.limit), s);
    assert E.Resolves(Binary(Add, Var(w.total), Var(x)), s) && E.Resolves(Binary(Eq, Var(x), Var(w.limit)), s);
    assert ScopeOf(Break, ps, s, true) == Some(s);
    assert ScopeOf(add, ps, s, true) == Some(s);
    assert ScopeOf(If(Binary(Eq, Var(x), Var(w.limit)), Break, add), ps, s, true) == Some(s);
  }

  lemma {:induction false} RangePartSlots(w: Names, ps: set<string>, slots: set<string>)
    requires {w.list, w.limit, w.total} <= slots
    ensures ScopeOf(RangePart(w), ps, slots, false) == Some(slots + {w.i})
  {
    var s := slots + {w.i};
    assert ScopeOf(Assign(Element(Var(w.list), Var(w.i)), Plain, Var(w.total), false), ps, s, true) == Some(s);
  }

  lemma {:induction false} TailSlots(w: Names, ps: set<string>, slots: set<string>)
    requires {w.limit, w.total} <= slots
    ensures ScopeOf(Tail(w), ps, slots, false) == Some(slots)
  {
    var skip := If(Binary(Gt, Var(w.total), Var(w.limit)), Continue, Null);
    assert E.Resolves(Var(w.total), slots) && E.Resolves(Var(w.limit), slots) && E.Resolves(Num(1), slots);
    assert E.Resolves(skip.cond, slots) && E.Resolves(Binary(Sub, Var(w.total), Num(1)), slots);
    assert ScopeOf(Continue, ps, slots, true) == Some(slots) == ScopeOf(Null, ps, slots, true);
    assert ScopeOf(skip, ps, slots, true) == Some(slots);
    assert ScopeOf(Assign(Name(w.total), Compound(Sub), Num(1), false), ps, slots, true) == Some(slots);
    assert ScopeOf(WhilePart(w), ps, slots, false) == Some(slots);
    assert ScopeOf(Evaluate(Unary(Neg, Var(w.total))), ps, slots, false) == Some(slots);
    assert ScopeOf(Return(Some(Var(w.total))), ps, slots, false) == Some(slots);
  }

  lemma {:induction false} LoopsSlots(w: Names, size: I64, ps: set<string>, slots: set<string>)
    requires {w.copy, w.list, w.limit, w.total} <= slots && ps <= slots
    ensures ScopeOf(Loops(w, size), ps, slots, false).Some?
  {
    ListPartSlots(w.copy, size, w.y, w, ps, slots);
    RangePartSlots(w, ps, slots + {w.y});
    TailSlots(w, ps, slots + {w.y} + {w.i});
    assert ScopeOf(Seq(RangePart(w), Tail(w)), ps, slots + {w.y}, false).Some?;
  }

  lemma {:induction false} BodySlots(w: Names, size: I64)
    ensures var ps := {w.group, w.Companion(), w.list, w.limit}; ScopeOf(Body(w, size), ps, ps, false).Some?
  {
    var ps := {w.group, w.Companion(), w.list, w.limit};
    var s := ps + {w.total};
    ListPartSlots(w.group, 0, w.x, w, ps, s);
    LoopsSlots(w, size, ps, s + {w.x} + {w.copy});
    var copy := Assign(Name(w.copy), Plain, Var(w.list), true);
    assert ScopeOf(Assign(Name(w.total), Plain, Num(0), true), ps, ps, false) == Some(s);
    assert ScopeOf(copy, ps, s + {w.x}, false) == Some(s + {w.x} + {w.copy});
    assert ScopeOf(Seq(copy, Loops(w, size)), ps, s + {w.x}, false).Some?;
    assert ScopeOf(Seq(ListPart(w.group, 0, w.x, w), Seq(copy, Loops(w, size))), ps, s, false).Some?;
  }

  // ---------- declarations ----------

  predicate ScopedHere(p: Node, ps: set<string>, tab: L.Table) {
    L.Scoped(p, ps, 0, tab, tab) && L.Declare(p, 0, tab) == tab
  }

  lemma {:induction false} ListPartScoped(a: string, size: I64, x: string, w: Names, ps: set<string>, tab: L.Table)
    requires x !in tab && x != w.total && a in tab && w.total in tab && tab[w.total].kind == L.Scalar
    requires if IsListParam(Var(a), ps) then tab[a].kind == L.Group else tab[a].kind == L.Sized(size)
    ensures ScopedHere(ListPart(a, size, x, w), ps, tab)
  {
    var tab1 := L.InLoop(x, 0, tab);
    var add := Assign(Name(w.total), Compound(Add), Var(x), false);
    assert L.Scoped(add, ps, 1, tab1, tab1) && L.Scoped(Break, ps, 1, tab1, tab1);
    assert L.After(Break, 1, tab1, tab1) == tab1;
    assert L.Scoped(If(Binary(Eq, Var(x), Var(w.limit)), Break, add), ps, 1, tab1, tab1);
  }

  lemma {:induction false} RangePartScoped(w: Names, ps: set<string>, tab: L.Table)
    requires w.i !in tab
    ensures ScopedHere(RangePart(w), ps, tab)
  {
    var tab1 := L.InLoop(w.i, 0, tab);
    assert L.Scoped(Assign(Element(Var(w.list), Var(w.i)), Plain, Var(w.total), false), ps, 1, tab1, tab1);
  }

  lemma {:induction false} TailScoped(w: Names, ps: set<string>, tab: L.Table)
    requires w.total in tab && tab[w.total].kind == L.Scalar
    ensures ScopedHere(Tail(w), ps, tab)
  {
    var skip := If(Binary(Gt, Var(w.total), Var(w.limit)), Continue, Null);
    var loop := WhilePart(w);
    assert L.Declare(Continue, 0, tab) == tab == L.Declare(Null, 0, tab);
    assert L.Declare(skip, 0, tab) == tab && L.Declare(loop.step, 0, tab) == tab;
    assert L.Declare(loop, 0, tab) == tab && tab + tab == tab;
    assert L.Scoped(Continue, ps, 0, tab, tab) && L.Scoped(Null, ps, 0, tab, tab);
    assert L.After(Continue, 0, tab, tab) == tab;
    assert L.Scoped(skip, ps, 0, tab, tab) && L.Scoped(loop.step, ps, 0, tab, tab);
    assert L.After(loop, 0, tab, tab) == tab;
    assert L.Scoped(loop, ps, 0, tab, tab);
    var rest := Seq(Evaluate(Unary(Neg, Var(w.total))), Return(Some(Var(w.total))));
    assert ScopedHere(rest.a, ps, tab) && ScopedHere(rest.b, ps, tab);
    SeqScopedHere(rest.a, rest.b, ps, tab);
    SeqScopedHere(loop, rest, ps, tab);
  }

  lemma {:induction false} SeqScopedHere(p: Node, q: Node, ps: set<string>, tab: L.Table)
    requires ScopedHere(p, ps, tab) && ScopedHere(q, ps, tab)
    ensures ScopedHere(Seq(p, q), ps, tab)
  {
    assert tab + tab == tab;
  }

  function ParamSymbols(w: Names, size: I64): L.Table {
    map[w.group := L.Symbol(0, L.Group), w.Companion() := L.Symbol(0, L.Scalar),
        w.list := L.Symbol(0, L.Sized(size)), w.limit := L.Symbol(0, L.Scalar)]
  }

  function WithTotal(w: Names, size: I64): L.Table {
    ParamSymbols(w, size)[w.total := L.Symbol(0, L.Scalar)]
  }

  function WithCopy(w: Names, size: I64): L.Table {
    WithTotal(w, size)[w.copy := L.Symbol(0, L.Sized(size))]
  }

  lemma {:induction false} LoopsScoped(w: Names, size: I64, ps: set<string>)
    requires w.Good() && ps == ParamSymbols(w, size).Keys
    ensures ScopedHere(Loops(w, size), ps, WithCopy(w, size))
  {
    var tab := WithCopy(w, size);
    NamesDiffer(w);
    Companions(w);
    ListPartScoped(w.copy, size, w.y, w, ps, tab);
    RangePartScoped(w, ps, tab);
    TailScoped(w, ps, tab);
    SeqScopedHere(RangePart(w), Tail(w), ps, tab);
    SeqScopedHere(ListPart(w.copy, size, w.y, w), Seq(RangePart(w), Tail(w)), ps, tab);
  }

  lemma {:induction false} BodyScoped(w: Names, size: I64)
    requires w.Good()
    ensures var tab := ParamSymbols(w, size); L.Scoped(Body(w, size), tab.Keys, 0, tab, tab)
  {
    var tab, tab1, tab2 := ParamSymbols(w, size), WithTotal(w, size), WithCopy(w, size);
    var ps := tab.Keys;
    NamesDiffer(w);
    Companions(w);
    ListPartScoped(w.group, 0, w.x, w, ps, tab1);
    LoopsScoped(w, size, ps);
    var copy := Assign(Name(w.copy), Plain, Var(w.list), true);
    assert L.StoredKind(Plain, Var(w.list), tab1) == L.Sized(size);
    assert L.Scoped(copy, ps, 0, tab1, tab1) && L.Declare(copy, 0, tab1) == tab2;
    assert tab1 + tab2 == tab2 && tab1 + tab1 == tab1 && tab + tab1 == tab1;
    assert L.Scoped(Seq(copy, Loops(w, size)), ps, 0, tab1, tab1);
    assert L.Scoped(Seq(ListPart(w.group, 0, w.x, w), Seq(copy, Loops(w, size))), ps, 0, tab1, tab1);
  }

  // ---------- the compiler theorem applies ----------

  lemma {:induction false} ProgramTable(w: Names, size: I64, c: nat)
    ensures Program(w, size, c).Table() == ParamSymbols(w, size)
  {
    var f := Program(w, size, c);
    var params, kinds := f.params, f.kinds;
    assert params[..3][..2] == params[..2] && params[..2][..1] == params[..1] && params[..1][..0] == [];
    assert kinds[..3][..2] == kinds[..2] && kinds[..2][..1] == kinds[..1] && kinds[..1][..0] == [];
    assert ParamTable(params[..1], kinds[..1]) == map[w.group := L.Symbol(0, L.Group)];
    assert ParamTable(params[..2], kinds[..2])
        == ParamTable(params[..1], kinds[..1])[params[1] := L.Symbol(0, kinds[1])];
    assert ParamTable(params[..3], kinds[..3])
        == ParamTable(params[..2], kinds[..2])[params[2] := L.Symbol(0, kinds[2])];
  }

  /** Whatever its names, the function is compilable. */
  lemma {:induction false} EveryFormCompilable(w: Names, size: I64, c: nat)
    requires w.Identifiers()
    ensures Program(w, size, c).Compilable()
  {
    var f := Program(w, size, c);
    NamesGood(w);
    BodyRegular(w, size);
    BodySlots(w, size);
    ProgramTable(w, size, c);
    assert f.Names() == {w.group, w.Companion(), w.list, w.limit} == f.Table().Keys;
    BodyScoped(w, size);
    N.LexableVisible(w.group);
    N.LexableVisible(w.list);
    N.LexableVisible(w.limit);
  }

  /** Two lists and a number, as the function takes them. */
  function Arguments(u: seq<Value>, k: I64): seq<Value>
    requires |u| <= I64_MAX
  {
    [Ref(0), I(|u|), Ref(1), I(k)]
  }

  lemma {:induction false} ProgramArguments(w: Names, size: I64, c: nat, u: seq<Value>, k: I64)
    requires w.Good() && |u| <= I64_MAX
    ensures F.Bind(Program(w, size, c).params, Arguments(u, k))
         == map[w.group := Ref(0), w.Companion() := I(|u|), w.list := Ref(1), w.limit := I(k)]
  {
    var params, args := Program(w, size, c).params, Arguments(u, k);
    NamesDiffer(w);
    Companions(w);
    assert params[..3][..2] == params[..2] && params[..2][..1] == params[..1] && params[..1][..0] == [];
    assert args[..3][..2] == args[..2] && args[..2][..1] == args[..1] && args[..1][..0] == [];
    assert F.Bind(params[..1], args[..1]) == map[w.group := Ref(0)];
    assert F.Bind(params[..2], args[..2]) == F.Bind(params[..1], args[..1])[params[1] := args[1]];
    assert F.Bind(params[..3], args[..3]) == F.Bind(params[..2], args[..2])[params[2] := args[2]];
  }

  /** It fits any two lists, the second of the size in its type, and any number. */
  lemma {:induction false} EveryFormFits(w: Names, size: I64, c: nat, u: seq<Value>, v: seq<Value>, k: I64)
    requires w.Identifiers() && |u| <= I64_MAX && |v| == size
    ensures Program(w, size, c).Fits(Arguments(u, k), map[0 := u, 1 := v])
  {
    NamesGood(w);
    NamesDiffer(w);
    Companions(w);
    ProgramTable(w, size, c);
    ProgramArguments(w, size, c, u, k);
  }
}
