/** Both passes together: from the syntax tree of a function to its control-flow graph. */
module Pipeline {
  import opened Wrappers
  import opened Syntax
  import opened Cfg
  import opened Codegen
  import opened CodegenProof
  import opened Simulation
  import opened FunctionProof
  import opened AstFacts
  import opened HirGen
  import opened HirGenNames
  import opened HirGenProof
  import opened LoweringProof
  import opened SourceScope
  import A = Ast
  import H = Hir
  import L = Lexical
  import S = LexicalProof

  /** What the body of a function sees: its parameters, in the outermost scope. */
  function ParamTable(params: seq<string>, kinds: seq<L.Kind>): (tab: L.Table)
    requires |params| == |kinds|
  {
    if params == [] then map[]
    else
      var n := |params| - 1;
      ParamTable(params[..n], kinds[..n])[params[n] := L.Symbol(0, kinds[n])]
  }

  /** A function of the program; `c` is the first unused loop number when it is compiled. */
  datatype Function = Function(params: seq<string>, kinds: seq<L.Kind>, body: A.Node, isVoid: bool, c: nat) {
    function Names(): set<string> {
      set x | x in params
    }

    function Table(): L.Table {
      if |params| == |kinds| then ParamTable(params, kinds) else map[]
    }

    function Lowered(): seq<H.Node> {
      Flatten(body, Names(), c).stmts
    }

    function Compiled(): Graph {
      EmitFunction(params, Lowered(), isVoid).blocks
    }

    /** The store on entry. */
    function Entered(args: seq<Value>, heap: map<nat, seq<Value>>): L.Store
      requires |args| == |params|
    {
      var vars := Bind(params, args);
      L.Store(map x | x in vars :: L.Variable(0, x) := vars[x], heap)
    }

    /** What the source language says about a call, with fuel for so many loop turns. */
    function Run(args: seq<Value>, heap: map<nat, seq<Value>>, fuel: nat): H.Result
      requires |args| == |params|
    {
      match L.Exec(body, 0, Table(), Entered(args, heap), fuel)
      case Ends(st) => H.Done(Fallback(isVoid), st.Locals())
      case Returns(v, st) => H.Done(v, st.Locals())
      case OutOfFuel => H.OutOfFuel
      case _ => H.Undefined
    }

    /** Every name has a slot where it is used, loops are regular, and no `for` shadows. */
    predicate Compilable() {
      && |params| == |kinds|
      && Regular(body)
      && (forall x | x in params :: !Hidden(x))
      && L.Scoped(body, Names(), 0, Table(), Table())
      && ScopeOf(body, Names(), Names(), false).Some?
    }

    /** Arguments are of their parameters' kinds: a list has the length its type says, or its companion holds it. */
    ghost predicate Fits(args: seq<Value>, heap: map<nat, seq<Value>>) {
      && |args| == |params|
      && forall x | x in Table() && x in Bind(params, args) ::
           && S.HasKind(Table()[x].kind, Bind(params, args)[x], heap)
           && (Table()[x].kind == L.Group ==> S.GroupKnown(x, State(Bind(params, args), heap)))
    }
  }

  /** Every compilable function can be emitted. */
  lemma {:induction false} CompilableScoped(f: Function)
    requires f.Compilable()
    ensures ScopeAll(f.Lowered(), f.Names(), false).Some?
  {
    FlattenScoped(f.body, f.Names(), f.c, f.Names(), f.Names(), false);
  }

  lemma {:induction false} BindVisible(params: seq<string>, args: seq<Value>, heap: map<nat, seq<Value>>)
    requires |args| == |params| && forall x | x in params :: !Hidden(x)
    ensures Visible(State(Bind(params, args), heap)) == State(Bind(params, args), heap)
  {
    BindKeys(params, args);
    assert Visible(State(Bind(params, args), heap)).vars == Bind(params, args);
  }

  lemma {:induction false} BindKeys(params: seq<string>, args: seq<Value>)
    requires |args| == |params|
    ensures Bind(params, args).Keys == set x | x in params
  {
    if params != [] {
      BindKeys(params[..|params| - 1], args[..|args| - 1]);
      assert params == params[..|params| - 1] + [params[|params| - 1]];
    }
  }

  lemma {:induction false} TableKeys(params: seq<string>, kinds: seq<L.Kind>)
    requires |params| == |kinds|
    ensures ParamTable(params, kinds).Keys == set x | x in params
    ensures forall x | x in ParamTable(params, kinds) :: ParamTable(params, kinds)[x].depth == 0
  {
    if params != [] {
      var n := |params| - 1;
      TableKeys(params[..n], kinds[..n]);
      assert params == params[..n] + [params[n]];
    }
  }

  /** On entry every name stands for its one variable. */
  lemma {:induction false} EntryTracks(f: Function, args: seq<Value>, heap: map<nat, seq<Value>>)
    requires f.Compilable() && f.Fits(args, heap)
    ensures S.Tracks(f.Entered(args, heap), State(Bind(f.params, args), heap), f.Table()) && S.Shallow(f.Table(), 0)
  {
    TableKeys(f.params, f.kinds);
    BindKeys(f.params, args);
    var st, s := f.Entered(args, heap), State(Bind(f.params, args), heap);
    forall k | k in st.vars
      ensures S.Tracked(k, st, s, f.Table())
    {
      assert k.name in s.vars;
    }
  }

  /** What the lowered body does, compared with what the source says; `Undefined` leaves it open. */
  ghost predicate Shows(r: H.Result, r': H.Result) {
    match r
    case Done(v, s) => r'.Done? && r'.value == v && S.Below(s, r'.st)
    case Undefined => true
    case OutOfFuel => r'.OutOfFuel?
  }

  /** A function's own variables are among those of the compiled function. */
  lemma {:induction false} LocalsBelow(st: L.Store, h: State, live: L.Table)
    requires S.Tracks(st, Visible(h), live)
    ensures S.Below(st.Locals(), h)
  {
    forall x | x in st.Locals().vars
      ensures x in h.vars && h.vars[x] == st.Locals().vars[x]
    {
      assert S.Tracked(L.Variable(0, x), st, Visible(h), live);
    }
  }

  /** Turn for turn, the lowered body gives the result of the source. */
  lemma {:induction false} LoweredRuns(f: Function, args: seq<Value>, heap: map<nat, seq<Value>>, fuel: nat)
    requires f.Compilable() && f.Fits(args, heap)
    ensures Shows(f.Run(args, heap, fuel),
                  H.ExecBody(f.Lowered(), Fallback(f.isVoid), State(Bind(f.params, args), heap), fuel))
  {
    var h := State(Bind(f.params, args), heap);
    var st, live := f.Entered(args, heap), L.After(f.body, 0, f.Table(), f.Table());
    EntryTracks(f, args, heap);
    BindVisible(f.params, args, heap);
    FlattenKeepsMeaning(f.body, f.Names(), f.c, 0, f.Table(), f.Table(), st, h, fuel);
    var o, o' := L.Exec(f.body, 0, f.Table(), st, fuel), H.ExecAll(f.Lowered(), h, fuel);
    match o
    case Ends(st1) => LocalsBelow(st1, o'.st, live);
    case Returns(_, st1) => LocalsBelow(st1, o'.st, live);
    case _ =>
  }

  ghost predicate SourceYields(f: Function, args: seq<Value>, heap: map<nat, seq<Value>>, v: Option<Value>, s: State)
    requires |args| == |f.params|
  {
    exists fuel: nat :: f.Run(args, heap, fuel) == H.Done(v, s)
  }

  ghost predicate GraphHalts(f: Function, args: seq<Value>, heap: map<nat, seq<Value>>, v: Option<Value>, s: State) {
    ReachesFinal(f.Compiled(), Start(args, heap), Halted(v, s))
  }

  ghost predicate SourceRunsForever(f: Function, args: seq<Value>, heap: map<nat, seq<Value>>)
    requires |args| == |f.params|
  {
    forall fuel: nat :: f.Run(args, heap, fuel).OutOfFuel?
  }

  lemma {:induction false} ForwardYields(f: Function, args: seq<Value>, heap: map<nat, seq<Value>>, v: Option<Value>,
          s: State) returns (s': State)
    requires f.Compilable() && f.Fits(args, heap) && SourceYields(f, args, heap, v, s)
    ensures GraphHalts(f, args, heap, v, s') && S.Below(s, s')
  {
    var fuel: nat :| f.Run(args, heap, fuel) == H.Done(v, s);
    LoweredRuns(f, args, heap, fuel);
    CompilableScoped(f);
    FunctionForward(f.params, f.Lowered(), f.isVoid, args, heap, fuel);
    s' := H.ExecBody(f.Lowered(), Fallback(f.isVoid), State(Bind(f.params, args), heap), fuel).st;
  }

  lemma {:induction false} BackwardYields(f: Function, args: seq<Value>, heap: map<nat, seq<Value>>, v: Option<Value>,
          s': State) returns (fuel: nat)
    requires f.Compilable() && f.Fits(args, heap) && GraphHalts(f, args, heap, v, s')
    requires forall fuel: nat :: !f.Run(args, heap, fuel).Undefined?
    ensures f.Run(args, heap, fuel).Done? && f.Run(args, heap, fuel).value == v
    ensures S.Below(f.Run(args, heap, fuel).st, s')
  {
    var st := State(Bind(f.params, args), heap);
    CompilableScoped(f);
    ResultIff(f.params, f.Lowered(), f.isVoid, args, heap, Halted(v, s'));
    fuel :| FinalOf(H.ExecBody(f.Lowered(), Fallback(f.isVoid), st, fuel)) == Some(Halted(v, s'));
    LoweredRuns(f, args, heap, fuel);
  }

  /**
   A call the source language defines: whenever the source ends, the compiled graph halts with
   the same value and heap and with the same variables of the function; whenever the graph
   halts, so does the source, with these; and the graph runs forever exactly if the source does.
   */
  lemma {:induction false} CompilationCorrect(f: Function, args: seq<Value>, heap: map<nat, seq<Value>>)
    requires f.Compilable() && f.Fits(args, heap)
    requires forall fuel: nat :: !f.Run(args, heap, fuel).Undefined?
    ensures forall v, s | SourceYields(f, args, heap, v, s) ::
      exists s' :: GraphHalts(f, args, heap, v, s') && S.Below(s, s')
    ensures forall v, s' | GraphHalts(f, args, heap, v, s') ::
      exists s :: SourceYields(f, args, heap, v, s) && S.Below(s, s')
    ensures RunsForever(f.Compiled(), Start(args, heap)) <==> SourceRunsForever(f, args, heap)
  {
    forall v, s | SourceYields(f, args, heap, v, s)
      ensures exists s' :: GraphHalts(f, args, heap, v, s') && S.Below(s, s')
    {
      var s' := ForwardYields(f, args, heap, v, s);
    }
    forall v, s' | GraphHalts(f, args, heap, v, s')
      ensures exists s :: SourceYields(f, args, heap, v, s) && S.Below(s, s')
    {
      var fuel := BackwardYields(f, args, heap, v, s');
      var s := f.Run(args, heap, fuel).st;
      assert f.Run(args, heap, fuel) == H.Done(v, s);
    }
    CompilableScoped(f);
    FunctionCorrect(f.params, f.Lowered(), f.isVoid, args, heap);
    forall fuel: nat
      ensures var r := H.ExecBody(f.Lowered(), Fallback(f.isVoid), State(Bind(f.params, args), heap), fuel);
        r.OutOfFuel? <==> f.Run(args, heap, fuel).OutOfFuel?
    {
      LoweredRuns(f, args, heap, fuel);
    }
  }
}
