/** Emitted functions: the graph and the mid-level tree have exactly the same results. */
module FunctionProof {
  import opened Wrappers
  import opened Syntax
  import opened Cfg
  import opened Codegen
  import opened CodegenExprProof
  import opened CodegenProof
  import opened Simulation
  import H = Hir

  /** The store on entry: every parameter holds its argument. */
  function Bind(params: seq<string>, args: seq<Value>): (vars: map<string, Value>)
    requires |params| == |args|
  {
    if params == [] then map[]
    else Bind(params[..|params| - 1], args[..|args| - 1])[params[|params| - 1] := args[|args| - 1]]
  }

  /** Each parameter is bound to the argument in its place; of two with one name the later counts. */
  lemma {:induction false} ArgumentsBound(params: seq<string>, args: seq<Value>, i: nat)
    requires i < |params| == |args| && params[i] !in params[i + 1..]
    ensures params[i] in Bind(params, args) && Bind(params, args)[params[i]] == args[i]
  {
    var n := |params| - 1;
    if i < n {
      assert params[i + 1..][n - i - 1] == params[n];
      assert params[..n][i + 1..] == params[i + 1..][..n - i - 1];
      ArgumentsBound(params[..n], args[..n], i);
    }
  }

  function ArgumentRegs(args: seq<Value>): Registers {
    map i: nat | i < |args| :: args[i]
  }

  /** Calling the graph `g` with `args`. */
  function Start(args: seq<Value>, heap: map<nat, seq<Value>>): Config {
    At(0, 0, ArgumentRegs(args), State(map[], heap))
  }

  lemma {:induction false} ParamsStored(params: seq<string>, args: seq<Value>, regs: Registers,
          heap: map<nat, seq<Value>>)
    requires |params| == |args| && forall i | 0 <= i < |args| :: i in regs && regs[i] == args[i]
    ensures RunAll(ParamCode(params).instrs, regs, State(map[], heap))
         == Some(Effect(regs, State(Bind(params, args), heap)))
  {
    if params != [] {
      var n := |params| - 1;
      ParamsStored(params[..n], args[..n], regs, heap);
      assert ParamCode(params).instrs == ParamCode(params[..n]).instrs + [Store(params[n], Reg(n))];
      RunSnoc(ParamCode(params[..n]).instrs, Store(params[n], Reg(n)), regs, State(map[], heap));
    }
  }

  /** What the emitted function does, compared with the body after `fuel` loop turns. */
  ghost predicate Matches(g: Graph, c: Config, r: H.Result, fuel: nat) {
    match r
    case Done(v, st) => ReachesFinal(g, c, Halted(v, st))
    case Undefined => ReachesFinal(g, c, Wrong)
    case OutOfFuel => RunsFor(g, c, fuel)
  }

  lemma {:induction false} BodySimulates(params: seq<string>, body: seq<H.Node>, isVoid: bool, g: Graph)
    requires ScopeAll(body, set x | x in params, false).Some?
    requires g == EmitFunction(params, body, isVoid).blocks
    ensures var e := FunctionEntry(params);
      SimulatesAll(body, g, PointOf(e), ExitOf(EmitAll(body, e)), None) && Extends(g, e.blocks)
  {
    var e := FunctionEntry(params);
    var r := EmitAll(body, e);
    assert Extends(g, r.blocks);
    FramedExtends(e, r);
    ExtendsTrans(g, r.blocks, e.blocks);
    EmitAllSimulates(body, e, g);
  }

  /** The entry code binds the parameters. */
  lemma {:induction false} EntryRuns(params: seq<string>, args: seq<Value>, heap: map<nat, seq<Value>>,
          g: Graph) returns (j: nat)
    requires |args| == |params| && Extends(g, FunctionEntry(params).blocks)
    ensures var p := PointOf(FunctionEntry(params));
      Steps(g, Start(args, heap), j) == At(p.block, p.pc, ArgumentRegs(args), State(Bind(params, args), heap))
  {
    ParamsStored(params, args, ArgumentRegs(args), heap);
    assert FunctionEntry(params).blocks[0].instrs == ParamCode(params).instrs;
    assert g[0].instrs[0..|params|] == ParamCode(params).instrs;
    j := StepsRunAll(g, 0, 0, ParamCode(params).instrs, ArgumentRegs(args), State(map[], heap));
  }

  /** Falling off the end of the body returns the fallback value. */
  lemma {:induction false} FallbackReturns(r: Builder, isVoid: bool, g: Graph, c: Config, st: State)
    requires r.Valid() && !r.Terminated() && g == FunctionExit(r, isVoid).blocks
    requires ReachesAt(g, c, PointOf(r), st)
    ensures ReachesFinal(g, c, Halted(Fallback(isVoid), st))
  {
    var k: nat, regs :| Steps(g, c, k) == At(PointOf(r).block, PointOf(r).pc, regs, st);
    var d := At(PointOf(r).block, PointOf(r).pc, regs, st);
    assert g[r.cur].term.Some?;
    assert Step(g, d) == Halted(Fallback(isVoid), st);
    StepsAdd(g, c, k, 1);
    assert Steps(g, d, 1) == Halted(Fallback(isVoid), st);
    assert Steps(g, c, k + 1) == Halted(Fallback(isVoid), st);
  }

  /** Every run of the body is matched by the run of the graph. */
  lemma {:induction false} FunctionForward(params: seq<string>, body: seq<H.Node>, isVoid: bool, args: seq<Value>,
                                          heap: map<nat, seq<Value>>, fuel: nat)
    requires ScopeAll(body, set x | x in params, false).Some? && |args| == |params|
    ensures Matches(EmitFunction(params, body, isVoid).blocks, Start(args, heap),
                    H.ExecBody(body, Fallback(isVoid), State(Bind(params, args), heap), fuel), fuel)
  {
    var g := EmitFunction(params, body, isVoid).blocks;
    var e := FunctionEntry(params);
    var r := EmitAll(body, e);
    var c, st := Start(args, heap), State(Bind(params, args), heap);
    BodySimulates(params, body, isVoid, g);
    var j := EntryRuns(params, args, heap, g);
    var p := PointOf(e);
    var d := At(p.block, p.pc, ArgumentRegs(args), st);
    var o := H.ExecAll(body, st, fuel);
    assert Lands(g, d, o, ExitOf(r), None, fuel);
    Then(g, c, j, d, o, ExitOf(r), None, fuel, fuel);
    if o.Normal? {
      FallbackReturns(r, isVoid, g, c, o.st);
    }
  }

  /** A call whose body runs to its end halts with 0, or with no value if the function is void. */
  lemma {:induction false} FallingOffGivesZero(params: seq<string>, body: seq<H.Node>, isVoid: bool, args: seq<Value>,
          heap: map<nat, seq<Value>>, fuel: nat, st: State)
    requires ScopeAll(body, set x | x in params, false).Some? && |args| == |params|
    requires H.ExecAll(body, State(Bind(params, args), heap), fuel) == Normal(st)
    ensures ReachesFinal(EmitFunction(params, body, isVoid).blocks, Start(args, heap),
                         Halted(if isVoid then None else Some(I(0)), st))
  {
    FunctionForward(params, body, isVoid, args, heap, fuel);
  }

  /** So does the graph of a function without statements. */
  lemma {:induction false} EmptyBodyGivesZero(params: seq<string>, isVoid: bool, args: seq<Value>,
          heap: map<nat, seq<Value>>)
    requires |args| == |params|
    ensures ReachesFinal(EmitFunction(params, [], isVoid).blocks, Start(args, heap),
                         Halted(if isVoid then None else Some(I(0)), State(Bind(params, args), heap)))
  {
    assert H.ExecAll([], State(Bind(params, args), heap), 0) == Normal(State(Bind(params, args), heap));
    FallingOffGivesZero(params, [], isVoid, args, heap, 0, State(Bind(params, args), heap));
  }

  /** The final configuration a result stands for. */
  function FinalOf(r: H.Result): (c: Option<Config>)
    ensures c.Some? ==> !c.value.At?
  {
    match r
    case Done(v, st) => Some(Halted(v, st))
    case Undefined => Some(Wrong)
    case OutOfFuel => None
  }

  /** The body ends in `d` for some amount of fuel. */
  ghost predicate Yields(body: seq<H.Node>, isVoid: bool, st: State, d: Config) {
    exists fuel: nat :: FinalOf(H.ExecBody(body, Fallback(isVoid), st, fuel)) == Some(d)
  }

  ghost predicate NeverYields(body: seq<H.Node>, isVoid: bool, st: State) {
    forall fuel: nat :: H.ExecBody(body, Fallback(isVoid), st, fuel).OutOfFuel?
  }

  ghost predicate RunsForever(g: Graph, c: Config) {
    forall k: nat :: Steps(g, c, k).At?
  }

  /**
   The emitted graph halts with a value and a store, or goes wrong, exactly if the body
   does for some amount of fuel; it runs forever exactly if no amount of fuel suffices.
   */
  lemma {:induction false} FunctionCorrect(params: seq<string>, body: seq<H.Node>, isVoid: bool, args: seq<Value>,
                                          heap: map<nat, seq<Value>>)
    requires ScopeAll(body, set x | x in params, false).Some? && |args| == |params|
    ensures forall d: Config | !d.At? ::
      ReachesFinal(EmitFunction(params, body, isVoid).blocks, Start(args, heap), d)
      <==> Yields(body, isVoid, State(Bind(params, args), heap), d)
    ensures RunsForever(EmitFunction(params, body, isVoid).blocks, Start(args, heap))
      <==> NeverYields(body, isVoid, State(Bind(params, args), heap))
  {
    var g := EmitFunction(params, body, isVoid).blocks;
    var c := Start(args, heap);
    var st := State(Bind(params, args), heap);
    forall d: Config | !d.At?
      ensures ReachesFinal(g, c, d) <==> Yields(body, isVoid, st, d)
    {
      ResultIff(params, body, isVoid, args, heap, d);
    }
    if NeverYields(body, isVoid, st) {
      forall k: nat
        ensures Steps(g, c, k).At?
      {
        FunctionForward(params, body, isVoid, args, heap, k + 1);
        assert H.ExecBody(body, Fallback(isVoid), st, k + 1).OutOfFuel?;
        var j: nat :| k + 1 <= j && Steps(g, c, j).At?;
        if !Steps(g, c, k).At? {
          FinalUnique(g, c, k, j);
        }
      }
    } else {
      var fuel: nat :| !H.ExecBody(body, Fallback(isVoid), st, fuel).OutOfFuel?;
      FunctionForward(params, body, isVoid, args, heap, fuel);
      var d := FinalOf(H.ExecBody(body, Fallback(isVoid), st, fuel)).value;
      assert ReachesFinal(g, c, d);
      var k: nat :| Steps(g, c, k) == d;
      assert !Steps(g, c, k).At?;
    }
  }

  lemma {:induction false} ResultIff(params: seq<string>, body: seq<H.Node>, isVoid: bool, args: seq<Value>,
                                    heap: map<nat, seq<Value>>, d: Config)
    requires ScopeAll(body, set x | x in params, false).Some? && |args| == |params| && !d.At?
    ensures ReachesFinal(EmitFunction(params, body, isVoid).blocks, Start(args, heap), d)
      <==> Yields(body, isVoid, State(Bind(params, args), heap), d)
  {
    var g := EmitFunction(params, body, isVoid).blocks;
    var c := Start(args, heap);
    var st := State(Bind(params, args), heap);
    if ReachesFinal(g, c, d) {
      var k: nat :| Steps(g, c, k) == d;
      FunctionForward(params, body, isVoid, args, heap, k + 1);
      FinalResult(g, c, k, H.ExecBody(body, Fallback(isVoid), st, k + 1));
    }
    if Yields(body, isVoid, st, d) {
      var fuel: nat :| FinalOf(H.ExecBody(body, Fallback(isVoid), st, fuel)) == Some(d);
      FunctionForward(params, body, isVoid, args, heap, fuel);
    }
  }

  /** A graph that stops within `k` steps stops with what the body yields for `k + 1` units of fuel. */
  lemma {:induction false} FinalResult(g: Graph, c: Config, k: nat, r: H.Result)
    requires !Steps(g, c, k).At? && Matches(g, c, r, k + 1)
    ensures FinalOf(r) == Some(Steps(g, c, k))
  {
    if r.OutOfFuel? {
      var j: nat :| k + 1 <= j && Steps(g, c, j).At?;
      FinalUnique(g, c, k, j);
    } else {
      var d := FinalOf(r).value;
      var j: nat :| Steps(g, c, j) == d;
      assert !Steps(g, c, j).At?;
      FinalUnique(g, c, j, k);
    }
  }
}
