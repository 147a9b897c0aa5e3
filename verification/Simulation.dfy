/**
 When does the code between two points of a graph simulate a statement of the
 mid-level tree?  The lemmas compose such stretches of code; they do not depend
 on how the code was emitted.
 */
module Simulation {
  import opened Wrappers
  import opened Syntax
  import opened Cfg
  import H = Hir

  datatype Point = Point(block: nat, pc: nat)

  ghost predicate ReachesAt(g: Graph, c: Config, q: Point, st: State) {
    exists k: nat, regs :: Steps(g, c, k) == At(q.block, q.pc, regs, st)
  }

  ghost predicate ReachesFinal(g: Graph, c: Config, d: Config) {
    exists k: nat :: Steps(g, c, k) == d
  }

  /** The machine is still running after at least `n` steps. */
  ghost predicate RunsFor(g: Graph, c: Config, n: nat) {
    exists k: nat :: n <= k && Steps(g, c, k).At?
  }

  /**
   From `c` the machine does what outcome `o` says: it falls through to `exit` (None if it
   never does), jumps to a target of the innermost loop, returns, goes wrong, or runs on.
   */
  ghost predicate Lands(g: Graph, c: Config, o: Outcome, exit: Option<Point>, loop: Option<LoopContext>, fuel: nat) {
    match o
    case Normal(st) => exit.Some? && ReachesAt(g, c, exit.value, st)
    case Broke(st) => loop.Some? && ReachesAt(g, c, Point(loop.value.exitBB, 0), st)
    case Continued(st) => loop.Some? && ReachesAt(g, c, Point(loop.value.continuationBB, 0), st)
    case Returned(v, st) => ReachesFinal(g, c, Halted(v, st))
    case Stuck => ReachesFinal(g, c, Wrong)
    case Timeout => RunsFor(g, c, fuel)
  }

  ghost predicate Simulates(s: H.Node, g: Graph, p: Point, exit: Option<Point>, loop: Option<LoopContext>) {
    forall regs, st, fuel :: Lands(g, At(p.block, p.pc, regs, st), H.Exec(s, st, fuel), exit, loop, fuel)
  }

  ghost predicate SimulatesAll(stmts: seq<H.Node>, g: Graph, p: Point, exit: Option<Point>, loop: Option<LoopContext>) {
    forall regs, st, fuel :: Lands(g, At(p.block, p.pc, regs, st), H.ExecAll(stmts, st, fuel), exit, loop, fuel)
  }

  /** The code at `p` tests `c` and goes to `yes` or `no`. */
  ghost predicate Tests(c: Expr, g: Graph, p: Point, yes: Point, no: Point) {
    forall regs, st :: TestLands(g, At(p.block, p.pc, regs, st), Eval(c, st), yes, no, st)
  }

  ghost predicate TestLands(g: Graph, c: Config, v: Option<Value>, yes: Point, no: Point, st: State) {
    match v
    case Some(B(b)) => ReachesAt(g, c, if b then yes else no, st)
    case _ => ReachesFinal(g, c, Wrong)
  }

  /** At `q` the machine branches to the start of block `l`. */
  ghost predicate BranchesTo(g: Graph, q: Point, l: nat) {
    forall regs, st :: Step(g, At(q.block, q.pc, regs, st)) == At(l, 0, regs, st)
  }

  /** A run to `d` followed by what happens from `d`; `d` costs `j` steps. */
  lemma {:induction false} Then(g: Graph, c: Config, j: nat, d: Config, o: Outcome, exit: Option<Point>,
          loop: Option<LoopContext>, fuel: nat, fuel': nat)
    requires Steps(g, c, j) == d && Lands(g, d, o, exit, loop, fuel) && fuel' <= j + fuel
    ensures Lands(g, c, o, exit, loop, fuel')
  {
    match o
    case Normal(st) =>
      var k: nat, regs :| Steps(g, d, k) == At(exit.value.block, exit.value.pc, regs, st);
      StepsAdd(g, c, j, k);
    case Broke(st) =>
      var k: nat, regs :| Steps(g, d, k) == At(loop.value.exitBB, 0, regs, st);
      StepsAdd(g, c, j, k);
      assert ReachesAt(g, c, Point(loop.value.exitBB, 0), st);
    case Continued(st) =>
      var k: nat, regs :| Steps(g, d, k) == At(loop.value.continuationBB, 0, regs, st);
      StepsAdd(g, c, j, k);
      assert ReachesAt(g, c, Point(loop.value.continuationBB, 0), st);
    case Returned(v, st) =>
      var k: nat :| Steps(g, d, k) == Halted(v, st);
      StepsAdd(g, c, j, k);
    case Stuck =>
      var k: nat :| Steps(g, d, k) == Wrong;
      StepsAdd(g, c, j, k);
    case Timeout =>
      var k: nat :| fuel <= k && Steps(g, d, k).At?;
      StepsAdd(g, c, j, k);
  }

  /** Falling through to `q` and branching from there. */
  lemma {:induction false} Redirect(s: H.Node, g: Graph, p: Point, q: Option<Point>, l: nat, loop: Option<LoopContext>)
    requires Simulates(s, g, p, q, loop)
    requires q.Some? ==> BranchesTo(g, q.value, l)
    ensures Simulates(s, g, p, Some(Point(l, 0)), loop)
  {
    forall regs, st, fuel
      ensures Lands(g, At(p.block, p.pc, regs, st), H.Exec(s, st, fuel), Some(Point(l, 0)), loop, fuel)
    {
      var c := At(p.block, p.pc, regs, st);
      var o := H.Exec(s, st, fuel);
      assert Lands(g, c, o, q, loop, fuel);
      if o.Normal? {
        var k: nat, regs1 :| Steps(g, c, k) == At(q.value.block, q.value.pc, regs1, o.st);
        StepsAdd(g, c, k, 1);
        assert Steps(g, At(q.value.block, q.value.pc, regs1, o.st), 1) == At(l, 0, regs1, o.st);
        assert Steps(g, c, k + 1) == At(l, 0, regs1, o.st);
        assert ReachesAt(g, c, Point(l, 0), o.st);
      }
    }
  }

  lemma {:induction false} SequenceSimulates(stmts: seq<H.Node>, g: Graph, p: Point, q: Option<Point>,
          exit: Option<Point>, loop: Option<LoopContext>)
    requires stmts != [] && Simulates(stmts[0], g, p, q, loop)
    requires q.Some? ==> SimulatesAll(stmts[1..], g, q.value, exit, loop)
    ensures SimulatesAll(stmts, g, p, exit, loop)
  {
    forall regs, st, fuel
      ensures Lands(g, At(p.block, p.pc, regs, st), H.ExecAll(stmts, st, fuel), exit, loop, fuel)
    {
      var c := At(p.block, p.pc, regs, st);
      var o := H.Exec(stmts[0], st, fuel);
      assert Lands(g, c, o, q, loop, fuel);
      if o.Normal? {
        var k: nat, regs1 :| Steps(g, c, k) == At(q.value.block, q.value.pc, regs1, o.st);
        Then(g, c, k, At(q.value.block, q.value.pc, regs1, o.st), H.ExecAll(stmts[1..], o.st, fuel), exit, loop, fuel,
                fuel);
      }
    }
  }

  lemma {:induction false} IfSimulates(s: H.Node, g: Graph, p: Point, yes: Point, no: Point, exit: Point,
          loop: Option<LoopContext>)
    requires s.If? && Tests(s.cond, g, p, yes, no)
    requires Simulates(s.thenBranch, g, yes, Some(exit), loop)
    requires Simulates(s.elseBranch, g, no, Some(exit), loop)
    ensures Simulates(s, g, p, Some(exit), loop)
  {
    forall regs, st, fuel
      ensures Lands(g, At(p.block, p.pc, regs, st), H.Exec(s, st, fuel), Some(exit), loop, fuel)
    {
      var c := At(p.block, p.pc, regs, st);
      var v := Eval(s.cond, st);
      assert TestLands(g, c, v, yes, no, st);
      if v.Some? && v.value.B? {
        var branch := if v.value.b then s.thenBranch else s.elseBranch;
        var entry := if v.value.b then yes else no;
        var k: nat, regs1 :| Steps(g, c, k) == At(entry.block, entry.pc, regs1, st);
        Then(g, c, k, At(entry.block, entry.pc, regs1, st), H.Exec(branch, st, fuel), Some(exit), loop, fuel, fuel);
      }
    }
  }

  lemma {:induction false} NullSimulates(g: Graph, p: Point, loop: Option<LoopContext>)
    ensures Simulates(H.Null, g, p, Some(p), loop)
  {
    forall regs, st, fuel
      ensures Lands(g, At(p.block, p.pc, regs, st), H.Exec(H.Null, st, fuel), Some(p), loop, fuel)
    {
      assert Steps(g, At(p.block, p.pc, regs, st), 0) == At(p.block, p.pc, regs, st);
    }
  }

  /** The four blocks of a loop: condition `n`, body, step and the block after the loop. */
  ghost predicate LoopCode(s: H.Node, g: Graph, n: nat) {
    && s.While?
    && Tests(s.cond, g, Point(n, 0), Point(n + 1, 0), Point(n + 3, 0))
    && Simulates(s.body, g, Point(n + 1, 0), Some(Point(n + 2, 0)), Some(LoopContext(n + 2, n + 3)))
    && Simulates(s.step, g, Point(n + 2, 0), Some(Point(n, 0)), Some(LoopContext(n + 2, n + 3)))
    && (s.step.Null? || s.step.Assign?)
  }

  ghost predicate TurnLands(g: Graph, c: Config, turn: H.Turn, n: nat, fuel: nat) {
    match turn
    case Again(st) => exists k: nat, regs :: 0 < k && Steps(g, c, k) == At(n, 0, regs, st)
    case Exit(o) => !o.Broke? && !o.Continued? && Lands(g, c, o, Some(Point(n + 3, 0)), None, fuel)
  }

  /** One turn of a loop; going round takes at least one step. */
  lemma {:induction false} TurnSimulates(s: H.Node, g: Graph, n: nat, regs: Registers, st: State, fuel: nat)
    requires LoopCode(s, g, n)
    ensures TurnLands(g, At(n, 0, regs, st), H.Iterate(s, st, fuel), n, fuel)
  {
    var c := At(n, 0, regs, st);
    var v := Eval(s.cond, st);
    assert TestLands(g, c, v, Point(n + 1, 0), Point(n + 3, 0), st);
    if v == Some(B(true)) {
      var k: nat, regs1 :| Steps(g, c, k) == At(n + 1, 0, regs1, st);
      var o := H.Exec(s.body, st, fuel);
      Then(g, c, k, At(n + 1, 0, regs1, st), o, Some(Point(n + 2, 0)), Some(LoopContext(n + 2, n + 3)), fuel, fuel);
      if o.Normal? || o.Continued? {
        StepSimulates(s, g, n, c, o.st, fuel);
      }
    }
  }

  lemma {:induction false} StepSimulates(s: H.Node, g: Graph, n: nat, c: Config, st: State, fuel: nat)
    requires LoopCode(s, g, n) && c.At? && c.block == n && ReachesAt(g, c, Point(n + 2, 0), st)
    ensures var o := H.Exec(s.step, st, fuel); TurnLands(g, c, if o.Normal? then H.Again(o.st) else H.Exit(o), n, fuel)
  {
    var k1: nat, regs1 :| Steps(g, c, k1) == At(n + 2, 0, regs1, st);
    var d := At(n + 2, 0, regs1, st);
    var o := H.Exec(s.step, st, fuel);
    assert Lands(g, d, o, Some(Point(n, 0)), Some(LoopContext(n + 2, n + 3)), fuel);
    assert o.Normal? || o.Stuck?;
    if o.Normal? {
      var k2: nat, regs2 :| Steps(g, d, k2) == At(n, 0, regs2, o.st);
      StepsAdd(g, c, k1, k2);
      assert 0 < k1 + k2 && Steps(g, c, k1 + k2) == At(n, 0, regs2, o.st);
    } else {
      Then(g, c, k1, d, o, Some(Point(n + 3, 0)), None, fuel, fuel);
    }
  }

  lemma {:induction false} LoopLands(s: H.Node, g: Graph, n: nat, regs: Registers, st: State, fuel: nat)
    requires LoopCode(s, g, n)
    ensures var o := H.Exec(s, st, fuel);
      !o.Broke? && !o.Continued? && Lands(g, At(n, 0, regs, st), o, Some(Point(n + 3, 0)), None, fuel)
    decreases fuel
  {
    var c := At(n, 0, regs, st);
    if fuel == 0 {
      assert Steps(g, c, 0) == c;
    } else {
      TurnSimulates(s, g, n, regs, st, fuel);
      var turn := H.Iterate(s, st, fuel);
      if turn.Again? {
        var k: nat, regs' :| 0 < k && Steps(g, c, k) == At(n, 0, regs', turn.st);
        LoopLands(s, g, n, regs', turn.st, fuel - 1);
        Then(g, c, k, At(n, 0, regs', turn.st), H.Exec(s, turn.st, fuel - 1), Some(Point(n + 3, 0)), None, fuel - 1,
                fuel);
      }
    }
  }

  lemma {:induction false} WhileSimulates(s: H.Node, g: Graph, p: Point, n: nat, loop: Option<LoopContext>)
    requires LoopCode(s, g, n) && BranchesTo(g, p, n)
    ensures Simulates(s, g, p, Some(Point(n + 3, 0)), loop)
  {
    forall regs, st, fuel
      ensures Lands(g, At(p.block, p.pc, regs, st), H.Exec(s, st, fuel), Some(Point(n + 3, 0)), loop, fuel)
    {
      var c := At(p.block, p.pc, regs, st);
      LoopLands(s, g, n, regs, st, fuel);
      assert Steps(g, c, 1) == At(n, 0, regs, st);
      Then(g, c, 1, At(n, 0, regs, st), H.Exec(s, st, fuel), Some(Point(n + 3, 0)), None, fuel, fuel);
    }
  }
}
