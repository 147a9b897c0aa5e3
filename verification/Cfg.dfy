/**
 Control-flow graphs and the machine that runs them: only creating blocks,
 branching, returning, loads, stores and integer instructions are modelled.
 A block is named by its index in creation order.
 */
module Cfg {
  import opened Wrappers
  import opened Syntax

  datatype Operand = Const(v: Value) | Reg(r: nat)

  datatype Instr =
    | Load(dst: nat, name: string)
    | Store(name: string, src: Operand)
    | Bin(dst: nat, op: BinOp, l: Operand, r: Operand)
    | Un(dst: nat, uop: UnOp, a: Operand)
    | ElementPtr(dst: nat, arr: Operand, idx: Operand)
    | LoadElement(dst: nat, ptr: Operand)
    | StoreElement(ptr: Operand, src: Operand)

  datatype Terminator =
    | Br(target: nat)
    | CondBr(cond: Operand, thenTarget: nat, elseTarget: nat)
    | Ret(value: Operand)
    | RetVoid

  datatype Block = Block(instrs: seq<Instr>, term: Option<Terminator>)

  /** Where `continue` and `break` go. */
  datatype LoopContext = LoopContext(continuationBB: nat, exitBB: nat)

  type Graph = seq<Block>
  type Registers = map<nat, Value>

  /** `At` is a running machine about to execute instruction `pc` of block `block`. */
  datatype Config =
    | At(block: nat, pc: nat, regs: Registers, st: State)
    | Halted(value: Option<Value>, st: State)
    | Wrong

  function ValueOf(o: Operand, regs: Registers): Option<Value> {
    match o
    case Const(v) => Some(v)
    case Reg(r) => if r in regs then Some(regs[r]) else None
  }

  datatype Effect = Effect(regs: Registers, st: State)

  function Run(i: Instr, regs: Registers, st: State): Option<Effect> {
    match i
    case Load(d, x) => if x in st.vars then Some(Effect(regs[d := st.vars[x]], st)) else None
    case Store(x, o) =>
      var v := ValueOf(o, regs);
      if v.None? then None else Some(Effect(regs, st.Set(x, v.value)))
    case Bin(d, op, l, r) =>
      var a, b := ValueOf(l, regs), ValueOf(r, regs);
      if a.None? || b.None? then None else Define(d, Apply(op, a.value, b.value), regs, st)
    case Un(d, op, o) =>
      var a := ValueOf(o, regs);
      if a.None? then None else Define(d, ApplyUnary(op, a.value), regs, st)
    case ElementPtr(d, l, r) =>
      var a, b := ValueOf(l, regs), ValueOf(r, regs);
      if a.None? || b.None? then None else Define(d, ElementAddress(a.value, b.value), regs, st)
    case LoadElement(d, o) =>
      var p := ValueOf(o, regs);
      if p.None? || !st.Live(p.value) then None else Define(d, Some(st.Read(p.value)), regs, st)
    case StoreElement(o, s) =>
      var p, v := ValueOf(o, regs), ValueOf(s, regs);
      if p.None? || v.None? || !st.Live(p.value) then None
      else Some(Effect(regs, st.Write(p.value, v.value)))
  }

  function Define(d: nat, v: Option<Value>, regs: Registers, st: State): Option<Effect> {
    if v.None? then None else Some(Effect(regs[d := v.value], st))
  }

  /** A stretch of instructions inside one block. */
  function RunAll(code: seq<Instr>, regs: Registers, st: State): Option<Effect> {
    if code == [] then Some(Effect(regs, st))
    else
      match Run(code[0], regs, st)
      case Some(e) => RunAll(code[1..], e.regs, e.st)
      case None => None
  }

  /** One machine step; halted and wrong configurations stay as they are. */
  function Step(g: Graph, c: Config): Config {
    match c
    case Halted(_, _) => c
    case Wrong => c
    case At(l, pc, regs, st) =>
      if l >= |g| then Wrong
      else if pc < |g[l].instrs| then
        (match Run(g[l].instrs[pc], regs, st)
         case Some(e) => At(l, pc + 1, e.regs, e.st)
         case None => Wrong)
      else
        (match g[l].term
         case Some(Br(t)) => At(t, 0, regs, st)
         case Some(CondBr(o, t, f)) =>
           (match ValueOf(o, regs)
            case Some(B(b)) => At(if b then t else f, 0, regs, st)
            case _ => Wrong)
         case Some(Ret(o)) =>
           var v := ValueOf(o, regs);
           if v.None? then Wrong else Halted(v, st)
         case Some(RetVoid) => Halted(None, st)
         case None => Wrong)
  }

  function Steps(g: Graph, c: Config, k: nat): Config
    decreases k
  {
    if k == 0 then c else Steps(g, Step(g, c), k - 1)
  }

  lemma {:induction false} StepsAdd(g: Graph, c: Config, j: nat, k: nat)
    ensures Steps(g, c, j + k) == Steps(g, Steps(g, c, j), k)
    decreases j
  {
    if j != 0 {
      StepsAdd(g, Step(g, c), j - 1, k);
    }
  }

  lemma {:induction false} FinalStays(g: Graph, c: Config, k: nat)
    requires !c.At?
    ensures Steps(g, c, k) == c
    decreases k
  {
    if k != 0 {
      FinalStays(g, c, k - 1);
    }
  }

  /** The machine is deterministic: it has at most one final configuration. */
  lemma {:induction false} FinalUnique(g: Graph, c: Config, j: nat, k: nat)
    requires !Steps(g, c, j).At?
    ensures j <= k ==> Steps(g, c, k) == Steps(g, c, j)
    ensures !Steps(g, c, k).At? ==> Steps(g, c, k) == Steps(g, c, j)
  {
    if j <= k {
      StepsAdd(g, c, j, k - j);
      FinalStays(g, Steps(g, c, j), k - j);
    } else if !Steps(g, c, k).At? {
      StepsAdd(g, c, k, j - k);
      FinalStays(g, Steps(g, c, k), j - k);
    }
  }

  lemma {:induction false} RunAllConcat(a: seq<Instr>, b: seq<Instr>, regs: Registers, st: State)
    ensures RunAll(a + b, regs, st)
         == match RunAll(a, regs, st)
            case Some(e) => RunAll(b, e.regs, e.st)
            case None => None
  {
    if a == [] {
      assert a + b == b;
    } else {
      assert (a + b)[0] == a[0] && (a + b)[1..] == a[1..] + b;
      var e := Run(a[0], regs, st);
      if e.Some? {
        RunAllConcat(a[1..], b, e.value.regs, e.value.st);
      }
    }
  }

  /** The machine runs a stretch of instructions it finds at its program counter. */
  lemma {:induction false} StepsRunAll(g: Graph, l: nat, pc: nat, code: seq<Instr>, regs: Registers,
          st: State) returns (k: nat)
    requires l < |g| && pc + |code| <= |g[l].instrs| && g[l].instrs[pc..pc + |code|] == code
    ensures Steps(g, At(l, pc, regs, st), k)
         == match RunAll(code, regs, st)
            case Some(e) => At(l, pc + |code|, e.regs, e.st)
            case None => Wrong
    decreases |code|
  {
    if code == [] {
      k := 0;
    } else {
      assert g[l].instrs[pc] == g[l].instrs[pc..pc + |code|][0];
      var e := Run(code[0], regs, st);
      if e.Some? {
        assert g[l].instrs[pc + 1..pc + |code|] == code[1..];
        k := StepsRunAll(g, l, pc + 1, code[1..], e.value.regs, e.value.st);
        k := k + 1;
      } else {
        k := 1;
      }
    }
  }

  /** `g` agrees with `h` on everything `h` has emitted so far. */
  ghost predicate Extends(g: Graph, h: Graph) {
    && |h| <= |g|
    && forall l | 0 <= l < |h| ::
         && h[l].instrs <= g[l].instrs
         && (h[l].term.Some? ==> g[l] == h[l])
  }

  lemma {:induction false} ExtendsTrans(g: Graph, h: Graph, i: Graph)
    requires Extends(g, h) && Extends(h, i)
    ensures Extends(g, i)
  {
    forall l | 0 <= l < |i|
      ensures i[l].instrs <= g[l].instrs && (i[l].term.Some? ==> g[l] == i[l])
    {
      assert i[l].instrs <= h[l].instrs <= g[l].instrs;
    }
  }
}
