/** Emitted straight-line code computes the value of the expression, or does the assignment. */
module CodegenExprProof {
  import opened Wrappers
  import opened Syntax
  import opened Cfg
  import opened Codegen
  import H = Hir

  /** Every variable has a slot and every operator an instruction. */
  predicate Resolves(e: Expr, slots: set<string>) {
    match e
    case Num(_) => true
    case BoolLit(_) => true
    case Var(x) => x in slots
    case Unary(_, e) => Resolves(e, slots)
    case Binary(op, l, r) => Supported(op) && Resolves(l, slots) && Resolves(r, slots)
    case Index(a, i) => Resolves(a, slots) && Resolves(i, slots)
  }

  /** The generator yields a value exactly for the expressions that resolve. */
  lemma {:induction false} ValueIffResolves(e: Expr, slots: set<string>, n: nat)
    ensures ExprCode(e, slots, n).value.Some? <==> Resolves(e, slots)
  {
    match e
    case Num(_) =>
    case BoolLit(_) =>
    case Var(_) =>
    case Unary(_, e1) =>
      ValueIffResolves(e1, slots, n);
    case Binary(_, l, r) =>
      ValueIffResolves(l, slots, n);
      ValueIffResolves(r, slots, ExprCode(l, slots, n).next);
    case Index(a, i) =>
      ValueIffResolves(a, slots, n);
      ValueIffResolves(i, slots, ExprCode(a, slots, n).next);
  }

  /** Registers below `n` have not changed. */
  ghost predicate Same(n: nat, regs: Registers, regs': Registers) {
    forall r: nat | r < n :: (r in regs <==> r in regs') && (r in regs ==> regs[r] == regs'[r])
  }

  /** `c` computes `v`, changing nothing but registers from `n` on; it goes wrong if there is no value. */
  ghost predicate Computes(c: Code, v: Option<Value>, n: nat, regs: Registers, st: State) {
    match RunAll(c.instrs, regs, st)
    case None => v.None?
    case Some(e) =>
      v.Some? && c.value.Some? && ValueOf(c.value.value, e.regs) == v && e.st == st && Same(n, regs, e.regs)
  }

  lemma {:induction false} ExprCorrect(e: Expr, slots: set<string>, n: nat, regs: Registers, st: State)
    requires Resolves(e, slots)
    ensures Computes(ExprCode(e, slots, n), Eval(e, st), n, regs, st)
    decreases e, 1
  {
    match e
    case Num(_) =>
    case BoolLit(_) =>
    case Var(x) =>
      RunOne(Load(n, x), regs, st);
    case Unary(op, e1) =>
      var a := ExprCode(e1, slots, n);
      ValueIffResolves(e1, slots, n);
      ExprCorrect(e1, slots, n, regs, st);
      RunSnoc(a.instrs, Un(a.next, op, a.value.value), regs, st);
    case Binary(op, l, r) =>
      BinaryCorrect(e, slots, n, regs, st);
    case Index(arr, idx) =>
      var p := AddressCode(arr, idx, slots, n);
      AddressCorrect(arr, idx, slots, n, regs, st);
      RunSnoc(p.instrs, LoadElement(p.next, p.value.value), regs, st);
  }

  lemma {:induction false} BinaryCorrect(e: Expr, slots: set<string>, n: nat, regs: Registers, st: State)
    requires e.Binary? && Resolves(e, slots)
    ensures Computes(ExprCode(e, slots, n), Eval(e, st), n, regs, st)
    decreases e, 0
  {
    var a := ExprCode(e.l, slots, n);
    var b := ExprCode(e.r, slots, a.next);
    ExprCorrect(e.l, slots, n, regs, st);
    forall regs1 {
      ExprCorrect(e.r, slots, a.next, regs1, st);
    }
    ValueIffResolves(e.l, slots, n);
    ValueIffResolves(e.r, slots, a.next);
    PairCorrect(a, b, Eval(e.l, st), Eval(e.r, st), n, regs, st);
    RunSnoc(a.instrs + b.instrs, Bin(b.next, e.op, a.value.value, b.value.value), regs, st);
  }

  /** One more instruction after `code`. */
  lemma {:induction false} RunSnoc(code: seq<Instr>, i: Instr, regs: Registers, st: State)
    ensures RunAll(code + [i], regs, st)
         == match RunAll(code, regs, st)
            case Some(e) => Run(i, e.regs, e.st)
            case None => None
  {
    RunAllConcat(code, [i], regs, st);
    var e := RunAll(code, regs, st);
    if e.Some? {
      RunOne(i, e.value.regs, e.value.st);
    }
  }

  lemma {:induction false} RunOne(i: Instr, regs: Registers, st: State)
    ensures RunAll([i], regs, st) == Run(i, regs, st)
  {
    var code := [i];
    assert code[1..] == [];
    assert Run(i, regs, st).Some? ==> RunAll(code[1..], Run(i, regs, st).value.regs,
            Run(i, regs, st).value.st) == Run(i, regs, st);
  }

  /** Two operands computed in order: the first value survives the second computation. */
  lemma {:induction false} PairCorrect(a: Code, b: Code, v: Option<Value>, w: Option<Value>, n: nat, regs: Registers,
          st: State)
    requires n <= a.next && Defined(a) && a.value.Some? && b.value.Some?
    requires Computes(a, v, n, regs, st)
    requires forall regs1 :: Computes(b, w, a.next, regs1, st)
    ensures match RunAll(a.instrs + b.instrs, regs, st)
      case None => v.None? || w.None?
      case Some(e) =>
        && v.Some? && w.Some? && e.st == st && Same(n, regs, e.regs)
        && ValueOf(a.value.value, e.regs) == v && ValueOf(b.value.value, e.regs) == w
  {
    RunAllConcat(a.instrs, b.instrs, regs, st);
    var e := RunAll(a.instrs, regs, st);
    if e.Some? {
      assert Computes(b, w, a.next, e.value.regs, st);
    }
  }

  lemma {:induction false} PtrCorrect(a: Code, b: Code, v: Option<Value>, w: Option<Value>, n: nat, regs: Registers,
          st: State)
    requires n <= a.next <= b.next && Defined(a) && a.value.Some? && b.value.Some?
    requires Computes(a, v, n, regs, st)
    requires forall regs1 :: Computes(b, w, a.next, regs1, st)
    ensures PtrCode(a, b).value.Some?
    ensures Computes(PtrCode(a, b), if v.None? || w.None? then None else ElementAddress(v.value, w.value), n, regs, st)
  {
    PairCorrect(a, b, v, w, n, regs, st);
    RunSnoc(a.instrs + b.instrs, ElementPtr(b.next, a.value.value, b.value.value), regs, st);
  }

  lemma {:induction false} AddressCorrect(arr: Expr, idx: Expr, slots: set<string>, n: nat, regs: Registers, st: State)
    requires Resolves(arr, slots) && Resolves(idx, slots)
    ensures AddressCode(arr, idx, slots, n).value.Some?
    ensures Computes(AddressCode(arr, idx, slots, n), EvalAddress(arr, idx, st), n, regs, st)
    decreases Index(arr, idx), 0
  {
    var a := ExprCode(arr, slots, n);
    ExprCorrect(arr, slots, n, regs, st);
    forall regs1 {
      ExprCorrect(idx, slots, a.next, regs1, st);
    }
    ValueIffResolves(arr, slots, n);
    ValueIffResolves(idx, slots, a.next);
    PtrCorrect(a, ExprCode(idx, slots, a.next), Eval(arr, st), Eval(idx, st), n, regs, st);
  }

  predicate AssignResolves(t: Target, e: Expr, slots: set<string>) {
    && Resolves(e, slots)
    && match t
       case Name(x) => x in slots
       case Element(arr, idx) => Resolves(arr, slots) && Resolves(idx, slots)
  }

  /** The code of an assignment changes the store exactly as the assignment does. */
  lemma {:induction false} AssignCorrect(t: Target, e: Expr, slots: set<string>, n: nat, regs: Registers, st: State)
    requires AssignResolves(t, e, slots)
    ensures match RunAll(AssignCode(t, e, slots, n).instrs, regs, st)
      case None => H.ExecAssign(t, e, st) == Stuck
      case Some(f) => H.ExecAssign(t, e, st) == Normal(f.st)
  {
    match t
    case Name(x) =>
      var v := ExprCode(e, slots, n);
      ValueIffResolves(e, slots, n);
      ExprCorrect(e, slots, n, regs, st);
      RunSnoc(v.instrs, Store(x, v.value.value), regs, st);
    case Element(arr, idx) =>
      var p := AddressCode(arr, idx, slots, n);
      var v := ExprCode(e, slots, p.next);
      AddressCorrect(arr, idx, slots, n, regs, st);
      ValueIffResolves(e, slots, p.next);
      forall regs1 {
        ExprCorrect(e, slots, p.next, regs1, st);
      }
      PairCorrect(p, v, EvalAddress(arr, idx, st), Eval(e, st), n, regs, st);
      RunSnoc(p.instrs + v.instrs, StoreElement(p.value.value, v.value.value), regs, st);
  }
}
