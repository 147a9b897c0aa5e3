/** What operators, element accesses and stores of compiled code mean, told without their definitions. */
module SyntaxFacts {
  import opened Wrappers
  import opened Syntax
  import N = IntegerBinop
  import V = IntegerEval

  // ---------- arithmetic ----------

  /** The operator of the constant evaluator that stands for one of generated code. */
  function Constant(op: BinOp): Option<N.NumOp> {
    match op
    case Add => Some(N.Plus)
    case Sub => Some(N.Minus)
    case Mul => Some(N.Times)
    case Div => Some(N.Quotient)
    case Mod => Some(N.Remainder)
    case _ => None
  }

  /** Division by zero, and the one quotient that has no place in 64 bits. */
  predicate DivisionUndefined(x: I64, y: I64) {
    y == 0 || (x == I64_MIN && y == -1)
  }

  lemma {:induction false} WrapIsReduce(n: int)
    ensures Wrap(n) == N.Reduce(N.I64, n)
  {
  }

  lemma {:induction false} DivisionAgrees(op: BinOp, x: I64, y: I64)
    requires (op.Div? || op.Mod?) && !DivisionUndefined(x, y)
    ensures N.Expected(Constant(op).value, N.I64, x, y).Value?
    ensures Apply(op, I(x), I(y)) == Some(I(Wrap(N.Expected(Constant(op).value, N.I64, x, y).x)))
  {
    N.NarrowNeverOverflows(Constant(op).value, N.I64, x, y);
    WrapIsReduce(N.Exact(Constant(op).value, x, y));
  }

  lemma {:induction false} SumAgrees(op: BinOp, x: I64, y: I64)
    requires op.Add? || op.Sub? || op.Mul?
    ensures N.Expected(Constant(op).value, N.I64, x, y).Value?
    ensures Apply(op, I(x), I(y)) == Some(I(Wrap(N.Expected(Constant(op).value, N.I64, x, y).x)))
  {
    N.NarrowNeverOverflows(Constant(op).value, N.I64, x, y);
    WrapIsReduce(N.Exact(Constant(op).value, x, y));
  }

  lemma {:induction false} ExpectedFits(op: N.NumOp, x: I64, y: I64)
    requires N.Expected(op, N.I64, x, y).Value?
    ensures InI64(N.Expected(op, N.I64, x, y).x)
  {
  }

  /** Generated code computes what the evaluator computes at 64 bits, wherever the target defines it. */
  lemma {:induction false} ArithmeticAgrees(op: BinOp, x: I64, y: I64)
    requires Constant(op).Some?
    ensures Apply(op, I(x), I(y)).None? <==> (op.Div? || op.Mod?) && DivisionUndefined(x, y)
    ensures Apply(op, I(x), I(y)).Some? ==>
      var o := N.Expected(Constant(op).value, N.I64, x, y);
      o.Value? && InI64(o.x) && Apply(op, I(x), I(y)) == Some(I(o.x))
  {
    if op.Add? || op.Sub? || op.Mul? {
      SumAgrees(op, x, y);
      ExpectedFits(Constant(op).value, x, y);
    } else if !DivisionUndefined(x, y) {
      DivisionAgrees(op, x, y);
      ExpectedFits(Constant(op).value, x, y);
    }
  }

  // ---------- comparison ----------

  predicate Holds(op: BinOp, a: Value, b: Value) {
    Apply(op, a, b) == Some(B(true))
  }

  predicate Decided(op: BinOp, a: Value, b: Value) {
    Apply(op, a, b).Some? && Apply(op, a, b).value.B?
  }

  lemma {:induction false} DifferenceWraps(x: I64, y: I64)
    ensures Wrap(x - y) == 0 <==> x == y
  {
    N.ReduceUnique(N.I64, x - y, 0);
    if Wrap(x - y) == 0 {
      var k :| 0 == x - y + k * N.Modulus(N.I64);
    }
  }

  /** Numbers are equal exactly if their difference is 0, and adding 1 goes up. */
  lemma {:induction false} OrderOfNumbers(x: I64, y: I64)
    ensures Holds(Eq, I(x), I(y)) <==> Apply(Sub, I(x), I(y)) == Some(I(0))
    ensures x != I64_MAX ==> Apply(Add, I(x), I(1)).Some? && Holds(Lt, I(x), Apply(Add, I(x), I(1)).value)
  {
    DifferenceWraps(x, y);
  }

  /** The comparisons are those of one total order. */
  lemma {:induction false} OneOrder(x: I64, y: I64, z: I64)
    ensures forall op | op in {Eq, Neq, Lt, Le, Gt, Ge} :: Decided(op, I(x), I(y))
    ensures Holds(Lt, I(x), I(y)) && Holds(Lt, I(y), I(z)) ==> Holds(Lt, I(x), I(z))
    ensures Holds(Lt, I(x), I(y)) || Holds(Eq, I(x), I(y)) || Holds(Gt, I(x), I(y))
    ensures Holds(Lt, I(x), I(y)) ==> !Holds(Eq, I(x), I(y)) && !Holds(Gt, I(x), I(y))
    ensures Holds(Gt, I(x), I(y)) <==> Holds(Lt, I(y), I(x))
    ensures Holds(Neq, I(x), I(y)) <==> !Holds(Eq, I(x), I(y))
    ensures Holds(Le, I(x), I(y)) <==> Holds(Lt, I(x), I(y)) || Holds(Eq, I(x), I(y))
    ensures Holds(Ge, I(x), I(y)) <==> Holds(Gt, I(x), I(y)) || Holds(Eq, I(x), I(y))
  {
  }

  /** Negation is the additive inverse. */
  lemma {:induction false} NegationCancels(x: I64)
    ensures ApplyUnary(Neg, I(x)).Some? && Apply(Add, I(x), ApplyUnary(Neg, I(x)).value) == Some(I(0))
  {
    if x == I64_MIN {
      assert Wrap(0 - x) == I64_MIN;
      assert Wrap(I64_MIN + I64_MIN) == 0;
    } else {
      assert Wrap(0 - x) == -x;
    }
  }

  /** Truth values form the two-element Boolean algebra. */
  lemma {:induction false} TruthValues(b: bool)
    ensures Holds(Eq, B(b), B(b)) && Holds(Neq, B(b), B(!b)) && !Holds(Neq, B(b), B(b)) && !Holds(Eq, B(b), B(!b))
    ensures ApplyUnary(Not, B(b)) == Some(B(!b))
    ensures Apply(And, B(b), B(b)) == Some(B(b)) && Apply(And, B(b), B(!b)) == Some(B(false))
    ensures Apply(Or, B(b), B(b)) == Some(B(b)) && Apply(Or, B(b), B(!b)) == Some(B(true))
  {
  }

  // ---------- element accesses ----------

  /** The expressions `arr` and `idx` say element `k` of list `r`. */
  predicate Denotes(arr: Expr, idx: Expr, st: State, r: nat, k: I64) {
    Eval(arr, st) == Some(Ref(r)) && Eval(idx, st) == Some(I(k)) && r in st.heap && 0 <= k < |st.heap[r]|
  }

  /** An element access has the value of the element it denotes, and none if it denotes none. */
  lemma {:induction false} IndexReads(arr: Expr, idx: Expr, st: State, v: Value)
    ensures Eval(Index(arr, idx), st) == Some(v)
      <==> exists r: nat, k: I64 :: Denotes(arr, idx, st, r, k) && v == st.heap[r][k]
  {
    if Eval(Index(arr, idx), st) == Some(v) {
      assert Denotes(arr, idx, st, Eval(arr, st).value.addr, Eval(idx, st).value.n);
    }
  }

  /** An operator is applied to the values of its operands, in their order. */
  lemma {:induction false} OperandsInOrder(op: BinOp, l: Expr, r: Expr, st: State, v: Value)
    ensures Eval(Binary(op, l, r), st) == Some(v) <==>
      exists a, b :: Eval(l, st) == Some(a) && Eval(r, st) == Some(b) && Apply(op, a, b) == Some(v)
  {
  }

  // ---------- stores ----------

  /** A stored variable reads as stored, and nothing else changes. */
  lemma {:induction false} NameReadsBack(x: string, v: Value, st: State)
    ensures Put(Name(x), v, st).Some?
    ensures var t := Put(Name(x), v, st).value;
      t.heap == st.heap && forall y :: Eval(Var(y), t) == if y == x then Some(v) else Eval(Var(y), st)
  {
  }

  /** A store to an element changes that one cell; it is defined if there is such an element. */
  lemma {:induction false} ElementReadsBack(arr: Expr, idx: Expr, v: Value, st: State)
    ensures Put(Element(arr, idx), v, st).Some? <==> exists r: nat, k: I64 :: Denotes(arr, idx, st, r, k)
    ensures forall r: nat, k: I64 | Denotes(arr, idx, st, r, k) ::
      var t := Put(Element(arr, idx), v, st).value;
      && t.vars == st.vars && t.heap.Keys == st.heap.Keys
      && (forall q | q in st.heap :: |t.heap[q]| == |st.heap[q]|)
      && (forall q, j | q in st.heap && 0 <= j < |st.heap[q]| ::
            t.heap[q][j] == if q == r && j == k then v else st.heap[q][j])
  {
    if Put(Element(arr, idx), v, st).Some? {
      assert Denotes(arr, idx, st, Eval(arr, st).value.addr, Eval(idx, st).value.n);
    }
  }
}
