/** Inference of list types: the checker accepts rectangular literals and locks their sizes. */
module ListShape {
  import opened Wrappers

  datatype Literal = Num(isFloat: bool) | Str | Bool | Char | List(elements: seq<Literal>)

  datatype BaseType = I32 | F32 | Strings | Boolean | Character

  /** A list type that is still being inferred has no element type or no size (0). */
  datatype Type = Base(b: BaseType) | ListOf(inner: Option<Type>, size: nat)

  predicate IsNumeric(t: Type) {
    t.Base? && (t.b == I32 || t.b == F32)
  }

  /** Follows two types down; they must have the same base and size at every depth. */
  predicate TypesMatch(l: Option<Type>, r: Option<Type>)
    decreases l
  {
    match (l, r)
    case (Some(Base(a)), Some(Base(b))) => a == b
    case (Some(ListOf(i, m)), Some(ListOf(j, n))) => m == n && TypesMatch(i, j)
    case (None, None) => true
    case _ => false
  }

  /** `ok` means that no error was reported. */
  datatype Checked = Checked(ty: Option<Type>, ok: bool)

  // ---------- the checker ----------

  function CheckNum(isFloat: bool, hint: Option<Type>): Type {
    match hint
    case Some(ListOf(Some(t), _)) => if IsNumeric(t) then t else Base(if isFloat then F32 else I32)
    case Some(t) => if IsNumeric(t) then t else Base(if isFloat then F32 else I32)
    case None => Base(if isFloat then F32 else I32)
  }

  /** A number takes the numeric type it is checked against, or that of the elements of the list type. */
  lemma {:induction false} NumberTakesHint(isFloat: bool, t: Type, size: nat)
    ensures IsNumeric(t) ==> CheckNum(isFloat, Some(t)) == t == CheckNum(isFloat, Some(ListOf(Some(t), size)))
    ensures CheckNum(isFloat, None) == CheckNum(isFloat, Some(ListOf(None, size))) == Base(if isFloat then F32 else I32)
    ensures t.Base? && !IsNumeric(t) ==> CheckNum(isFloat, Some(t)) == Base(if isFloat then F32 else I32)
  {
  }

  function CheckExpr(l: Literal, hint: Option<Type>): Checked
    decreases l, 1
  {
    match l
    case Num(f) => Checked(Some(CheckNum(f, hint)), true)
    case Str => Checked(Some(Base(Strings)), true)
    case Bool => Checked(Some(Base(Boolean)), true)
    case Char => Checked(Some(Base(Character)), true)
    case List(es) => ListHandle(es, hint)
  }

  /** The element type after all elements, or None if one did not match. */
  function ListHandle(es: seq<Literal>, target: Option<Type>): Checked
    decreases es, 1
  {
    if target.Some? && target.value.Base? then Checked(None, true)
    else
      var r := Elements(es, if target.None? then None else target.value.inner);
      if r.None? then Checked(None, false)
      else Finish(|es|, if target.None? then 0 else target.value.size, r.value)
  }

  /** Checks on the counts, and the size lock. */
  function Finish(count: nat, size: nat, r: Checked): Checked {
    if count == 0 then Checked(None, false)
    else if size != 0 && size != count then Checked(None, false)
    else Checked(Some(ListOf(r.ty, count)), r.ok)
  }

  function Elements(es: seq<Literal>, expected: Option<Type>): Option<Checked>
    decreases es, 0
  {
    if es == [] then Some(Checked(expected, true))
    else
      var one := OneElement(es[0], expected);
      if one.None? then None
      else
        var rest := Elements(es[1..], one.value.ty);
        if rest.None? then None else Some(Checked(rest.value.ty, one.value.ok && rest.value.ok))
  }

  /**
   The first element gives the element type and is then checked against it like the others.
   A nested list shares its type object with the element type, so a size it locks is locked
   for its neighbours too.
   */
  function OneElement(e: Literal, expected: Option<Type>): Option<Checked>
    decreases e, 2
  {
    var first := if expected.None? then CheckExpr(e, None) else Checked(expected, true);
    var again := CheckExpr(e, first.ty);
    var want := if e.List? && first.ty.Some? && first.ty.value.ListOf? && again.ty.Some? then again.ty else first.ty;
    if TypesMatch(want, again.ty) then Some(Checked(want, first.ok && again.ok)) else None
  }

  // ---------- the same by loops ----------

  method CheckExprLoop(l: Literal, hint: Option<Type>) returns (r: Checked)
    ensures r == CheckExpr(l, hint)
    decreases l, 1
  {
    match l
    case Num(f) => r := Checked(Some(CheckNum(f, hint)), true);
    case Str => r := Checked(Some(Base(Strings)), true);
    case Bool => r := Checked(Some(Base(Boolean)), true);
    case Char => r := Checked(Some(Base(Character)), true);
    case List(es) => r := ListHandleLoop(es, hint);
  }

  method ListHandleLoop(es: seq<Literal>, target: Option<Type>) returns (r: Checked)
    ensures r == ListHandle(es, target)
    decreases es, 0
  {
    var inner: Option<Type>, size := None, 0;
    if target.Some? {
      if target.value.Base? {
        return Checked(None, true);
      }
      inner, size := target.value.inner, target.value.size;
    }
    ghost var all := Elements(es, inner);
    var ok := true;
    var count := 0;
    while count < |es|
      invariant count <= |es|
      invariant all == var rest := Elements(es[count..], inner);
        if rest.None? then None else Some(Checked(rest.value.ty, ok && rest.value.ok))
    {
      assert es[count..][1..] == es[count + 1..];
      var e := es[count];
      var again: Checked;
      if inner.None? {
        var first := CheckExprLoop(e, None);
        inner, ok := first.ty, ok && first.ok;
        again := CheckExprLoop(e, inner);
      } else {
        again := CheckExprLoop(e, inner);
      }
      if e.List? && inner.Some? && inner.value.ListOf? && again.ty.Some? {
        inner := again.ty;
      }
      if !TypesMatch(inner, again.ty) {
        return Checked(None, false);
      }
      ok := ok && again.ok;
      count := count + 1;
    }
    assert es[count..] == [];
    r := Finish(count, size, Checked(inner, ok));
  }

  // ---------- rectangular literals ----------

  datatype Kind = NumberKind | TextKind | BoolKind | CharKind

  function KindOf(b: BaseType): Kind {
    match b
    case Strings => TextKind
    case Boolean => BoolKind
    case Character => CharKind
    case _ => NumberKind
  }

  /** `l` has `dims[0]` elements, each of them `dims[1]`, and so on down to scalars of one kind. */
  predicate HasShape(l: Literal, dims: seq<nat>, kind: Kind)
    decreases l
  {
    match l
    case Num(_) => dims == [] && kind == NumberKind
    case Str => dims == [] && kind == TextKind
    case Bool => dims == [] && kind == BoolKind
    case Char => dims == [] && kind == CharKind
    case List(es) =>
      dims != [] && |es| == dims[0] && dims[0] > 0 && forall i | 0 <= i < |es| :: HasShape(es[i], dims[1..], kind)
  }

  /** The type of that shape: every size is the number of elements there. */
  function TypeOf(dims: seq<nat>, b: BaseType): Type {
    if dims == [] then Base(b) else ListOf(Some(TypeOf(dims[1..], b)), dims[0])
  }

  /** The base type of the first scalar. */
  function Leftmost(l: Literal): BaseType {
    match l
    case Num(f) => if f then F32 else I32
    case Str => Strings
    case Bool => Boolean
    case Char => Character
    case List(es) => if es == [] then I32 else Leftmost(es[0])
  }

  lemma {:induction false} ShapeUnique(l: Literal, d1: seq<nat>, k1: Kind, d2: seq<nat>, k2: Kind)
    requires HasShape(l, d1, k1) && HasShape(l, d2, k2)
    ensures d1 == d2 && k1 == k2
    decreases l
  {
    if l.List? {
      ShapeUnique(l.elements[0], d1[1..], k1, d2[1..], k2);
      assert d1 == [d1[0]] + d1[1..] && d2 == [d2[0]] + d2[1..];
    }
  }

  lemma {:induction false} ShapeKind(l: Literal, dims: seq<nat>, kind: Kind)
    requires HasShape(l, dims, kind)
    ensures KindOf(Leftmost(l)) == kind
  {
    if l.List? {
      ShapeKind(l.elements[0], dims[1..], kind);
    }
  }

  lemma {:induction false} MatchesItself(t: Type)
    ensures TypesMatch(Some(t), Some(t))
  {
    if t.ListOf? && t.inner.Some? {
      MatchesItself(t.inner.value);
    }
  }

  predicate Good(c: Checked, t: Type) {
    c.ok && TypesMatch(Some(t), c.ty)
  }

  /** Sizes that a shape may have. */
  predicate Positive(dims: seq<nat>) {
    forall i | 0 <= i < |dims| :: dims[i] > 0
  }

  /** Against a complete type the checker accepts exactly the literals of its shape. */
  lemma {:induction false} HintedIff(l: Literal, dims: seq<nat>, b: BaseType)
    requires Positive(dims)
    ensures Good(CheckExpr(l, Some(TypeOf(dims, b))), TypeOf(dims, b)) <==> HasShape(l, dims, KindOf(b))
    ensures HasShape(l, dims, KindOf(b)) ==> CheckExpr(l, Some(TypeOf(dims, b))) == Checked(Some(TypeOf(dims, b)), true)
    ensures l.List? && dims != [] && CheckExpr(l, Some(TypeOf(dims, b))).ok ==> HasShape(l, dims, KindOf(b))
    decreases l, 1
  {
    MatchesItself(TypeOf(dims, b));
    if l.List? && dims != [] {
      HintedElements(l.elements, dims[1..], b);
    }
  }

  lemma {:induction false} HintedOne(e: Literal, dims: seq<nat>, b: BaseType)
    requires Positive(dims)
    ensures var r := OneElement(e, Some(TypeOf(dims, b)));
      (r.Some? && r.value.ok <==> HasShape(e, dims, KindOf(b)))
      && (r.Some? ==> r.value.ty == Some(TypeOf(dims, b)) || !r.value.ok)
    decreases e, 2
  {
    HintedIff(e, dims, b);
    MatchesItself(TypeOf(dims, b));
  }

  lemma {:induction false} HintedElements(es: seq<Literal>, dims: seq<nat>, b: BaseType)
    requires Positive(dims)
    ensures var r := Elements(es, Some(TypeOf(dims, b)));
      (r.Some? && r.value.ok <==> forall i | 0 <= i < |es| :: HasShape(es[i], dims, KindOf(b)))
      && (r.Some? && r.value.ok ==> r.value.ty == Some(TypeOf(dims, b)))
    decreases es, 0
  {
    if es != [] {
      HintedOne(es[0], dims, b);
      HintedElements(es[1..], dims, b);
      assert forall i | 1 <= i < |es| :: es[i] == es[1..][i - 1];
    }
  }

  /** The whole of what inference does to a literal of one shape. */
  lemma {:induction false} InferredType(l: Literal, dims: seq<nat>, kind: Kind)
    requires HasShape(l, dims, kind)
    ensures Positive(dims) && CheckExpr(l, None) == Checked(Some(TypeOf(dims, Leftmost(l))), true)
    decreases l
  {
    if l.List? {
      var es, inner := l.elements, dims[1..];
      InferredType(es[0], inner, kind);
      ShapeKind(es[0], inner, kind);
      assert Positive(dims) by {
        assert forall i | 1 <= i < |dims| :: dims[i] == inner[i - 1];
      }
      InferredElements(es, inner, Leftmost(es[0]));
    }
  }

  lemma {:induction false} InferredElements(es: seq<Literal>, dims: seq<nat>, b: BaseType)
    requires es != [] && Positive(dims) && CheckExpr(es[0], None) == Checked(Some(TypeOf(dims, b)), true)
    ensures var r := Elements(es, None);
      (r.Some? && r.value.ok <==> forall i | 0 <= i < |es| :: HasShape(es[i], dims, KindOf(b)))
      && (r.Some? && r.value.ok ==> r.value.ty == Some(TypeOf(dims, b)))
  {
    HintedOne(es[0], dims, b);
    HintedElements(es[1..], dims, b);
    assert forall i | 1 <= i < |es| :: es[i] == es[1..][i - 1];
  }

  /** A literal the checker accepts without a hint is rectangular. */
  lemma {:induction false} AcceptedHasShape(l: Literal) returns (dims: seq<nat>, kind: Kind)
    requires CheckExpr(l, None).ok
    ensures HasShape(l, dims, kind)
    decreases l
  {
    match l
    case Num(_) => dims, kind := [], NumberKind;
    case Str => dims, kind := [], TextKind;
    case Bool => dims, kind := [], BoolKind;
    case Char => dims, kind := [], CharKind;
    case List(es) =>
      FirstAccepted(es);
      var inner;
      inner, kind := AcceptedHasShape(es[0]);
      InferredType(es[0], inner, kind);
      ShapeKind(es[0], inner, kind);
      InferredElements(es, inner, Leftmost(es[0]));
      dims := [|es|] + inner;
      assert dims[1..] == inner;
  }

  lemma {:induction false} FirstAccepted(es: seq<Literal>)
    requires ListHandle(es, None).ok
    ensures es != [] && CheckExpr(es[0], None).ok
  {
    var r := Elements(es, None);
    assert r.Some? && r.value.ok && es != [];
    assert OneElement(es[0], None).Some? && OneElement(es[0], None).value.ok;
  }

  /**
   Without a hint the checker accepts exactly the non-empty rectangular literals with scalars
   of one kind, and the size it locks at each depth is the number of elements there.
   */
  lemma {:induction false} AcceptedIffRectangular(l: Literal)
    ensures CheckExpr(l, None).ok <==> exists dims, kind :: HasShape(l, dims, kind)
    ensures forall dims, kind | HasShape(l, dims, kind) :: CheckExpr(l, None).ty == Some(TypeOf(dims, Leftmost(l)))
  {
    if CheckExpr(l, None).ok {
      var dims, kind := AcceptedHasShape(l);
      assert HasShape(l, dims, kind);
    }
    forall dims, kind | HasShape(l, dims, kind)
      ensures CheckExpr(l, None) == Checked(Some(TypeOf(dims, Leftmost(l))), true)
    {
      InferredType(l, dims, kind);
    }
  }

  /** The bound a list loop is compiled with is the number of elements of the literal. */
  lemma {:induction false} LockedSizeIsExact(es: seq<Literal>)
    requires CheckExpr(List(es), None).ok
    ensures var t := CheckExpr(List(es), None).ty; t.Some? && t.value.ListOf? && t.value.size == |es|
  {
    var dims, kind := AcceptedHasShape(List(es));
    InferredType(List(es), dims, kind);
  }
}
