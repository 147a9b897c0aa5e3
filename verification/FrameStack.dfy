/** The evaluator's environment seen as a stack of variable maps, top first, and its pointers. */
module FrameStack {
  /** A stored value; `ty` identifies its type object. */
  datatype Typed = Typed(ty: nat, val: int)

  datatype Level = Level(id: nat, vars: map<string, Typed>)

  /** `next` is the id of the next frame to be pushed. */
  datatype Env = Env(stack: seq<Level>, next: nat)

  /** Ids fall strictly towards the root, which has id 0, and all are below the next one. */
  predicate WellFormed(e: Env) {
    && e.stack != []
    && (forall i | 0 <= i < |e.stack| - 1 :: e.stack[i].id > e.stack[i + 1].id)
    && e.stack[|e.stack| - 1].id == 0
    && e.stack[0].id < e.next
  }

  const ROOT := Level(0, map[])
  const INITIAL := Env([ROOT], 1)

  /** Index of the first level that binds `x`, or the height of the stack. */
  function Find(s: seq<Level>, x: string): (i: nat)
    ensures i <= |s|
    ensures i < |s| ==> x in s[i].vars
    ensures forall j | 0 <= j < i :: x !in s[j].vars
  {
    if s == [] || x in s[0].vars then 0
    else
      var i := Find(s[1..], x);
      assert forall j | 1 <= j < i + 1 :: s[j] == s[1..][j - 1];
      i + 1
  }

  /** Index of the level with the given id, or the height of the stack. */
  function FindFrame(s: seq<Level>, id: nat): (i: nat)
    ensures i <= |s|
    ensures i < |s| ==> s[i].id == id
    ensures forall j | 0 <= j < i :: s[j].id != id
  {
    if s == [] || s[0].id == id then 0
    else
      var i := FindFrame(s[1..], id);
      assert forall j | 1 <= j < i + 1 :: s[j] == s[1..][j - 1];
      i + 1
  }

  predicate Live(e: Env, id: nat) {
    FindFrame(e.stack, id) < |e.stack|
  }

  function Bind(s: seq<Level>, i: nat, x: string, v: Typed): seq<Level>
    requires i < |s|
  {
    s[i := Level(s[i].id, s[i].vars[x := v])]
  }

  datatype Lookup = Found(v: Typed) | Undefined | Dangling

  /** Reading by name: the innermost binding. */
  function Get(e: Env, x: string): Lookup {
    var i := Find(e.stack, x);
    if i < |e.stack| then Found(e.stack[i].vars[x]) else Undefined
  }

  /** Reading through a pointer, which is a frame id and a name. */
  function GetAt(e: Env, id: nat, x: string): Lookup {
    var i := FindFrame(e.stack, id);
    if i == |e.stack| then Dangling
    else if x in e.stack[i].vars then Found(e.stack[i].vars[x])
    else Undefined
  }

  datatype Op =
    | Push
    | Pop
    | ClearAll
    | Set(x: string, v: Typed)
    | SetCurrent(x: string, v: Typed)
    | SetAt(id: nat, x: string, v: Typed)

  function Apply(op: Op, e: Env): Env
    requires e.stack != []
  {
    match op
    case Push => Env([Level(e.next, map[])] + e.stack, e.next + 1)
    case Pop => if |e.stack| == 1 then Env([Level(e.stack[0].id, map[])], e.next) else Env(e.stack[1..], e.next)
    case ClearAll => Env([ROOT], e.next)
    case Set(x, v) =>
      var i := Find(e.stack, x);
      Env(Bind(e.stack, if i < |e.stack| then i else 0, x, v), e.next)
    case SetCurrent(x, v) => Env(Bind(e.stack, 0, x, v), e.next)
    case SetAt(id, x, v) =>
      var at := GetAt(e, id, x);
      if at.Found? && at.v.ty == v.ty then Env(Bind(e.stack, FindFrame(e.stack, id), x, v), e.next) else e
  }

  function Run(e: Env, ops: seq<Op>): Env
    requires WellFormed(e)
    decreases |ops|
  {
    if ops == [] then e
    else
      ApplyKeeps(ops[0], e);
      Run(Apply(ops[0], e), ops[1..])
  }

  lemma {:induction false} ApplyKeeps(op: Op, e: Env)
    requires WellFormed(e)
    ensures WellFormed(Apply(op, e)) && e.next <= Apply(op, e).next
  {
    if op.Pop? && |e.stack| > 1 {
      IdsFall(e, 0, 1);
    }
  }

  /** Every run keeps the order of the ids. */
  lemma {:induction false} RunKeeps(e: Env, ops: seq<Op>)
    requires WellFormed(e)
    ensures WellFormed(Run(e, ops)) && e.next <= Run(e, ops).next
    decreases |ops|
  {
    if ops != [] {
      ApplyKeeps(ops[0], e);
      RunKeeps(Apply(ops[0], e), ops[1..]);
    }
  }

  lemma {:induction false} IdsFall(e: Env, i: nat, j: nat)
    requires WellFormed(e) && i < j < |e.stack|
    ensures e.stack[i].id > e.stack[j].id
    decreases j - i
  {
    if i + 1 < j {
      IdsFall(e, i + 1, j);
    }
  }

  lemma {:induction false} FrameAt(e: Env, i: nat)
    requires WellFormed(e) && i < |e.stack|
    ensures FindFrame(e.stack, e.stack[i].id) == i
  {
    var j := FindFrame(e.stack, e.stack[i].id);
    if j < i {
      IdsFall(e, j, i);
    }
  }

  // ---------- pointers ----------

  /** The pointer a program takes to a variable leads to the binding that its name leads to. */
  lemma {:induction false} PointerMeetsName(e: Env, x: string)
    requires WellFormed(e) && Get(e, x).Found?
    ensures GetAt(e, e.stack[Find(e.stack, x)].id, x) == Get(e, x)
  {
    FrameAt(e, Find(e.stack, x));
  }

  /** The levels of the new stack: each is new, the root, or comes from an old one. */
  lemma {:induction false} NoOldIdReturns(op: Op, e: Env, i: nat)
    requires WellFormed(e) && i < |Apply(op, e).stack|
    ensures var id := Apply(op, e).stack[i].id; id == e.next || id == 0 || Live(e, id)
  {
    var f := Apply(op, e);
    match op
    case Push => if i > 0 { FrameAt(e, i - 1); }
    case Pop => if |e.stack| > 1 { FrameAt(e, i + 1); }
    case ClearAll =>
    case _ => FrameAt(e, i);
  }

  lemma {:induction false} DeadStaysDeadOnce(op: Op, e: Env, id: nat)
    requires WellFormed(e) && !Live(e, id) && id < e.next
    ensures !Live(Apply(op, e), id)
  {
    FrameAt(e, |e.stack| - 1);
    var f := Apply(op, e);
    var i := FindFrame(f.stack, id);
    if i < |f.stack| {
      NoOldIdReturns(op, e, i);
    }
  }

  /** A pointer into a frame that is gone dangles in every later state. */
  lemma {:induction false} DeadStaysDead(e: Env, ops: seq<Op>, id: nat)
    requires WellFormed(e) && !Live(e, id) && id < e.next
    ensures !Live(Run(e, ops), id) && forall x :: GetAt(Run(e, ops), id, x) == Dangling
    decreases |ops|
  {
    if ops != [] {
      ApplyKeeps(ops[0], e);
      DeadStaysDeadOnce(ops[0], e, id);
      DeadStaysDead(Apply(ops[0], e), ops[1..], id);
    }
  }

  /** Popping a frame kills exactly the pointers into it; the root is never popped. */
  lemma {:induction false} PopKills(e: Env, id: nat)
    requires WellFormed(e) && Live(e, id)
    ensures !Live(Apply(Pop, e), id) <==> id == e.stack[0].id && id != 0
  {
    ApplyKeeps(Pop, e);
    var f := Apply(Pop, e);
    var i := FindFrame(e.stack, id);
    if |e.stack| > 1 {
      IdsFall(e, 0, |e.stack| - 1);
      if i == 0 {
        TopIsGone(e);
      } else {
        FrameAt(f, i - 1);
        IdsFall(e, 0, i);
      }
    }
  }

  lemma {:induction false} TopIsGone(e: Env)
    requires WellFormed(e) && |e.stack| > 1
    ensures !Live(Apply(Pop, e), e.stack[0].id)
  {
    var i := FindFrame(e.stack[1..], e.stack[0].id);
    if i < |e.stack| - 1 {
      IdsFall(e, 0, i + 1);
    }
  }

  lemma {:induction false} BindKeeps(s: seq<Level>, k: nat, x: string, v: Typed, i: nat)
    requires k < |s| && i < |s|
    ensures Bind(s, k, x, v)[i].id == s[i].id
    ensures s[i].vars.Keys <= Bind(s, k, x, v)[i].vars.Keys
    ensures i != k || x in s[k].vars ==> Bind(s, k, x, v)[i].vars.Keys == s[i].vars.Keys
  {
  }

  /** Where a level is after an operation that keeps it. */
  function Moved(op: Op, i: int): int {
    if op.Push? then i + 1 else if op.Pop? then i - 1 else i
  }

  predicate Keeps(op: Op, e: Env, i: nat) {
    i < |e.stack| && !op.ClearAll? && !(op.Pop? && i == 0)
  }

  /** A level that stays loses no variable, and gains one only if it is the top. */
  lemma {:induction false} LevelStays(op: Op, e: Env, i: nat)
    requires WellFormed(e) && Keeps(op, e, i)
    ensures var f := Apply(op, e); var j := Moved(op, i);
      && 0 <= j < |f.stack| && f.stack[j].id == e.stack[i].id
      && e.stack[i].vars.Keys <= f.stack[j].vars.Keys
      && (i >= 1 ==> f.stack[j].vars.Keys == e.stack[i].vars.Keys)
  {
    match op
    case Push =>
    case Pop =>
    case Set(x, v) =>
      var k := Find(e.stack, x);
      BindKeeps(e.stack, if k < |e.stack| then k else 0, x, v, i);
    case SetCurrent(x, v) =>
      BindKeeps(e.stack, 0, x, v, i);
    case SetAt(id, x, v) =>
      var at := GetAt(e, id, x);
      if at.Found? && at.v.ty == v.ty {
        BindKeeps(e.stack, FindFrame(e.stack, id), x, v, i);
      }
  }

  /** Apart from clearing everything, no operation changes which variables a frame below the top has. */
  lemma {:induction false} KeysBelowTopStay(op: Op, e: Env, i: nat)
    requires WellFormed(e) && 1 <= i < |e.stack| && !op.ClearAll?
    ensures var f := Apply(op, e); var j := FindFrame(f.stack, e.stack[i].id);
      j < |f.stack| && f.stack[j].vars.Keys == e.stack[i].vars.Keys
  {
    ApplyKeeps(op, e);
    LevelStays(op, e, i);
    FrameAt(Apply(op, e), Moved(op, i));
  }

  /** A pointer that works keeps working as long as its frame is neither popped nor cleared. */
  lemma {:induction false} PointerStays(op: Op, e: Env, id: nat, x: string)
    requires WellFormed(e) && GetAt(e, id, x).Found? && Keeps(op, e, FindFrame(e.stack, id))
    ensures GetAt(Apply(op, e), id, x).Found?
  {
    var i := FindFrame(e.stack, id);
    ApplyKeeps(op, e);
    LevelStays(op, e, i);
    FrameAt(Apply(op, e), Moved(op, i));
  }

  /** Clearing leaves no frame but the root. */
  lemma {:induction false} ClearKills(e: Env, id: nat)
    requires WellFormed(e) && id != 0
    ensures !Live(Apply(ClearAll, e), id)
  {
  }

  /**
   Clearing does not reset the ids, but the root keeps its own.  A pointer from before finds a
   binding in some later run exactly if it points into the root; then it finds, say, a new
   variable of the same name.
   */
  lemma {:induction false} RootPointerRevives(e: Env, id: nat, x: string)
    requires WellFormed(e) && id < e.next
    ensures (exists ops :: GetAt(Run(e, [ClearAll] + ops), id, x).Found?) <==> id == 0
  {
    var f := Apply(ClearAll, e);
    ApplyKeeps(ClearAll, e);
    forall ops
      ensures Run(e, [ClearAll] + ops) == Run(f, ops)
    {
      assert ([ClearAll] + ops)[1..] == ops;
    }
    if id != 0 {
      ClearKills(e, id);
      forall ops
        ensures GetAt(Run(e, [ClearAll] + ops), id, x) == Dangling
      {
        DeadStaysDead(f, ops, id);
      }
    } else {
      var v := Typed(0, 0);
      assert [SetCurrent(x, v)][1..] == [];
      assert Run(f, [SetCurrent(x, v)]) == Apply(SetCurrent(x, v), f);
      assert GetAt(Run(e, [ClearAll] + [SetCurrent(x, v)]), id, x) == Found(v);
    }
  }

  // ---------- what can be read after an operation ----------

  /** The youngest frame that binds `x`; ids grow with the stack. */
  ghost predicate Innermost(e: Env, id: nat, x: string) {
    GetAt(e, id, x).Found? && forall j: nat | GetAt(e, j, x).Found? :: j <= id
  }

  lemma {:induction false} FindIsInnermost(e: Env, x: string)
    requires WellFormed(e) && Find(e.stack, x) < |e.stack|
    ensures Innermost(e, e.stack[Find(e.stack, x)].id, x)
  {
    var i := Find(e.stack, x);
    FrameAt(e, i);
    forall j: nat | GetAt(e, j, x).Found?
      ensures j <= e.stack[i].id
    {
      var k := FindFrame(e.stack, j);
      if i < k {
        IdsFall(e, i, k);
      }
    }
  }

  /** Reading by name is reading the youngest frame that binds the name. */
  lemma {:induction false} NameReadsInnermost(e: Env, x: string)
    requires WellFormed(e)
    ensures forall id: nat | Innermost(e, id, x) :: Get(e, x) == GetAt(e, id, x)
    ensures Get(e, x) == Undefined <==> forall id: nat :: !GetAt(e, id, x).Found?
    ensures Get(e, x) != Dangling && (Get(e, x).Found? ==> exists id: nat :: Innermost(e, id, x))
  {
    var i := Find(e.stack, x);
    if i < |e.stack| {
      FindIsInnermost(e, x);
      FrameAt(e, i);
    }
  }

  /** One binding is stored; every other one, every frame and the next id stay. */
  ghost predicate Stores(e: Env, f: Env, id: nat, x: string, v: Typed) {
    && GetAt(f, id, x) == Found(v)
    && (forall j: nat, y: string | j != id || y != x :: GetAt(f, j, y) == GetAt(e, j, y))
    && f.next == e.next && |f.stack| == |e.stack|
    && forall i | 0 <= i < |e.stack| :: f.stack[i].id == e.stack[i].id
  }

  lemma {:induction false} SameIds(s: seq<Level>, t: seq<Level>, id: nat)
    requires |s| == |t| && forall i | 0 <= i < |s| :: s[i].id == t[i].id
    ensures FindFrame(s, id) == FindFrame(t, id)
  {
    if s != [] && s[0].id != id {
      SameIds(s[1..], t[1..], id);
    }
  }

  lemma {:induction false} BindStores(e: Env, i: nat, x: string, v: Typed)
    requires WellFormed(e) && i < |e.stack|
    ensures Stores(e, Env(Bind(e.stack, i, x, v), e.next), e.stack[i].id, x, v)
  {
    var f := Env(Bind(e.stack, i, x, v), e.next);
    FrameAt(e, i);
    SameIds(f.stack, e.stack, e.stack[i].id);
    forall j: nat, y: string | j != e.stack[i].id || y != x
      ensures GetAt(f, j, y) == GetAt(e, j, y)
    {
      SameIds(f.stack, e.stack, j);
    }
  }

  /** Assigning a name stores in the youngest frame that binds it, or in the top if none does. */
  lemma {:induction false} SetStores(e: Env, x: string, v: Typed)
    requires WellFormed(e)
    ensures forall id: nat | Innermost(e, id, x) :: Stores(e, Apply(Set(x, v), e), id, x, v)
    ensures (forall id: nat :: !GetAt(e, id, x).Found?) ==> Stores(e, Apply(Set(x, v), e), e.stack[0].id, x, v)
  {
    var i := Find(e.stack, x);
    if i < |e.stack| {
      FindIsInnermost(e, x);
      BindStores(e, i, x, v);
    } else {
      BindStores(e, 0, x, v);
    }
  }

  /** Declaring a name stores in the top frame. */
  lemma {:induction false} SetCurrentStores(e: Env, x: string, v: Typed)
    requires WellFormed(e)
    ensures Stores(e, Apply(SetCurrent(x, v), e), e.stack[0].id, x, v)
    ensures forall j: nat | Live(e, j) :: j <= e.stack[0].id
  {
    BindStores(e, 0, x, v);
    forall j: nat | Live(e, j)
      ensures j <= e.stack[0].id
    {
      if FindFrame(e.stack, j) > 0 {
        IdsFall(e, 0, FindFrame(e.stack, j));
      }
    }
  }

  /** Writing through a pointer stores what has the type of what is there, and does nothing otherwise. */
  lemma {:induction false} SetAtStores(e: Env, id: nat, x: string, v: Typed)
    requires WellFormed(e)
    ensures if exists w :: GetAt(e, id, x) == Found(w) && w.ty == v.ty
            then Stores(e, Apply(SetAt(id, x, v), e), id, x, v)
            else Apply(SetAt(id, x, v), e) == e
  {
    var at := GetAt(e, id, x);
    if at.Found? && at.v.ty == v.ty {
      BindStores(e, FindFrame(e.stack, id), x, v);
    }
  }

  /** What pointers read after a frame came or went: only those into it change. */
  lemma {:induction false} FramesRead(e: Env, id: nat, x: string)
    requires WellFormed(e)
    ensures GetAt(Apply(Push, e), id, x) == if id == e.next then Undefined else GetAt(e, id, x)
    ensures GetAt(Apply(Pop, e), id, x)
         == if id != e.stack[0].id then GetAt(e, id, x) else if id == 0 then Undefined else Dangling
    ensures GetAt(Apply(ClearAll, e), id, x) == if id == 0 then Undefined else Dangling
  {
    var f := Apply(Push, e);
    assert f.stack[1..] == e.stack;
    if |e.stack| > 1 {
      IdsFall(e, 0, |e.stack| - 1);
      if id == e.stack[0].id {
        TopIsGone(e);
      }
    }
  }

  /** After an assignment the name reads what was assigned, and every other name what it read before. */
  lemma {:induction false} SetReadsBack(e: Env, x: string, v: Typed, y: string)
    requires WellFormed(e)
    ensures Get(Apply(Set(x, v), e), y) == if y == x then Found(v) else Get(e, y)
    ensures Get(Apply(SetCurrent(x, v), e), y) == if y == x then Found(v) else Get(e, y)
  {
    var i := Find(e.stack, x);
    BindReads(e.stack, if i < |e.stack| then i else 0, x, v, y);
    BindReads(e.stack, 0, x, v, y);
  }

  lemma {:induction false} BindReads(s: seq<Level>, i: nat, x: string, v: Typed, y: string)
    requires i < |s| && i <= Find(s, x)
    ensures Find(Bind(s, i, x, v), y) == if y == x then i else Find(s, y)
  {
    var t := Bind(s, i, x, v);
    if i == 0 {
      assert t[1..] == s[1..];
    } else {
      assert t[1..] == Bind(s[1..], i - 1, x, v);
      BindReads(s[1..], i - 1, x, v, y);
    }
  }

  /** A block that assigns an outer variable changes it for good. */
  lemma {:induction false} OuterAssignmentStays(e: Env, x: string, v: Typed)
    requires WellFormed(e) && Get(e, x).Found?
    ensures Get(Run(e, [Push, Set(x, v), Pop]), x) == Found(v)
    ensures Run(e, [Push, Set(x, v), Pop]).stack == Apply(Set(x, v), e).stack
  {
    var f := Apply(Push, e);
    RunBlock(e, Set(x, v));
    assert f.stack[1..] == e.stack;
    assert Apply(Set(x, v), f).stack[1..] == Apply(Set(x, v), e).stack;
    SetReadsBack(e, x, v, x);
  }

  /** A block that declares a variable leaves nothing behind. */
  lemma {:induction false} BlockDeclarationGoes(e: Env, x: string, v: Typed)
    requires WellFormed(e)
    ensures Run(e, [Push, SetCurrent(x, v), Pop]).stack == e.stack
  {
    RunBlock(e, SetCurrent(x, v));
    assert Apply(Push, e).stack[1..] == e.stack;
    assert Apply(SetCurrent(x, v), Apply(Push, e)).stack[1..] == e.stack;
  }

  lemma {:induction false} RunBlock(e: Env, op: Op)
    requires WellFormed(e) && (op.Set? || op.SetCurrent?)
    ensures Run(e, [Push, op, Pop]) == Apply(Pop, Apply(op, Apply(Push, e)))
  {
    var f := Apply(Push, e);
    ApplyKeeps(Push, e);
    ApplyKeeps(op, f);
    assert [Push, op, Pop][1..] == [op, Pop];
    assert [op, Pop][1..] == [Pop];
    assert Run(Apply(op, f), [Pop]) == Apply(Pop, Apply(op, f));
  }
}
