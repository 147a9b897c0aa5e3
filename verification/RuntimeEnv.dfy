/**
 The evaluator's environment as it is stored: linked frames that are changed in place.
 Every method is proved to do to the abstract stack what `FrameStack` says.
 */
module RuntimeEnv {
  import opened Wrappers
  import opened FrameStack

  class Frame {
    const id: nat
    const parent: Frame?
    ghost const chain: seq<Frame>
    var vars: map<string, Typed>

    constructor (id: nat, parent: Frame?)
      requires parent == null ==> id == 0
      requires parent != null ==> parent.Linked() && parent.id < id
      ensures Linked() && this.id == id && this.parent == parent && vars == map[]
      ensures chain == [this] + (if parent == null then [] else parent.chain)
    {
      this.id := id;
      this.parent := parent;
      chain := [this] + (if parent == null then [] else parent.chain);
      vars := map[];
    }

    /** `chain` lists this frame and the ones below it; ids fall to the root's 0. */
    ghost predicate Linked()
      decreases |chain|
    {
      && chain != [] && chain[0] == this
      && (parent == null ==> |chain| == 1 && id == 0)
      && (parent != null ==> chain[1..] == parent.chain && parent.id < id && parent.Linked())
    }

    ghost function View(): (s: seq<Level>)
      reads chain
      ensures |s| == |chain| && forall i | 0 <= i < |s| :: s[i] == Level(chain[i].id, chain[i].vars)
    {
      seq(|chain|, i requires 0 <= i < |chain| reads chain => Level(chain[i].id, chain[i].vars))
    }

    lemma {:induction false} Suffixes(i: nat)
      requires Linked() && i < |chain|
      ensures chain[i].Linked() && chain[i].chain == chain[i..]
      ensures chain[i].parent == if i + 1 < |chain| then chain[i + 1] else null
      decreases i
    {
      if i == 0 {
        assert chain[0..] == chain;
        if parent != null {
          assert chain[1] == chain[1..][0] == parent.chain[0];
        }
      } else {
        parent.Suffixes(i - 1);
        assert chain[i] == chain[1..][i - 1] && chain[1..][i - 1..] == chain[i..];
        assert i + 1 < |chain| ==> chain[i + 1] == chain[1..][i];
      }
    }

    lemma {:induction false} IdsFallTo(i: nat, j: nat)
      requires Linked() && i < j < |chain|
      ensures chain[i].id > chain[j].id && chain[i] != chain[j]
      decreases j - i
    {
      Suffixes(i);
      if i + 1 < j {
        IdsFallTo(i + 1, j);
      }
    }

    lemma {:induction false} ViewWellFormed(next: nat)
      requires Linked() && id < next
      ensures WellFormed(Env(View(), next))
    {
      forall i | 0 <= i < |chain| - 1
        ensures View()[i].id > View()[i + 1].id
      {
        IdsFallTo(i, i + 1);
      }
      Suffixes(|chain| - 1);
    }
  }

  class RuntimeEnvironment {
    var top: Frame?
    var nextFrameId: nat
    /** Function definitions, as opaque numbers. */
    var functions: map<string, nat>

    ghost predicate Valid()
      reads this
    {
      nextFrameId >= 1 && (top != null ==> top.Linked() && top.id < nextFrameId)
    }

    ghost function Frames(): set<object>
      reads this
    {
      if top == null then {} else set f | f in top.chain
    }

    /** Without any frame the environment counts as an empty root, which the first access creates. */
    ghost function State(): Env
      reads this, Frames()
    {
      Env(if top == null then [ROOT] else top.View(), nextFrameId)
    }

    constructor ()
      ensures Valid() && State() == INITIAL && functions == map[] && fresh(Frames())
    {
      top := null;
      nextFrameId := 1;
      functions := map[];
    }

    lemma {:induction false} StateWellFormed()
      requires Valid()
      ensures WellFormed(State())
    {
      if top != null {
        top.ViewWellFormed(nextFrameId);
      }
    }

    method Top() returns (f: Frame)
      requires Valid()
      modifies this`top
      ensures Valid() && top == f && State() == old(State()) && nextFrameId == old(nextFrameId)
      ensures if old(top) == null then fresh(f) && f.chain == [f] else f == old(top)
    {
      if top == null {
        top := new Frame(0, null);
        assert top.View() == [ROOT];
      }
      f := top;
    }

    /** A new empty frame above `below`. */
    method Above(below: Frame, id: nat) returns (f: Frame)
      requires below.Linked() && below.id < id
      ensures fresh(f) && f.Linked() && f.id == id && f.chain == [f] + below.chain
      ensures f.View() == [Level(id, map[])] + old(below.View())
    {
      f := new Frame(id, below);
    }

    method Push()
      requires Valid()
      modifies this
      ensures Valid() && State() == Apply(FrameStack.Push, old(State())) && fresh(Frames() - old(Frames()))
      ensures functions == old(functions)
    {
      var id := nextFrameId;
      nextFrameId := nextFrameId + 1;
      var below := Top();
      assert below.View() == old(State()).stack;
      top := Above(below, id);
    }

    method Pop()
      requires Valid()
      modifies this`top, Frames()
      ensures Valid() && State() == Apply(FrameStack.Pop, old(State())) && fresh(Frames() - old(Frames()))
    {
      var f := Top();
      if f.parent == null {
        f.vars := map[];
        assert f.View() == [Level(0, map[])];
      } else {
        assert f.parent.View() == f.View()[1..];
        top := f.parent;
      }
    }

    /** The frames go, and with them the functions; the next id stays. */
    method ClearAll()
      requires Valid()
      modifies this`top, this`functions, Frames()
      ensures Valid() && State() == Apply(FrameStack.ClearAll, old(State())) && fresh(Frames() - old(Frames()))
      ensures functions == map[]
    {
      while top != null && top.parent != null
        invariant Valid() && nextFrameId == old(nextFrameId) && Frames() <= old(Frames())
        decreases if top == null then 0 else |top.chain|
      {
        top := top.parent;
      }
      if top != null {
        top.vars := map[];
        top := null;
      }
      FnClear();
    }

    method FnClear()
      modifies this`functions
      ensures functions == map[]
    {
      functions := map[];
    }

    /** The first definition of a name stays. */
    method FnRegister(name: string, fn: nat) returns (inserted: bool)
      modifies this`functions
      ensures inserted <==> name !in old(functions)
      ensures functions == if inserted then old(functions)[name := fn] else old(functions)
    {
      inserted := name !in functions;
      if inserted {
        functions := functions[name := fn];
      }
    }

    method FnLookup(name: string) returns (fn: Option<nat>)
      ensures fn == if name in functions then Some(functions[name]) else None
    {
      if name in functions {
        return Some(functions[name]);
      }
      fn := None;
    }

    /** The innermost frame that binds `name`. */
    method FindBinding(start: Frame, name: string) returns (f: Frame?)
      requires start.Linked()
      ensures var i := Find(start.View(), name); f == if i < |start.chain| then start.chain[i] else null
    {
      f := start;
      ghost var i := 0;
      while f != null && name !in f.vars
        invariant i <= |start.chain| && f == (if i < |start.chain| then start.chain[i] else null)
        invariant forall j | 0 <= j < i :: name !in start.chain[j].vars
        decreases |start.chain| - i
      {
        start.Suffixes(i);
        f := f.parent;
        i := i + 1;
      }
      FindIs(start.View(), name, i);
    }

    static lemma {:induction false} FindIs(s: seq<Level>, name: string, i: nat)
      requires i <= |s| && (forall j | 0 <= j < i :: name !in s[j].vars) && (i < |s| ==> name in s[i].vars)
      ensures Find(s, name) == i
    {
      var j := Find(s, name);
    }

    method FindFrameById(id: nat) returns (f: Frame?)
      requires Valid()
      modifies this`top
      ensures Valid() && State() == old(State()) && top != null && nextFrameId == old(nextFrameId)
      ensures old(top) != null ==> top == old(top)
      ensures fresh(Frames() - old(Frames()))
      ensures var i := FindFrame(State().stack, id); f == if i < |top.chain| then top.chain[i] else null
    {
      var start := Top();
      f := FindFrameFrom(start, id);
    }

    method FindFrameFrom(start: Frame, id: nat) returns (f: Frame?)
      requires start.Linked()
      ensures var i := FindFrame(start.View(), id); f == if i < |start.chain| then start.chain[i] else null
    {
      f := start;
      ghost var i := 0;
      while f != null && f.id != id
        invariant i <= |start.chain| && f == (if i < |start.chain| then start.chain[i] else null)
        invariant forall j | 0 <= j < i :: start.chain[j].id != id
        decreases |start.chain| - i
      {
        start.Suffixes(i);
        f := f.parent;
        i := i + 1;
      }
      FrameIs(start.View(), id, i);
    }

    static lemma {:induction false} FrameIs(s: seq<Level>, id: nat, i: nat)
      requires i <= |s| && (forall j | 0 <= j < i :: s[j].id != id) && (i < |s| ==> s[i].id == id)
      ensures FindFrame(s, id) == i
    {
      var j := FindFrame(s, id);
    }

    /** Storing in frame `k` changes that level of the stack and no other. */
    method StoreAt(start: Frame, f: Frame, ghost k: nat, name: string, v: Typed)
      requires start.Linked() && k < |start.chain| && start.chain[k] == f
      modifies f
      ensures start.View() == Bind(old(start.View()), k, name, v)
    {
      f.vars := f.vars[name := v];
      forall j | 0 <= j < |start.chain| && j != k
        ensures start.chain[j] != f
      {
        if j < k {
          start.IdsFallTo(j, k);
        } else {
          start.IdsFallTo(k, j);
        }
      }
    }

    method SetCurrent(name: string, v: Typed)
      requires Valid()
      modifies this`top, Frames()
      ensures Valid() && State() == Apply(FrameStack.SetCurrent(name, v),
              old(State())) && fresh(Frames() - old(Frames()))
    {
      var f := Top();
      StoreAt(f, f, 0, name, v);
    }

    method Set(name: string, v: Typed)
      requires Valid()
      modifies this`top, Frames()
      ensures Valid() && State() == Apply(FrameStack.Set(name, v), old(State())) && fresh(Frames() - old(Frames()))
    {
      var start := Top();
      var f := FindBinding(start, name);
      if f != null {
        StoreAt(start, f, Find(start.View(), name), name, v);
        return;
      }
      StoreAt(start, start, 0, name, v);
    }

    method GetRef(name: string) returns (r: Lookup)
      requires Valid()
      modifies this`top
      ensures Valid() && State() == old(State()) && r == Get(State(), name) && fresh(Frames() - old(Frames()))
    {
      var start := Top();
      var f := FindBinding(start, name);
      if f != null {
        return Found(f.vars[name]);
      }
      r := Undefined;
    }

    /** None stands for the failure -1. */
    method FrameIdOf(name: string) returns (id: Option<nat>)
      requires Valid()
      modifies this`top
      ensures Valid() && State() == old(State()) && fresh(Frames() - old(Frames()))
      ensures var s := State().stack; var i := Find(s, name); id == if i < |s| then Some(s[i].id) else None
    {
      var start := Top();
      var f := FindBinding(start, name);
      if f != null {
        return Some(f.id);
      }
      id := None;
    }

    method GetRefAt(id: nat, name: string) returns (r: Lookup)
      requires Valid()
      modifies this`top
      ensures Valid() && State() == old(State()) && r == GetAt(State(), id, name) && fresh(Frames() - old(Frames()))
    {
      var f := FindFrameById(id);
      if f == null {
        return Dangling;
      }
      if name !in f.vars {
        return Undefined;
      }
      r := Found(f.vars[name]);
    }

    method SetAt(id: nat, name: string, v: Typed)
      requires Valid()
      modifies this, Frames()
      ensures functions == old(functions)
      ensures Valid() && State() == Apply(FrameStack.SetAt(id, name, v),
              old(State())) && fresh(Frames() - old(Frames()))
    {
      var f := FindFrameById(id);
      ghost var i := FindFrame(State().stack, id);
      assert State() == old(State()) && (f != null ==> State().stack[i] == Level(f.id, f.vars));
      if f == null || name !in f.vars || f.vars[name].ty != v.ty {
        return;
      }
      StoreAt(top, f, i, name, v);
    }

    /** The pointer taken to a name reads what the name reads. */
    method GetThroughPointer(name: string) returns (byName: Lookup, byPointer: Lookup)
      requires Valid()
      modifies this`top
      ensures Valid() && State() == old(State())
      ensures byName.Found? ==> byPointer == byName
    {
      byName := GetRef(name);
      var id := FrameIdOf(name);
      if id.None? {
        return byName, Undefined;
      }
      byPointer := GetRefAt(id.value, name);
      if byName.Found? {
        StateWellFormed();
        PointerMeetsName(State(), name);
      }
    }
  }
}
