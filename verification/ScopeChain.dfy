/**
 The code generator's symbol tables: one table per loop body, linked to the enclosing one,
 and the stack slots they hand out.
 */
module ScopeChain {
  import opened Wrappers
  import A = Ast

  /** A null entry is one whose slot pointer is null. */
  class Scope {
    const parent: Scope?
    ghost const chain: seq<Scope>
    var symbols: map<string, Option<nat>>

    constructor (parentScope: Scope?)
      requires parentScope != null ==> parentScope.Linked()
      ensures Linked() && parent == parentScope && symbols == map[]
      ensures chain == [this] + (if parentScope == null then [] else parentScope.chain)
    {
      parent := parentScope;
      chain := [this] + (if parentScope == null then [] else parentScope.chain);
      symbols := map[];
    }

    /** `chain` lists this scope and its ancestors. */
    ghost predicate Linked()
      decreases |chain|
    {
      && chain != [] && chain[0] == this
      && (parent == null ==> |chain| == 1)
      && (parent != null ==> chain[1..] == parent.chain && parent.Linked())
    }

    ghost function Root(): Scope
      requires Linked()
    {
      chain[|chain| - 1]
    }

    lemma {:induction false} RootOfParent()
      requires Linked()
      ensures parent == null ==> Root() == this
      ensures parent != null ==> Root() == parent.Root() && this !in parent.chain
    {
      if parent != null {
        parent.ShorterChains();
      }
    }

    lemma {:induction false} ShorterChains()
      requires Linked()
      ensures forall t | t in chain :: t.Linked() && |t.chain| <= |chain| && t.Root() == Root()
      decreases |chain|
    {
      if parent != null {
        parent.ShorterChains();
        assert chain[1..] == parent.chain;
        forall t | t in chain
          ensures t.Linked() && |t.chain| <= |chain| && t.Root() == Root()
        {
          assert t == this || t in parent.chain;
        }
      }
    }

    /** The nearest entry for `name`, walking up the chain. */
    function Lookup(name: string): Option<nat>
      requires Linked()
      reads chain
      decreases |chain|
    {
      if name in symbols then symbols[name]
      else if parent != null then
        assert forall t | t in parent.chain :: t in chain;
        parent.Lookup(name)
      else None
    }

    /** The nearest scope with an entry for `name`, or the root. */
    ghost function Owner(name: string): (t: Scope)
      requires Linked()
      reads chain
      ensures t in chain
      decreases |chain|
    {
      if name in symbols || parent == null then this
      else
        assert forall t | t in parent.chain :: t in chain;
        parent.Owner(name)
    }

    /** Only the root can own a name that has no entry. */
    lemma {:induction false} OwnerOf(name: string)
      requires Linked()
      ensures name in Owner(name).symbols || Owner(name) == Root()
      ensures Lookup(name) == if name in Owner(name).symbols then Owner(name).symbols[name] else None
      decreases |chain|
    {
      RootOfParent();
      if name !in symbols && parent != null {
        parent.OwnerOf(name);
      }
    }

    /** Reading through the index operator leaves a null entry in the root if there is none at all. */
    method Get(name: string) returns (slot: Option<nat>)
      requires Linked()
      modifies chain
      ensures slot == old(Lookup(name))
      ensures var t := old(Owner(name)); t.symbols == old(t.symbols)[name := slot]
      ensures forall u | u in chain && u != old(Owner(name)) :: u.symbols == old(u.symbols)
      decreases |chain|
    {
      RootOfParent();
      if name in symbols {
        slot := symbols[name];
        assert symbols == symbols[name := slot];
      } else if parent != null {
        assert forall t | t in chain :: t == this || t in parent.chain;
        assert forall t | t in parent.chain :: t in chain;
        slot := parent.Get(name);
      } else {
        symbols := symbols[name := None];
        slot := None;
      }
    }

    /** Writing through the index operator changes the nearest entry, or creates one in the root. */
    method Put(name: string, slot: Option<nat>)
      requires Linked()
      modifies chain
      ensures var t := old(Owner(name)); t.symbols == old(t.symbols)[name := slot]
      ensures forall u | u in chain && u != old(Owner(name)) :: u.symbols == old(u.symbols)
      decreases |chain|
    {
      RootOfParent();
      if name in symbols || parent == null {
        symbols := symbols[name := slot];
      } else {
        assert forall t | t in chain :: t == this || t in parent.chain;
        assert forall t | t in parent.chain :: t in chain;
        parent.Put(name, slot);
      }
    }

    /** Writing this scope's own table, whatever the enclosing ones hold. */
    method InsertLocal(name: string, slot: Option<nat>)
      modifies this
      ensures symbols == old(symbols)[name := slot]
    {
      symbols := symbols[name := slot];
    }
  }

  predicate IsBuiltin(name: string) {
    name != [] && name[0] == '@'
  }

  /** The position of `name` among the slots allocated so far, or the next free one. */
  function SlotOf(allocas: seq<string>, name: string): (k: nat)
    ensures k <= |allocas|
    ensures name in allocas <==> k < |allocas|
    ensures k < |allocas| ==> allocas[k] == name
  {
    if allocas == [] then 0
    else if allocas[0] == name then 0
    else 1 + SlotOf(allocas[1..], name)
  }

  /** What a name leads to once it has been declared: names of builtins to nothing. */
  function Entry(allocas: seq<string>, name: string): Option<nat> {
    if IsBuiltin(name) then None else Some(SlotOf(allocas, name))
  }

  function Allocate(allocas: seq<string>, name: string): seq<string> {
    if IsBuiltin(name) || name in allocas then allocas else allocas + [name]
  }

  /** An identifier gets a slot exactly if it can name a variable. */
  lemma {:induction false} IdentifiersGetSlots(allocas: seq<string>, x: string)
    requires A.Identifier(x) && x !in allocas
    ensures x in Allocate(allocas, x) <==> A.Lexable(x)
  {
    assert forall i | 0 <= i < |x| :: x[i] != A.MARK;
  }

  lemma {:induction false} SlotOfAt(allocas: seq<string>, k: nat)
    requires Distinct(allocas) && k < |allocas|
    ensures SlotOf(allocas, allocas[k]) == k
  {
    var s := SlotOf(allocas, allocas[k]);
    assert allocas[s] == allocas[k];
  }

  /** The entries of one table lead to the slots of their names; only the root may hold null entries. */
  predicate Agrees(allocas: seq<string>, symbols: map<string, Option<nat>>, isRoot: bool) {
    && (forall x | x in symbols && symbols[x].Some? :: symbols[x].value < |allocas| && allocas[symbols[x].value] == x)
    && (!isRoot ==> forall x | x in symbols && !IsBuiltin(x) :: symbols[x].Some?)
  }

  lemma {:induction false} AgreesLater(allocas: seq<string>, name: string, symbols: map<string, Option<nat>>,
          isRoot: bool)
    requires Agrees(allocas, symbols, isRoot)
    ensures Agrees(allocas + [name], symbols, isRoot)
    ensures Agrees(allocas + [name], symbols[name := Some(|allocas|)], isRoot)
  {
  }

  lemma {:induction false} EntryAgrees(allocas: seq<string>, name: string, symbols: map<string, Option<nat>>,
          isRoot: bool)
    requires Agrees(allocas, symbols, isRoot) && (IsBuiltin(name) || name in allocas)
    ensures Agrees(allocas, symbols[name := Entry(allocas, name)], isRoot)
  {
  }

  lemma {:induction false} EntryKnown(allocas: seq<string>, name: string, symbols: map<string, Option<nat>>)
    requires Distinct(allocas)
    requires forall k | 0 <= k < |allocas| ::
      !IsBuiltin(allocas[k]) && allocas[k] in symbols && symbols[allocas[k]] == Some(k)
    ensures var later := symbols[name := Entry(allocas, name)];
      forall k | 0 <= k < |allocas| :: allocas[k] in later && later[allocas[k]] == Some(k)
  {
    forall k | 0 <= k < |allocas| && allocas[k] == name
      ensures SlotOf(allocas, name) == k
    {
      SlotOfAt(allocas, k);
    }
  }

  /** The slots of one function: `allocas` names them in the order they were made. */
  class FunctionSlots {
    const root: Scope
    var allocas: seq<string>
    ghost var scopes: set<Scope>

    /** Every table of the function agrees with the list of slots, and the root knows them all. */
    ghost predicate Valid()
      reads this, scopes
    {
      && root in scopes
      && (forall t | t in scopes :: t.Linked() && t.Root() == root && forall u | u in t.chain :: u in scopes)
      && (forall t | t in scopes :: Agrees(allocas, t.symbols, t == root))
      && Distinct(allocas)
      && forall k | 0 <= k < |allocas| ::
           !IsBuiltin(allocas[k]) && allocas[k] in root.symbols && root.symbols[allocas[k]] == Some(k)
    }

    constructor ()
      ensures Valid() && allocas == [] && fresh(scopes) && scopes == {root}
    {
      var r := new Scope(null);
      root := r;
      allocas := [];
      scopes := {r};
    }

    /** A loop body opens a table of its own. */
    method Enter(outer: Scope) returns (inner: Scope)
      requires Valid() && outer in scopes
      modifies this`scopes
      ensures Valid() && allocas == old(allocas) && fresh(inner) && scopes
           == old(scopes) + {inner} && inner.parent == outer
    {
      inner := new Scope(outer);
      scopes := scopes + {inner};
      inner.RootOfParent();
      assert forall t | t in inner.chain :: t == inner || t in outer.chain;
    }

    /** From any scope of the function, a name that has a slot leads to it. */
    lemma {:induction false} LookupFinds(s: Scope, name: string)
      requires Valid() && s in scopes && !IsBuiltin(name)
      ensures s.Lookup(name) == if name in allocas then Some(SlotOf(allocas, name)) else None
      decreases |s.chain|
    {
      s.RootOfParent();
      if name in s.symbols {
        if s.symbols[name].Some? {
          SlotOfAt(allocas, s.symbols[name].value);
        } else {
          assert s == root;
          assert name !in allocas;
        }
      } else if s.parent != null {
        assert s.Linked() && s.parent.Linked();
        assert s.chain[1..] == s.parent.chain && s.chain[1] == s.parent.chain[0] == s.parent;
        LookupFinds(s.parent, name);
      } else {
        assert name !in allocas;
      }
    }

    /** Returns the slot of `name`, making one if the function has none yet. */
    method GetOrCreateAlloca(s: Scope, name: string) returns (slot: Option<nat>)
      requires Valid() && s in scopes
      modifies this`allocas, scopes
      ensures Valid() && scopes == old(scopes)
      ensures allocas == Allocate(old(allocas), name)
      ensures slot == Entry(allocas, name)
    {
      if IsBuiltin(name) {
        return None;
      }
      LookupFinds(s, name);
      if s.Lookup(name).Some? {
        slot := s.Lookup(name);
      } else {
        slot := MakeSlot(s, name);
      }
    }

    method MakeSlot(s: Scope, name: string) returns (slot: Option<nat>)
      requires Valid() && s in scopes && !IsBuiltin(name) && name !in allocas
      modifies this`allocas, scopes
      ensures Valid() && scopes == old(scopes)
      ensures allocas == old(allocas) + [name] && slot == Some(SlotOf(allocas, name))
    {
      s.OwnerOf(name);
      assert s.Owner(name) == root;
      slot := Some(|allocas|);
      s.Put(name, slot);
      forall t | t in scopes
        ensures Agrees(allocas + [name], t.symbols, t == root)
      {
        AgreesLater(allocas, name, old(t.symbols), t == root);
      }
      allocas := allocas + [name];
      SlotOfAt(allocas, |allocas| - 1);
    }

    /** A declaration also enters its slot in the scope it stands in. */
    method Declare(s: Scope, name: string) returns (slot: Option<nat>)
      requires Valid() && s in scopes
      modifies this`allocas, scopes
      ensures Valid() && scopes == old(scopes)
      ensures allocas == Allocate(old(allocas), name)
      ensures slot == Entry(allocas, name)
    {
      slot := GetOrCreateAlloca(s, name);
      label made:
      s.InsertLocal(name, slot);
      EntryAgrees(allocas, name, old@made(s.symbols), s == root);
      assert forall t | t in scopes && t != s :: t.symbols == old@made(t.symbols);
      EntryKnown(allocas, name, old@made(root.symbols));
    }
  }

  // ---------- whole runs ----------

  function AllocateAll(allocas: seq<string>, names: seq<string>): seq<string>
    decreases |names|
  {
    if names == [] then allocas else AllocateAll(Allocate(allocas, names[0]), names[1..])
  }

  /** Later declarations never move a slot. */
  lemma {:induction false} SlotsStay(allocas: seq<string>, names: seq<string>, x: string)
    requires Distinct(allocas) && x in allocas
    ensures Distinct(AllocateAll(allocas, names)) && allocas <= AllocateAll(allocas, names)
    ensures SlotOf(AllocateAll(allocas, names), x) == SlotOf(allocas, x)
    decreases |names|
  {
    if names != [] {
      var next := Allocate(allocas, names[0]);
      SlotsStay(next, names[1..], x);
      SlotOfAt(next, SlotOf(allocas, x));
    }
  }

  lemma {:induction false} Declared(allocas: seq<string>, names: seq<string>, i: nat)
    requires Distinct(allocas) && i < |names| && !IsBuiltin(names[i])
    ensures Distinct(AllocateAll(allocas, names)) && names[i] in AllocateAll(allocas, names)
    decreases i
  {
    var next := Allocate(allocas, names[0]);
    if i == 0 {
      SlotsStay(next, names[1..], names[0]);
    } else {
      Declared(next, names[1..], i - 1);
    }
  }

  lemma {:induction false} AllocateAllConcat(allocas: seq<string>, a: seq<string>, b: seq<string>)
    ensures AllocateAll(allocas, a + b) == AllocateAll(AllocateAll(allocas, a), b)
    decreases |a|
  {
    if a == [] {
      assert a + b == b;
    } else {
      assert (a + b)[0] == a[0] && (a + b)[1..] == a[1..] + b;
      AllocateAllConcat(Allocate(allocas, a[0]), a[1..], b);
    }
  }

  /** In any run of declarations two of them get the same slot exactly if they declare the same name. */
  lemma {:induction false} OneSlotPerName(names: seq<string>, i: nat, j: nat)
    requires i < j < |names| && !IsBuiltin(names[i]) && !IsBuiltin(names[j])
    ensures SlotOf(AllocateAll([], names[..i + 1]), names[i]) == SlotOf(AllocateAll([], names[..j + 1]), names[j])
      <==> names[i] == names[j]
  {
    var early, late := names[..i + 1], names[i + 1..j + 1];
    assert early[i] == names[i] && names[..j + 1] == early + late && (early + late)[j] == names[j];
    var a := AllocateAll([], early);
    Declared([], early, i);
    AllocateAllConcat([], early, late);
    SlotsStay(a, late, names[i]);
    Declared([], early + late, j);
  }
}
