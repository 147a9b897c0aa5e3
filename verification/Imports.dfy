/**
 The semantic walk over a program and the modules it imports.  Paths are canonical: an
 import node carries the file it resolves to, or None if it resolves to none.  The files
 may import each other in cycles.
 */
module Imports {
  import opened Wrappers

  type Path = string

  /** `Leaf` is any other statement; it may report an error.  `Nest` is one with statements inside. */
  datatype Node = Leaf(reports: bool) | Import(target: Option<Path>) | Seq(a: Node, b: Node) | Nest(body: Node)

  datatype File = Unreadable | Malformed | Source(ast: Node)

  datatype ModuleState = Loading | Loaded

  datatype Module = Module(state: ModuleState, parsed: bool, ast: Option<Node>, semanticDone: bool)

  function Targets(n: Node): set<Path> {
    match n
    case Leaf(_) => {}
    case Import(None) => {}
    case Import(Some(p)) => {p}
    case Seq(a, b) => Targets(a) + Targets(b)
    case Nest(body) => Targets(body)
  }

  /** A statement in it reports an error, or imports a file that does not exist. */
  predicate Fault(n: Node) {
    match n
    case Leaf(reports) => reports
    case Import(target) => target.None?
    case Seq(a, b) => Fault(a) || Fault(b)
    case Nest(body) => Fault(body)
  }

  predicate FaultyFile(f: File) {
    !f.Source? || Fault(f.ast)
  }

  /** Only existing files have a canonical path. */
  ghost predicate Resolved(files: map<Path, File>) {
    forall p | p in files && files[p].Source? :: Targets(files[p].ast) <= files.Keys
  }

  /** A set of files that contains all imports of its members. */
  ghost predicate Closed(files: map<Path, File>, s: set<Path>) {
    forall p | p in s && p in files && files[p].Source? :: Targets(files[p].ast) <= s
  }

  /** What the cache may say about a file. */
  predicate Faithful(m: Module, f: File) {
    && (m.state.Loading? <==> f.Unreadable?)
    && (m.parsed ==> f.Source? && m.ast == Some(f.ast))
  }

  class SemanticWalk {
    const files: map<Path, File>
    var modules: map<Path, Module>
    var isError: bool
    /** The flag of the import handler, and the one of the same name that the checker tests. */
    var handlerFailed: bool
    var checkerFailed: bool
    var depth: nat
    /** The files that have been parsed, in order. */
    ghost var parses: seq<Path>

    ghost predicate Valid()
      reads this
    {
      && Resolved(files)
      && modules.Keys <= files.Keys
      && (forall p | p in modules :: Faithful(modules[p], files[p]))
      && Distinct(parses)
      && (forall p :: p in parses <==> p in modules && !files[p].Unreadable?)
      && !checkerFailed
      && (forall p | p in modules && !modules[p].parsed :: isError)
    }

    /** Modules stay, keep what was parsed, and only finish loading. */
    twostate predicate Grows()
      reads this
    {
      && old(modules.Keys) <= modules.Keys
      && (forall p | p in old(modules) ::
            && (old(modules)[p].state.Loaded? ==> modules[p].state.Loaded?)
            && modules[p].parsed == old(modules)[p].parsed && modules[p].ast == old(modules)[p].ast
            && (old(modules)[p].semanticDone ==> modules[p].semanticDone))
      && old(parses) <= parses
      && (old(isError) ==> isError)
    }

    /** The imports of every walked module are loaded; the walks of `active` are not over. */
    ghost predicate Complete(active: set<Path>)
      reads this
      requires modules.Keys <= files.Keys
    {
      forall p | p in modules && p !in active && modules[p].parsed && files[p].Source? ::
        Targets(files[p].ast) <= modules.Keys
    }

    /** Without an error so far, the walked modules have no faults; the walks of `active` are not over. */
    ghost predicate Clean(active: set<Path>)
      reads this
      requires modules.Keys <= files.Keys
    {
      !isError ==> forall p | p in modules && p !in active && files[p].Source? :: !Fault(files[p].ast)
    }

    ghost predicate Blamed()
      reads this
    {
      exists p :: p in modules && p in files && FaultyFile(files[p])
    }

    constructor (files: map<Path, File>)
      requires Resolved(files)
      ensures Valid() && this.files == files && modules == map[] && parses == [] && !isError
    {
      this.files := files;
      modules := map[];
      isError := false;
      handlerFailed := false;
      checkerFailed := false;
      depth := 0;
      parses := [];
    }

    /**
     Looks a file up or loads it.  A file that is already there is reported as imported even
     while its own walk is going on; only a file that could not be opened is refused.
     */
    method LoadModule(target: Option<Path>) returns (found: Option<Path>, alreadyImported: bool)
      requires Valid() && (target.Some? ==> target.value in files)
      modifies this
      ensures Valid() && Grows() && depth == old(depth)
      ensures target.None? ==> found.None? && modules == old(modules) && parses == old(parses) && isError
      ensures target.Some? ==> modules.Keys == old(modules.Keys) + {target.value}
      ensures found.Some? ==> found == target && (alreadyImported <==> target.value in old(modules))
      ensures target.Some? ==> (found.None? <==> files[target.value].Unreadable?)
      ensures target.Some? && target.value in old(modules) ==> modules == old(modules) && parses == old(parses)
      ensures found.None? ==> isError
      ensures isError <==> old(isError) || target.None? || !files[target.value].Source?
      ensures found.Some? && !alreadyImported ==>
        var f := files[target.value];
        modules[target.value] == Module(Loaded, !isError, if f.Source? then Some(f.ast) else None, false)
      ensures found.Some? && !isError ==> modules[target.value].parsed
      ensures forall p | p in old(modules) :: modules[p] == old(modules)[p]
    {
      alreadyImported := false;
      if target.None? {
        isError := true;
        return None, alreadyImported;
      }
      var path := target.value;
      if path in modules {
        if modules[path].state.Loading? {
          isError := true;
          return None, alreadyImported;
        }
        return Some(path), true;
      }
      modules := modules[path := Module(Loading, false, None, false)];
      if files[path].Unreadable? {
        isError := true;
        return None, alreadyImported;
      }
      parses := parses + [path];
      var ast := None;
      if files[path].Malformed? {
        isError := true;
      } else {
        ast := Some(files[path].ast);
      }
      modules := modules[path := Module(Loaded, !isError, ast, false)];
      found := Some(path);
    }

    method EnsureSemantic(path: Path, ghost active: set<Path>)
      requires Valid() && path in modules && modules[path].parsed
      requires Complete(active + {path}) && Clean(active + {path})
      modifies this
      ensures Valid() && Grows() && Complete(active + {path}) && Clean(active + {path}) && depth == old(depth)
      ensures isError ==> old(isError) || Blamed()
      ensures old(modules[path].semanticDone) || Targets(files[path].ast) <= modules.Keys
      ensures forall s | Closed(files, s) && old(modules.Keys) <= s :: modules.Keys <= s
      decreases files.Keys - modules.Keys, files[path].ast, 5
    {
      if modules[path].semanticDone {
        return;
      }
      ClosedContains(path);
      SemanticCheck(modules[path].ast.value, active + {path});
      modules := modules[path := modules[path].(semanticDone := true)];
    }

    lemma {:induction false} ClosedContains(path: Path)
      requires Valid() && path in modules && files[path].Source?
      ensures forall s | Closed(files, s) && modules.Keys <= s :: Targets(files[path].ast) <= s
    {
    }

    method SemanticCheck(n: Node, ghost active: set<Path>)
      requires Valid() && Complete(active) && Clean(active) && Targets(n) <= files.Keys
      modifies this
      ensures Valid() && Grows() && Complete(active) && Clean(active) && depth == old(depth)
      ensures (isError ==> old(isError) || Fault(n) || Blamed()) && (Fault(n) ==> isError)
      ensures old(isError) ==> modules.Keys == old(modules.Keys) + Targets(n)
      ensures Targets(n) <= modules.Keys
      ensures forall s | Closed(files, s) && old(modules.Keys) + Targets(n) <= s :: modules.Keys <= s
      decreases files.Keys - modules.Keys, n, 4
    {
      if depth == 0 {
        checkerFailed := false;
      }
      depth := depth + 1;
      CheckExpr(n, active);
      depth := depth - 1;
    }

    method HandleImport(n: Node, ghost active: set<Path>)
      requires n.Import? && Valid() && Complete(active) && Clean(active) && Targets(n) <= files.Keys
      modifies this
      ensures Valid() && Grows() && Complete(active) && Clean(active) && depth == old(depth)
      ensures (isError ==> old(isError) || Fault(n) || Blamed()) && (Fault(n) ==> isError)
      ensures old(isError) ==> modules.Keys == old(modules.Keys) + Targets(n)
      ensures Targets(n) <= modules.Keys
      ensures forall s | Closed(files, s) && old(modules.Keys) + Targets(n) <= s :: modules.Keys <= s
      decreases files.Keys - modules.Keys, n, 2
    {
      var found, alreadyImported := LoadModule(n.target);
      if found.None? {
        isError := true;
        handlerFailed := true;
        return;
      }
      var path := found.value;
      if !modules[path].parsed {
        handlerFailed := true;
        return;
      }
      if alreadyImported {
        return;
      }
      WalkImported(path, active);
    }

    /** The module is walked twice: once to finish its semantics, and once in place of the import. */
    method WalkImported(path: Path, ghost active: set<Path>)
      requires Valid() && path in modules && modules[path].parsed
      requires Complete(active + {path}) && Clean(active + {path})
      modifies this
      ensures Valid() && Grows() && Complete(active) && Clean(active) && depth == old(depth)
      ensures isError ==> old(isError) || Blamed()
      ensures forall s | Closed(files, s) && old(modules.Keys) <= s :: modules.Keys <= s
      decreases files.Keys - modules.Keys, files[path].ast, 6
    {
      ClosedContains(path);
      EnsureSemantic(path, active);
      ClosedContains(path);
      CheckExpr(modules[path].ast.value, active + {path});
    }

    /** The walk.  A failed import does not end it: the flag tested between statements is never set. */
    method CheckExpr(n: Node, ghost active: set<Path>)
      requires Valid() && Complete(active) && Clean(active) && Targets(n) <= files.Keys
      modifies this
      ensures Valid() && Grows() && Complete(active) && Clean(active) && depth == old(depth)
      ensures (isError ==> old(isError) || Fault(n) || Blamed()) && (Fault(n) ==> isError)
      ensures old(isError) ==> modules.Keys == old(modules.Keys) + Targets(n)
      ensures Targets(n) <= modules.Keys
      ensures forall s | Closed(files, s) && old(modules.Keys) + Targets(n) <= s :: modules.Keys <= s
      decreases files.Keys - modules.Keys, n, 3
    {
      match n
      case Leaf(reports) =>
        if reports {
          isError := true;
        }
      case Import(_) =>
        HandleImport(n, active);
      case Seq(a, b) =>
        CheckExpr(a, active);
        if checkerFailed {
          return;
        }
        CheckExpr(b, active);
      case Nest(body) =>
        CheckExpr(body, active);
    }
  }

  /** Every set of files that contains `from` and all imports of its members contains `p`. */
  ghost predicate Reachable(files: map<Path, File>, from: set<Path>, p: Path) {
    forall s | Closed(files, s) && from <= s :: p in s
  }

  lemma {:induction false} DistinctCounts(s: seq<Path>, p: Path)
    requires Distinct(s)
    ensures multiset(s)[p] == if p in s then 1 else 0
  {
    if s != [] {
      var n := |s| - 1;
      DistinctCounts(s[..n], p);
      assert s == s[..n] + [s[n]];
      assert forall i | 0 <= i < n :: s[..n][i] != s[n];
    }
  }

  /**
   Checking a whole program, whose own file is parsed before the walk and kept outside the
   module cache.  The walk ends, parses every file at most once, and loads only reachable
   files.  If nothing was reported it loads exactly the reachable ones, the least closed set
   that contains the program's imports; and then the files parsed twice are exactly the
   program's own, if it is reachable from its imports.
   */
  method CheckProgram(files: map<Path, File>, program: Path) returns (walk: SemanticWalk, ghost parses: seq<Path>)
    requires Resolved(files) && program in files && files[program].Source?
    ensures fresh(walk) && walk.Valid() && walk.files == files && parses == [program] + walk.parses
    ensures forall p :: multiset(parses)[p] <= if p == program then 2 else 1
    ensures var from := Targets(files[program].ast);
      && from <= walk.modules.Keys
      && (forall p | p in walk.modules :: Reachable(files, from, p))
      && (walk.isError <==> Fault(files[program].ast)
                            || exists p :: Reachable(files, from, p) && p in files && FaultyFile(files[p]))
      && (!walk.isError ==> Closed(files, walk.modules.Keys))
      && (!walk.isError ==> forall p :: p in walk.modules <==> Reachable(files, from, p))
      && (!walk.isError ==> forall p :: multiset(parses)[p] == 2 <==> p == program && Reachable(files, from, p))
  {
    parses := [program];
    walk := new SemanticWalk(files);
    walk.SemanticCheck(files[program].ast, {});
    parses := parses + walk.parses;
    forall p
      ensures multiset(parses)[p] == (if p in walk.parses then 1 else 0) + if p == program then 1 else 0
    {
      DistinctCounts(walk.parses, p);
    }
    if !walk.isError {
      assert forall p :: p in walk.parses <==> p in walk.modules;
    }
  }
}
