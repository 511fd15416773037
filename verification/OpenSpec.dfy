/** One Open with no other goroutine around: what it does to the registry, as a function.
    Module Registry holds the code; module OneSchedule shows that this is one of the
    schedules of the protocol. */
module OpenSpec {
  import opened Wrappers
  import opened RegistryModel
  import opened Liveness

  /** What a load leaves behind: the registry and, unless it failed, the library. */
  datatype Loaded = Loaded(reg: Reg, lib: Option<nat>)

  /** What the DT_NEEDED loop leaves behind. */
  datatype Gathered = Gathered(reg: Reg, acquired: seq<nat>)

  function Found(r: Reg, path: Name): Loaded
    requires r.IdsValid()
  {
    if path in r.loaded then Loaded(Retain(r, r.loaded[path]), Some(r.loaded[path])) else Loaded(r, None)
  }

  /** A later registry: libraries are only added and counts only go up. */
  ghost predicate Grows(r: Reg, t: Reg) {
    && |r.libs| <= |t.libs|
    && (forall i :: 0 <= i < |r.libs| ==> t.libs[i].path == r.libs[i].path && t.libs[i].refs >= r.libs[i].refs)
    && t.loading == r.loading
  }

  ghost predicate Ready(e: Env, r: Reg, visiting: set<Name>) {
    e.WellFormed() && RegInv(e, r) && r.loading == visiting
  }

  ghost predicate Good(e: Env, r: Reg, path: Name, t: Loaded) {
    && RegInv(e, t.reg) && Grows(r, t.reg)
    && (t.lib.Some? ==> t.reg.Live(t.lib.value) && t.reg.libs[t.lib.value].path == path)
  }

  lemma FoundGood(e: Env, r: Reg, path: Name)
    requires RegInv(e, r) && path in e.paths
    ensures r.IdsValid() && Good(e, r, path, Found(r, path))
  {
    if path in r.loaded {
      RetainKeeps(e, r, r.loaded[path]);
    }
  }

  lemma FailGood(e: Env, r: Reg, g: Reg, path: Name)
    requires RegInv(e, g) && path !in r.loading && Grows(Claim(r, path), g)
    ensures Good(e, r, path, Loaded(Release(g, path), None))
  {
    ReleaseKeeps(e, g, path);
  }

  lemma SucceedGood(e: Env, r: Reg, g: Reg, path: Name, request: Name, global: bool, acquired: seq<nat>)
    requires e.WellFormed() && RegInv(e, g) && path !in r.loading && Grows(Claim(r, path), g)
    requires request in e.paths ==> request == path
    ensures Good(e, r, path, Loaded(Register(g, path, request, e.Soname(path), global, acquired), Some(|g.libs|)))
  {
    RegisterKeeps(e, g, path, request, global, acquired);
  }

  /** loadPath, `loads` being the files loader.Load accepts.  It ends on every dependency
      graph, cycles included, because `visiting` fills up; and whichever way it ends, its
      slot in `loading` is free again. */
  ghost function LoadPath(e: Env, loads: set<Name>, r: Reg, path: Name, request: Name, global: bool,
                          visiting: set<Name>): (t: Loaded)
    requires Ready(e, r, visiting)
    requires path in e.paths && (request in e.paths ==> request == path)
    ensures Good(e, r, path, t)
    decreases e.paths - visiting, 1, 0
  {
    if path in visiting || path in r.loaded then
      FoundGood(e, r, path);
      Found(r, path)
    else
      ClaimKeeps(e, r, path);
      if path !in e.needed then
        FailGood(e, r, Claim(r, path), path);
        Loaded(Release(Claim(r, path), path), None)
      else
        var g := LoadDependencies(e, loads, Claim(r, path), path, 0, [], visiting + {path});
        if path in loads then
          SucceedGood(e, r, g.reg, path, request, global, g.acquired);
          Loaded(Register(g.reg, path, request, e.Soname(path), global, g.acquired), Some(|g.reg.libs|))
        else
          FailGood(e, r, g.reg, path);
          Loaded(Release(g.reg, path), None)
  }

  /** The loop of loadDependencies from entry i on. */
  ghost function LoadDependencies(e: Env, loads: set<Name>, r: Reg, p: Name, i: nat, acquired: seq<nat>,
                                  visiting: set<Name>): (t: Gathered)
    requires Ready(e, r, visiting)
    requires p in visiting && i <= |e.Needed(p)|
    ensures RegInv(e, t.reg) && Grows(r, t.reg)
    decreases e.paths - visiting, 2, |e.Needed(p)| - i
  {
    if i == |e.Needed(p)| then Gathered(r, acquired)
    else
      var dep := e.Needed(p)[i];
      if dep in visiting || (dep, Some(p)) !in e.find then
        LoadDependencies(e, loads, r, p, i + 1, acquired, visiting)
      else
        var t := LoadPath(e, loads, r, e.find[(dep, Some(p))], dep, true, visiting);
        var got := if t.lib.Some? then [t.lib.value] else [];
        LoadDependencies(e, loads, t.reg, p, i + 1, acquired + got, visiting)
  }

  lemma ClaimReady(e: Env, r: Reg, path: Name, visiting: set<Name>)
    requires Ready(e, r, visiting) && path in e.paths && path !in r.loaded
    ensures Ready(e, Claim(r, path), visiting + {path})
  {
    ClaimKeeps(e, r, path);
  }

  /** What is there already is only counted again. */
  lemma LoadPathFound(e: Env, loads: set<Name>, r: Reg, path: Name, request: Name, global: bool, visiting: set<Name>)
    requires Ready(e, r, visiting) && path in e.paths && (request in e.paths ==> request == path)
    ensures r.IdsValid() && r.loading == visiting
    ensures path in visiting || path in r.loaded ==>
              LoadPath(e, loads, r, path, request, global, visiting) == Found(r, path)
  {
  }

  /** Open */
  ghost function LoadLib(e: Env, loads: set<Name>, r: Reg, name: Name, global: bool): (t: Loaded)
    requires Ready(e, r, {})
    ensures RegInv(e, t.reg) && Grows(r, t.reg)
    ensures t.lib.Some? ==> t.reg.Live(t.lib.value)
  {
    if name in r.loaded then
      RetainKeeps(e, r, r.loaded[name]);
      Found(r, name)
    else if (name, None) !in e.find then Loaded(r, None)
    else LoadPath(e, loads, r, e.find[(name, None)], name, global, {})
  }

  // ---------------------------------------------------------------- dependency order

  ghost predicate Loadable(e: Env, loads: set<Name>, q: Name) {
    q in e.needed && q in loads
  }

  ghost predicate LiveBefore(r: Reg, q: Name, k: int) {
    exists j :: 0 <= j < k && j < |r.libs| && r.libs[j].path == q && r.libs[j].refs > 0
  }

  /** Each library registered from index n on stands after every loadable file it needs. */
  ghost predicate OrderedFrom(e: Env, loads: set<Name>, r: Reg, n: nat) {
    forall k, q :: n <= k < |r.libs| && e.Edge(r.libs[k].path, q) && q != r.libs[k].path && Loadable(e, loads, q) ==>
                     LiveBefore(r, q, k)
  }

  /** `stack` is a chain of dependencies. */
  ghost predicate Chain(e: Env, stack: seq<Name>) {
    && Distinct(stack)
    && (forall p <- stack :: p in e.paths)
    && (forall i :: 0 <= i < |stack| - 1 ==> e.Edge(stack[i], stack[i + 1]))
  }

  lemma ChainCloses(e: Env, stack: seq<Name>, q: Name) returns (c: seq<Name>)
    requires Chain(e, stack) && stack != [] && e.Edge(stack[|stack| - 1], q)
    requires q in stack && q != stack[|stack| - 1]
    ensures DependencyCycle(e, c)
  {
    var i :| 0 <= i < |stack| && stack[i] == q;
    c := stack[i..];
    forall j | 0 <= j < |c| ensures c[j] in e.paths && e.Edge(c[j], c[After(j, |c|)]) {
      assert c[j] == stack[i + j];
    }
  }

  lemma ChainExtends(e: Env, stack: seq<Name>, path: Name)
    requires Chain(e, stack) && path !in stack && path in e.paths
    requires stack != [] ==> e.Edge(stack[|stack| - 1], path)
    ensures Chain(e, stack + [path]) && (set p <- stack + [path]) == (set p <- stack) + {path}
  {
  }

  lemma OrderedLater(e: Env, loads: set<Name>, r: Reg, t: Reg, n: nat)
    requires OrderedFrom(e, loads, r, n) && Grows(r, t) && n <= |r.libs|
    requires OrderedFrom(e, loads, t, |r.libs|)
    ensures OrderedFrom(e, loads, t, n)
  {
    forall k, q | n <= k < |t.libs| && e.Edge(t.libs[k].path, q) && q != t.libs[k].path && Loadable(e, loads, q)
      ensures LiveBefore(t, q, k)
    {
      if k < |r.libs| {
        assert LiveBefore(r, q, k);
        var j :| 0 <= j < k && j < |r.libs| && r.libs[j].path == q && r.libs[j].refs > 0;
        assert t.libs[j].path == q && t.libs[j].refs > 0;
      }
    }
  }

  lemma LiveLater(r: Reg, t: Reg, q: Name)
    requires Grows(r, t) && LiveBefore(r, q, |r.libs|)
    ensures LiveBefore(t, q, |t.libs|)
  {
    var j :| 0 <= j < |r.libs| && r.libs[j].path == q && r.libs[j].refs > 0;
    assert t.libs[j].path == q && t.libs[j].refs > 0;
  }

  /** What a load registers comes in dependency order, and a loadable file ends up loaded. */
  ghost predicate InOrder(e: Env, loads: set<Name>, r: Reg, path: Name, t: Reg) {
    && OrderedFrom(e, loads, t, |r.libs|)
    && (Loadable(e, loads, path) ==> LiveBefore(t, path, |t.libs|))
  }

  lemma FoundInOrder(e: Env, loads: set<Name>, r: Reg, path: Name)
    requires RegInv(e, r) && path in r.loaded && path in e.paths
    ensures r.IdsValid() && InOrder(e, loads, r, path, Found(r, path).reg)
  {
    var t := Found(r, path).reg;
    assert t.libs[r.loaded[path]].path == path && t.libs[r.loaded[path]].refs > 0;
  }

  lemma RegisteredInOrder(e: Env, loads: set<Name>, r: Reg, g: Reg, path: Name, t: Reg)
    requires OrderedFrom(e, loads, g, |r.libs|) && |r.libs| <= |g.libs|
    requires forall q :: e.Edge(path, q) && q != path && Loadable(e, loads, q) ==> LiveBefore(g, q, |g.libs|)
    requires |t.libs| == |g.libs| + 1 && t.libs[..|g.libs|] == g.libs
    requires t.libs[|g.libs|].path == path && t.libs[|g.libs|].refs > 0
    ensures InOrder(e, loads, r, path, t)
  {
    forall i | 0 <= i < |g.libs| ensures t.libs[i] == g.libs[i] {
      assert t.libs[..|g.libs|][i] == t.libs[i];
    }
    LastOrdered(e, loads, g, t, path, |r.libs|);
  }

  lemma UnregisteredInOrder(e: Env, loads: set<Name>, r: Reg, g: Reg, path: Name, t: Reg)
    requires OrderedFrom(e, loads, g, |r.libs|) && t.libs == g.libs && !Loadable(e, loads, path)
    ensures InOrder(e, loads, r, path, t)
  {
    forall k, q | |r.libs| <= k < |t.libs| && e.Edge(t.libs[k].path, q) && q != t.libs[k].path && Loadable(e, loads, q)
      ensures LiveBefore(t, q, k)
    {
      assert LiveBefore(g, q, k);
    }
  }

  lemma {:induction false} LoadPathOrder(e: Env, loads: set<Name>, r: Reg, path: Name, request: Name, global: bool, stack: seq<Name>)
    requires !exists c :: DependencyCycle(e, c)
    requires Ready(e, r, set p <- stack)
    requires path in e.paths && (request in e.paths ==> request == path)
    requires Chain(e, stack) && path !in stack && (stack != [] ==> e.Edge(stack[|stack| - 1], path))
    ensures InOrder(e, loads, r, path, LoadPath(e, loads, r, path, request, global, set p <- stack).reg)
    decreases e.paths - (set p <- stack), 1, 0
  {
    hide LoadedInv, GlobalsInv, DependencyCycle;
    var visiting := set p <- stack;
    var t := LoadPath(e, loads, r, path, request, global, visiting);
    if path in r.loaded {
      FoundInOrder(e, loads, r, path);
    } else if path in e.needed {
      ClaimKeeps(e, r, path);
      var deeper := stack + [path];
      ChainExtends(e, stack, path);
      var g := LoadDependencies(e, loads, Claim(r, path), path, 0, [], visiting + {path});
      LoadDependenciesOrder(e, loads, Claim(r, path), path, 0, [], deeper);
      DependenciesMet(e, loads, g.reg, path);
      if path in loads {
        assert t.reg.libs == g.reg.libs + [Lib(path, global, 1, g.acquired)];
        RegisteredInOrder(e, loads, r, g.reg, path, t.reg);
      } else {
        UnregisteredInOrder(e, loads, r, g.reg, path, t.reg);
      }
    } else {
      UnregisteredInOrder(e, loads, r, r, path, t.reg);
    }
  }

  lemma DependenciesMet(e: Env, loads: set<Name>, g: Reg, p: Name)
    requires forall k: nat, q :: k >= 0 && e.EdgeAt(p, k, q) && q != p && Loadable(e, loads, q) ==> LiveBefore(g, q, |g.libs|)
    ensures forall q :: e.Edge(p, q) && q != p && Loadable(e, loads, q) ==> LiveBefore(g, q, |g.libs|)
  {
    forall q | e.Edge(p, q) && q != p && Loadable(e, loads, q) ensures LiveBefore(g, q, |g.libs|) {
      var k: nat :| e.EdgeAt(p, k, q);
    }
  }

  /** Adding a library whose needs are met keeps the order. */
  lemma LastOrdered(e: Env, loads: set<Name>, g: Reg, t: Reg, path: Name, n: nat)
    requires OrderedFrom(e, loads, g, n) && n <= |g.libs| <= |t.libs| <= |g.libs| + 1
    requires forall i :: 0 <= i < |g.libs| ==> t.libs[i] == g.libs[i]
    requires |t.libs| > |g.libs| ==> t.libs[|g.libs|].path == path
    requires forall q :: e.Edge(path, q) && q != path && Loadable(e, loads, q) ==> LiveBefore(g, q, |g.libs|)
    ensures OrderedFrom(e, loads, t, n)
  {
    forall k, q | n <= k < |t.libs| && e.Edge(t.libs[k].path, q) && q != t.libs[k].path && Loadable(e, loads, q)
      ensures LiveBefore(t, q, k)
    {
      assert LiveBefore(g, q, k);
      var j :| 0 <= j < k && j < |g.libs| && g.libs[j].path == q && g.libs[j].refs > 0;
      assert t.libs[j] == g.libs[j];
    }
  }

  lemma {:induction false} LoadDependenciesOrder(e: Env, loads: set<Name>, r: Reg, p: Name, i: nat, acquired: seq<nat>, stack: seq<Name>)
    requires !exists c :: DependencyCycle(e, c)
    requires Ready(e, r, set x <- stack)
    requires Chain(e, stack) && stack != [] && p == stack[|stack| - 1] && p in stack && i <= |e.Needed(p)|
    ensures var t := LoadDependencies(e, loads, r, p, i, acquired, set x <- stack);
            && OrderedFrom(e, loads, t.reg, |r.libs|)
            && (forall k: nat, q :: k >= i && e.EdgeAt(p, k, q) && q != p && Loadable(e, loads, q) ==>
                                      LiveBefore(t.reg, q, |t.reg.libs|))
    decreases e.paths - (set x <- stack), 2, |e.Needed(p)| - i
  {
    hide LoadedInv, GlobalsInv, Chain, LiveBefore, DependencyCycle;
    var visiting := set x <- stack;
    if i < |e.Needed(p)| {
      var dep := e.Needed(p)[i];
      if dep in visiting || (dep, Some(p)) !in e.find {
        LoadDependenciesOrder(e, loads, r, p, i + 1, acquired, stack);
        if (dep, Some(p)) in e.find {
          assert e.EdgeAt(p, i, dep);
          if dep != p {
            var c := ChainCloses(e, stack, dep);
          }
        }
      } else {
        var path := e.find[(dep, Some(p))];
        assert e.EdgeAt(p, i, path);
        if path in stack && path != p {
          var c := ChainCloses(e, stack, path);
        }
        var t := LoadPath(e, loads, r, path, dep, true, visiting);
        if path !in stack {
          LoadPathOrder(e, loads, r, path, dep, true, stack);
        }
        var got := if t.lib.Some? then [t.lib.value] else [];
        LoadDependenciesOrder(e, loads, t.reg, p, i + 1, acquired + got, stack);
        var u := LoadDependencies(e, loads, t.reg, p, i + 1, acquired + got, visiting);
        OrderedLater(e, loads, t.reg, u.reg, |r.libs|);
        if path != p && Loadable(e, loads, path) {
          LiveLater(t.reg, u.reg, path);
        }
      }
    }
  }

  /** On an acyclic graph Open registers every loadable dependency before its dependent,
      hence runs its constructors first, and a loadable file is loaded at the end. */
  lemma DependenciesFirst(e: Env, loads: set<Name>, r: Reg, name: Name, global: bool)
    requires !exists c :: DependencyCycle(e, c)
    requires Ready(e, r, {})
    ensures OrderedFrom(e, loads, LoadLib(e, loads, r, name, global).reg, |r.libs|)
    ensures name !in r.loaded && (name, None) in e.find && Loadable(e, loads, e.find[(name, None)]) ==>
              LoadLib(e, loads, r, name, global).lib.Some?
  {
    if name !in r.loaded && (name, None) in e.find {
      var path := e.find[(name, None)];
      var empty: seq<Name> := [];
      assert (set p <- empty) == {};
      LoadPathOrder(e, loads, r, path, name, global, empty);
    }
  }

  /** Opening a library again, by the name it was opened by or by its path and with whatever
      flag, gives the same library and only counts. */
  lemma OpenAgain(e: Env, loads: set<Name>, r: Reg, name: Name, global: bool, again: Name, flag: bool)
    requires Ready(e, r, {}) && name != "" && LoadLib(e, loads, r, name, global).lib.Some?
    requires var t := LoadLib(e, loads, r, name, global);
             t.lib.value < |t.reg.libs| && (again == name || again == t.reg.libs[t.lib.value].path)
    ensures var t := LoadLib(e, loads, r, name, global);
            Ready(e, t.reg, {}) && LoadLib(e, loads, t.reg, again, flag) == Loaded(Retain(t.reg, t.lib.value), t.lib)
  {
    var t := LoadLib(e, loads, r, name, global);
    var id := t.lib.value;
    OpenPublishes(e, loads, r, name, global);
    assert t.reg.libs[id].path in t.reg.loaded && t.reg.loaded[t.reg.libs[id].path] == id;
    hide LoadedInv, GlobalsInv, LoadPath;
    if again !in t.reg.loaded {
      LoadPathFound(e, loads, t.reg, e.find[(name, None)], name, flag, {});
    }
  }

  /** After an Open its name leads to the library, or it stands for the library's path. */
  lemma OpenPublishes(e: Env, loads: set<Name>, r: Reg, name: Name, global: bool)
    requires Ready(e, r, {}) && name != "" && LoadLib(e, loads, r, name, global).lib.Some?
    ensures var t := LoadLib(e, loads, r, name, global);
            && t.lib.value < |t.reg.libs|
            && if name in t.reg.loaded then t.reg.loaded[name] == t.lib.value
               else (name, None) in e.find && e.find[(name, None)] == t.reg.libs[t.lib.value].path
  {
    hide LoadedInv, GlobalsInv, LoadDependencies, Publish;
    if name !in r.loaded {
      var path := e.find[(name, None)];
      if path !in r.loaded && path in e.needed {
        ClaimReady(e, r, path, {});
        var g := LoadDependencies(e, loads, Claim(r, path), path, 0, [], {path});
        RegisterPublishes(g.reg, path, name, e.Soname(path), global, g.acquired, name);
      }
    }
  }

  /** When Open registers a file, the DT_SONAME of the file leads to the new library too. */
  lemma OpenFilesSoname(e: Env, loads: set<Name>, r: Reg, name: Name, global: bool, path: Name)
    requires Ready(e, r, {}) && name !in r.loaded && (name, None) in e.find && e.find[(name, None)] == path
    requires path !in r.loaded && path in e.soname && e.soname[path] != ""
    requires LoadLib(e, loads, r, name, global).lib.Some?
    ensures var t := LoadLib(e, loads, r, name, global);
            && e.soname[path] in t.reg.loaded && t.reg.loaded[e.soname[path]] == t.lib.value
            && path in t.reg.loaded && t.reg.loaded[path] == t.lib.value
            && (name != "" ==> name in t.reg.loaded && t.reg.loaded[name] == t.lib.value)
  {
    hide LoadedInv, GlobalsInv, LoadDependencies, Publish;
    ClaimReady(e, r, path, {});
    if path in e.needed {
      var g := LoadDependencies(e, loads, Claim(r, path), path, 0, [], {path});
      RegisterPublishes(g.reg, path, name, e.Soname(path), global, g.acquired, e.soname[path]);
      RegisterPublishes(g.reg, path, name, e.Soname(path), global, g.acquired, path);
      RegisterPublishes(g.reg, path, name, e.Soname(path), global, g.acquired, name);
    }
  }

  /** ... and a file without one is filed under no name but its path and the one asked for. */
  lemma NoSonameNoKey(e: Env, loads: set<Name>, r: Reg, name: Name, global: bool, path: Name, k: Name)
    requires Ready(e, r, {}) && name !in r.loaded && (name, None) in e.find && e.find[(name, None)] == path
    requires path !in r.loaded && path !in e.soname && k != path && k != name
    requires LoadLib(e, loads, r, name, global).lib.Some?
    ensures var t := LoadLib(e, loads, r, name, global);
            k in t.reg.loaded ==> t.reg.loaded[k] != t.lib.value
  {
    ClaimReady(e, r, path, {});
    if path in e.needed {
      var g := LoadDependencies(e, loads, Claim(r, path), path, 0, [], {path});
      assert k in g.reg.loaded ==> g.reg.Live(g.reg.loaded[k]);
      hide LoadedInv, GlobalsInv, LoadDependencies, Publish;
      RegisterPublishes(g.reg, path, name, e.Soname(path), global, g.acquired, k);
    }
  }
}
