/** The library registry of dl/dl.go as one goroutine runs it: the package-level variables
    are fields, a *Library is an object, `visiting` is a map owned by one call of Open. */
module Registry {
  import opened Wrappers
  import opened RegistryModel
  import OpenSpec

  const RTLD_LOCAL := 0
  const RTLD_GLOBAL := 1
  const RTLD_NOW := 2

  class Library {
    const path: Name
    const global: bool
    var refCount: int
    ghost const id: nat          // when it was registered
    ghost const deps: seq<nat>   // what loadDependencies acquired for it

    constructor (path: Name, global: bool, ghost id: nat, ghost deps: seq<nat>)
      ensures this.path == path && this.global == global && this.id == id && this.deps == deps
      ensures refCount == 1
    {
      this.path, this.global, this.id, this.deps := path, global, id, deps;
      refCount := 1;
    }

    ghost function Value(): Lib
      reads this
    {
      Lib(path, global, refCount, deps)
    }
  }

  /** The map `visiting` of one call of Open. */
  class CallStack {
    var visiting: set<Name>

    constructor ()
      ensures visiting == {}
    {
      visiting := {};
    }
  }

  ghost function Ids(m: map<Name, Library>): map<Name, nat> {
    map k | k in m :: m[k].id
  }

  ghost function IdList(s: seq<Library>): seq<nat> {
    seq(|s|, i requires 0 <= i < |s| => s[i].id)
  }

  lemma IdsUpdate(m: map<Name, Library>, k: Name, l: Library)
    ensures Ids(m[k := l]) == Ids(m)[k := l.id]
  {
  }

  /** An id tells one library of `all` from another. */
  ghost predicate Identified(all: seq<Library>) {
    forall i :: 0 <= i < |all| ==> all[i].id == i
  }

  lemma PublishIds(m: map<Name, Library>, l: Library, path: Name, soname: Name, objSoname: Name)
    ensures var m1 := if objSoname != "" && objSoname != path then m[objSoname := l] else m;
            var m2 := if soname != "" && soname != path && soname != objSoname then m1[soname := l] else m1;
            Ids(m2[path := l]) == Publish(Ids(m), l.id, path, soname, objSoname)
  {
    var m1 := if objSoname != "" && objSoname != path then m[objSoname := l] else m;
    var m2 := if soname != "" && soname != path && soname != objSoname then m1[soname := l] else m1;
    IdsUpdate(m, objSoname, l);
    IdsUpdate(m1, soname, l);
    IdsUpdate(m2, path, l);
  }

  /** The entries of m that lead to l are gone, except under the keys still to do. */
  ghost predicate Cleared(m: map<Name, Library>, n: map<Name, Library>, l: Library, todo: set<Name>) {
    && (forall k :: k in n <==> k in m && (k in todo || m[k] != l))
    && (forall k <- n :: n[k] == m[k])
  }

  lemma ClearedMore(m: map<Name, Library>, n: map<Name, Library>, l: Library, todo: set<Name>, k: Name)
    requires Cleared(m, n, l, todo) && k in todo && todo <= n.Keys
    ensures Cleared(m, if n[k] == l then n - {k} else n, l, todo - {k})
    ensures todo - {k} <= (if n[k] == l then n - {k} else n).Keys
  {
  }

  lemma ClearedIds(m: map<Name, Library>, n: map<Name, Library>, l: Library, all: seq<Library>)
    requires Cleared(m, n, l, {}) && Identified(all) && l in all && forall k <- m :: m[k] in all
    ensures Ids(n) == RemoveValue(Ids(m), l.id)
  {
    forall k | k in m ensures m[k] == l <==> m[k].id == l.id {
      assert all[m[k].id] == m[k] && all[l.id] == l;
    }
  }

  lemma {:induction false} RemoveAbsent(ids: seq<nat>, id: nat)
    requires id !in ids
    ensures RemoveFirst(ids, id) == ids
  {
    if ids != [] {
      RemoveAbsent(ids[1..], id);
    }
  }

  lemma {:induction false} RemoveBetween(before: seq<nat>, id: nat, after: seq<nat>)
    requires id !in before
    ensures RemoveFirst(before + ([id] + after), id) == before + after
  {
    var ids := before + ([id] + after);
    if before == [] {
      assert ids == [id] + after && before + after == after;
    } else {
      assert ids[0] == before[0] && ids[1..] == before[1..] + ([id] + after);
      RemoveBetween(before[1..], id, after);
      assert before + after == [before[0]] + (before[1..] + after);
    }
  }

  lemma RemoveFirstAt(ids: seq<nat>, id: nat, i: nat)
    requires i <= |ids| && id !in ids[..i] && (i < |ids| ==> ids[i] == id)
    ensures RemoveFirst(ids, id) == if i < |ids| then ids[..i] + ids[i + 1..] else ids
  {
    hide RemoveFirst;
    if i < |ids| {
      assert ids == ids[..i] + ([id] + ids[i + 1..]);
      RemoveBetween(ids[..i], id, ids[i + 1..]);
    } else {
      assert ids[..i] == ids;
      RemoveAbsent(ids, id);
    }
  }

  lemma CutIds(s: seq<Library>, l: Library, i: nat, all: seq<Library>)
    requires Identified(all) && l in all && forall g <- s :: g in all
    requires i <= |s| && l !in s[..i] && (i < |s| ==> s[i] == l)
    ensures RemoveFirst(IdList(s), l.id) == IdList(if i < |s| then s[..i] + s[i + 1..] else s)
  {
    var ids := IdList(s);
    forall j | 0 <= j < i ensures ids[j] != l.id {
      assert s[j] in s && s[j] in s[..i];
      assert all[s[j].id] == s[j] && all[l.id] == l;
    }
    RemoveFirstAt(ids, l.id, i);
    if i < |s| {
      assert IdList(s[..i] + s[i + 1..]) == ids[..i] + ids[i + 1..];
    }
  }

  /** The objects of a registry stand for the value `view`. */
  ghost predicate StandsFor(all: seq<Library>, repr: set<Library>, loaded: map<Name, Library>, loading: set<Name>,
                            globals: seq<Library>, view: Reg)
    reads repr
  {
    && (forall l <- all :: l in repr)
    && |view.libs| == |all|
    && (forall i :: 0 <= i < |all| ==> all[i].id == i && view.libs[i] == all[i].Value())
    && (forall k <- loaded :: loaded[k] in all)
    && (forall l <- globals :: l in all)
    && view.loaded == Ids(loaded)
    && view.loading == loading
    && view.globals == IdList(globals)
  }

  lemma ClearedNothing(m: map<Name, Library>, l: Library)
    ensures Cleared(m, m, l, m.Keys)
  {
  }

  lemma RemovedStands(all: seq<Library>, repr: set<Library>, loaded: map<Name, Library>, loading: set<Name>,
                      globals: seq<Library>, view: Reg, n: map<Name, Library>, l: Library)
    requires StandsFor(all, repr, loaded, loading, globals, view) && l in all && Cleared(loaded, n, l, {})
    ensures StandsFor(all, repr, n, loading, globals, view.(loaded := RemoveValue(view.loaded, l.id)))
  {
    assert Identified(all);
    ClearedIds(loaded, n, l, all);
    hide Ids, RemoveValue, IdList;
  }

  /** What registerLibrary writes into `loaded`. */
  function Published(m: map<Name, Library>, l: Library, path: Name, soname: Name, objSoname: Name): map<Name, Library> {
    var m1 := if objSoname != "" && objSoname != path then m[objSoname := l] else m;
    var m2 := if soname != "" && soname != path && soname != objSoname then m1[soname := l] else m1;
    m2[path := l]
  }

  lemma RegisterStands(all: seq<Library>, repr: set<Library>, loaded: map<Name, Library>, loading: set<Name>,
                       globals: seq<Library>, view: Reg, lib: Library, soname: Name, objSoname: Name)
    requires StandsFor(all, repr, loaded, loading, globals, view) && lib.id == |all| && lib.refCount == 1
    ensures StandsFor(all + [lib], repr + {lib}, Published(loaded, lib, lib.path, soname, objSoname), loading - {lib.path},
                      if lib.global then globals + [lib] else globals,
                      Register(view, lib.path, soname, objSoname, lib.global, lib.deps))
  {
    PublishIds(loaded, lib, lib.path, soname, objSoname);
    assert IdList(globals + [lib]) == IdList(globals) + [lib.id];
    PublishedIn(all, loaded, lib, soname, objSoname);
    hide Publish, Published, Ids, IdList;
  }

  lemma PublishedIn(all: seq<Library>, loaded: map<Name, Library>, lib: Library, soname: Name, objSoname: Name)
    requires forall k <- loaded :: loaded[k] in all
    ensures var m := Published(loaded, lib, lib.path, soname, objSoname);
            forall k <- m :: m[k] in all + [lib]
  {
  }

  class Table {
    const env: Env          // findLibrary and goelf.Parse
    const loads: set<Name>  // the files loader.Load accepts
    var loaded: map<Name, Library>
    var loading: set<Name>
    var globals: seq<Library>
    ghost var all: seq<Library>   // every library ever registered, in that order
    ghost var repr: set<Library>  // the same libraries, as a frame
    ghost var view: Reg           // the same registry as a value

    ghost predicate Valid()
      reads this, repr
    {
      StandsFor(all, repr, loaded, loading, globals, view)
    }

    constructor (env: Env, loads: set<Name>)
      ensures Valid() && view == EMPTY_REG && this.env == env && this.loads == loads
    {
      this.env, this.loads := env, loads;
      loaded, loading, globals, all, repr, view := map[], {}, [], [], {}, EMPTY_REG;
    }

    lemma IdsIdentify(l: Library)
      requires Valid() && l in all
      ensures l.id < |all| && all[l.id] == l
    {
    }

    lemma Opened()
      requires Valid()
      ensures StandsFor(all, repr, loaded, loading, globals, view)
    {
    }

    lemma Closed()
      requires StandsFor(all, repr, loaded, loading, globals, view)
      ensures Valid()
    {
    }

    lemma LoadedKnown()
      requires Valid()
      ensures forall k <- loaded :: loaded[k] in all && loaded[k] in repr
      ensures view.loaded.Keys == loaded.Keys && forall k <- loaded :: view.loaded[k] == loaded[k].id
    {
    }

    lemma AllCounted()
      requires Valid()
      ensures |view.libs| == |all|
    {
    }

    /** The outcome of a load is `t`. */
    ghost predicate Is(lib: Library?, t: OpenSpec.Loaded)
      reads this
    {
      view == t.reg && (if lib == null then t.lib == None else lib in all && t.lib == Some(lib.id))
    }

    /** RefCount++ */
    method Retain(l: Library)
      requires Valid() && l in all
      modifies l, this`view
      ensures Valid()
      ensures l.id < |old(view).libs| && view == RegistryModel.Retain(old(view), l.id)
    {
      IdsIdentify(l);
      l.refCount := l.refCount + 1;
      view := RegistryModel.Retain(view, l.id);
    }

    method IncrementRefIfLoaded(path: Name) returns (lib: Library?)
      requires Valid() && view.IdsValid()
      modifies repr, this`view
      ensures Valid() && Is(lib, OpenSpec.Found(old(view), path))
    {
      if path in loaded {
        lib := loaded[path];
        Retain(lib);
      } else {
        lib := null;
      }
    }

    /** `waits` is cond.Wait(): the slot is taken, and the goroutine sleeps. */
    method CheckLoadingCache(path: Name) returns (lib: Library?, shouldContinue: bool, waits: bool)
      requires Valid() && view.IdsValid()
      modifies this, repr
      ensures Valid() && repr == old(repr)
      ensures waits <==> path in old(view).loading
      ensures waits ==> lib == null && view == old(view)
      ensures !waits ==> (shouldContinue <==> path !in old(view).loaded)
      ensures !waits && shouldContinue ==> lib == null && view == Claim(old(view), path)
      ensures !waits && !shouldContinue ==> lib != null && Is(lib, OpenSpec.Found(old(view), path))
    {
      waits := path in loading;
      if waits {
        return null, false, true;
      }
      if path in loaded {
        lib, shouldContinue := loaded[path], false;
        Retain(lib);
      } else {
        loading := loading + {path};
        view := Claim(view, path);
        lib, shouldContinue := null, true;
      }
    }

    method ReleaseLoadingSlot(path: Name)
      requires Valid()
      modifies this`loading, this`view
      ensures Valid() && view == Release(old(view), path)
    {
      loading := loading - {path};
      view := Release(view, path);
    }

    /** The keys under which registerLibrary files the library. */
    method PublishLibrary(lib: Library, path: Name, soname: Name, objSoname: Name)
      modifies this`loaded
      ensures loaded == Published(old(loaded), lib, path, soname, objSoname)
    {
      if objSoname != "" && objSoname != path {
        loaded := loaded[objSoname := lib];
      }
      if soname != "" && soname != path && soname != objSoname {
        loaded := loaded[soname := lib];
      }
      loaded := loaded[path := lib];
    }

    method RegisterLibrary(path: Name, soname: Name, objSoname: Name, global: bool, ghost deps: seq<nat>)
      returns (lib: Library)
      requires Valid()
      modifies this
      ensures Valid() && fresh(lib) && repr == old(repr) + {lib} && lib in all && lib.id == |old(view).libs|
      ensures view == Register(old(view), path, soname, objSoname, global, deps)
    {
      hide StandsFor, Register, Valid, Published;
      AllCounted();
      Opened();
      lib := new Library(path, global, |all|, deps);
      RegisterStands(all, repr, loaded, loading, globals, view, lib, soname, objSoname);
      loading := loading - {path};
      PublishLibrary(lib, path, soname, objSoname);
      if global {
        globals := globals + [lib];
      }
      all, repr := all + [lib], repr + {lib};
      view := Register(view, path, soname, objSoname, global, deps);
      Closed();
    }

    /** loadPath from goelf.Parse on: the slot of path has been taken in `r`. */
    method LoadClaimed(path: Name, soname: Name, global: bool, v: CallStack, ghost r: Reg, ghost visiting: set<Name>)
      returns (lib: Library?)
      requires OpenSpec.Ready(env, r, visiting) && path !in visiting && path !in r.loaded
      requires path in env.paths && (soname in env.paths ==> soname == path)
      requires Valid() && view == Claim(r, path) && v.visiting == visiting + {path}
      requires OpenSpec.Ready(env, view, v.visiting)
      modifies this, repr, v
      ensures Valid()
      ensures fresh(repr - old(repr))
      ensures v.visiting == visiting + {path}
      ensures Is(lib, OpenSpec.LoadPath(env, loads, r, path, soname, global, visiting))
      decreases env.paths - visiting, 1, 0
    {
      hide LoadedInv, GlobalsInv, Valid;
      if path !in env.needed {
        ReleaseLoadingSlot(path);
        return null;
      }
      ghost var acquired := LoadDependencies(path, env.needed[path], v);
      if path in loads {
        var objSoname := if path in env.soname then env.soname[path] else "";
        lib := RegisterLibrary(path, soname, objSoname, global, acquired);
      } else {
        ReleaseLoadingSlot(path);
        lib := null;
      }
    }

    /** visiting[path] = true */
    method Enter(path: Name, v: CallStack)
      requires Valid()
      modifies v
      ensures Valid() && v.visiting == old(v.visiting) + {path}
    {
      v.visiting := v.visiting + {path};
    }

    /** the deferred delete(visiting, path) */
    method Leave(path: Name, v: CallStack)
      requires Valid()
      modifies v
      ensures Valid() && v.visiting == old(v.visiting) - {path}
    {
      v.visiting := v.visiting - {path};
    }

    method LoadPath(path: Name, soname: Name, global: bool, v: CallStack) returns (lib: Library?, failed: bool)
      requires Valid() && OpenSpec.Ready(env, view, v.visiting)
      requires path in env.paths && (soname in env.paths ==> soname == path)
      modifies this, repr, v
      ensures Valid()
      ensures fresh(repr - old(repr))
      ensures v.visiting == old(v.visiting)
      ensures Is(lib, OpenSpec.LoadPath(env, loads, old(view), path, soname, global, old(v.visiting)))
      ensures failed <==> lib == null && path !in old(v.visiting)
      decreases env.paths - v.visiting, 1, 1
    {
      hide *;
      ghost var r, visiting := view, v.visiting;
      OpenSpec.LoadPathFound(env, loads, r, path, soname, global, visiting);
      failed := false;
      if path in v.visiting {
        lib := IncrementRefIfLoaded(path);
        return;
      }
      var shouldContinue, waits: bool;
      lib, shouldContinue, waits := CheckLoadingCache(path);
      assert !waits;
      if !shouldContinue {
        return;
      }
      Enter(path, v);
      OpenSpec.ClaimReady(env, r, path, visiting);
      lib := LoadClaimed(path, soname, global, v, r, visiting);
      Leave(path, v);
      assert v.visiting == old(v.visiting);
      failed := lib == null;
    }

    method LoadDependencies(path: Name, needed: seq<Name>, v: CallStack) returns (ghost acquired: seq<nat>)
      requires Valid() && OpenSpec.Ready(env, view, v.visiting)
      requires path in v.visiting && needed == env.Needed(path)
      modifies this, repr, v
      ensures Valid() && fresh(repr - old(repr)) && v.visiting == old(v.visiting)
      ensures OpenSpec.Gathered(view, acquired) ==
              OpenSpec.LoadDependencies(env, loads, old(view), path, 0, [], old(v.visiting))
      decreases env.paths - v.visiting, 2, 0
    {
      hide LoadedInv, GlobalsInv, Valid;
      acquired := [];
      for i := 0 to |needed|
        invariant Valid() && fresh(repr - old(repr)) && v.visiting == old(v.visiting)
        invariant OpenSpec.Ready(env, view, v.visiting)
        invariant OpenSpec.LoadDependencies(env, loads, view, path, i, acquired, v.visiting) ==
                  OpenSpec.LoadDependencies(env, loads, old(view), path, 0, [], old(v.visiting))
      {
        var dep := needed[i];
        if dep in v.visiting {
          continue;
        }
        if (dep, Some(path)) !in env.find {
          continue;
        }
        var lib, failed := LoadPath(env.find[(dep, Some(path))], dep, true, v);
        acquired := acquired + (if lib != null then [lib.id] else []);
      }
    }

    /** Open of a name, with a fresh `visiting`.  Only the first flag counts, RTLD_NOW stands
        for RTLD_LOCAL, and any other number is not RTLD_GLOBAL. */
    method Open(name: Name, flags: seq<int>) returns (lib: Library?)
      requires Valid() && OpenSpec.Ready(env, view, {})
      modifies this, repr
      ensures Valid() && fresh(repr - old(repr))
      ensures Is(lib, OpenSpec.LoadLib(env, loads, old(view), name, flags != [] && flags[0] == 1))
      ensures OpenSpec.Ready(env, view, {})
    {
      hide LoadedInv, GlobalsInv, StandsFor, OpenSpec.LoadPath;
      var flag := RTLD_LOCAL;
      if |flags| > 0 {
        flag := flags[0];
        if flag == RTLD_NOW {
          flag := RTLD_LOCAL;
        }
      }
      var v := new CallStack();
      LoadedKnown();
      if name in loaded {
        lib := loaded[name];
        Retain(lib);
        return;
      }
      if (name, None) !in env.find {
        return null;
      }
      var failed: bool;
      lib, failed := LoadPath(env.find[(name, None)], name, flag == RTLD_GLOBAL, v);
    }

    // ---------------------------------------------------------------- Close

    method RemoveFromLoadedMap(l: Library)
      requires Valid() && l in all
      modifies this`loaded, this`view
      ensures Valid() && view == old(view).(loaded := RemoveValue(old(view).loaded, l.id))
    {
      hide *;
      ghost var before, v := loaded, view;
      Opened();
      ClearedNothing(loaded, l);
      var keys := loaded.Keys;
      while keys != {}
        invariant keys <= loaded.Keys && view == v
        invariant Cleared(before, loaded, l, keys)
        decreases |keys|
      {
        var k :| k in keys;
        ghost var n := loaded;
        if loaded[k] == l {
          loaded := loaded - {k};
        }
        ClearedMore(before, n, l, keys, k);
        keys := keys - {k};
      }
      RemovedStands(all, repr, before, loading, globals, view, loaded, l);
      view := view.(loaded := RemoveValue(view.loaded, l.id));
      Closed();
    }

    method RemoveFromGlobals(l: Library)
      requires Valid() && l in all
      modifies this`globals, this`view
      ensures Valid() && view == old(view).(globals := RemoveFirst(old(view).globals, l.id))
    {
      ghost var before := globals;
      ghost var v := view;
      assert Identified(all) && (forall g <- globals :: g in all) && IdList(globals) == view.globals;
      var i := 0;
      while i < |globals|
        invariant i <= |globals| && globals == before && view == v
        invariant l !in globals[..i]
      {
        hide Valid;
        if globals[i] == l {
          globals := globals[..i] + globals[i + 1..];
          break;
        }
        assert globals[..i + 1] == globals[..i] + [globals[i]];
        i := i + 1;
      }
      CutIds(before, l, i, all);
      view := view.(globals := RemoveFirst(view.globals, l.id));
    }

    /** Library.Close; `unloads` is whether loader.Unload succeeds if it is called.  The
        library is gone from the registry even if it does not. */
    method Close(l: Library, unloads: bool) returns (outcome: CloseOutcome, failed: bool)
      requires Valid() && l in all
      modifies this, l
      ensures Valid() && repr == old(repr)
      ensures l.id < |old(view).libs| && outcome == CloseResult(old(view), l.id)
      ensures view == RegistryModel.Close(old(view), l.id)
      ensures failed <==> outcome.TooManyCloses? || (outcome.Unloaded? && !unloads)
    {
      IdsIdentify(l);
      if l.refCount <= 0 {
        return TooManyCloses, true;
      }
      l.refCount := l.refCount - 1;
      view := view.(libs := view.libs[l.id := l.Value()]);
      if l.refCount != 0 {
        return StillOpen, false;
      }
      RemoveFromLoadedMap(l);
      RemoveFromGlobals(l);
      return Unloaded, !unloads;
    }
  }
}
