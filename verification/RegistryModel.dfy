/** The values held by the package-level variables of dl/dl.go, and what each
    critical section under `mu` does to them.  Both the goroutine protocol
    (module Protocol) and the single-threaded class (module Registry) are
    built from the transitions defined here. */
module RegistryModel {
  import opened Wrappers

  /** Sonames and resolved paths are keys of one map, so they share one type. */
  type Name = string

  /** What the file system and the ELF parser answer.
      - `paths`: the files that findLibrary can return;
      - `find[(name, parent)]`: the path findLibrary returns for `name` asked for by
        `parent` (None for a client's Open); no entry means "not found";
      - `needed[p]`: the DT_NEEDED list of p; no entry means goelf.Parse(p) fails;
      - `soname[p]`: the DT_SONAME of p; no entry means the empty string. */
  datatype Env = Env(
    paths: set<Name>,
    find: map<(Name, Option<Name>), Name>,
    needed: map<Name, seq<Name>>,
    soname: map<Name, Name>)
  {
    function Soname(path: Name): Name {
      if path in soname then soname[path] else ""
    }

    function Needed(path: Name): seq<Name> {
      if path in needed then needed[path] else []
    }

    /** A path used as a name stands for itself, and a DT_SONAME is never the path of
        another file. */
    ghost predicate WellFormed() {
      && (forall k <- find :: find[k] in paths)
      && (forall k <- find :: k.0 in paths ==> find[k] == k.0)
      && (forall p <- paths :: (p, None) in find)
      && (forall p <- paths :: Soname(p) in paths ==> Soname(p) == p)
    }

    /** q is what the i-th DT_NEEDED entry of p resolves to. */
    ghost predicate EdgeAt(p: Name, i: nat, q: Name) {
      p in needed && i < |needed[p]| && (needed[p][i], Some(p)) in find && find[(needed[p][i], Some(p))] == q
    }

    /** The resolved dependency graph. */
    ghost predicate Edge(p: Name, q: Name) {
      exists i: nat :: EdgeAt(p, i, q)
    }
  }

  /** A Library.  `deps` is history: what loadDependencies acquired for it. */
  datatype Lib = Lib(path: Name, global: bool, refs: int, deps: seq<nat>)

  /** `loaded`, `loading` and `globals`; a *Library is an index into `libs`. */
  datatype Reg = Reg(libs: seq<Lib>, loaded: map<Name, nat>, loading: set<Name>, globals: seq<nat>)
  {
    predicate IdsValid() {
      forall k <- loaded :: loaded[k] < |libs|
    }

    predicate Live(id: nat) {
      id < |libs| && libs[id].refs > 0
    }
  }

  const EMPTY_REG := Reg([], map[], {}, [])

  /** RefCount++ on a library found in `loaded`. */
  function Retain(r: Reg, id: nat): Reg
    requires id < |r.libs|
  {
    r.(libs := r.libs[id := r.libs[id].(refs := r.libs[id].refs + 1)])
  }

  /** The end of checkLoadingCache: the slot is taken. */
  function Claim(r: Reg, path: Name): Reg {
    r.(loading := r.loading + {path})
  }

  /** releaseLoadingSlot */
  function Release(r: Reg, path: Name): Reg {
    r.(loading := r.loading - {path})
  }

  /** The keys registerLibrary writes, in the order it writes them. */
  function Publish(m: map<Name, nat>, id: nat, path: Name, request: Name, soname: Name): map<Name, nat> {
    var m1 := if soname != "" && soname != path then m[soname := id] else m;
    var m2 := if request != "" && request != path && request != soname then m1[request := id] else m1;
    m2[path := id]
  }

  /** registerLibrary; loader.Load returned an object whose RefCount is 1. */
  function Register(r: Reg, path: Name, request: Name, soname: Name, global: bool, deps: seq<nat>): Reg {
    var id := |r.libs|;
    Reg(r.libs + [Lib(path, global, 1, deps)],
        Publish(r.loaded, id, path, request, soname),
        r.loading - {path},
        if global then r.globals + [id] else r.globals)
  }

  /** removeFromLoadedMap */
  function RemoveValue(m: map<Name, nat>, id: nat): map<Name, nat> {
    map k | k in m && m[k] != id :: m[k]
  }

  /** removeFromGlobals: only the first occurrence goes. */
  function RemoveFirst(s: seq<nat>, id: nat): seq<nat> {
    if s == [] then []
    else if s[0] == id then s[1..]
    else [s[0]] + RemoveFirst(s[1..], id)
  }

  datatype CloseOutcome = TooManyCloses | StillOpen | Unloaded

  function CloseResult(r: Reg, id: nat): CloseOutcome
    requires id < |r.libs|
  {
    if r.libs[id].refs <= 0 then TooManyCloses
    else if r.libs[id].refs == 1 then Unloaded
    else StillOpen
  }

  /** Library.Close */
  function Close(r: Reg, id: nat): Reg
    requires id < |r.libs|
  {
    var dropped := r.(libs := r.libs[id := r.libs[id].(refs := r.libs[id].refs - 1)]);
    match CloseResult(r, id)
    case TooManyCloses => r
    case StillOpen => dropped
    case Unloaded => dropped.(loaded := RemoveValue(r.loaded, id), globals := RemoveFirst(r.globals, id))
  }

  // ---------------------------------------------------------------- invariant

  ghost predicate Distinct<T>(s: seq<T>) {
    forall i, j :: 0 <= i < j < |s| ==> s[i] != s[j]
  }

  /** What holds of the registry between critical sections. */
  ghost predicate RegInv(e: Env, r: Reg) {
    && LoadedInv(e, r)
    && GlobalsInv(r)
    && r.loading <= e.paths
    && r.loading !! r.loaded.Keys
  }

  /** Every key leads to a live library, a path key to the library of that path, and
      every live library is found under its path. */
  ghost predicate LoadedInv(e: Env, r: Reg) {
    && (forall k <- r.loaded :: r.Live(r.loaded[k]))
    && (forall k <- r.loaded :: k in e.paths ==> r.libs[r.loaded[k]].path == k)
    && (forall i :: 0 <= i < |r.libs| ==> r.libs[i].refs >= 0 && r.libs[i].path in e.paths)
    && (forall i :: 0 <= i < |r.libs| && r.libs[i].refs > 0 ==>
                      r.libs[i].path in r.loaded && r.loaded[r.libs[i].path] == i)
  }

  /** `globals` is, without repetition, the live libraries opened RTLD_GLOBAL. */
  ghost predicate GlobalsInv(r: Reg) {
    && Distinct(r.globals)
    && (forall i: nat :: i in r.globals <==> r.Live(i) && r.libs[i].global)
  }

  lemma RetainKeeps(e: Env, r: Reg, id: nat)
    requires RegInv(e, r) && r.Live(id)
    ensures RegInv(e, Retain(r, id))
  {
    var t := Retain(r, id);
    assert forall i: nat :: t.Live(i) <==> r.Live(i);
  }

  lemma ClaimKeeps(e: Env, r: Reg, path: Name)
    requires RegInv(e, r) && path in e.paths && path !in r.loaded
    ensures RegInv(e, Claim(r, path))
  {
    var t := Claim(r, path);
    assert forall i: nat :: t.Live(i) <==> r.Live(i);
  }

  lemma ReleaseKeeps(e: Env, r: Reg, path: Name)
    requires RegInv(e, r)
    ensures RegInv(e, Release(r, path))
  {
    var t := Release(r, path);
    assert forall i: nat :: t.Live(i) <==> r.Live(i);
  }

  /** A path key can only be written for the library's own path. */
  lemma PublishKeys(e: Env, m: map<Name, nat>, id: nat, path: Name, request: Name, k: Name)
    requires e.WellFormed() && path in e.paths && (request in e.paths ==> request == path)
    ensures path in Publish(m, id, path, request, e.Soname(path))
    ensures k in Publish(m, id, path, request, e.Soname(path)) ==>
              || (Publish(m, id, path, request, e.Soname(path))[k] == id && (k in e.paths ==> k == path))
              || (k in m && k != path && Publish(m, id, path, request, e.Soname(path))[k] == m[k])
    ensures k in m && k in e.paths && k != path ==>
              k in Publish(m, id, path, request, e.Soname(path)) && Publish(m, id, path, request, e.Soname(path))[k] == m[k]
  {
  }

  lemma RegisterKeeps(e: Env, r: Reg, path: Name, request: Name, global: bool, deps: seq<nat>)
    requires e.WellFormed() && RegInv(e, r)
    requires path in r.loading && (request in e.paths ==> request == path)
    ensures RegInv(e, Register(r, path, request, e.Soname(path), global, deps))
  {
    var t := Register(r, path, request, e.Soname(path), global, deps);
    RegisterKeepsLoaded(e, r, path, request, global, deps);
    RegisterKeepsGlobals(r, path, request, e.Soname(path), global, deps);
    hide LoadedInv, GlobalsInv, Publish;
    forall k | k in t.loaded ensures k !in t.loading {
      PublishKeys(e, r.loaded, |r.libs|, path, request, k);
    }
  }

  lemma RegisterKeepsGlobals(r: Reg, path: Name, request: Name, soname: Name, global: bool, deps: seq<nat>)
    requires GlobalsInv(r)
    ensures GlobalsInv(Register(r, path, request, soname, global, deps))
  {
    hide Publish;
    var t := Register(r, path, request, soname, global, deps);
    assert !r.Live(|r.libs|) && |r.libs| !in r.globals;
    forall i: nat ensures i in t.globals <==> t.Live(i) && t.libs[i].global {
      assert i in r.globals <==> r.Live(i) && r.libs[i].global;
    }
  }

  lemma RegisterKeepsLoaded(e: Env, r: Reg, path: Name, request: Name, global: bool, deps: seq<nat>)
    requires e.WellFormed() && LoadedInv(e, r) && path in e.paths && (request in e.paths ==> request == path)
    requires path !in r.loaded
    ensures LoadedInv(e, Register(r, path, request, e.Soname(path), global, deps))
  {
    hide Publish;
    var t := Register(r, path, request, e.Soname(path), global, deps);
    var id := |r.libs|;
    PublishKeys(e, r.loaded, id, path, request, path);
    forall k | k in t.loaded ensures t.Live(t.loaded[k]) && (k in e.paths ==> t.libs[t.loaded[k]].path == k) {
      PublishKeys(e, r.loaded, id, path, request, k);
    }
    forall i | 0 <= i < id && t.libs[i].refs > 0 ensures t.libs[i].path in t.loaded && t.loaded[t.libs[i].path] == i {
      assert r.libs[i].path in r.loaded;
      PublishKeys(e, r.loaded, id, path, request, r.libs[i].path);
    }
  }

  /** After registration the library answers to its path, to the name it was asked for by
      and to its DT_SONAME, and no name without a claim to it changes hands. */
  lemma RegisterPublishes(r: Reg, path: Name, request: Name, soname: Name, global: bool, deps: seq<nat>, k: Name)
    ensures var t := Register(r, path, request, soname, global, deps);
            if k == path || (k != "" && (k == request || k == soname)) then k in t.loaded && t.loaded[k] == |r.libs|
            else (k in t.loaded <==> k in r.loaded) && (k in r.loaded ==> t.loaded[k] == r.loaded[k])
  {
  }

  lemma RemoveFirstGone(s: seq<nat>, id: nat)
    requires Distinct(s)
    ensures Distinct(RemoveFirst(s, id))
    ensures forall x :: x in RemoveFirst(s, id) <==> x in s && x != id
  {
    if s != [] {
      assert s == [s[0]] + s[1..];
      RemoveFirstGone(s[1..], id);
      assert s[0] !in s[1..];
      var rest := RemoveFirst(s[1..], id);
      assert s[0] !in rest;
      assert Distinct([s[0]] + rest);
    }
  }

  lemma CloseKeeps(e: Env, r: Reg, id: nat)
    requires RegInv(e, r) && id < |r.libs|
    ensures RegInv(e, Close(r, id))
  {
    var t := Close(r, id);
    match CloseResult(r, id)
    case TooManyCloses =>
    case StillOpen =>
      assert forall i: nat :: t.Live(i) <==> r.Live(i);
    case Unloaded =>
      RemoveFirstGone(r.globals, id);
      assert forall i: nat :: t.Live(i) <==> r.Live(i) && i != id;
  }

  /** What a caller of Close sees: the last Close takes the library out of `globals`
      and out from under every key it was known by, and leaves every other key and
      library as it was. */
  lemma LastCloseUnpublishes(e: Env, r: Reg, id: nat)
    requires RegInv(e, r) && r.Live(id)
    ensures CloseResult(r, id) == Unloaded <==> !Close(r, id).Live(id)
    ensures CloseResult(r, id) == Unloaded ==>
              && (forall k <- Close(r, id).loaded :: Close(r, id).loaded[k] != id)
              && id !in Close(r, id).globals
    ensures forall k <- r.loaded :: r.loaded[k] != id ==>
                                      k in Close(r, id).loaded && Close(r, id).loaded[k] == r.loaded[k]
    ensures forall i | 0 <= i < |r.libs| && i != id :: Close(r, id).libs[i] == r.libs[i]
  {
    RemoveFirstGone(r.globals, id);
  }
}
