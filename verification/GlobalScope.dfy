/** Symbol resolution over the RTLD_GLOBAL libraries (dl/dl.go), and what the steps of the
    loading protocol do to it. */
module GlobalScope {
  import opened Wrappers
  import opened RegistryModel
  import opened Protocol

  datatype Symbol = Symbol(value: nat, weak: bool, ifunc: bool)

  /** The symbol table of each library; it does not change once the library is loaded. */
  type Tables = nat -> map<Name, Symbol>

  predicate Defines(tables: Tables, id: nat, name: Name, weak: bool) {
    name in tables(id) && tables(id)[name].weak == weak
  }

  /** resolveSymbolAddr; `call` stands for running an IFUNC resolver. */
  method ResolveSymbolAddr(s: Symbol, call: nat -> nat) returns (addr: nat)
    ensures !s.ifunc ==> addr == s.value
    ensures s.ifunc ==> addr == call(s.value)
  {
    if s.ifunc {
      return call(s.value);
    }
    return s.value;
  }

  /** The first library in load order with a strong, or a weak, definition. */
  function First(scope: seq<nat>, tables: Tables, name: Name, weak: bool): Option<nat> {
    if scope == [] then None
    else if Defines(tables, scope[0], name, weak) then Some(scope[0])
    else First(scope[1..], tables, name, weak)
  }

  /** The library a name resolves to. */
  function Provider(scope: seq<nat>, tables: Tables, name: Name): Option<nat> {
    var strong := First(scope, tables, name, false);
    if strong.Some? then strong else First(scope, tables, name, true)
  }

  ghost predicate FirstAt(scope: seq<nat>, tables: Tables, name: Name, weak: bool, i: int) {
    && 0 <= i < |scope| && Defines(tables, scope[i], name, weak)
    && forall j :: 0 <= j < i ==> !Defines(tables, scope[j], name, weak)
  }

  ghost predicate NoneOf(scope: seq<nat>, tables: Tables, name: Name, weak: bool) {
    forall j :: 0 <= j < |scope| ==> !Defines(tables, scope[j], name, weak)
  }

  lemma {:induction false} FirstMeans(scope: seq<nat>, tables: Tables, name: Name, weak: bool) returns (i: int)
    ensures match First(scope, tables, name, weak)
            case None => NoneOf(scope, tables, name, weak)
            case Some(id) => FirstAt(scope, tables, name, weak, i) && scope[i] == id
  {
    i := 0;
    if scope != [] && !Defines(tables, scope[0], name, weak) {
      i := FirstMeans(scope[1..], tables, name, weak);
      i := i + 1;
      assert forall j :: 0 < j < |scope| ==> scope[j] == scope[1..][j - 1];
    }
  }

  lemma {:induction false} FirstFound(scope: seq<nat>, tables: Tables, name: Name, weak: bool, i: int)
    requires FirstAt(scope, tables, name, weak, i)
    ensures First(scope, tables, name, weak) == Some(scope[i])
  {
    if i > 0 {
      assert !Defines(tables, scope[0], name, weak);
      assert forall j :: 0 <= j < |scope| - 1 ==> scope[1..][j] == scope[j + 1];
      FirstFound(scope[1..], tables, name, weak, i - 1);
    }
  }

  /** A strong definition anywhere beats every weak one; among equals the earliest wins. */
  lemma ProviderMeans(scope: seq<nat>, tables: Tables, name: Name)
    ensures match Provider(scope, tables, name)
            case None => NoneOf(scope, tables, name, false) && NoneOf(scope, tables, name, true)
            case Some(id) =>
              exists i, weak :: FirstAt(scope, tables, name, weak, i) && scope[i] == id
                                && (weak ==> NoneOf(scope, tables, name, false))
  {
    var i := FirstMeans(scope, tables, name, false);
    var j := FirstMeans(scope, tables, name, true);
  }

  /** What a search answers: the provider's value, or what its resolver answers if it is an
      IFUNC, and nothing if there is no provider. */
  ghost predicate Answers(scope: seq<nat>, tables: Tables, call: nat -> nat, name: Name, addr: Option<nat>) {
    match Provider(scope, tables, name)
    case None => addr == None
    case Some(id) =>
      && name in tables(id) && addr.Some?
      && (!tables(id)[name].ifunc ==> addr.value == tables(id)[name].value)
      && (tables(id)[name].ifunc ==> addr.value == call(tables(id)[name].value))
  }

  /** searchGlobalsWithLibrary */
  method SearchGlobalsWithLibrary(globals: seq<nat>, tables: Tables, call: nat -> nat, name: Name)
    returns (addr: Option<nat>, lib: Option<nat>)
    ensures lib == Provider(globals, tables, name)
    ensures Answers(globals, tables, call, name, addr)
  {
    for i := 0 to |globals|
      invariant NoneOf(globals[..i], tables, name, false)
    {
      if name in tables(globals[i]) && !tables(globals[i])[name].weak {
        assert forall j :: 0 <= j < i ==> globals[j] == globals[..i][j];
        FirstFound(globals, tables, name, false, i);
        var a := ResolveSymbolAddr(tables(globals[i])[name], call);
        return Some(a), Some(globals[i]);
      }
    }
    assert globals[..|globals|] == globals;
    var _ := FirstMeans(globals, tables, name, false);
    for i := 0 to |globals|
      invariant NoneOf(globals[..i], tables, name, true)
    {
      if name in tables(globals[i]) && tables(globals[i])[name].weak {
        assert forall j :: 0 <= j < i ==> globals[j] == globals[..i][j];
        FirstFound(globals, tables, name, true, i);
        var a := ResolveSymbolAddr(tables(globals[i])[name], call);
        return Some(a), Some(globals[i]);
      }
    }
    var _ := FirstMeans(globals, tables, name, true);
    return None, None;
  }

  /** searchGlobalsForSymbol: the same two passes, without the library. */
  method SearchGlobalsForSymbol(globals: seq<nat>, tables: Tables, call: nat -> nat, name: Name)
    returns (addr: Option<nat>)
    ensures Answers(globals, tables, call, name, addr)
  {
    for i := 0 to |globals|
      invariant NoneOf(globals[..i], tables, name, false)
    {
      if name in tables(globals[i]) && !tables(globals[i])[name].weak {
        assert forall j :: 0 <= j < i ==> globals[j] == globals[..i][j];
        FirstFound(globals, tables, name, false, i);
        var a := ResolveSymbolAddr(tables(globals[i])[name], call);
        return Some(a);
      }
    }
    assert globals[..|globals|] == globals;
    var _ := FirstMeans(globals, tables, name, false);
    for i := 0 to |globals|
      invariant NoneOf(globals[..i], tables, name, true)
    {
      if name in tables(globals[i]) && tables(globals[i])[name].weak {
        assert forall j :: 0 <= j < i ==> globals[j] == globals[..i][j];
        FirstFound(globals, tables, name, true, i);
        var a := ResolveSymbolAddr(tables(globals[i])[name], call);
        return Some(a);
      }
    }
    var _ := FirstMeans(globals, tables, name, true);
    return None;
  }

  // ---------------------------------------------------------------- along a run

  lemma {:induction false} FirstAppend(scope: seq<nat>, id: nat, tables: Tables, name: Name, weak: bool)
    ensures First(scope + [id], tables, name, weak) ==
            if First(scope, tables, name, weak).Some? then First(scope, tables, name, weak)
            else if Defines(tables, id, name, weak) then Some(id) else None
  {
    if scope != [] {
      assert (scope + [id])[1..] == scope[1..] + [id];
      FirstAppend(scope[1..], id, tables, name, weak);
    }
  }

  /** When a library joins the scope, a name changes hands only if it had no definition,
      or a weak one that a new strong one beats. */
  lemma RegisterEffect(scope: seq<nat>, id: nat, tables: Tables, name: Name)
    ensures var old_ := Provider(scope, tables, name);
            Provider(scope + [id], tables, name) ==
            if old_.Some? && Defines(tables, old_.value, name, false) then old_
            else if Defines(tables, id, name, false) then Some(id)
            else if old_.Some? then old_
            else if Defines(tables, id, name, true) then Some(id) else None
  {
    FirstAppend(scope, id, tables, name, false);
    FirstAppend(scope, id, tables, name, true);
    var _ := FirstMeans(scope, tables, name, false);
    var _ := FirstMeans(scope, tables, name, true);
  }

  lemma {:induction false} FirstRemoved(scope: seq<nat>, id: nat, tables: Tables, name: Name, weak: bool)
    requires First(scope, tables, name, weak) != Some(id)
    ensures First(RemoveFirst(scope, id), tables, name, weak) == First(scope, tables, name, weak)
  {
    if scope != [] && scope[0] != id {
      if !Defines(tables, scope[0], name, weak) {
        FirstRemoved(scope[1..], id, tables, name, weak);
      }
      assert RemoveFirst(scope, id)[1..] == RemoveFirst(scope[1..], id);
    }
  }

  /** Closing a library that is not the provider leaves the resolution as it was. */
  lemma CloseEffect(scope: seq<nat>, id: nat, tables: Tables, name: Name)
    requires Provider(scope, tables, name) != Some(id)
    ensures Provider(RemoveFirst(scope, id), tables, name) == Provider(scope, tables, name)
  {
    FirstRemoved(scope, id, tables, name, false);
    if First(scope, tables, name, false) == None {
      FirstRemoved(scope, id, tables, name, true);
    }
  }

  lemma StepEffect(e: Env, s: State, step: Step, tables: Tables, name: Name, p: nat)
    requires e.WellFormed() && Inv(e, s) && Enabled(s, step)
    requires Provider(s.reg.globals, tables, name) == Some(p) && Defines(tables, p, name, false)
    requires Apply(e, s, step).reg.Live(p)
    ensures Provider(Apply(e, s, step).reg.globals, tables, name) == Some(p)
  {
    var t := Apply(e, s, step);
    match step
    case Start(_, _) =>
    case Advance(g, ok) =>
      if t.reg.globals != s.reg.globals {
        GlobalsOnlyGrow(e, s.reg, s.calls[g], ok);
        RegisterEffect(s.reg.globals, |s.reg.libs|, tables, name);
      }
    case CloseHandle(id) =>
      if t.reg.globals != s.reg.globals {
        CloseEffect(s.reg.globals, id, tables, name);
      }
  }

  lemma GlobalsOnlyGrow(e: Env, r: Reg, c: Call, ok: bool)
    requires r.IdsValid() && c.Runnable()
    ensures StepCall(e, r, c, ok).reg.globals == r.globals
            || StepCall(e, r, c, ok).reg.globals == r.globals + [|r.libs|]
  {
  }

  /** A library that has been unmapped is never live again. */
  lemma StaysDead(e: Env, s: State, step: Step, p: nat)
    requires e.WellFormed() && Inv(e, s) && Enabled(s, step) && p < |s.reg.libs| && !s.reg.Live(p)
    ensures p < |Apply(e, s, step).reg.libs| && !Apply(e, s, step).reg.Live(p)
  {
    if step.Advance? {
      CallLeavesDead(e, s.reg, s.calls[step.g], step.ok, p);
    }
  }

  lemma CallLeavesDead(e: Env, r: Reg, c: Call, ok: bool, p: nat)
    requires LoadedInv(e, r) && c.Runnable() && p < |r.libs| && !r.Live(p)
    ensures p < |StepCall(e, r, c, ok).reg.libs| && !StepCall(e, r, c, ok).reg.Live(p)
  {
    hide NextDependency, Return, Pop, Publish;
    assert forall k <- r.loaded :: r.loaded[k] != p;
  }

  lemma {:induction false} DeadForGood(e: Env, states: seq<State>, steps: seq<Step>, p: nat, i: nat)
    requires e.WellFormed() && Run(e, states, steps) && Inv(e, states[0]) && i <= |steps|
    requires p < |states[i].reg.libs| && !states[i].reg.Live(p)
    ensures p < |states[|steps|].reg.libs| && !states[|steps|].reg.Live(p)
    decreases |steps| - i
  {
    if i < |steps| {
      RunKeeps(e, states, steps, i);
      assert Next(e, states[i], steps[i], states[i + 1]);
      StaysDead(e, states[i], steps[i], p);
      DeadForGood(e, states, steps, p, i + 1);
    }
  }

  /** Along any run, a name that resolves to a strong definition goes on resolving to it
      for as long as its library is loaded, whatever else is opened and closed. */
  lemma {:induction false} StrongResolutionIsStable(e: Env, states: seq<State>, steps: seq<Step>, tables: Tables, name: Name, p: nat, i: nat)
    requires e.WellFormed() && Run(e, states, steps) && Inv(e, states[0]) && i <= |steps|
    requires Provider(states[0].reg.globals, tables, name) == Some(p) && Defines(tables, p, name, false)
    requires states[|steps|].reg.Live(p)
    ensures Provider(states[i].reg.globals, tables, name) == Some(p)
  {
    if i > 0 {
      StrongResolutionIsStable(e, states, steps, tables, name, p, i - 1);
      RunKeeps(e, states, steps, i - 1);
      assert Next(e, states[i - 1], steps[i - 1], states[i]);
      RunKeeps(e, states, steps, i);
      ProviderInScope(states[i - 1].reg.globals, tables, name);
      StillThere(e, states[i - 1], steps[i - 1], p);
      if !states[i].reg.Live(p) {
        DeadForGood(e, states, steps, p, i);
      }
      StepEffect(e, states[i - 1], steps[i - 1], tables, name, p);
    }
  }

  /** ... and a search for it goes on answering the same address. */
  lemma StrongAddressIsStable(e: Env, states: seq<State>, steps: seq<Step>, tables: Tables, call: nat -> nat, name: Name, p: nat,
                              addr: Option<nat>, later: Option<nat>)
    requires e.WellFormed() && Run(e, states, steps) && Inv(e, states[0])
    requires Provider(states[0].reg.globals, tables, name) == Some(p) && Defines(tables, p, name, false)
    requires states[|steps|].reg.Live(p)
    requires Answers(states[0].reg.globals, tables, call, name, addr)
    requires Answers(states[|steps|].reg.globals, tables, call, name, later)
    ensures later == addr == Some(if tables(p)[name].ifunc then call(tables(p)[name].value) else tables(p)[name].value)
  {
    StrongResolutionIsStable(e, states, steps, tables, name, p, |steps|);
  }

  lemma ProviderInScope(scope: seq<nat>, tables: Tables, name: Name)
    ensures Provider(scope, tables, name).Some? ==> Provider(scope, tables, name).value in scope
  {
    var i := FirstMeans(scope, tables, name, false);
    var j := FirstMeans(scope, tables, name, true);
  }

  lemma StillThere(e: Env, s: State, step: Step, p: nat)
    requires Inv(e, s) && Enabled(s, step)
    ensures p in s.reg.globals ==> p < |Apply(e, s, step).reg.libs|
  {
  }
}
