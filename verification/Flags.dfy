/** Which libraries are RTLD_GLOBAL: every one that was loaded as a dependency, and of the
    others those whose client asked for it. */
module Flags {
  import opened Wrappers
  import opened RegistryModel
  import opened Protocol
  import Accounting

  /** The flag that belongs at depth i of the stack of a call. */
  function FlagAt(c: Call, i: nat): bool {
    if i == 0 then c.global else true
  }

  ghost predicate FlagsOk(c: Call) {
    && (forall i | 0 <= i < |c.stack| :: c.stack[i].global == FlagAt(c, i))
    && (c.pc.Enter? ==> c.stack == [])
    && (c.pc.Check? || c.pc.Asleep? ==> c.pc.global == FlagAt(c, |c.stack|))
  }

  ghost predicate DependenciesGlobal(s: State) {
    forall id: nat :: s.log[Registered(id, ByDependency)] > 0 ==> id < |s.reg.libs| && s.reg.libs[id].global
  }

  lemma ReturnFlags(c: Call, result: Option<nat>)
    requires FlagsOk(c)
    ensures FlagsOk(Return(c, result)) && Return(c, result).global == c.global
  {
  }

  lemma StepCallFlags(e: Env, r: Reg, c: Call, ok: bool)
    requires r.IdsValid() && c.Runnable() && FlagsOk(c)
    ensures FlagsOk(StepCall(e, r, c, ok).call)
  {
    hide Register, Release;
    match c.pc
    case Enter =>
    case Check(path, _, _) =>
      if path !in r.loading && path in r.loaded {
        ReturnFlags(c, Some(r.loaded[path]));
      }
    case Cycle(_) =>
    case Work =>
      WorkFlags(e, r, c, ok);
  }

  lemma WorkFlags(e: Env, r: Reg, c: Call, ok: bool)
    requires r.IdsValid() && c.pc.Work? && c.stack != [] && FlagsOk(c)
    ensures FlagsOk(StepCall(e, r, c, ok).call)
  {
    hide Register, Release;
    if c.Top().path in e.needed && c.Top().next < |e.Needed(c.Top().path)| {
      NextFlags(e, c);
      hide NextDependency;
    } else {
      PopFlags(c);
      ReturnFlags(Pop(c), None);
      ReturnFlags(Pop(c), Some(|r.libs|));
      hide Return, Pop, FlagsOk;
    }
  }

  lemma NextFlags(e: Env, c: Call)
    requires c.pc.Work? && c.stack != [] && c.Top().next < |e.Needed(c.Top().path)| && FlagsOk(c)
    ensures FlagsOk(NextDependency(e, c))
  {
  }

  lemma PopFlags(c: Call)
    requires c.pc.Work? && c.stack != [] && FlagsOk(c)
    ensures FlagsOk(Pop(c))
  {
  }

  /** What a step does to the libraries, as far as their flags go. */
  lemma StepCallLibs(e: Env, r: Reg, c: Call, ok: bool)
    requires r.IdsValid() && c.Runnable() && FlagsOk(c)
    ensures var o := StepCall(e, r, c, ok);
            && |r.libs| <= |o.reg.libs| <= |r.libs| + 1
            && (forall i | 0 <= i < |r.libs| :: o.reg.libs[i].global == r.libs[i].global)
            && (|o.reg.libs| > |r.libs| ==> c.stack != [] && o.reg.libs[|r.libs|].global == FlagAt(c, |c.stack| - 1))
            && (forall id: nat :: o.events[Registered(id, ByDependency)] > 0 ==>
                                    id == |r.libs| < |o.reg.libs| && |c.stack| > 1)
  {
    hide Return, NextDependency, Publish;
  }

  lemma StepFlags(e: Env, s: State, step: Step)
    requires Enabled(s, step) && DependenciesGlobal(s) && forall c <- s.calls :: FlagsOk(c)
    ensures DependenciesGlobal(Apply(e, s, step)) && forall c <- Apply(e, s, step).calls :: FlagsOk(c)
  {
    hide StepCall;
    match step
    case Start(_, _) =>
    case CloseHandle(_) =>
    case Advance(g, ok) =>
      assert s.calls[g] in s.calls;
      StepCallFlags(e, s.reg, s.calls[g], ok);
      StepCallLibs(e, s.reg, s.calls[g], ok);
      forall i | 0 <= i < |s.calls| ensures FlagsOk(WakeAll(s.calls)[i]) {
        assert s.calls[i] in s.calls;
      }
  }

  lemma {:induction false} RunFlags(e: Env, states: seq<State>, steps: seq<Step>, i: nat)
    requires Run(e, states, steps) && states[0] == INIT && i <= |steps|
    ensures DependenciesGlobal(states[i]) && forall c <- states[i].calls :: FlagsOk(c)
  {
    if i > 0 {
      RunFlags(e, states, steps, i - 1);
      assert Next(e, states[i - 1], steps[i - 1], states[i]);
      StepFlags(e, states[i - 1], steps[i - 1]);
    }
  }

  /** In every reachable state a library that loadDependencies brought in is RTLD_GLOBAL,
      whatever the client asked for, so its symbols are in scope while it is loaded. */
  lemma DependenciesAreGlobal(e: Env, s: State, id: nat)
    requires e.WellFormed() && Reachable(e, s) && s.log[Registered(id, ByDependency)] > 0
    ensures id < |s.reg.libs| && s.reg.libs[id].global
    ensures s.reg.Live(id) ==> id in s.reg.globals
  {
    var states, steps :| RunTo(e, INIT, states, steps, s);
    RunFlags(e, states, steps, |steps|);
    ReachableInv(e, s);
  }

  /** The library that an Open registers for its own name has the flag of that Open. */
  lemma OpensAsAsked(e: Env, s: State, g: nat, ok: bool)
    requires Reachable(e, s) && Enabled(s, Advance(g, ok)) && |s.calls[g].stack| == 1
    requires |Apply(e, s, Advance(g, ok)).reg.libs| > |s.reg.libs|
    ensures Apply(e, s, Advance(g, ok)).reg.libs[|s.reg.libs|].global == s.calls[g].global
  {
    var states, steps :| RunTo(e, INIT, states, steps, s);
    RunFlags(e, states, steps, |steps|);
    assert s.calls[g] in s.calls;
    StepCallLibs(e, s.reg, s.calls[g], ok);
  }

  /** What loadDependencies acquired for a library is in scope exactly while it is loaded and
      its own registration was RTLD_GLOBAL: as a dependency, or by an Open that asked for it.
      A dependency found in the cache keeps the flag it had. */
  lemma DependencyInScopeIff(e: Env, s: State, i: nat, d: nat)
    requires e.WellFormed() && Reachable(e, s) && i < |s.reg.libs| && d in s.reg.libs[i].deps
    ensures d in s.reg.globals <==> s.reg.Live(d) && s.reg.libs[d].global
    ensures s.reg.Live(d) && s.log[Registered(d, ByClient)] == 0 ==> d in s.reg.globals
  {
    ReachableInv(e, s);
    if s.reg.Live(d) && s.log[Registered(d, ByClient)] == 0 {
      var states, steps :| RunTo(e, INIT, states, steps, s);
      Accounting.RunBooks(e, states, steps, |steps|);
      assert Accounting.BooksOf(s, d);
      DependenciesAreGlobal(e, s, d);
    }
  }
}
