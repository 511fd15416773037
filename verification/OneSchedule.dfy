/** The single-threaded Open is one of the schedules of the protocol, so everything proved
    of every interleaving (modules Liveness, Deadlock, Accounting) holds of it. */
module OneSchedule {
  import opened Wrappers
  import opened RegistryModel
  import opened Protocol
  import opened Deadlock
  import Liveness
  import OpenSpec

  /** Call g holds every slot there is and nobody sleeps. */
  ghost predicate Alone(s: State, g: nat) {
    && g < |s.calls|
    && s.reg.loading == s.calls[g].visiting
    && (forall h :: 0 <= h < |s.calls| ==> !s.calls[h].pc.Asleep?)
  }

  /** One step of call g, with nobody to wake. */
  lemma Do(e: Env, s: State, g: nat, ok: bool) returns (t: State)
    requires e.WellFormed() && Reachable(e, s) && Alone(s, g) && s.calls[g].Runnable()
    ensures s.reg.IdsValid() && Reachable(e, t) && Inv(e, t)
    ensures var o := StepCall(e, s.reg, s.calls[g], ok);
            t.reg == o.reg && t.calls == s.calls[g := o.call]
  {
    ReachableInv(e, s);
    t := Apply(e, s, Advance(g, ok));
    ReachStep(e, s, Advance(g, ok), t);
    ReachableInv(e, t);
    assert WakeAll(s.calls) == s.calls;
  }

  lemma CallAt(e: Env, s: State, g: nat)
    requires e.WellFormed() && Reachable(e, s) && g < |s.calls|
    ensures RegInv(e, s.reg) && CallInv(e, s.reg, s.calls[g])
  {
    ReachableInv(e, s);
  }

  /** The frame a claim pushes is gone when the load returns. */
  lemma PopsBack(c: Call, c2: Call, f: Frame, lib: Option<nat>)
    requires f.path !in c.visiting
    requires c2.stack == c.stack + [f] && c2.visiting == c.visiting + {f.path}
    requires c2.name == c.name && c2.global == c.global
    ensures c2.Top() == f && Return(Pop(c2), lib) == Return(c, lib)
  {
    assert c2.Below() == c.stack;
    assert Pop(c2).visiting == c.visiting;
    assert Pop(c2).(pc := c.pc) == c;
  }

  /** The last step of a load: registered or given up. */
  lemma FinishLoad(e: Env, s: State, g: nat, c: Call, f: Frame, ok: bool) returns (t: State)
    requires e.WellFormed() && Reachable(e, s) && Alone(s, g) && s.calls[g].pc.Work?
    requires f.path !in c.visiting && s.calls[g].name == c.name && s.calls[g].global == c.global
    requires s.calls[g].stack == c.stack + [f] && s.calls[g].visiting == c.visiting + {f.path}
    requires f.path in e.needed ==> f.next == |e.Needed(f.path)|
    ensures Reachable(e, t)
    ensures f.path in e.needed && ok ==>
              && t.reg == Register(s.reg, f.path, f.request, e.Soname(f.path), f.global, f.acquired)
              && t.calls == s.calls[g := Return(c, Some(|s.reg.libs|))]
    ensures !(f.path in e.needed && ok) ==>
              t.reg == Release(s.reg, f.path) && t.calls == s.calls[g := Return(c, None)]
  {
    PopsBack(c, s.calls[g], f, None);
    PopsBack(c, s.calls[g], f, Some(|s.reg.libs|));
    t := Do(e, s, g, ok);
  }

  ghost predicate Checking(e: Env, s: State, g: nat) {
    && e.WellFormed() && Reachable(e, s) && g < |s.calls| && Alone(s, g) && s.calls[g].pc.Check?
    && RegInv(e, s.reg) && CallInv(e, s.reg, s.calls[g])
  }

  /** What call g is about to load. */
  ghost function LoadOf(e: Env, loads: set<Name>, s: State, g: nat): OpenSpec.Loaded
    requires Checking(e, s, g)
  {
    var c := s.calls[g];
    OpenSpec.LoadPath(e, loads, s.reg, c.pc.path, c.pc.request, c.pc.global, c.visiting)
  }

  ghost predicate LoadedTo(s: State, g: nat, u: OpenSpec.Loaded, t: State)
    requires g < |s.calls|
  {
    t.reg == u.reg && t.calls == s.calls[g := Return(s.calls[g], u.lib)]
  }

  lemma RunFound(e: Env, loads: set<Name>, s: State, g: nat) returns (t: State)
    requires Checking(e, s, g) && s.calls[g].pc.path in s.reg.loaded
    ensures Reachable(e, t) && LoadedTo(s, g, LoadOf(e, loads, s, g), t)
  {
    t := Do(e, s, g, true);
  }

  /** Taking the slot. */
  lemma RunClaim(e: Env, s: State, g: nat) returns (t: State)
    requires Checking(e, s, g) && s.calls[g].pc.path !in s.reg.loaded
    ensures Reachable(e, t) && Alone(t, g) && t.calls[g].pc.Work?
    ensures RegInv(e, t.reg) && CallInv(e, t.reg, t.calls[g])
    ensures var c := s.calls[g];
            && ClaimedFrom(e, s, g, t)
            && t.calls == s.calls[g := t.calls[g]]
            && t.calls[g] == Call(c.name, c.global, c.visiting + {c.pc.path},
                                  c.stack + [Frame(c.pc.path, c.pc.request, c.pc.global, 0, [])], Work)
  {
    hide StepCall, RegInv, CallInv, Reachable;
    ClaimShrinks(e, s, g);
    ClaimIs(e, s.reg, s.calls[g], true);
    t := Do(e, s, g, true);
    CallAt(e, t, g);
  }

  lemma RunUnparsed(e: Env, loads: set<Name>, s: State, g: nat) returns (t: State)
    requires Checking(e, s, g) && s.calls[g].pc.path !in s.reg.loaded && s.calls[g].pc.path !in e.needed
    ensures Reachable(e, t) && LoadedTo(s, g, LoadOf(e, loads, s, g), t)
  {
    var c := s.calls[g];
    var s1 := RunClaim(e, s, g);
    t := FinishLoad(e, s1, g, c, Frame(c.pc.path, c.pc.request, c.pc.global, 0, []), true);
    assert s1.calls[g := Return(c, None)] == s.calls[g := Return(c, None)];
  }

  lemma {:induction false} RunLoadPath(e: Env, loads: set<Name>, s: State, g: nat) returns (t: State)
    requires Checking(e, s, g)
    ensures Reachable(e, t) && LoadedTo(s, g, LoadOf(e, loads, s, g), t)
    decreases e.paths - s.reg.loading, 1, 0
  {
    var path := s.calls[g].pc.path;
    if path in s.reg.loaded {
      t := RunFound(e, loads, s, g);
    } else if path !in e.needed {
      t := RunUnparsed(e, loads, s, g);
    } else {
      hide RegInv, CallInv, Reachable, LoadedTo, LoadOf, LoopedTo, RestOfLoop;
      ClaimShrinks(e, s, g);
      var s1 := RunClaim(e, s, g);
      ClaimLoops(e, s, g, s1);
      var s2 := RunLoadDependencies(e, loads, s1, g);
      t := RunEnd(e, loads, s, g, s1, s2);
    }
  }

  lemma ClaimShrinks(e: Env, s: State, g: nat)
    requires Checking(e, s, g) && s.calls[g].pc.path !in s.reg.loaded
    ensures s.calls[g].pc.path in e.paths && s.calls[g].pc.path !in s.reg.loading && s.reg.IdsValid()
  {
  }

  /** s1 is s with the slot of call g's path taken. */
  ghost predicate ClaimedFrom(e: Env, s: State, g: nat, s1: State)
    requires Checking(e, s, g)
  {
    var c := s.calls[g];
    && s1.reg == Claim(s.reg, c.pc.path)
    && s1.calls == s.calls[g := Push(c, Frame(c.pc.path, c.pc.request, c.pc.global, 0, []))]
  }

  lemma ClaimLoops(e: Env, s: State, g: nat, s1: State)
    requires Checking(e, s, g) && ClaimedFrom(e, s, g, s1) && s.calls[g].pc.path in e.needed
    requires Reachable(e, s1) && Alone(s1, g) && RegInv(e, s1.reg) && CallInv(e, s1.reg, s1.calls[g])
    ensures Looping(e, s1, g)
  {
    hide RegInv, CallInv, Reachable;
    assert s1.calls[g].Top() in s1.calls[g].stack;
  }

  /** After the loop the load ends, one way or the other. */
  lemma RunEnd(e: Env, loads: set<Name>, s: State, g: nat, s1: State, s2: State) returns (t: State)
    requires Checking(e, s, g) && ClaimedFrom(e, s, g, s1) && Looping(e, s1, g)
    requires s.calls[g].pc.path !in s.reg.loaded && s.calls[g].pc.path in e.needed
    requires Reachable(e, s2) && Alone(s2, g) && LoopedTo(e, s1, g, RestOfLoop(e, loads, s1, g), s2)
    ensures Reachable(e, t) && LoadedTo(s, g, LoadOf(e, loads, s, g), t)
  {
    var c := s.calls[g];
    var u := RestOfLoop(e, loads, s1, g);
    ClaimShrinks(e, s, g);
    LoadSplits(e, loads, s, g, s1);
    LoopedCall(e, s, g, s1, s2, u);
    assert c.visiting == s.reg.loading;
    hide *;
    var f := EndFrame(e, c, u);
    EndFrameIs(e, c, u);
    t := FinishLoad(e, s2, g, c, f, c.pc.path in loads);
    EndsAs(e, loads, s, g, s1, s2, u, t);
  }

  lemma EndFrameIs(e: Env, c: Call, u: OpenSpec.Gathered)
    requires c.pc.Check?
    ensures EndFrame(e, c, u) == Frame(c.pc.path, c.pc.request, c.pc.global, |e.Needed(c.pc.path)|, u.acquired)
  {
  }

  lemma EndsAs(e: Env, loads: set<Name>, s: State, g: nat, s1: State, s2: State, u: OpenSpec.Gathered, t: State)
    requires Checking(e, s, g) && s.calls[g].pc.path in e.needed && g < |s2.calls| && s2.calls == s.calls[g := s2.calls[g]]
    requires var c, f := s.calls[g], EndFrame(e, s.calls[g], u);
             && (c.pc.path in loads ==>
                   && t.reg == Register(u.reg, f.path, f.request, e.Soname(f.path), f.global, f.acquired)
                   && t.calls == s2.calls[g := Return(c, Some(|u.reg.libs|))])
             && (c.pc.path !in loads ==> t.reg == Release(u.reg, f.path) && t.calls == s2.calls[g := Return(c, None)])
    requires var pc := s.calls[g].pc;
             LoadOf(e, loads, s, g) ==
             if pc.path in loads
             then OpenSpec.Loaded(Register(u.reg, pc.path, pc.request, e.Soname(pc.path), pc.global, u.acquired), Some(|u.reg.libs|))
             else OpenSpec.Loaded(Release(u.reg, pc.path), None)
    ensures LoadedTo(s, g, LoadOf(e, loads, s, g), t)
  {
    hide LoadOf, Register, Release, Return, RegInv, CallInv, Reachable, Alone;
    assert s2.calls[g := t.calls[g]] == s.calls[g := t.calls[g]];
  }

  /** The frame of the path that call c is loading, at the end of its loop. */
  function EndFrame(e: Env, c: Call, u: OpenSpec.Gathered): Frame
    requires c.pc.Check?
  {
    Frame(c.pc.path, c.pc.request, c.pc.global, |e.Needed(c.pc.path)|, u.acquired)
  }

  lemma LoopedCall(e: Env, s: State, g: nat, s1: State, s2: State, u: OpenSpec.Gathered)
    requires Checking(e, s, g) && ClaimedFrom(e, s, g, s1) && Looping(e, s1, g) && LoopedTo(e, s1, g, u, s2)
    ensures var c := s.calls[g];
            && s2.reg == u.reg
            && s2.calls == s.calls[g := s2.calls[g]]
            && s2.calls[g] == Call(c.name, c.global, c.visiting + {c.pc.path}, c.stack + [EndFrame(e, c, u)], Work)
  {
    ClaimedTop(e, s, g, s1);
    hide RegInv, CallInv, Reachable, Alone, ClaimedFrom;
  }

  lemma ClaimedTop(e: Env, s: State, g: nat, s1: State)
    requires Checking(e, s, g) && ClaimedFrom(e, s, g, s1)
    ensures var c, c1 := s.calls[g], s1.calls[g];
            && c1.stack != [] && c1.Below() == c.stack && c1.visiting == c.visiting + {c.pc.path}
            && c1.Top() == Frame(c.pc.path, c.pc.request, c.pc.global, 0, [])
            && c1.name == c.name && c1.global == c.global && c1.pc.Work?
            && s1.calls == s.calls[g := c1]
  {
    hide RegInv, CallInv, Reachable;
  }

  /** What a load comes to, given what its loop comes to. */
  lemma LoadSplits(e: Env, loads: set<Name>, s: State, g: nat, s1: State)
    requires Checking(e, s, g) && ClaimedFrom(e, s, g, s1) && Looping(e, s1, g)
    requires s.calls[g].pc.path !in s.reg.loaded && s.calls[g].pc.path in e.needed
    ensures var pc, u := s.calls[g].pc, RestOfLoop(e, loads, s1, g);
            LoadOf(e, loads, s, g) ==
            if pc.path in loads
            then OpenSpec.Loaded(Register(u.reg, pc.path, pc.request, e.Soname(pc.path), pc.global, u.acquired), Some(|u.reg.libs|))
            else OpenSpec.Loaded(Release(u.reg, pc.path), None)
  {
    ClaimShrinks(e, s, g);
    assert s.calls[g].visiting == s.reg.loading;
    hide LoadedInv, GlobalsInv, Reachable;
  }

  ghost predicate Looping(e: Env, s: State, g: nat) {
    && e.WellFormed() && Reachable(e, s) && g < |s.calls| && Alone(s, g)
    && s.calls[g].pc.Work? && s.calls[g].stack != [] && s.calls[g].Top().path in e.needed
    && RegInv(e, s.reg) && CallInv(e, s.reg, s.calls[g]) && s.calls[g].Top() in s.calls[g].stack
  }

  /** What is left of the loop of call g. */
  ghost function RestOfLoop(e: Env, loads: set<Name>, s: State, g: nat): OpenSpec.Gathered
    requires Looping(e, s, g)
  {
    var f := s.calls[g].Top();
    OpenSpec.LoadDependencies(e, loads, s.reg, f.path, f.next, f.acquired, s.calls[g].visiting)
  }

  ghost predicate LoopedTo(e: Env, s: State, g: nat, u: OpenSpec.Gathered, t: State)
    requires g < |s.calls| && s.calls[g].stack != []
  {
    var c := s.calls[g];
    var f := c.Top();
    t.reg == u.reg
    && t.calls == s.calls[g := c.(stack := c.Below() + [f.(next := |e.Needed(f.path)|, acquired := u.acquired)])]
  }

  /** One entry of the loop is behind, and what is left of it is the same work. */
  ghost predicate OneOn(e: Env, loads: set<Name>, s: State, g: nat, t: State)
    requires Looping(e, s, g)
  {
    && Looping(e, t, g) && RestOfLoop(e, loads, t, g) == RestOfLoop(e, loads, s, g)
    && t.reg.loading == s.reg.loading
    && t.calls == s.calls[g := t.calls[g]]
    && t.calls[g] == s.calls[g].(stack := s.calls[g].Below() + [t.calls[g].Top()])
    && t.calls[g].Top() == s.calls[g].Top().(next := s.calls[g].Top().next + 1, acquired := t.calls[g].Top().acquired)
  }

  ghost predicate MoreToDo(e: Env, s: State, g: nat) {
    Looping(e, s, g) && s.calls[g].Top().next < |e.Needed(s.calls[g].Top().path)|
  }

  lemma LoopFacts(e: Env, s: State, g: nat)
    requires Looping(e, s, g)
    ensures var c := s.calls[g];
            OpenSpec.Ready(e, s.reg, c.visiting) && c.Top().path in c.visiting && c.Top().path in e.paths
            && c.visiting <= e.paths && c.Top().next <= |e.Needed(c.Top().path)|
  {
  }

  /** The call after one more entry, with what has been acquired by then. */
  function Onward(c: Call, acquired: seq<nat>): Call
    requires c.stack != []
  {
    c.(stack := c.Below() + [c.Top().(next := c.Top().next + 1, acquired := acquired)])
  }

  lemma OnwardTop(c: Call, acquired: seq<nat>)
    requires c.stack != []
    ensures var d := Onward(c, acquired);
            && d.stack != [] && d.Below() == c.Below() && d.Top() in d.stack
            && d.Top() == c.Top().(next := c.Top().next + 1, acquired := acquired)
  {
  }

  /** What it takes for one entry to be behind. */
  lemma OneOnIs(e: Env, loads: set<Name>, s: State, g: nat, t: State, acquired: seq<nat>)
    requires MoreToDo(e, s, g)
    requires Reachable(e, t) && Alone(t, g) && RegInv(e, t.reg) && CallInv(e, t.reg, t.calls[g])
    requires t.reg.loading == s.reg.loading && t.calls == s.calls[g := Onward(s.calls[g], acquired)]
    requires OpenSpec.Ready(e, s.reg, s.calls[g].visiting) && OpenSpec.Ready(e, t.reg, s.calls[g].visiting)
    requires s.calls[g].Top().path in s.calls[g].visiting
    requires var c := s.calls[g];
             OpenSpec.LoadDependencies(e, loads, s.reg, c.Top().path, c.Top().next, c.Top().acquired, c.visiting)
             == OpenSpec.LoadDependencies(e, loads, t.reg, c.Top().path, c.Top().next + 1, acquired, c.visiting)
    ensures OneOn(e, loads, s, g, t)
  {
    hide Reachable, RegInv, CallInv, OpenSpec.LoadDependencies, OpenSpec.Ready;
    OnwardTop(s.calls[g], acquired);
  }

  lemma RunSkipped(e: Env, loads: set<Name>, s: State, g: nat) returns (t: State)
    requires MoreToDo(e, s, g) && NextDependency(e, s.calls[g]).pc.Work?
    ensures OneOn(e, loads, s, g, t)
  {
    hide RegInv, CallInv, Reachable, NextDependency, OpenSpec.LoadDependencies, OpenSpec.Ready;
    LoopFacts(e, s, g);
    EntrySkipped(e, loads, s.reg, s.calls[g]);
    NextIs(e, s.calls[g]);
    t := RunTurn(e, s, g);
    OneOnIs(e, loads, s, g, t, s.calls[g].Top().acquired);
  }

  /** An entry that the loop passes over. */
  lemma EntrySkipped(e: Env, loads: set<Name>, r: Reg, c: Call)
    requires OpenSpec.Ready(e, r, c.visiting) && c.pc.Work? && c.stack != [] && c.Top().path in c.visiting
    requires c.Top().next < |e.Needed(c.Top().path)| && NextDependency(e, c).pc.Work?
    ensures var f := c.Top();
            OpenSpec.LoadDependencies(e, loads, r, f.path, f.next, f.acquired, c.visiting)
            == OpenSpec.LoadDependencies(e, loads, r, f.path, f.next + 1, f.acquired, c.visiting)
  {
    hide RegInv;
  }

  lemma TurnIs(e: Env, r: Reg, c: Call, ok: bool)
    requires r.IdsValid() && c.pc.Work? && c.stack != [] && c.Top().path in e.needed
    requires c.Top().next < |e.Needed(c.Top().path)|
    ensures StepCall(e, r, c, ok) == Outcome(r, NextDependency(e, c), multiset{}, false)
  {
    hide NextDependency;
  }

  /** The loop has turned and the call stands before a critical section. */
  lemma RunTurn(e: Env, s: State, g: nat) returns (t: State)
    requires MoreToDo(e, s, g)
    ensures Reachable(e, t) && Alone(t, g) && RegInv(e, t.reg) && CallInv(e, t.reg, t.calls[g])
    ensures t.reg == s.reg && t.calls == s.calls[g := NextDependency(e, s.calls[g])]
    ensures NextDependency(e, s.calls[g]) == Onward(s.calls[g], s.calls[g].Top().acquired).(pc := t.calls[g].pc)
    ensures t.calls[g].pc.Work? || t.calls[g].pc.Check? || t.calls[g].pc.Cycle?
  {
    hide NextDependency, StepCall, RegInv, CallInv, Reachable;
    NextIs(e, s.calls[g]);
    t := Do(e, s, g, true);
    TurnIs(e, s.reg, s.calls[g], true);
    CallAt(e, t, g);
  }

  lemma CycleSkipped(e: Env, loads: set<Name>, r: Reg, p: Name, i: nat, acquired: seq<nat>, visiting: set<Name>)
    requires OpenSpec.Ready(e, r, visiting) && p in visiting && i < |e.Needed(p)|
    requires (e.Needed(p)[i], Some(p)) in e.find && e.find[(e.Needed(p)[i], Some(p))] in visiting
    ensures OpenSpec.LoadDependencies(e, loads, r, p, i, acquired, visiting) ==
            OpenSpec.LoadDependencies(e, loads, r, p, i + 1, acquired, visiting)
  {
    assert acquired + [] == acquired;
  }

  lemma RunCycle(e: Env, loads: set<Name>, s: State, g: nat) returns (t: State)
    requires MoreToDo(e, s, g) && NextDependency(e, s.calls[g]).pc.Cycle?
    ensures OneOn(e, loads, s, g, t)
  {
    hide RegInv, CallInv, Reachable, NextDependency, OpenSpec.LoadDependencies, OpenSpec.Ready, OneOn;
    CycleEquation(e, loads, s, g);
    var s1 := RunTurn(e, s, g);
    t := RunThroughCycle(e, s1, g);
    PastCycle(s, g, s1, t);
    hide Onward, Alone;
    OneOnIs(e, loads, s, g, t, s.calls[g].Top().acquired);
  }

  lemma PastCycle(s: State, g: nat, s1: State, t: State)
    requires g < |s.calls| && s.calls[g].stack != [] && s.calls[g].pc.Work? && g < |s1.calls|
    requires s1.calls == s.calls[g := s1.calls[g]] && t.calls == s1.calls[g := s1.calls[g].(pc := Work)]
    requires s1.calls[g] == Onward(s.calls[g], s.calls[g].Top().acquired).(pc := s1.calls[g].pc)
    ensures t.calls == s.calls[g := Onward(s.calls[g], s.calls[g].Top().acquired)]
  {
  }

  /** An entry on the stack adds nothing to what is left of the loop. */
  lemma CycleEquation(e: Env, loads: set<Name>, s: State, g: nat)
    requires MoreToDo(e, s, g) && NextDependency(e, s.calls[g]).pc.Cycle?
    ensures var c := s.calls[g];
            && OpenSpec.Ready(e, s.reg, c.visiting) && c.Top().path in c.visiting
            && OpenSpec.LoadDependencies(e, loads, s.reg, c.Top().path, c.Top().next, c.Top().acquired, c.visiting)
               == OpenSpec.LoadDependencies(e, loads, s.reg, c.Top().path, c.Top().next + 1, c.Top().acquired, c.visiting)
  {
    hide RegInv, CallInv, Reachable, NextDependency, OpenSpec.LoadDependencies, OpenSpec.Ready;
    var c := s.calls[g];
    var f := c.Top();
    LoopFacts(e, s, g);
    CycleIsNext(e, c);
    CycleSkipped(e, loads, s.reg, f.path, f.next, f.acquired, c.visiting);
  }

  lemma CycleIsNext(e: Env, c: Call)
    requires c.pc.Work? && c.stack != [] && c.Top().next < |e.Needed(c.Top().path)| && NextDependency(e, c).pc.Cycle?
    ensures var f := c.Top();
            && (e.Needed(f.path)[f.next], Some(f.path)) in e.find
            && e.find[(e.Needed(f.path)[f.next], Some(f.path))] in c.visiting
  {
  }

  lemma RunThroughCycle(e: Env, s: State, g: nat) returns (t: State)
    requires e.WellFormed() && Reachable(e, s) && Alone(s, g) && s.calls[g].pc.Cycle?
    requires RegInv(e, s.reg) && CallInv(e, s.reg, s.calls[g])
    ensures Reachable(e, t) && Alone(t, g) && RegInv(e, t.reg) && CallInv(e, t.reg, t.calls[g])
    ensures t.reg == s.reg && t.calls == s.calls[g := s.calls[g].(pc := Work)]
  {
    assert s.calls[g].pc.path !in s.reg.loaded && s.calls[g].stack != [];
    hide RegInv, CallInv, Reachable;
    t := Do(e, s, g, true);
    NothingReturned(s.calls[g]);
    CallAt(e, t, g);
  }

  lemma NothingReturned(c: Call)
    requires c.stack != []
    ensures Return(c, None) == c.(pc := Work)
  {
    assert c.Top().acquired + [] == c.Top().acquired;
    assert c.stack == c.Below() + [c.Top()];
  }

  /** The call has turned to an entry that it is going to load. */
  ghost predicate Turned(e: Env, s: State, g: nat, s1: State) {
    && MoreToDo(e, s, g) && Checking(e, s1, g) && s1.reg == s.reg
    && s1.calls == s.calls[g := NextDependency(e, s.calls[g])] && NextDependency(e, s.calls[g]).pc.Check?
    && NextDependency(e, s.calls[g]) == Onward(s.calls[g], s.calls[g].Top().acquired).(pc := s1.calls[g].pc)
  }

  lemma RunToLoad(e: Env, s: State, g: nat) returns (s1: State)
    requires MoreToDo(e, s, g) && NextDependency(e, s.calls[g]).pc.Check?
    ensures Turned(e, s, g, s1)
  {
    hide RegInv, CallInv, Reachable, NextDependency;
    s1 := RunTurn(e, s, g);
  }

  lemma {:induction false} RunChecked(e: Env, loads: set<Name>, s: State, g: nat) returns (t: State)
    requires MoreToDo(e, s, g) && NextDependency(e, s.calls[g]).pc.Check?
    ensures OneOn(e, loads, s, g, t)
    decreases e.paths - s.reg.loading, 2, 0
  {
    hide RegInv, CallInv, Reachable, NextDependency, LoadedTo, LoadOf, OneOn, Alone, Looping;
    var s1 := RunToLoad(e, s, g);
    t := RunLoadPath(e, loads, s1, g);
    LoadBehind(e, loads, s, g, s1, t);
  }

  function Got(c: Call, lib: Option<nat>): seq<nat>
    requires c.stack != []
  {
    c.Top().acquired + (if lib.Some? then [lib.value] else [])
  }

  /** Loading the entry and going on is what is left of the loop. */
  lemma LoadEquation(e: Env, loads: set<Name>, s: State, g: nat, s1: State)
    requires Turned(e, s, g, s1)
    ensures var c, u := s.calls[g], LoadOf(e, loads, s1, g);
            && OpenSpec.Ready(e, s.reg, c.visiting) && OpenSpec.Ready(e, u.reg, c.visiting)
            && c.Top().path in c.visiting
            && OpenSpec.LoadDependencies(e, loads, s.reg, c.Top().path, c.Top().next, c.Top().acquired, c.visiting)
               == OpenSpec.LoadDependencies(e, loads, u.reg, c.Top().path, c.Top().next + 1, Got(c, u.lib), c.visiting)
  {
    hide RegInv, CallInv, Reachable, NextDependency, OpenSpec.LoadPath, OpenSpec.LoadDependencies, OpenSpec.Ready, Alone;
    LoopFacts(e, s, g);
    EntryLoaded(e, loads, s.reg, s.calls[g]);
    TargetOf(e, s, g, s1);
    LoadedStaysReady(e, loads, s1, g);
  }

  lemma TargetOf(e: Env, s: State, g: nat, s1: State)
    requires Turned(e, s, g, s1)
    ensures s1.calls[g].pc == NextDependency(e, s.calls[g]).pc && s1.calls[g].visiting == s.calls[g].visiting
  {
    hide RegInv, CallInv, Reachable, NextDependency;
  }

  lemma LoadedStaysReady(e: Env, loads: set<Name>, s: State, g: nat)
    requires Checking(e, s, g)
    ensures OpenSpec.Ready(e, s.reg, s.calls[g].visiting)
    ensures OpenSpec.Ready(e, LoadOf(e, loads, s, g).reg, s.calls[g].visiting)
  {
    hide LoadedInv, GlobalsInv, CallInv, Reachable;
  }

  lemma CallsBehind(e: Env, loads: set<Name>, s: State, g: nat, s1: State, t: State)
    requires Turned(e, s, g, s1) && LoadedTo(s1, g, LoadOf(e, loads, s1, g), t)
    ensures t.calls == s.calls[g := Onward(s.calls[g], Got(s.calls[g], LoadOf(e, loads, s1, g).lib))]
  {
    hide RegInv, CallInv, Reachable, NextDependency, LoadOf, Return, Onward, Alone;
    var c := s.calls[g];
    var u := LoadOf(e, loads, s1, g);
    ReturnsOnward(c, s1.calls[g], u.lib);
    assert s1.calls[g := Return(s1.calls[g], u.lib)] == s.calls[g := Return(s1.calls[g], u.lib)];
  }

  lemma LoadBehind(e: Env, loads: set<Name>, s: State, g: nat, s1: State, t: State)
    requires Turned(e, s, g, s1) && Reachable(e, t) && LoadedTo(s1, g, LoadOf(e, loads, s1, g), t)
    ensures OneOn(e, loads, s, g, t)
  {
    hide RegInv, CallInv, Reachable, NextDependency, OpenSpec.LoadDependencies, OpenSpec.Ready, Alone, LoadOf, Got, Onward, OneOn;
    LoadEquation(e, loads, s, g, s1);
    CallsBehind(e, loads, s, g, s1, t);
    CallAt(e, t, g);
    LoadedReady(e, loads, s1, g, t);
    OneOnIs(e, loads, s, g, t, Got(s.calls[g], LoadOf(e, loads, s1, g).lib));
  }

  /** A load hands its library to the loop. */
  lemma ReturnsOnward(c: Call, c1: Call, lib: Option<nat>)
    requires c.stack != [] && c.pc.Work? && c1 == Onward(c, c.Top().acquired).(pc := c1.pc)
    ensures Return(c1, lib) == Onward(c, c.Top().acquired + (if lib.Some? then [lib.value] else []))
  {
  }

  /** A load leaves the slots as they were. */
  lemma LoadedReady(e: Env, loads: set<Name>, s: State, g: nat, t: State)
    requires Checking(e, s, g) && LoadedTo(s, g, LoadOf(e, loads, s, g), t)
    requires RegInv(e, t.reg) && CallInv(e, t.reg, t.calls[g])
    ensures t.reg.loading == s.reg.loading && OpenSpec.Ready(e, t.reg, s.calls[g].visiting) && Alone(t, g)
  {
    hide LoadedInv, GlobalsInv, CallInv;
  }

  /** An entry that the loop loads. */
  lemma EntryLoaded(e: Env, loads: set<Name>, r: Reg, c: Call)
    requires OpenSpec.Ready(e, r, c.visiting) && c.pc.Work? && c.stack != [] && c.Top().path in c.visiting
    requires c.Top().next < |e.Needed(c.Top().path)| && NextDependency(e, c).pc.Check?
    ensures var f, d := c.Top(), NextDependency(e, c);
            && d.pc.path in e.paths && (d.pc.request in e.paths ==> d.pc.request == d.pc.path)
            && var u := OpenSpec.LoadPath(e, loads, r, d.pc.path, d.pc.request, d.pc.global, c.visiting);
            OpenSpec.LoadDependencies(e, loads, r, f.path, f.next, f.acquired, c.visiting)
            == OpenSpec.LoadDependencies(e, loads, u.reg, f.path, f.next + 1,
                                         f.acquired + (if u.lib.Some? then [u.lib.value] else []), c.visiting)
  {
    hide LoadedInv, GlobalsInv;
  }

  /** One entry of the loop. */
  lemma {:induction false} RunOneDependency(e: Env, loads: set<Name>, s: State, g: nat) returns (t: State)
    requires MoreToDo(e, s, g)
    ensures OneOn(e, loads, s, g, t)
    decreases e.paths - s.reg.loading, 2, 1
  {
    var pc := NextDependency(e, s.calls[g]).pc;
    if pc.Check? {
      t := RunChecked(e, loads, s, g);
    } else if pc.Cycle? {
      t := RunCycle(e, loads, s, g);
    } else {
      t := RunSkipped(e, loads, s, g);
    }
  }

  lemma {:induction false} RunLoadDependencies(e: Env, loads: set<Name>, s: State, g: nat) returns (t: State)
    requires Looping(e, s, g)
    ensures Reachable(e, t) && Alone(t, g) && LoopedTo(e, s, g, RestOfLoop(e, loads, s, g), t)
    decreases e.paths - s.reg.loading, 3, |e.Needed(s.calls[g].Top().path)| - s.calls[g].Top().next
  {
    var c := s.calls[g];
    LoopFacts(e, s, g);
    if c.Top().next == |e.Needed(c.Top().path)| {
      LoopEnds(e, loads, s, g);
      t := s;
    } else {
      hide RegInv, CallInv, Reachable, RestOfLoop, Alone;
      var s1 := RunOneDependency(e, loads, s, g);
      OneShorter(e, loads, s, g, s1);
      hide OneOn, LoopedTo, Looping;
      t := RunLoadDependencies(e, loads, s1, g);
      LoopOn(e, loads, s, g, s1, t);
    }
  }

  lemma OneShorter(e: Env, loads: set<Name>, s: State, g: nat, s1: State)
    requires Looping(e, s, g) && OneOn(e, loads, s, g, s1)
    ensures Looping(e, s1, g) && s1.reg.loading == s.reg.loading
    ensures s1.calls[g].Top().path == s.calls[g].Top().path && s1.calls[g].Top().next == s.calls[g].Top().next + 1
  {
    hide RegInv, CallInv, Reachable, RestOfLoop, Alone;
  }

  lemma LoopOn(e: Env, loads: set<Name>, s: State, g: nat, s1: State, t: State)
    requires Looping(e, s, g) && OneOn(e, loads, s, g, s1) && LoopedTo(e, s1, g, RestOfLoop(e, loads, s1, g), t)
    ensures LoopedTo(e, s, g, RestOfLoop(e, loads, s, g), t)
  {
    hide RegInv, CallInv, Reachable, RestOfLoop, Alone;
  }

  lemma LoopEnds(e: Env, loads: set<Name>, s: State, g: nat)
    requires Looping(e, s, g) && s.calls[g].Top().next == |e.Needed(s.calls[g].Top().path)|
    ensures LoopedTo(e, s, g, RestOfLoop(e, loads, s, g), s)
  {
    hide RegInv, StackInv, Reachable;
    var c := s.calls[g];
    assert c.stack == c.Below() + [c.Top()];
    assert s.calls[g := c] == s.calls;
  }

  /** The call of an Open that has just begun. */
  function Begun(name: Name, global: bool): Call {
    Call(name, global, {}, [], Enter)
  }

  lemma RunStart(e: Env, s: State, name: Name, global: bool) returns (t: State)
    requires e.WellFormed() && Reachable(e, s)
    requires forall g :: 0 <= g < |s.calls| ==> !s.calls[g].Unfinished()
    ensures RegInv(e, s.reg) && s.reg.loading == {}
    ensures Reachable(e, t) && Alone(t, |s.calls|)
    ensures t.reg == s.reg && t.calls == s.calls + [Begun(name, global)]
  {
    ReachableInv(e, s);
    Liveness.IdleHasNoSlots(e, s);
    hide Inv, Reachable, RegInv;
    t := Apply(e, s, Start(name, global));
    ReachStep(e, s, Start(name, global), t);
  }

  /** The first critical section finds the library, or no file, or a path to load. */
  lemma EnterIs(e: Env, r: Reg, name: Name, global: bool)
    requires r.IdsValid()
    ensures var o := StepCall(e, r, Begun(name, global), true);
            if name in r.loaded then o.reg == Retain(r, r.loaded[name]) && o.call == Begun(name, global).(pc := Done(Some(r.loaded[name])))
            else if (name, None) in e.find then
              o.reg == r && o.call == Begun(name, global).(pc := Check(e.find[(name, None)], name, global))
            else o.reg == r && o.call == Begun(name, global).(pc := Done(None))
  {
  }

  /** From any reachable state with no call in flight, an Open that runs to its end
      without interruption does what OpenSpec.LoadLib says. */
  lemma OpenIsASchedule(e: Env, loads: set<Name>, s: State, name: Name, global: bool) returns (t: State)
    requires e.WellFormed() && Reachable(e, s)
    requires forall g :: 0 <= g < |s.calls| ==> !s.calls[g].Unfinished()
    ensures RegInv(e, s.reg) && s.reg.loading == {}
    ensures Reachable(e, t)
    ensures var u := OpenSpec.LoadLib(e, loads, s.reg, name, global);
            t.reg == u.reg && t.calls == s.calls + [Call(name, global, {}, [], Done(u.lib))]
  {
    hide Inv, Reachable, RegInv, CallInv, StepCall, OpenSpec.LoadPath;
    var g := |s.calls|;
    var s1 := RunStart(e, s, name, global);
    t := Do(e, s1, g, true);
    EnterIs(e, s.reg, name, global);
    if t.calls[g].pc.Check? {
      CallAt(e, t, g);
      t := RunLoadPath(e, loads, t, g);
    }
  }

  /** Likewise for Close, in any state. */
  lemma CloseIsASchedule(e: Env, s: State, id: nat) returns (t: State)
    requires Reachable(e, s) && id < |s.reg.libs|
    ensures Reachable(e, t) && t.reg == Close(s.reg, id) && t.calls == s.calls
  {
    t := Apply(e, s, CloseHandle(id));
    ReachStep(e, s, CloseHandle(id), t);
  }
}
