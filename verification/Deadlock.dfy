/** Deadlock of the loading protocol: it happens exactly when the resolved dependency
    graph has a cycle through two or more files.  `visiting` belongs to one call of
    Open, so it breaks a cycle only inside that call. */
module Deadlock {
  import opened Wrappers
  import opened RegistryModel
  import opened Protocol
  import opened Liveness

  lemma ReachStep(e: Env, s: State, step: Step, t: State)
    requires Reachable(e, s) && Next(e, s, step, t)
    ensures Reachable(e, t)
  {
    var states, steps :| RunTo(e, INIT, states, steps, s);
    var states', steps' := states + [t], steps + [step];
    forall i | 0 <= i < |steps'| ensures Next(e, states'[i], steps'[i], states'[i + 1]) {
      if i < |steps| {
        assert Next(e, states[i], steps[i], states[i + 1]);
      }
    }
    assert RunTo(e, INIT, states', steps', t);
  }

  // ---------------------------------------------------------------- a state to run into it from

  /** A client's Open of the path p that has just taken its slot. */
  function ClaimedCall(p: Name): Call {
    Call(p, false, {p}, [Frame(p, p, false, 0, [])], Work)
  }

  /** One such Open for each file of c, and nothing else yet. */
  function Claimed(c: seq<Name>): State {
    State(Reg([], map[], set p <- c, []),
          seq(|c|, i requires 0 <= i < |c| => ClaimedCall(c[i])),
          multiset{})
  }

  lemma {:induction false} ClaimedReachable(e: Env, c: seq<Name>)
    requires e.WellFormed() && Distinct(c) && forall p <- c :: p in e.paths
    ensures Reachable(e, Claimed(c))
  {
    if c == [] {
      assert Claimed(c) == INIT;
      assert RunTo(e, INIT, [INIT], [], INIT);
    } else {
      var n := |c| - 1;
      var p := c[n];
      var s0 := Claimed(c[..n]);
      assert c == c[..n] + [p];
      ClaimedReachable(e, c[..n]);
      assert (p, None) in e.find && e.find[(p, None)] == p;
      var s1 := Apply(e, s0, Start(p, false));
      ReachStep(e, s0, Start(p, false), s1);
      var s2 := Apply(e, s1, Advance(n, true));
      ReachStep(e, s1, Advance(n, true), s2);
      assert s2.calls[n] == Call(p, false, {}, [], Check(p, p, false));
      var s3 := Apply(e, s2, Advance(n, true));
      ReachStep(e, s2, Advance(n, true), s3);
      assert p !in s2.reg.loading;
      assert s3.calls[n] == ClaimedCall(p);
      assert s3.reg.loading == set x <- c;
      assert s3.calls == Claimed(c).calls;
      assert s3.reg == Claimed(c).reg && s3.log == Claimed(c).log;
      assert s3 == Claimed(c);
    }
  }

  // ---------------------------------------------------------------- nobody on the cycle gets past its neighbour

  /** The call's outermost file is p, and its loop has not got past entry k of p, whose
      file q it may be waiting for. */
  ghost predicate HeldBack(c: Call, p: Name, k: nat, q: Name) {
    && c.stack != [] && c.stack[0].path == p
    && (|| c.stack[0].next <= k
        || (c.stack[0].next == k + 1 && |c.stack| == 1 && (c.pc.Check? || c.pc.Asleep?) && c.pc.path == q))
  }

  /** The first |c| calls are those of a cycle c; call j is held back at its entry ks[j]. */
  ghost predicate Doomed(e: Env, s: State, c: seq<Name>, ks: seq<nat>) {
    && DependencyCycle(e, c)
    && |ks| == |c| <= |s.calls|
    && (forall j :: 0 <= j < |c| ==> e.EdgeAt(c[j], ks[j], c[After(j, |c|)]))
    && (forall j :: 0 <= j < |c| ==> HeldBack(s.calls[j], c[j], ks[j], c[After(j, |c|)]))
  }

  /** At entry k the loop stops in front of q, which is not on this call's stack. */
  lemma HeldNextDependency(e: Env, c: Call, p: Name, k: nat, q: Name)
    requires e.WellFormed() && StackInv(e, c) && |c.stack| == 1 && c.stack[0].path == p
    requires e.EdgeAt(p, k, q) && q != p && c.stack[0].next <= k
    ensures c.stack[0].next < |e.Needed(p)| && HeldBack(NextDependency(e, c), p, k, q)
  {
    assert c.stack[0] in c.stack;
    assert c.visiting == {p};
    if c.stack[0].next == k {
      assert e.Needed(p)[k] != p;
    }
  }

  lemma HeldWorkStays(e: Env, r: Reg, c: Call, p: Name, k: nat, q: Name, ok: bool)
    requires e.WellFormed() && StackInv(e, c) && c.pc.Work? && r.IdsValid()
    requires e.EdgeAt(p, k, q) && q != p && HeldBack(c, p, k, q)
    ensures HeldBack(StepCall(e, r, c, ok).call, p, k, q)
  {
    if |c.stack| == 1 {
      assert p in e.needed;
      HeldNextDependency(e, c, p, k, q);
    } else {
      BottomStays(e, r, c, ok);
    }
  }

  /** Work on a frame above the bottom one leaves the bottom one alone. */
  lemma BottomStays(e: Env, r: Reg, c: Call, ok: bool)
    requires c.pc.Work? && r.IdsValid() && |c.stack| > 1
    ensures var d := StepCall(e, r, c, ok).call;
            && d.stack != [] && d.stack[0].path == c.stack[0].path && d.stack[0].next == c.stack[0].next
  {
    hide Publish, Release, Register;
  }

  lemma HeldStays(e: Env, r: Reg, c: Call, p: Name, k: nat, q: Name, ok: bool)
    requires e.WellFormed() && CallInv(e, r, c) && c.Runnable() && r.IdsValid()
    requires e.EdgeAt(p, k, q) && q != p && HeldBack(c, p, k, q) && q in r.loading
    ensures HeldBack(StepCall(e, r, c, ok).call, p, k, q)
  {
    if c.pc.Work? {
      HeldWorkStays(e, r, c, p, k, q, ok);
    }
  }

  /** Neighbours on a cycle differ. */
  lemma AfterDiffers(e: Env, c: seq<Name>, j: nat)
    requires DependencyCycle(e, c) && j < |c|
    ensures After(j, |c|) < |c| && c[After(j, |c|)] != c[j]
  {
    if j + 1 < |c| {
      assert c[j] != c[j + 1];
    } else {
      assert c[0] != c[j];
    }
  }

  lemma NeighbourHeld(e: Env, s: State, c: seq<Name>, ks: seq<nat>, j: nat)
    requires Inv(e, s) && Doomed(e, s, c, ks) && j < |c|
    ensures c[After(j, |c|)] in s.reg.loading
  {
    AfterDiffers(e, c, j);
    var h := After(j, |c|);
    assert HeldBack(s.calls[h], c[h], ks[h], c[After(h, |c|)]);
    assert s.calls[h].stack[0] in s.calls[h].stack;
    assert CallInv(e, s.reg, s.calls[h]);
  }

  /** What becomes of one call in one step. */
  lemma CallAfter(e: Env, s: State, step: Step, j: nat)
    requires Enabled(s, step) && j < |s.calls|
    ensures var t := Apply(e, s, step);
            && j < |t.calls|
            && if step.Advance? && step.g == j then t.calls[j] == StepCall(e, s.reg, s.calls[j], step.ok).call
               else t.calls[j] == s.calls[j] || t.calls[j] == Wake(s.calls[j])
  {
    hide StepCall;
  }

  lemma DoomedCallStays(e: Env, s: State, c: seq<Name>, ks: seq<nat>, step: Step, j: nat)
    requires e.WellFormed() && Inv(e, s) && Doomed(e, s, c, ks) && Enabled(s, step) && j < |c|
    ensures j < |Apply(e, s, step).calls|
    ensures HeldBack(Apply(e, s, step).calls[j], c[j], ks[j], c[After(j, |c|)])
  {
    AfterDiffers(e, c, j);
    NeighbourHeld(e, s, c, ks, j);
    CallAfter(e, s, step, j);
    assert HeldBack(s.calls[j], c[j], ks[j], c[After(j, |c|)]);
    assert CallInv(e, s.reg, s.calls[j]);
    hide Apply, StepCall, CallInv, RegInv, SlotsInv, DependencyCycle;
    if step.Advance? && step.g == j {
      HeldStays(e, s.reg, s.calls[j], c[j], ks[j], c[After(j, |c|)], step.ok);
    }
  }

  lemma DoomedStays(e: Env, s: State, c: seq<Name>, ks: seq<nat>, step: Step)
    requires e.WellFormed() && Inv(e, s) && Doomed(e, s, c, ks) && Enabled(s, step)
    ensures Doomed(e, Apply(e, s, step), c, ks)
  {
    DoomedCallStays(e, s, c, ks, step, |c| - 1);
    forall j | 0 <= j < |c|
      ensures HeldBack(Apply(e, s, step).calls[j], c[j], ks[j], c[After(j, |c|)])
    {
      DoomedCallStays(e, s, c, ks, step, j);
    }
  }

  /** Once every file of a cycle is being opened by a call of its own, none of those
      calls ever returns, whatever any goroutine or client does from then on. */
  lemma {:induction false} CycleNeverReturns(e: Env, states: seq<State>, steps: seq<Step>, c: seq<Name>, ks: seq<nat>, i: nat)
    requires e.WellFormed() && Run(e, states, steps) && i <= |steps|
    requires Inv(e, states[0]) && Doomed(e, states[0], c, ks)
    ensures Inv(e, states[i]) && Doomed(e, states[i], c, ks)
    ensures forall j :: 0 <= j < |c| ==> states[i].calls[j].Unfinished()
  {
    if i > 0 {
      CycleNeverReturns(e, states, steps, c, ks, i - 1);
      assert Next(e, states[i - 1], steps[i - 1], states[i]);
      StepKeeps(e, states[i - 1], steps[i - 1]);
      DoomedStays(e, states[i - 1], c, ks, steps[i - 1]);
    }
    forall j | 0 <= j < |c| ensures states[i].calls[j].Unfinished() {
      assert HeldBack(states[i].calls[j], c[j], ks[j], c[After(j, |c|)]);
      assert CallInv(e, states[i].reg, states[i].calls[j]);
    }
  }

  ghost predicate CanAdvance(s: State) {
    exists g, ok :: Enabled(s, Advance(g, ok))
  }

  /** Left alone, the goroutines inside Open come to rest. */
  lemma {:induction false} ComesToRest(e: Env, s: State, c: seq<Name>, ks: seq<nat>) returns (t: State)
    requires e.WellFormed() && Reachable(e, s) && Inv(e, s) && Doomed(e, s, c, ks)
    ensures Reachable(e, t) && Inv(e, t) && Doomed(e, t, c, ks) && !CanAdvance(t)
    decreases Rank(e, s)
  {
    hide Inv, Apply, Doomed, Reachable, Rank;
    if CanAdvance(s) {
      var g, ok :| Enabled(s, Advance(g, ok));
      var u := Apply(e, s, Advance(g, ok));
      RankFallsAt(e, s, g, ok);
      ReachStep(e, s, Advance(g, ok), u);
      DoomedStays(e, s, c, ks, Advance(g, ok));
      t := ComesToRest(e, u, c, ks);
    } else {
      t := s;
    }
  }

  lemma {:induction false} EntriesOf(e: Env, c: seq<Name>, n: nat) returns (ks: seq<nat>)
    requires DependencyCycle(e, c) && n <= |c|
    ensures |ks| == n && forall j :: 0 <= j < n ==> e.EdgeAt(c[j], ks[j], c[After(j, |c|)])
  {
    if n == 0 {
      ks := [];
    } else {
      ks := EntriesOf(e, c, n - 1);
      assert e.Edge(c[n - 1], c[After(n - 1, |c|)]);
      var k: nat :| e.EdgeAt(c[n - 1], k, c[After(n - 1, |c|)]);
      ks := ks + [k];
    }
  }

  lemma CycleDeadlocks(e: Env, c: seq<Name>) returns (t: State)
    requires e.WellFormed() && DependencyCycle(e, c)
    ensures Reachable(e, t) && Stuck(t)
  {
    var ks := EntriesOf(e, c, |c|);
    var s := Claimed(c);
    ClaimedReachable(e, c);
    ReachableInv(e, s);
    forall j | 0 <= j < |c| ensures HeldBack(s.calls[j], c[j], ks[j], c[After(j, |c|)]) {
      assert s.calls[j] == ClaimedCall(c[j]);
    }
    t := ComesToRest(e, s, c, ks);
    CycleNeverReturns(e, [t], [], c, ks, 0);
    assert t.calls[0].Unfinished();
  }

  /** The protocol can deadlock exactly when two or more different files depend on each
      other in a cycle: for any number of goroutines, clients and interleavings. */
  lemma DeadlockIffCycle(e: Env)
    requires e.WellFormed()
    ensures (exists s :: Reachable(e, s) && Stuck(s)) <==> (exists c :: DependencyCycle(e, c))
  {
    if s :| Reachable(e, s) && Stuck(s) {
      ReachableInv(e, s);
      StuckIsSinkFree(e, s);
      var c := SinkFreeHasCycle(e, s.reg.loading);
    }
    if c :| DependencyCycle(e, c) {
      var s := CycleDeadlocks(e, c);
    }
  }

  /** Without such a cycle every Open returns: when no goroutine inside Open can move,
      all of them are done, and they get there within Rank steps (OpensTerminate). */
  lemma OpensComplete(e: Env, states: seq<State>, steps: seq<Step>)
    requires e.WellFormed() && !exists c :: DependencyCycle(e, c)
    requires Run(e, states, steps) && Reachable(e, states[0]) && OnlyAdvances(steps)
    requires !CanAdvance(states[|steps|])
    ensures Inv(e, states[0]) && |steps| <= Rank(e, states[0])
    ensures forall g :: 0 <= g < |states[|steps|].calls| ==> !states[|steps|].calls[g].Unfinished()
    ensures states[|steps|].reg.loading == {}
  {
    ReachableInv(e, states[0]);
    OpensTerminate(e, states, steps);
    RunKeeps(e, states, steps, |steps|);
    var t := states[|steps|];
    if g :| 0 <= g < |t.calls| && t.calls[g].Unfinished() {
      assert forall h, ok :: !Enabled(t, Advance(h, ok));
      StuckIsSinkFree(e, t);
      var c := SinkFreeHasCycle(e, t.reg.loading);
      assert false;
    }
    IdleHasNoSlots(e, t);
  }
}
