/** Exclusive loading, deadlock and termination of the loading protocol. */
module Liveness {
  import opened Wrappers
  import opened RegistryModel
  import opened Protocol

  // ---------------------------------------------------------------- exclusive loading

  ghost predicate Holds(s: State, g: int, i: int, p: Name) {
    0 <= g < |s.calls| && 0 <= i < |s.calls[g].stack| && s.calls[g].stack[i].path == p
  }

  /** In every interleaving `loading` is exactly what is on the stacks of the calls in
      flight, and each slot is held by one frame of one call. */
  lemma ExclusiveLoading(e: Env, s: State, p: Name)
    requires e.WellFormed() && Reachable(e, s)
    ensures p in s.reg.loading <==> exists g, i :: Holds(s, g, i, p)
    ensures forall g, i, h, j :: Holds(s, g, i, p) && Holds(s, h, j, p) ==> g == h && i == j
    ensures p in s.reg.loading ==> p !in s.reg.loaded
  {
    ReachableInv(e, s);
    if p in s.reg.loading {
      var g, i := LoadingHeld(e, s, p);
    }
    hide Inv, Reachable;
    forall g, i | Holds(s, g, i, p) ensures p in s.reg.loading {
      HolderVisits(e, s, g, i, p);
    }
    forall g, i, h, j | Holds(s, g, i, p) && Holds(s, h, j, p) ensures g == h && i == j {
      OneHolder(e, s, p, g, i, h, j);
    }
  }

  lemma LoadingHeld(e: Env, s: State, p: Name) returns (g: int, i: int)
    requires Inv(e, s) && p in s.reg.loading
    ensures Holds(s, g, i, p) && p !in s.reg.loaded
  {
    g :| 0 <= g < |s.calls| && p in s.calls[g].visiting;
    var f :| f in s.calls[g].stack && f.path == p;
    i :| 0 <= i < |s.calls[g].stack| && s.calls[g].stack[i] == f;
  }

  lemma HolderVisits(e: Env, s: State, g: int, i: int, p: Name)
    requires Inv(e, s) && Holds(s, g, i, p)
    ensures p in s.calls[g].visiting && p in s.reg.loading && StackInv(e, s.calls[g])
  {
    assert CallInv(e, s.reg, s.calls[g]);
    hide RegInv, SlotsInv;
    assert s.calls[g].stack[i] in s.calls[g].stack;
  }

  lemma OneHolder(e: Env, s: State, p: Name, g: int, i: int, h: int, j: int)
    requires Inv(e, s) && Holds(s, g, i, p) && Holds(s, h, j, p)
    ensures g == h && i == j
  {
    HolderVisits(e, s, g, i, p);
    HolderVisits(e, s, h, j, p);
    assert SlotsInv(s);
    hide Inv, CallInv;
  }

  /** loader.Load is never asked for a path that has a live library, and the cycle
      branch of loadPath never finds one. */
  lemma LoadsOnlyAbsentPaths(e: Env, s: State, g: nat)
    requires e.WellFormed() && Reachable(e, s) && g < |s.calls| && s.calls[g].Runnable()
    ensures s.calls[g].pc.Work? ==>
              forall i | 0 <= i < |s.reg.libs| :: s.reg.libs[i].path == s.calls[g].Top().path ==> !s.reg.Live(i)
    ensures s.calls[g].pc.Cycle? ==>
              s.reg.IdsValid() && forall ok :: StepCall(e, s.reg, s.calls[g], ok).call == Return(s.calls[g], None)
  {
    ReachableInv(e, s);
    var c := s.calls[g];
    if c.pc.Work? {
      assert c.Top() in c.stack;
    }
    if c.pc.Cycle? {
      assert c.pc.path in s.reg.loading;
    }
  }

  /** With no call in flight no slot is taken, whichever way the calls ended. */
  lemma NoSlotLeaks(e: Env, s: State)
    requires e.WellFormed() && Reachable(e, s)
    requires forall g :: 0 <= g < |s.calls| ==> !s.calls[g].Unfinished()
    ensures s.reg.loading == {}
  {
    ReachableInv(e, s);
    IdleHasNoSlots(e, s);
  }

  lemma IdleHasNoSlots(e: Env, s: State)
    requires Inv(e, s) && forall g :: 0 <= g < |s.calls| ==> !s.calls[g].Unfinished()
    ensures s.reg.loading == {}
  {
    if p :| p in s.reg.loading {
      var g :| 0 <= g < |s.calls| && p in s.calls[g].visiting;
      assert CallInv(e, s.reg, s.calls[g]);
    }
  }

  /** Nobody sleeps on a slot that is free, so no broadcast is missed. */
  lemma NoLostWakeup(e: Env, s: State, g: nat)
    requires e.WellFormed() && Reachable(e, s) && g < |s.calls| && s.calls[g].pc.Asleep?
    ensures s.calls[g].pc.path in s.reg.loading
    ensures s.calls[g].pc.path !in s.calls[g].visiting
    ensures exists h | 0 <= h < |s.calls| && h != g :: s.calls[g].pc.path in s.calls[h].visiting
  {
    ReachableInv(e, s);
  }

  // ---------------------------------------------------------------- deadlock needs a cycle

  /** Some Open has not returned and no goroutine inside Open can move. */
  ghost predicate Stuck(s: State) {
    && (exists g :: 0 <= g < |s.calls| && s.calls[g].Unfinished())
    && (forall g, ok :: !Enabled(s, Advance(g, ok)))
  }

  ghost predicate DependsInside(e: Env, ps: set<Name>, p: Name) {
    exists q :: q in ps && q != p && e.Edge(p, q)
  }

  /** Every file of the set depends on another file of the set. */
  ghost predicate SinkFree(e: Env, ps: set<Name>) {
    ps != {} && forall p {:trigger DependsInside(e, ps, p)} :: p in ps ==> DependsInside(e, ps, p)
  }

  function After(i: nat, n: nat): nat {
    if i + 1 < n then i + 1 else 0
  }

  /** A cycle of two or more different files in the resolved dependency graph. */
  ghost predicate DependencyCycle(e: Env, c: seq<Name>) {
    && |c| >= 2
    && Distinct(c)
    && (forall i :: 0 <= i < |c| ==> c[i] in e.paths && e.Edge(c[i], c[After(i, |c|)]))
  }

  /** A sleeper waits for a dependency of its top frame, and its other frames wait for
      the frame above them. */
  lemma SleeperDepends(e: Env, r: Reg, c: Call, p: Name)
    requires CallInv(e, r, c) && c.pc.Asleep? && p in c.visiting
    ensures DependsInside(e, r.loading, p)
  {
    var f :| f in c.stack && f.path == p;
    var i :| 0 <= i < |c.stack| && c.stack[i] == f;
    if i + 1 < |c.stack| {
      var q := c.stack[i + 1].path;
      assert c.stack[i + 1] in c.stack;
      assert q in r.loading && q != p && e.Edge(p, q);
    } else {
      assert c.pc.path in r.loading && c.pc.path != p && e.Edge(p, c.pc.path);
    }
  }

  lemma StuckSleeps(e: Env, s: State, g: nat)
    requires RegInv(e, s.reg) && g < |s.calls| && CallInv(e, s.reg, s.calls[g])
    requires !Enabled(s, Advance(g, true)) && s.calls[g].Unfinished()
    ensures s.calls[g].pc.Asleep?
  {
  }

  lemma StuckIsSinkFree(e: Env, s: State)
    requires Inv(e, s) && Stuck(s)
    ensures s.reg.loading <= e.paths && SinkFree(e, s.reg.loading)
  {
    forall p | p in s.reg.loading
      ensures DependsInside(e, s.reg.loading, p)
    {
      var g :| 0 <= g < |s.calls| && p in s.calls[g].visiting;
      StuckSleeps(e, s, g);
      SleeperDepends(e, s.reg, s.calls[g], p);
    }
    var g :| 0 <= g < |s.calls| && s.calls[g].Unfinished();
    StuckSleeps(e, s, g);
    assert s.calls[g].pc.path in s.reg.loading;
  }

  /** A walk that comes back to its i-th file closes a cycle there. */
  lemma WalkCycle(e: Env, ps: set<Name>, walk: seq<Name>, i: nat)
    requires ps <= e.paths && Distinct(walk) && (forall p <- walk :: p in ps) && i < |walk| - 1
    requires forall i :: 0 <= i < |walk| - 1 ==> e.Edge(walk[i], walk[i + 1])
    requires e.Edge(walk[|walk| - 1], walk[i])
    ensures DependencyCycle(e, walk[i..])
  {
    hide e.Edge;
    var c := walk[i..];
    forall j | 0 <= j < |c| ensures c[j] in e.paths && e.Edge(c[j], c[After(j, |c|)]) {
      assert c[j] == walk[i + j] && c[j] in walk;
    }
  }

  /** Following dependencies inside a sink-free set comes back to a file already seen. */
  lemma {:induction false} WalkCloses(e: Env, ps: set<Name>, walk: seq<Name>) returns (c: seq<Name>)
    requires ps <= e.paths && SinkFree(e, ps)
    requires walk != [] && Distinct(walk) && (set p <- walk) <= ps
    requires forall i :: 0 <= i < |walk| - 1 ==> e.Edge(walk[i], walk[i + 1])
    ensures DependencyCycle(e, c)
    decreases ps - (set p <- walk)
  {
    var last := walk[|walk| - 1];
    assert last in (set p <- walk);
    assert DependsInside(e, ps, last);
    var q :| q in ps && q != last && e.Edge(last, q);
    if q in walk {
      var i :| 0 <= i < |walk| && walk[i] == q;
      c := walk[i..];
      WalkCycle(e, ps, walk, i);
    } else {
      var longer := walk + [q];
      assert (set p <- longer) == (set p <- walk) + {q};
      c := WalkCloses(e, ps, longer);
    }
  }

  lemma SinkFreeHasCycle(e: Env, ps: set<Name>) returns (c: seq<Name>)
    requires ps <= e.paths && SinkFree(e, ps)
    ensures DependencyCycle(e, c)
  {
    var p :| p in ps;
    assert (set x <- [p]) == {p};
    c := WalkCloses(e, ps, [p]);
  }

  // ---------------------------------------------------------------- every Open does finitely much

  ghost function LongestNeeded(needed: map<Name, seq<Name>>): (d: nat)
    ensures forall p <- needed :: |needed[p]| <= d
    decreases |needed|
  {
    if needed == map[] then 0
    else
      var p :| p in needed;
      var d := LongestNeeded(needed - {p});
      assert forall q <- needed :: q == p || (q in needed - {p} && (needed - {p})[q] == needed[q]);
      if |needed[p]| > d then |needed[p]| else d
  }

  /** Steps that one loadPath can take when m paths are not yet on the stack and no file
      needs more than d others. */
  function CheckCost(d: nat, m: nat): (n: nat)
    ensures n >= 1
    decreases m, 0, 0
  {
    if m == 0 then 1 else 1 + FrameCost(d, m - 1, d)
  }

  /** Steps left in a frame with r dependencies to go. */
  function FrameCost(d: nat, m: nat, r: nat): (n: nat)
    ensures n >= 1
    decreases m, 1, r
  {
    if r == 0 then 1 else 1 + CheckCost(d, m) + FrameCost(d, m, r - 1)
  }

  ghost function Remaining(e: Env, f: Frame): nat {
    if f.next <= |e.Needed(f.path)| then |e.Needed(f.path)| - f.next else 0
  }

  ghost function StackCost(e: Env, d: nat, stack: seq<Frame>): nat
    requires |stack| <= |e.paths|
  {
    if stack == [] then 0
    else
      var n := |stack| - 1;
      StackCost(e, d, stack[..n]) + FrameCost(d, |e.paths| - |stack|, Remaining(e, stack[n]))
  }

  ghost function CallCost(e: Env, d: nat, c: Call): nat
    requires |c.stack| <= |e.paths|
  {
    StackCost(e, d, c.stack) +
    match c.pc
    case Enter => 1 + CheckCost(d, |e.paths|)
    case Check(_, _, _) => CheckCost(d, |e.paths| - |c.stack|)
    case Asleep(_, _, _) => CheckCost(d, |e.paths| - |c.stack|)
    case Cycle(_) => 1
    case Work => 0
    case Done(_) => 0
  }

  lemma {:induction false} DistinctSize(stack: seq<Frame>)
    requires forall i, j :: 0 <= i < j < |stack| ==> stack[i].path != stack[j].path
    ensures |Paths(stack)| == |stack|
  {
    if stack != [] {
      var n := |stack| - 1;
      DistinctSize(stack[..n]);
      assert stack == stack[..n] + [stack[n]];
      assert Paths(stack) == Paths(stack[..n]) + {stack[n].path};
    }
  }

  lemma SubsetSize(a: set<Name>, b: set<Name>)
    requires a <= b
    ensures |a| <= |b| && (a < b ==> |a| < |b|)
  {
    assert b == a + (b - a);
  }

  lemma StackFits(e: Env, r: Reg, c: Call)
    requires RegInv(e, r) && CallInv(e, r, c)
    ensures |c.stack| <= |e.paths|
    ensures c.pc.Check? ==> |c.stack| < |e.paths|
  {
    DistinctSize(c.stack);
    SubsetSize(c.visiting, e.paths);
  }

  lemma {:induction false} FrameCostGrows(d: nat, m: nat, r: nat, q: nat)
    requires r <= q
    ensures FrameCost(d, m, r) <= FrameCost(d, m, q)
  {
    if r < q {
      FrameCostGrows(d, m, r, q - 1);
    }
  }

  /** Returning to a frame costs nothing: only `acquired` changes. */
  lemma ReturnCost(e: Env, d: nat, c: Call, result: Option<nat>)
    requires |c.stack| <= |e.paths|
    ensures |Return(c, result).stack| == |c.stack|
    ensures CallCost(e, d, Return(c, result)) == StackCost(e, d, c.stack)
  {
    if c.stack != [] {
      assert Return(c, result).stack[..|c.stack| - 1] == c.Below();
    }
  }

  lemma NextDependencyCost(e: Env, d: nat, c: Call)
    requires c.pc.Work? && c.stack != [] && |c.stack| <= |e.paths| && c.Top().next < |e.Needed(c.Top().path)|
    ensures |NextDependency(e, c).stack| == |c.stack|
    ensures CallCost(e, d, NextDependency(e, c)) < CallCost(e, d, c)
  {
    var t := NextDependency(e, c);
    assert t.stack[..|t.stack| - 1] == c.Below();
    assert Remaining(e, t.Top()) == Remaining(e, c.Top()) - 1;
  }

  lemma ClaimCost(e: Env, d: nat, r: Reg, c: Call, ok: bool)
    requires c.pc.Check? && r.IdsValid() && c.pc.path !in r.loading && c.pc.path !in r.loaded
    requires forall p <- e.needed :: |e.needed[p]| <= d
    requires |c.stack| < |e.paths|
    ensures |StepCall(e, r, c, ok).call.stack| == |c.stack| + 1
    ensures CallCost(e, d, StepCall(e, r, c, ok).call) < CallCost(e, d, c)
  {
    ClaimIs(e, r, c, ok);
    hide StepCall;
    var t := StepCall(e, r, c, ok).call;
    assert t.stack[..|c.stack|] == c.stack;
    FrameCostGrows(d, |e.paths| - |t.stack|, Remaining(e, t.Top()), d);
  }

  lemma PopCost(e: Env, d: nat, c: Call, result: Option<nat>)
    requires c.pc.Work? && c.stack != [] && |c.stack| <= |e.paths|
    ensures |Return(Pop(c), result).stack| == |c.stack| - 1
    ensures CallCost(e, d, Return(Pop(c), result)) < CallCost(e, d, c)
  {
    ReturnCost(e, d, Pop(c), result);
  }

  ghost predicate Cheaper(e: Env, d: nat, c: Call, o: Outcome)
    requires |c.stack| <= |e.paths| && |o.call.stack| <= |e.paths|
  {
    || CallCost(e, d, o.call) < CallCost(e, d, c)
    || (CallCost(e, d, o.call) == CallCost(e, d, c) && c.pc.Check? && o.call.pc.Asleep? && !o.wakes)
  }

  /** Each step of a goroutine costs it something, except going to sleep. */
  lemma StepCost(e: Env, d: nat, r: Reg, c: Call, ok: bool)
    requires c.Runnable() && r.IdsValid() && (c.pc.Enter? ==> c.stack == [])
    requires forall p <- e.needed :: |e.needed[p]| <= d
    requires |c.stack| <= |e.paths| && |StepCall(e, r, c, ok).call.stack| <= |e.paths|
    ensures Cheaper(e, d, c, StepCall(e, r, c, ok))
  {
    match c.pc
    case Enter =>
      if c.name in r.loaded { ReturnCost(e, d, c, Some(r.loaded[c.name])); } else { ReturnCost(e, d, c, None); }
    case Check(path, _, _) =>
      if path in r.loading {
      } else if path in r.loaded {
        ReturnCost(e, d, c, Some(r.loaded[path]));
      } else {
        ClaimCost(e, d, r, c, ok);
      }
    case Cycle(path) =>
      if path in r.loaded { ReturnCost(e, d, c, Some(r.loaded[path])); } else { ReturnCost(e, d, c, None); }
    case Work =>
      var f := c.Top();
      if f.path in e.needed && f.next < |e.Needed(f.path)| {
        NextDependencyCost(e, d, c);
      } else {
        PopCost(e, d, c, Some(|r.libs|));
        PopCost(e, d, c, None);
      }
  }

  /** All calls of a state fit; the sums below range over them. */
  ghost predicate Fits(e: Env, calls: seq<Call>) {
    forall c <- calls :: |c.stack| <= |e.paths|
  }

  ghost function TotalCost(e: Env, d: nat, calls: seq<Call>): nat
    requires Fits(e, calls)
  {
    if calls == [] then 0 else CallCost(e, d, calls[0]) + TotalCost(e, d, calls[1..])
  }

  function Awake(calls: seq<Call>): (n: nat)
    ensures n <= |calls|
  {
    if calls == [] then 0 else (if calls[0].pc.Check? then 1 else 0) + Awake(calls[1..])
  }

  lemma {:induction false} TotalAfter(e: Env, d: nat, a: seq<Call>, b: seq<Call>, g: nat)
    requires |a| == |b| && g < |a| && Fits(e, a) && Fits(e, b)
    requires forall h :: 0 <= h < |a| && h != g ==> CallCost(e, d, b[h]) == CallCost(e, d, a[h])
    ensures TotalCost(e, d, b) - TotalCost(e, d, a) == CallCost(e, d, b[g]) - CallCost(e, d, a[g])
  {
    if g == 0 {
      TotalSame(e, d, a[1..], b[1..]);
    } else {
      TotalAfter(e, d, a[1..], b[1..], g - 1);
    }
  }

  lemma {:induction false} TotalSame(e: Env, d: nat, a: seq<Call>, b: seq<Call>)
    requires |a| == |b| && Fits(e, a) && Fits(e, b)
    requires forall h :: 0 <= h < |a| ==> CallCost(e, d, b[h]) == CallCost(e, d, a[h])
    ensures TotalCost(e, d, b) == TotalCost(e, d, a)
  {
    if a != [] {
      TotalSame(e, d, a[1..], b[1..]);
    }
  }

  lemma {:induction false} AwakeAfterSleep(a: seq<Call>, g: nat, c: Call)
    requires g < |a| && a[g].pc.Check? && c.pc.Asleep?
    ensures Awake(a[g := c]) == Awake(a) - 1
  {
    if g == 0 {
      assert a[g := c][1..] == a[1..];
    } else {
      assert a[g := c][1..] == a[1..][g - 1 := c];
      AwakeAfterSleep(a[1..], g - 1, c);
    }
  }

  lemma InvFits(e: Env, s: State)
    requires Inv(e, s)
    ensures Fits(e, s.calls)
  {
    forall c | c in s.calls ensures |c.stack| <= |e.paths| {
      var g :| 0 <= g < |s.calls| && s.calls[g] == c;
      StackFits(e, s.reg, s.calls[g]);
    }
  }

  ghost predicate Lower(e: Env, a: seq<Call>, b: seq<Call>)
    requires Fits(e, a) && Fits(e, b)
  {
    var d := LongestNeeded(e.needed);
    || TotalCost(e, d, b) < TotalCost(e, d, a)
    || (TotalCost(e, d, b) == TotalCost(e, d, a) && Awake(b) < Awake(a))
  }

  lemma CostsAfter(e: Env, a: seq<Call>, g: nat, o: Outcome, b: seq<Call>)
    requires g < |a| && b == (if o.wakes then WakeAll(a) else a)[g := o.call]
    requires Fits(e, a) && Fits(e, b) && a[g] in a && b[g] in b
    requires Cheaper(e, LongestNeeded(e.needed), a[g], o)
    ensures Lower(e, a, b)
  {
    var d := LongestNeeded(e.needed);
    forall h | 0 <= h < |a| && h != g
      ensures CallCost(e, d, b[h]) == CallCost(e, d, a[h])
    {
      assert b[h] == a[h] || b[h] == Wake(a[h]);
    }
    TotalAfter(e, d, a, b, g);
    if CallCost(e, d, b[g]) == CallCost(e, d, a[g]) {
      AwakeAfterSleep(a, g, b[g]);
    }
  }

  lemma StackFitsAt(e: Env, s: State, g: nat)
    requires Inv(e, s) && g < |s.calls|
    ensures |s.calls[g].stack| <= |e.paths| && (s.calls[g].pc.Enter? ==> s.calls[g].stack == [])
    ensures s.calls[g] in s.calls
  {
    StackFits(e, s.reg, s.calls[g]);
  }

  /** Every step of a goroutine lowers the total, or puts one more goroutine to sleep. */
  lemma AdvanceCost(e: Env, s: State, g: nat, ok: bool)
    requires e.WellFormed() && Inv(e, s) && Enabled(s, Advance(g, ok))
    ensures Inv(e, Apply(e, s, Advance(g, ok)))
    ensures Fits(e, s.calls) && Fits(e, Apply(e, s, Advance(g, ok)).calls)
    ensures Lower(e, s.calls, Apply(e, s, Advance(g, ok)).calls)
  {
    var t := Apply(e, s, Advance(g, ok));
    AdvanceKeeps(e, s, g, ok);
    InvFits(e, s);
    InvFits(e, t);
    StackFitsAt(e, s, g);
    StackFitsAt(e, t, g);
    StepCost(e, LongestNeeded(e.needed), s.reg, s.calls[g], ok);
    CostsAfter(e, s.calls, g, StepCall(e, s.reg, s.calls[g], ok), t.calls);
  }

  /** The number of steps the goroutines inside Open can still take, whoever is scheduled. */
  ghost function Rank(e: Env, s: State): nat
    requires Inv(e, s)
  {
    InvFits(e, s);
    TotalCost(e, LongestNeeded(e.needed), s.calls) * (|s.calls| + 1) + Awake(s.calls)
  }

  ghost predicate OnlyAdvances(steps: seq<Step>) {
    forall i :: 0 <= i < |steps| ==> steps[i].Advance?
  }

  lemma RankFallsAt(e: Env, s: State, g: nat, ok: bool)
    requires e.WellFormed() && Inv(e, s) && Enabled(s, Advance(g, ok))
    ensures Inv(e, Apply(e, s, Advance(g, ok)))
    ensures Rank(e, Apply(e, s, Advance(g, ok))) < Rank(e, s)
  {
    hide Inv, StepCall;
    var t := Apply(e, s, Advance(g, ok));
    AdvanceCost(e, s, g, ok);
    var d := LongestNeeded(e.needed);
    RankFalls(TotalCost(e, d, s.calls), Awake(s.calls), TotalCost(e, d, t.calls), Awake(t.calls), |s.calls|);
  }

  /** Termination under every scheduler: without new client calls the goroutines inside
      Open take at most Rank steps. */
  lemma {:induction false} OpensTerminate(e: Env, states: seq<State>, steps: seq<Step>)
    requires e.WellFormed() && Run(e, states, steps) && OnlyAdvances(steps) && Inv(e, states[0])
    ensures |steps| <= Rank(e, states[0])
    decreases |steps|
  {
    hide Inv, Apply, Rank;
    if |steps| > 0 {
      assert Next(e, states[0], steps[0], states[1]);
      RankFallsAt(e, states[0], steps[0].g, steps[0].ok);
      forall i | 0 <= i < |steps[1..]| ensures Next(e, states[1..][i], steps[1..][i], states[1..][i + 1]) {
        assert Next(e, states[i + 1], steps[i + 1], states[i + 2]);
      }
      OpensTerminate(e, states[1..], steps[1..]);
    }
  }

  lemma {:induction false} Multiples(a: nat, b: nat, k: nat)
    requires b < a
    ensures b * k + k <= a * k
  {
    if b + 1 < a {
      Multiples(a - 1, b, k);
      assert a * k == (a - 1) * k + k;
    } else {
      assert a * k == b * k + k;
    }
  }

  lemma RankFalls(a: nat, x: nat, b: nat, y: nat, n: nat)
    requires x <= n && y <= n
    requires b < a || (b == a && y < x)
    ensures b * (n + 1) + y < a * (n + 1) + x
  {
    if b < a {
      Multiples(a, b, n + 1);
    }
  }
}
