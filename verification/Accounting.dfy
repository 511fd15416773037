/** Reference counts over whole runs of the loading protocol. */
module Accounting {
  import opened Wrappers
  import opened RegistryModel
  import opened Protocol

  /** How often `who` has been given a reference to library id. */
  function Taken(s: State, id: nat, who: Holder): nat {
    s.log[Registered(id, who)] + s.log[CacheHit(id, who)]
  }

  function IdOf(ev: Event): nat {
    match ev
    case Registered(id, _) => id
    case CacheHit(id, _) => id
    case Closed(id) => id
    case Unmapped(id) => id
  }

  ghost predicate BooksOf(s: State, id: nat)
    requires id < |s.reg.libs|
  {
    && s.reg.libs[id].refs == Taken(s, id, ByClient) + Taken(s, id, ByDependency) - s.log[Closed(id)]
    && s.log[Registered(id, ByClient)] + s.log[Registered(id, ByDependency)] == 1
    && s.log[Unmapped(id)] == (if s.reg.libs[id].refs > 0 then 0 else 1)
  }

  ghost predicate Books(s: State) {
    && (forall id: nat :: id < |s.reg.libs| ==> BooksOf(s, id))
    && (forall ev <- s.log :: IdOf(ev) < |s.reg.libs|)
  }

  lemma HitBooks(s: State, t: State, id: nat, who: Holder)
    requires Books(s) && s.reg.Live(id)
    requires t.reg == Retain(s.reg, id) && t.log == s.log + multiset{CacheHit(id, who)}
    ensures Books(t)
  {
    forall k: nat | k < |t.reg.libs| ensures BooksOf(t, k) {
      assert BooksOf(s, k);
    }
  }

  lemma RegisterBooks(s: State, t: State, lib: Lib, who: Holder)
    requires Books(s) && lib.refs == 1
    requires t.reg.libs == s.reg.libs + [lib] && t.log == s.log + multiset{Registered(|s.reg.libs|, who)}
    ensures Books(t)
  {
    var n := |s.reg.libs|;
    forall k: nat | k < |t.reg.libs| ensures BooksOf(t, k) {
      if k < n {
        assert BooksOf(s, k);
      } else {
        assert Registered(n, ByClient) !in s.log && Registered(n, ByDependency) !in s.log;
        assert CacheHit(n, ByClient) !in s.log && CacheHit(n, ByDependency) !in s.log;
        assert Closed(n) !in s.log && Unmapped(n) !in s.log;
      }
    }
  }

  lemma CloseBooks(e: Env, s: State, id: nat)
    requires RegInv(e, s.reg) && Books(s) && id < |s.reg.libs|
    ensures Books(Apply(e, s, CloseHandle(id)))
  {
    var t := Apply(e, s, CloseHandle(id));
    CloseLibs(s.reg, id);
    assert s.reg.libs[id].refs >= 0;
    hide RegInv, Close, Books;
    if CloseResult(s.reg, id).TooManyCloses? {
      SameBooks(s, t);
    } else {
      ClosedBooks(s, t, id);
    }
  }

  lemma ClosedBooks(s: State, t: State, id: nat)
    requires Books(s) && s.reg.Live(id)
    requires t.reg.libs == s.reg.libs[id := s.reg.libs[id].(refs := s.reg.libs[id].refs - 1)]
    requires t.log == s.log + (if s.reg.libs[id].refs == 1 then multiset{Closed(id), Unmapped(id)} else multiset{Closed(id)})
    ensures Books(t)
  {
    var closed := if s.reg.libs[id].refs == 1 then multiset{Closed(id), Unmapped(id)} else multiset{Closed(id)};
    forall k: nat | k < |t.reg.libs| ensures BooksOf(t, k) {
      assert BooksOf(s, k);
      Counts(s.log, closed, t.log, k);
      hide Books;
      assert closed[Registered(k, ByClient)] == closed[Registered(k, ByDependency)] == 0;
      assert closed[CacheHit(k, ByClient)] == closed[CacheHit(k, ByDependency)] == 0;
    }
  }

  /** What the history says of library k after more events. */
  lemma Counts(a: multiset<Event>, b: multiset<Event>, c: multiset<Event>, k: nat)
    requires c == a + b
    ensures forall who :: c[Registered(k, who)] == a[Registered(k, who)] + b[Registered(k, who)]
    ensures forall who :: c[CacheHit(k, who)] == a[CacheHit(k, who)] + b[CacheHit(k, who)]
    ensures c[Closed(k)] == a[Closed(k)] + b[Closed(k)] && c[Unmapped(k)] == a[Unmapped(k)] + b[Unmapped(k)]
  {
  }

  lemma CloseLibs(r: Reg, id: nat)
    requires id < |r.libs|
    ensures Close(r, id).libs ==
            if r.libs[id].refs <= 0 then r.libs else r.libs[id := r.libs[id].(refs := r.libs[id].refs - 1)]
  {
  }

  lemma StepBooks(e: Env, s: State, step: Step)
    requires e.WellFormed() && Inv(e, s) && Enabled(s, step) && Books(s)
    ensures Books(Apply(e, s, step))
  {
    var t := Apply(e, s, step);
    match step
    case Start(_, _) => SameBooks(s, t);
    case CloseHandle(id) => CloseBooks(e, s, id);
    case Advance(g, ok) =>
      StepCallBooks(e, s, g, ok);
  }

  lemma SameBooks(s: State, t: State)
    requires Books(s) && t.log == s.log && t.reg.libs == s.reg.libs
    ensures Books(t)
  {
    forall k: nat | k < |t.reg.libs| ensures BooksOf(t, k) {
      assert BooksOf(s, k);
    }
  }

  lemma StepCallBooks(e: Env, s: State, g: nat, ok: bool)
    requires RegInv(e, s.reg) && Enabled(s, Advance(g, ok)) && Books(s)
    ensures Books(Apply(e, s, Advance(g, ok)))
  {
    var c := s.calls[g];
    var o := StepCall(e, s.reg, c, ok);
    var t := Apply(e, s, Advance(g, ok));
    StepCases(e, s.reg, c, ok);
    hide StepCall, Books, Return, Pop;
    if IsHit(s.reg, c) {
      assert s.reg.Live(HitId(s.reg, c));
      HitBooks(s, t, HitId(s.reg, c), c.Who());
    } else if IsSuccess(e, c, ok) {
      RegisterBooks(s, t, t.reg.libs[|s.reg.libs|], Pop(c).Who());
    } else {
      SameBooks(s, t);
    }
  }

  lemma {:induction false} RunBooks(e: Env, states: seq<State>, steps: seq<Step>, i: nat)
    requires e.WellFormed() && Run(e, states, steps) && states[0] == INIT && i <= |steps|
    ensures Inv(e, states[i]) && Books(states[i])
  {
    if i > 0 {
      RunBooks(e, states, steps, i - 1);
      assert Next(e, states[i - 1], steps[i - 1], states[i]);
      StepKeeps(e, states[i - 1], steps[i - 1]);
      StepBooks(e, states[i - 1], steps[i - 1]);
    }
  }

  /** Conservation: a RefCount is the registration, plus the cache hits, minus the
      successful Closes.  A library is unmapped when its count reaches 0, once, and from
      then on it is under no key of `loaded` and not in `globals`; before that it is
      found under its own path. */
  lemma RefcountConservation(e: Env, s: State, id: nat)
    requires e.WellFormed() && Reachable(e, s) && id < |s.reg.libs|
    ensures s.reg.libs[id].refs + s.log[Closed(id)] ==
            1 + s.log[CacheHit(id, ByClient)] + s.log[CacheHit(id, ByDependency)]
    ensures s.log[Unmapped(id)] == if s.reg.libs[id].refs == 0 then 1 else 0
    ensures s.reg.libs[id].refs == 0 ==> id !in s.reg.loaded.Values && id !in s.reg.globals
    ensures s.reg.libs[id].refs != 0 ==>
              && s.reg.libs[id].refs > 0
              && s.reg.libs[id].path in s.reg.loaded && s.reg.loaded[s.reg.libs[id].path] == id
              && (id in s.reg.globals <==> s.reg.libs[id].global)
    ensures Distinct(s.reg.globals)
  {
    var states, steps :| RunTo(e, INIT, states, steps, s);
    RunBooks(e, states, steps, |steps|);
    assert BooksOf(s, id);
  }

  /** A library is loaded exactly as long as the successful Closes, whoever made them, are
      fewer than the references that clients and dependents have taken. */
  lemma LiveIffHeld(e: Env, s: State, id: nat)
    requires e.WellFormed() && Reachable(e, s) && id < |s.reg.libs|
    ensures s.reg.Live(id) <==> s.log[Closed(id)] < Taken(s, id, ByClient) + Taken(s, id, ByDependency)
  {
    var states, steps :| RunTo(e, INIT, states, steps, s);
    RunBooks(e, states, steps, |steps|);
    assert BooksOf(s, id);
  }

  // ---------------------------------------------------------------- no dangling dependency

  /** Clients close a handle at most once per Open that gave it to them. */
  ghost predicate Disciplined(states: seq<State>, steps: seq<Step>)
    requires |states| == |steps| + 1
  {
    forall i :: 0 <= i < |steps| && steps[i].CloseHandle? ==> MayClose(states[i], steps[i].id)
  }

  predicate MayClose(s: State, id: nat) {
    s.log[Closed(id)] < Taken(s, id, ByClient)
  }

  ghost predicate NotOverclosed(s: State) {
    forall id: nat :: s.log[Closed(id)] <= Taken(s, id, ByClient)
  }

  /** Library d was acquired by loadDependencies on behalf of the file p. */
  ghost predicate AcquiredFor(e: Env, s: State, p: Name, d: nat) {
    && d < |s.reg.libs|
    && Taken(s, d, ByDependency) > 0
    && e.Edge(p, s.reg.libs[d].path)
  }

  ghost predicate FramesAcquired(e: Env, s: State, c: Call) {
    forall f <- c.stack, d <- f.acquired :: AcquiredFor(e, s, f.path, d)
  }

  ghost predicate LibsAcquired(e: Env, s: State) {
    forall i, d | 0 <= i < |s.reg.libs| && d in s.reg.libs[i].deps :: AcquiredFor(e, s, s.reg.libs[i].path, d)
  }

  ghost predicate Acquired(e: Env, s: State) {
    && LibsAcquired(e, s)
    && (forall c <- s.calls :: FramesAcquired(e, s, c))
  }

  /** What one state knows to be acquired, a later one does. */
  ghost predicate Later(s: State, t: State) {
    && LibsLater(s.reg.libs, t.reg.libs)
    && s.log <= t.log
  }

  lemma AcquiredLater(e: Env, s: State, t: State, p: Name, d: nat)
    requires AcquiredFor(e, s, p, d) && Later(s, t)
    ensures AcquiredFor(e, t, p, d)
  {
  }

  lemma FramesLater(e: Env, s: State, t: State, c: Call)
    requires FramesAcquired(e, s, c) && Later(s, t)
    ensures FramesAcquired(e, t, c)
  {
    forall f, d | f in c.stack && d in f.acquired ensures AcquiredFor(e, t, f.path, d) {
      AcquiredLater(e, s, t, f.path, d);
    }
  }

  ghost predicate LibsLater(a: seq<Lib>, b: seq<Lib>) {
    && |a| <= |b|
    && (forall i :: 0 <= i < |a| ==> b[i].path == a[i].path && b[i].deps == a[i].deps)
  }

  lemma StepCallLater(e: Env, r: Reg, c: Call, ok: bool)
    requires r.IdsValid() && c.Runnable()
    ensures LibsLater(r.libs, StepCall(e, r, c, ok).reg.libs)
  {
    StepCases(e, r, c, ok);
    hide StepCall, Return, Pop, Publish;
  }

  lemma StepLater(e: Env, s: State, step: Step)
    requires Enabled(s, step)
    ensures Later(s, Apply(e, s, step))
  {
    hide StepCall, Close;
    match step
    case Start(_, _) =>
    case Advance(g, ok) =>
      StepCallLater(e, s.reg, s.calls[g], ok);
      AfterAdvance(e, s, g, ok);
    case CloseHandle(id) => CloseLibs(s.reg, id);
  }

  lemma ReturnAcquired(e: Env, t: State, c: Call, result: Option<nat>)
    requires FramesAcquired(e, t, c)
    requires result.Some? && c.stack != [] ==> AcquiredFor(e, t, c.Top().path, result.value)
    ensures FramesAcquired(e, t, Return(c, result))
  {
    if c.stack != [] {
      var r := Return(c, result);
      assert c.Top() in c.stack;
      forall f, d | f in r.stack && d in f.acquired ensures AcquiredFor(e, t, f.path, d) {
        if f == r.Top() {
          assert d in c.Top().acquired || (result.Some? && d == result.value);
        } else {
          assert f in c.stack;
        }
      }
    }
  }

  lemma NextDependencyAcquired(e: Env, t: State, c: Call)
    requires FramesAcquired(e, t, c) && c.stack != [] && c.Top().next < |e.Needed(c.Top().path)|
    ensures FramesAcquired(e, t, NextDependency(e, c))
  {
    var r := NextDependency(e, c);
    assert c.Top() in c.stack;
    forall f, d | f in r.stack && d in f.acquired ensures AcquiredFor(e, t, f.path, d) {
      assert f == r.Top() || f in c.stack;
    }
  }

  lemma HitAcquired(e: Env, s: State, t: State, c: Call, id: nat)
    requires RegInv(e, s.reg) && CallInv(e, s.reg, c) && FramesAcquired(e, t, c) && s.reg.Live(id)
    requires t.reg == Retain(s.reg, id) && t.log == s.log + multiset{CacheHit(id, c.Who())}
    requires c.pc.Enter? || (c.pc.Check? && s.reg.libs[id].path == c.pc.path)
    ensures FramesAcquired(e, t, Return(c, Some(id)))
  {
    if c.stack != [] {
      assert t.log[CacheHit(id, ByDependency)] > 0;
    }
    ReturnAcquired(e, t, c, Some(id));
  }

  lemma PopAcquired(e: Env, t: State, c: Call)
    requires FramesAcquired(e, t, c) && c.stack != []
    ensures FramesAcquired(e, t, Pop(c))
  {
    assert forall f <- Pop(c).stack :: f in c.stack;
  }

  lemma SucceedAcquired(e: Env, s: State, t: State, c: Call)
    requires CallInv(e, s.reg, c) && FramesAcquired(e, t, c) && c.stack != []
    requires t.reg == Succeed(e, s.reg, c).reg && t.log == s.log + Succeed(e, s.reg, c).events
    ensures FramesAcquired(e, t, Succeed(e, s.reg, c).call)
  {
    PopAcquired(e, t, c);
    var d := Pop(c);
    var id := |s.reg.libs|;
    if d.stack != [] {
      assert d.Top() == c.stack[|c.stack| - 2];
      assert t.log[Registered(id, ByDependency)] > 0;
    }
    ReturnAcquired(e, t, d, Some(id));
  }

  lemma StepCallAcquired(e: Env, s: State, g: nat, ok: bool)
    requires e.WellFormed() && RegInv(e, s.reg) && Enabled(s, Advance(g, ok))
    requires CallInv(e, s.reg, s.calls[g]) && FramesAcquired(e, s, s.calls[g])
    ensures FramesAcquired(e, Apply(e, s, Advance(g, ok)), StepCall(e, s.reg, s.calls[g], ok).call)
  {
    var c := s.calls[g];
    var t := Apply(e, s, Advance(g, ok));
    StepLater(e, s, Advance(g, ok));
    FramesLater(e, s, t, c);
    StartedCall(e, s, Advance(g, ok));
    AfterAdvance(e, s, g, ok);
    hide Apply, FramesAcquired, Later;
    if c.pc.Work? {
      WorkAcquired(e, s, t, c, ok);
    } else {
      AskAcquired(e, s, t, c, ok);
    }
  }

  lemma AfterAdvance(e: Env, s: State, g: nat, ok: bool)
    requires Enabled(s, Advance(g, ok))
    ensures var t, o := Apply(e, s, Advance(g, ok)), StepCall(e, s.reg, s.calls[g], ok);
            t.reg == o.reg && t.log == s.log + o.events
  {
    hide StepCall;
  }

  lemma AskAcquired(e: Env, s: State, t: State, c: Call, ok: bool)
    requires RegInv(e, s.reg) && CallInv(e, s.reg, c) && c.Runnable() && !c.pc.Work? && FramesAcquired(e, t, c)
    requires var o := StepCall(e, s.reg, c, ok);
             t.reg == o.reg && t.log == s.log + o.events
    ensures FramesAcquired(e, t, StepCall(e, s.reg, c, ok).call)
  {
    hide FramesAcquired;
    StepCases(e, s.reg, c, ok);
    if IsHit(s.reg, c) {
      NoCycleHit(e, s.reg, c);
      HitAcquired(e, s, t, c, HitId(s.reg, c));
    } else {
      SameFrames(e, s.reg, t, c, ok);
    }
  }

  /** The cycle branch finds nothing, and what the others find is live. */
  lemma NoCycleHit(e: Env, r: Reg, c: Call)
    requires RegInv(e, r) && CallInv(e, r, c) && IsHit(r, c)
    ensures !c.pc.Cycle? && r.Live(HitId(r, c))
    ensures c.pc.Check? ==> r.libs[HitId(r, c)].path == c.pc.path
  {
  }

  /** A question that finds nothing leaves the acquired libraries as they were. */
  lemma SameFrames(e: Env, r: Reg, t: State, c: Call, ok: bool)
    requires FramesAcquired(e, t, c) && r.IdsValid() && c.Runnable() && !c.pc.Work? && !IsHit(r, c)
    ensures FramesAcquired(e, t, StepCall(e, r, c, ok).call)
  {
    ReturnAcquired(e, t, c, None);
    hide Return;
    if c.pc.Check? && c.pc.path !in r.loading {
      var f := Frame(c.pc.path, c.pc.request, c.pc.global, 0, []);
      ClaimIs(e, r, c, ok);
      PushAcquired(e, t, c, f);
    }
  }

  lemma PushAcquired(e: Env, t: State, c: Call, f: Frame)
    requires FramesAcquired(e, t, c) && f.acquired == []
    ensures FramesAcquired(e, t, Push(c, f))
  {
    assert forall h <- Push(c, f).stack :: h in c.stack || h == f;
  }

  lemma WorkAcquired(e: Env, s: State, t: State, c: Call, ok: bool)
    requires s.reg.IdsValid() && CallInv(e, s.reg, c) && c.pc.Work? && FramesAcquired(e, t, c)
    requires var o := StepCall(e, s.reg, c, ok);
             t.reg == o.reg && t.log == s.log + o.events
    ensures FramesAcquired(e, t, StepCall(e, s.reg, c, ok).call)
  {
    hide FramesAcquired, NextDependency, Return, Register, Release;
    var f := c.Top();
    if f.path in e.needed && f.next < |e.Needed(f.path)| {
      NextDependencyAcquired(e, t, c);
    } else if f.path in e.needed && ok {
      SucceedAcquired(e, s, t, c);
    } else {
      PopAcquired(e, t, c);
      ReturnAcquired(e, t, Pop(c), None);
    }
  }

  /** A new library takes over what its frame had acquired. */
  lemma NewLib(e: Env, r: Reg, c: Call, ok: bool)
    requires r.IdsValid() && c.Runnable() && |StepCall(e, r, c, ok).reg.libs| > |r.libs|
    ensures c.stack != [] && |StepCall(e, r, c, ok).reg.libs| == |r.libs| + 1
    ensures StepCall(e, r, c, ok).reg.libs[|r.libs|].path == c.Top().path
    ensures StepCall(e, r, c, ok).reg.libs[|r.libs|].deps == c.Top().acquired
  {
  }

  lemma LibsAcquiredLater(e: Env, s: State, t: State, p: Name, acquired: seq<nat>)
    requires LibsAcquired(e, s) && Later(s, t) && |t.reg.libs| <= |s.reg.libs| + 1
    requires |t.reg.libs| > |s.reg.libs| ==>
               t.reg.libs[|s.reg.libs|].path == p && t.reg.libs[|s.reg.libs|].deps == acquired
    requires forall d <- acquired :: AcquiredFor(e, s, p, d)
    ensures LibsAcquired(e, t)
  {
    forall i, d | 0 <= i < |t.reg.libs| && d in t.reg.libs[i].deps
      ensures AcquiredFor(e, t, t.reg.libs[i].path, d)
    {
      AcquiredLater(e, s, t, t.reg.libs[i].path, d);
    }
  }

  lemma LibsStayAcquired(e: Env, s: State, step: Step)
    requires Enabled(s, step) && Later(s, Apply(e, s, step)) && Acquired(e, s)
    ensures LibsAcquired(e, Apply(e, s, step))
  {
    var t := Apply(e, s, step);
    if |t.reg.libs| > |s.reg.libs| {
      var c := s.calls[step.g];
      NewLib(e, s.reg, c, step.ok);
      assert c in s.calls && c.Top() in c.stack;
      LibsAcquiredLater(e, s, t, c.Top().path, c.Top().acquired);
    } else {
      LibsAcquiredLater(e, s, t, "", []);
    }
  }

  lemma StartedCall(e: Env, s: State, step: Step)
    requires Enabled(s, step)
    ensures var t := Apply(e, s, step);
            && |t.calls| <= |s.calls| + 1
            && (|t.calls| > |s.calls| ==> t.calls[|s.calls|].stack == [])
            && (step.Advance? ==> t.calls[step.g] == StepCall(e, s.reg, s.calls[step.g], step.ok).call)
  {
    hide StepCall, Close;
  }

  /** A step leaves the stacks of the other calls alone. */
  lemma OtherStack(e: Env, s: State, step: Step, h: nat)
    requires Enabled(s, step) && h < |s.calls| && !(step.Advance? && step.g == h)
    ensures var t := Apply(e, s, step);
            h < |t.calls| && t.calls[h].stack == s.calls[h].stack
  {
    hide StepCall, Close;
  }

  lemma SameFramesLater(e: Env, s: State, t: State, c: Call, d: Call)
    requires FramesAcquired(e, s, c) && Later(s, t) && d.stack == c.stack
    ensures FramesAcquired(e, t, d)
  {
    FramesLater(e, s, t, c);
  }

  lemma StepAcquired(e: Env, s: State, step: Step)
    requires e.WellFormed() && Inv(e, s) && Enabled(s, step) && Acquired(e, s)
    ensures Acquired(e, Apply(e, s, step))
  {
    var t := Apply(e, s, step);
    StepLater(e, s, step);
    LibsStayAcquired(e, s, step);
    StartedCall(e, s, step);
    assert forall h | 0 <= h < |s.calls| :: CallInv(e, s.reg, s.calls[h]) && FramesAcquired(e, s, s.calls[h]);
    assert RegInv(e, s.reg);
    hide Apply, Inv, CallInv, RegInv, FramesAcquired, Later, LibsAcquired;
    forall c | c in t.calls ensures FramesAcquired(e, t, c) {
      var h :| 0 <= h < |t.calls| && t.calls[h] == c;
      if step.Advance? && h == step.g {
        StepCallAcquired(e, s, step.g, step.ok);
      } else if h < |s.calls| {
        assert s.calls[h] in s.calls;
        OtherStack(e, s, step, h);
        SameFramesLater(e, s, t, s.calls[h], c);
      }
    }
  }

  lemma StepNotOverclosed(e: Env, s: State, step: Step)
    requires Enabled(s, step) && NotOverclosed(s)
    requires step.CloseHandle? ==> MayClose(s, step.id)
    ensures NotOverclosed(Apply(e, s, step))
  {
    StepLater(e, s, step);
    var t := Apply(e, s, step);
    forall id: nat ensures t.log[Closed(id)] <= Taken(t, id, ByClient) {
      assert s.log[Closed(id)] <= Taken(s, id, ByClient);
    }
  }

  lemma {:induction false} DisciplinedRun(e: Env, states: seq<State>, steps: seq<Step>, i: nat)
    requires e.WellFormed() && Run(e, states, steps) && states[0] == INIT && i <= |steps|
    requires Disciplined(states, steps)
    ensures Acquired(e, states[i]) && NotOverclosed(states[i])
  {
    if i > 0 {
      DisciplinedRun(e, states, steps, i - 1);
      RunBooks(e, states, steps, i - 1);
      assert Next(e, states[i - 1], steps[i - 1], states[i]);
      StepAcquired(e, states[i - 1], steps[i - 1]);
      StepNotOverclosed(e, states[i - 1], steps[i - 1]);
    }
  }

  /** No dangling dependency: if clients close each handle at most once per Open, every
      library acquired through loadDependencies is a dependency of the file that acquired
      it and is still loaded, cycles or not.  Since Close never gives such a reference
      back, it stays loaded even after every library that needed it is gone. */
  lemma NoDanglingDependency(e: Env, states: seq<State>, steps: seq<Step>, i: nat, d: nat)
    requires e.WellFormed() && Run(e, states, steps) && states[0] == INIT && Disciplined(states, steps)
    requires i < |states[|steps|].reg.libs| && d in states[|steps|].reg.libs[i].deps
    ensures var r := states[|steps|].reg;
            && d < |r.libs|
            && e.Edge(r.libs[i].path, r.libs[d].path)
            && r.libs[d].refs >= Taken(states[|steps|], d, ByDependency) > 0
            && r.libs[d].path in r.loaded && r.loaded[r.libs[d].path] == d
  {
    var s := states[|steps|];
    DisciplinedRun(e, states, steps, |steps|);
    RunBooks(e, states, steps, |steps|);
    assert AcquiredFor(e, s, s.reg.libs[i].path, d);
    assert BooksOf(s, d);
    assert s.log[Closed(d)] <= Taken(s, d, ByClient);
  }
}
