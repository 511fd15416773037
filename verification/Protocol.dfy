/** The loading protocol of dl/dl.go as a step system: any number of goroutines inside
    Open, each with its own stack of loadPath activations, and clients that start Opens
    and Close handles at any moment.  A critical section under `mu` is one step;
    what a goroutine does between two of them touches only its own data. */
module Protocol {
  import opened Wrappers
  import opened RegistryModel

  /** Who keeps the reference a call has just taken. */
  datatype Holder = ByClient | ByDependency

  /** The history of a run. */
  datatype Event =
    | Registered(id: nat, who: Holder)
    | CacheHit(id: nat, who: Holder)
    | Closed(id: nat)
    | Unmapped(id: nat)

  /** One activation of loadPath that has claimed its path: `next` is its position in
      the DT_NEEDED loop, `acquired` what the loop has loaded so far. */
  datatype Frame = Frame(path: Name, request: Name, global: bool, next: nat, acquired: seq<nat>)

  /** Where a goroutine stands.
      - Enter: before the first critical section of loadLib;
      - Check: before the critical section of checkLoadingCache;
      - Asleep: inside cond.Wait();
      - Cycle: before incrementRefIfLoaded, `path` being on its own stack;
      - Work: the top frame is between two critical sections;
      - Done: Open has returned. */
  datatype Pc =
    | Enter
    | Check(path: Name, request: Name, global: bool)
    | Asleep(path: Name, request: Name, global: bool)
    | Cycle(path: Name)
    | Work
    | Done(result: Option<nat>)

  /** One call of Open, with the `visiting` map that belongs to it. */
  datatype Call = Call(name: Name, global: bool, visiting: set<Name>, stack: seq<Frame>, pc: Pc)
  {
    predicate Unfinished() { !pc.Done? }

    predicate Runnable() { !pc.Done? && !pc.Asleep? && (pc.Work? ==> stack != []) }

    function Who(): Holder { if stack == [] then ByClient else ByDependency }

    function Top(): Frame
      requires stack != []
    {
      stack[|stack| - 1]
    }

    function Below(): seq<Frame>
      requires stack != []
    {
      stack[..|stack| - 1]
    }
  }

  datatype State = State(reg: Reg, calls: seq<Call>, log: multiset<Event>)

  const INIT := State(EMPTY_REG, [], multiset{})

  // ---------------------------------------------------------------- one goroutine

  /** Hand a result to the caller: to the client, or to the DT_NEEDED loop below, which
      ignores an error. */
  function Return(c: Call, result: Option<nat>): Call {
    if c.stack == [] then c.(pc := Done(result))
    else
      var f := c.Top();
      var got := if result.Some? then [result.value] else [];
      c.(pc := Work, stack := c.Below() + [f.(acquired := f.acquired + got)])
  }

  /** The deferred delete(visiting, path). */
  function Pop(c: Call): Call
    requires c.stack != []
  {
    c.(visiting := c.visiting - {c.Top().path}, stack := c.Below())
  }

  /** One turn of the loop in loadDependencies, up to the next critical section. */
  function NextDependency(e: Env, c: Call): Call
    requires c.stack != [] && c.Top().next < |e.Needed(c.Top().path)|
  {
    var f := c.Top();
    var dep := e.Needed(f.path)[f.next];
    var looped := c.(stack := c.Below() + [f.(next := f.next + 1)]);
    if dep in c.visiting then looped
    else if (dep, Some(f.path)) !in e.find then looped
    else
      var path := e.find[(dep, Some(f.path))];
      if path in c.visiting then looped.(pc := Cycle(path))
      else looped.(pc := Check(path, dep, true))
  }

  /** What a step does to the registry, to its own call and to the history, and whether
      it broadcasts on the condition variable. */
  datatype Outcome = Outcome(reg: Reg, call: Call, events: multiset<Event>, wakes: bool)

  function Hit(r: Reg, c: Call, id: nat): Outcome
    requires id < |r.libs|
  {
    Outcome(Retain(r, id), Return(c, Some(id)), multiset{CacheHit(id, c.Who())}, false)
  }

  function Fail(r: Reg, c: Call): Outcome
    requires c.stack != []
  {
    Outcome(Release(r, c.Top().path), Return(Pop(c), None), multiset{}, true)
  }

  function Succeed(e: Env, r: Reg, c: Call): Outcome
    requires c.stack != []
  {
    var f := c.Top();
    Outcome(Register(r, f.path, f.request, e.Soname(f.path), f.global, f.acquired),
            Return(Pop(c), Some(|r.libs|)),
            multiset{Registered(|r.libs|, Pop(c).Who())},
            true)
  }

  /** One step of one goroutine.  `ok` is the answer of loader.Load when it is asked. */
  function StepCall(e: Env, r: Reg, c: Call, ok: bool): Outcome
    requires r.IdsValid() && c.Runnable()
  {
    match c.pc
    case Enter =>
      if c.name in r.loaded then Hit(r, c, r.loaded[c.name])
      else if (c.name, None) in e.find then
        Outcome(r, c.(pc := Check(e.find[(c.name, None)], c.name, c.global)), multiset{}, false)
      else Outcome(r, Return(c, None), multiset{}, false)
    case Check(path, request, global) =>
      if path in r.loading then Outcome(r, c.(pc := Asleep(path, request, global)), multiset{}, false)
      else if path in r.loaded then Hit(r, c, r.loaded[path])
      else
        Outcome(Claim(r, path),
                c.(visiting := c.visiting + {path},
                stack := c.stack + [Frame(path, request, global, 0, [])],
                pc := Work),
                multiset{}, false)
    case Cycle(path) =>
      if path in r.loaded then Hit(r, c, r.loaded[path])
      else Outcome(r, Return(c, None), multiset{}, false)
    case Work =>
      if c.Top().path !in e.needed then Fail(r, c)
      else if c.Top().next < |e.Needed(c.Top().path)| then
        Outcome(r, NextDependency(e, c), multiset{}, false)
      else if ok then Succeed(e, r, c)
      else Fail(r, c)
    case _ => Outcome(r, c, multiset{}, false)
  }

  /** The step finds a library under the name or path it asks for. */
  predicate IsHit(r: Reg, c: Call) {
    match c.pc
    case Enter => c.name in r.loaded
    case Check(path, _, _) => path !in r.loading && path in r.loaded
    case Cycle(path) => path in r.loaded
    case _ => false
  }

  function HitId(r: Reg, c: Call): nat
    requires IsHit(r, c)
  {
    match c.pc
    case Enter => r.loaded[c.name]
    case Check(path, _, _) => r.loaded[path]
    case Cycle(path) => r.loaded[path]
  }

  /** The step registers the library of the top frame. */
  predicate IsSuccess(e: Env, c: Call, ok: bool) {
    c.pc.Work? && c.stack != [] && c.Top().path in e.needed && c.Top().next >= |e.Needed(c.Top().path)| && ok
  }

  /** Only a hit and a success touch libraries and history. */
  lemma StepCases(e: Env, r: Reg, c: Call, ok: bool)
    requires r.IdsValid() && c.Runnable()
    ensures IsHit(r, c) ==> HitId(r, c) < |r.libs| && StepCall(e, r, c, ok) == Hit(r, c, HitId(r, c))
    ensures IsSuccess(e, c, ok) ==> StepCall(e, r, c, ok) == Succeed(e, r, c)
    ensures !IsHit(r, c) && !IsSuccess(e, c, ok) ==>
              && StepCall(e, r, c, ok).reg.libs == r.libs
              && StepCall(e, r, c, ok).reg.globals == r.globals
              && StepCall(e, r, c, ok).events == multiset{}
  {
    hide NextDependency, Return;
  }

  // ---------------------------------------------------------------- the system

  /** A sleeper that a broadcast has woken looks at `loading` again. */
  function Wake(c: Call): Call {
    match c.pc
    case Asleep(path, request, global) => c.(pc := Check(path, request, global))
    case _ => c
  }

  function WakeAll(calls: seq<Call>): seq<Call> {
    seq(|calls|, i requires 0 <= i < |calls| => Wake(calls[i]))
  }

  datatype Step =
    | Start(name: Name, global: bool)
    | Advance(g: nat, ok: bool)
    | CloseHandle(id: nat)

  predicate Enabled(s: State, step: Step) {
    match step
    case Start(_, _) => true
    case Advance(g, _) => g < |s.calls| && s.calls[g].Runnable() && s.reg.IdsValid()
    case CloseHandle(id) => id < |s.reg.libs|
  }

  function CloseEvents(r: Reg, id: nat): multiset<Event>
    requires id < |r.libs|
  {
    match CloseResult(r, id)
    case TooManyCloses => multiset{}
    case StillOpen => multiset{Closed(id)}
    case Unloaded => multiset{Closed(id), Unmapped(id)}
  }

  function Apply(e: Env, s: State, step: Step): State
    requires Enabled(s, step)
  {
    match step
    case Start(name, global) => s.(calls := s.calls + [Call(name, global, {}, [], Enter)])
    case Advance(g, ok) =>
      var o := StepCall(e, s.reg, s.calls[g], ok);
      State(o.reg, (if o.wakes then WakeAll(s.calls) else s.calls)[g := o.call], s.log + o.events)
    case CloseHandle(id) => State(Close(s.reg, id), s.calls, s.log + CloseEvents(s.reg, id))
  }

  ghost predicate Next(e: Env, s: State, step: Step, t: State) {
    Enabled(s, step) && t == Apply(e, s, step)
  }

  /** A run: its states and the steps between them. */
  ghost predicate Run(e: Env, states: seq<State>, steps: seq<Step>) {
    && |states| == |steps| + 1
    && forall i :: 0 <= i < |steps| ==> Next(e, states[i], steps[i], states[i + 1])
  }

  ghost predicate RunTo(e: Env, s: State, states: seq<State>, steps: seq<Step>, t: State) {
    Run(e, states, steps) && states[0] == s && states[|steps|] == t
  }

  ghost predicate Reachable(e: Env, t: State) {
    exists states, steps :: RunTo(e, INIT, states, steps, t)
  }

  // ---------------------------------------------------------------- invariant

  ghost function Paths(stack: seq<Frame>): set<Name> {
    set f <- stack :: f.path
  }

  /** `visiting` is the set of paths on the stack, no path is there twice, and each frame
      is a dependency of the frame below. */
  ghost predicate StackInv(e: Env, c: Call) {
    && c.visiting == Paths(c.stack)
    && (forall i, j :: 0 <= i < j < |c.stack| ==> c.stack[i].path != c.stack[j].path)
    && (forall i :: 0 <= i < |c.stack| - 1 ==> e.Edge(c.stack[i].path, c.stack[i + 1].path))
    && (forall f <- c.stack ::
          && f.path in e.paths
          && (f.request in e.paths ==> f.request == f.path)
          && f.next <= |e.Needed(f.path)|)
  }

  ghost predicate TargetInv(e: Env, c: Call, path: Name, request: Name) {
    && path in e.paths && path !in c.visiting
    && (request in e.paths ==> request == path)
    && (c.stack != [] ==> e.Edge(c.Top().path, path))
  }

  ghost predicate CallInv(e: Env, r: Reg, c: Call) {
    && StackInv(e, c)
    && c.visiting <= r.loading
    && match c.pc
       case Enter => c.stack == []
       case Done(_) => c.stack == []
       case Check(path, request, _) => TargetInv(e, c, path, request)
       case Asleep(path, request, _) => TargetInv(e, c, path, request) && path in r.loading
       case Cycle(path) => c.stack != [] && path in c.visiting
       case Work => c.stack != []
  }

  /** The slots in `loading` are shared out among the calls in flight. */
  ghost predicate SlotsInv(s: State) {
    && (forall g, h :: 0 <= g < h < |s.calls| ==> s.calls[g].visiting !! s.calls[h].visiting)
    && (forall p <- s.reg.loading :: exists g :: 0 <= g < |s.calls| && p in s.calls[g].visiting)
  }

  ghost predicate Inv(e: Env, s: State) {
    && RegInv(e, s.reg)
    && (forall g :: 0 <= g < |s.calls| ==> CallInv(e, s.reg, s.calls[g]))
    && SlotsInv(s)
  }

  /** How a step of `c` may change the registry as the other calls see it. */
  ghost predicate Local(r: Reg, c: Call, o: Outcome) {
    && r.loading - c.visiting == o.reg.loading - o.call.visiting
    && o.call.visiting <= o.reg.loading
    && o.call.visiting !! (r.loading - c.visiting)
    && (o.wakes || r.loading <= o.reg.loading)
  }

  /** Writing the top frame's counters changes nothing the invariant speaks of. */
  lemma TopRewritten(e: Env, c: Call, f: Frame)
    requires StackInv(e, c) && c.stack != []
    requires f.path == c.Top().path && f.request == c.Top().request && f.next <= |e.Needed(f.path)|
    ensures StackInv(e, c.(stack := c.Below() + [f]))
  {
    hide Paths;
    var d := c.(stack := c.Below() + [f]);
    assert forall i :: 0 <= i < |c.stack| ==> d.stack[i].path == c.stack[i].path;
    SamePaths(c.stack, d.stack);
    assert c.Top() in c.stack;
    assert forall h <- d.stack :: h == f || h in c.stack;
  }

  lemma ReturnKeeps(e: Env, r: Reg, c: Call, result: Option<nat>)
    requires StackInv(e, c) && c.visiting <= r.loading
    ensures CallInv(e, r, Return(c, result)) && Return(c, result).visiting == c.visiting
  {
    if c.stack != [] {
      var f := c.Top();
      assert f in c.stack;
      TopRewritten(e, c, Return(c, result).Top());
    }
  }

  lemma SamePaths(a: seq<Frame>, b: seq<Frame>)
    requires |a| == |b| && forall i :: 0 <= i < |a| ==> a[i].path == b[i].path
    ensures Paths(a) == Paths(b)
  {
    forall p ensures p in Paths(a) <==> p in Paths(b) {
      if p in Paths(a) { var i :| 0 <= i < |a| && a[i].path == p; assert b[i] in b; }
      if p in Paths(b) { var i :| 0 <= i < |b| && b[i].path == p; assert a[i] in a; }
    }
  }

  lemma PopKeeps(e: Env, c: Call)
    requires StackInv(e, c) && c.stack != []
    ensures StackInv(e, Pop(c)) && Pop(c).visiting == c.visiting - {c.Top().path}
  {
    assert c.stack == c.Below() + [c.Top()];
    var d := Pop(c);
    forall p ensures p in d.visiting <==> p in Paths(d.stack) {
      if p in c.visiting && p != c.Top().path {
        var f :| f in c.stack && f.path == p;
        assert f in d.stack;
      }
    }
  }

  /** A turn of the loop only advances the top frame and the program counter. */
  lemma NextIs(e: Env, c: Call)
    requires c.pc.Work? && c.stack != [] && c.Top().next < |e.Needed(c.Top().path)|
    ensures var d := NextDependency(e, c);
            && d == c.(stack := c.Below() + [c.Top().(next := c.Top().next + 1)]).(pc := d.pc)
            && (d.pc.Work? || d.pc.Check? || (d.pc.Cycle? && d.pc.path in c.visiting))
  {
  }

  lemma NextDependencyKeeps(e: Env, r: Reg, c: Call)
    requires e.WellFormed() && CallInv(e, r, c) && c.pc.Work? && c.Top().next < |e.Needed(c.Top().path)|
    ensures CallInv(e, r, NextDependency(e, c)) && NextDependency(e, c).visiting == c.visiting
  {
    hide StackInv, NextDependency, TargetInv;
    var f := c.Top();
    var d := NextDependency(e, c);
    TopSlot(e, r, c);
    NextIs(e, c);
    TopRewritten(e, c, f.(next := f.next + 1));
    if d.pc.Check? {
      NextTarget(e, c);
    }
    SameStackInv(e, c.(stack := c.Below() + [f.(next := f.next + 1)]), d);
  }

  /** The invariant of the stack does not speak of the program counter. */
  lemma SameStackInv(e: Env, c: Call, d: Call)
    requires StackInv(e, c) && d == c.(pc := d.pc)
    ensures StackInv(e, d)
  {
  }

  lemma NextTarget(e: Env, c: Call)
    requires e.WellFormed() && c.pc.Work? && c.stack != [] && c.Top().next < |e.Needed(c.Top().path)|
    requires NextDependency(e, c).pc.Check?
    ensures var d := NextDependency(e, c);
            TargetInv(e, d, d.pc.path, d.pc.request)
  {
    var f := c.Top();
    var d := NextDependency(e, c);
    assert e.EdgeAt(f.path, f.next, d.pc.path);
    assert e.find[(d.pc.request, Some(f.path))] == d.pc.path;
  }

  /** What taking a slot comes to. */
  lemma ClaimIs(e: Env, r: Reg, c: Call, ok: bool)
    requires c.pc.Check? && r.IdsValid() && c.pc.path !in r.loading && c.pc.path !in r.loaded
    ensures StepCall(e, r, c, ok)
         == Outcome(Claim(r, c.pc.path), Push(c, Frame(c.pc.path, c.pc.request, c.pc.global, 0, [])), multiset{}, false)
  {
  }

  function Push(c: Call, f: Frame): Call {
    c.(visiting := c.visiting + {f.path}, stack := c.stack + [f], pc := Work)
  }

  lemma PushKeeps(e: Env, c: Call, f: Frame)
    requires StackInv(e, c) && f.path !in c.visiting && f.path in e.paths && f.next == 0
    requires (f.request in e.paths ==> f.request == f.path) && (c.stack != [] ==> e.Edge(c.Top().path, f.path))
    ensures StackInv(e, Push(c, f))
  {
    var d := Push(c, f);
    PathsAppend(c.stack, f);
    PathsHold(c.stack);
    hide Paths;
    assert forall i :: 0 <= i < |c.stack| ==> c.stack[i].path != f.path by {
      assert forall i :: 0 <= i < |c.stack| ==> c.stack[i] in c.stack;
    }
    PushEdges(e, c, f);
    assert forall h <- d.stack :: h == f || h in c.stack;
  }

  lemma PushEdges(e: Env, c: Call, f: Frame)
    requires forall i :: 0 <= i < |c.stack| - 1 ==> e.Edge(c.stack[i].path, c.stack[i + 1].path)
    requires c.stack != [] ==> e.Edge(c.Top().path, f.path)
    ensures var d := c.stack + [f];
            forall i :: 0 <= i < |d| - 1 ==> e.Edge(d[i].path, d[i + 1].path)
  {
  }

  lemma PathsAppend(stack: seq<Frame>, f: Frame)
    ensures Paths(stack + [f]) == Paths(stack) + {f.path}
  {
    forall p ensures p in Paths(stack + [f]) <==> p in Paths(stack) || p == f.path {
      if p in Paths(stack) {
        var h :| h in stack && h.path == p;
        assert h in stack + [f];
      }
      assert f in stack + [f];
    }
  }

  lemma PathsHold(stack: seq<Frame>)
    ensures forall h <- stack :: h.path in Paths(stack)
  {
  }

  lemma ClaimStep(e: Env, r: Reg, c: Call)
    requires RegInv(e, r) && CallInv(e, r, c) && c.pc.Check?
    requires c.pc.path !in r.loading && c.pc.path !in r.loaded
    ensures CallInv(e, Claim(r, c.pc.path), StepCall(e, r, c, false).call)
    ensures StepCall(e, r, c, false).call.visiting == c.visiting + {c.pc.path}
  {
    ClaimIs(e, r, c, false);
    PushKeeps(e, c, Frame(c.pc.path, c.pc.request, c.pc.global, 0, []));
    hide StepCall, StackInv, RegInv;
  }

  /** One step of a call keeps the registry and the call in order. */
  ghost predicate KeptBy(e: Env, r: Reg, c: Call, o: Outcome) {
    RegInv(e, o.reg) && CallInv(e, o.reg, o.call) && Local(r, c, o)
  }

  lemma HitKeeps(e: Env, r: Reg, c: Call, id: nat)
    requires RegInv(e, r) && StackInv(e, c) && c.visiting <= r.loading && r.Live(id)
    ensures KeptBy(e, r, c, Hit(r, c, id))
  {
    RetainKeeps(e, r, id);
    ReturnKeeps(e, Retain(r, id), c, Some(id));
  }

  /** What a call that is about to check a path brings with it. */
  lemma CheckFacts(e: Env, r: Reg, c: Call)
    requires RegInv(e, r) && CallInv(e, r, c) && c.pc.Check?
    ensures r.IdsValid() && c.visiting <= r.loading && StackInv(e, c)
    ensures TargetInv(e, c, c.pc.path, c.pc.request)
    ensures c.pc.path in e.paths && c.pc.path !in c.visiting
    ensures c.pc.path in r.loaded ==> r.Live(r.loaded[c.pc.path])
  {
  }

  lemma WaitKeeps(e: Env, r: Reg, c: Call, ok: bool)
    requires RegInv(e, r) && CallInv(e, r, c) && c.pc.Check? && c.pc.path in r.loading
    ensures r.IdsValid() && KeptBy(e, r, c, StepCall(e, r, c, ok))
  {
    CheckFacts(e, r, c);
    hide RegInv, StackInv, TargetInv;
  }

  lemma TakeKeeps(e: Env, r: Reg, c: Call, ok: bool)
    requires RegInv(e, r) && CallInv(e, r, c) && c.pc.Check? && c.pc.path !in r.loading && c.pc.path !in r.loaded
    ensures r.IdsValid() && KeptBy(e, r, c, StepCall(e, r, c, ok))
  {
    hide RegInv, CallInv, StackInv, TargetInv, StepCall;
    CheckFacts(e, r, c);
    ClaimKeeps(e, r, c.pc.path);
    ClaimIs(e, r, c, ok);
    ClaimIs(e, r, c, false);
    ClaimStep(e, r, c);
  }

  lemma CheckKeeps(e: Env, r: Reg, c: Call, ok: bool)
    requires RegInv(e, r) && CallInv(e, r, c) && c.pc.Check?
    ensures r.IdsValid() && KeptBy(e, r, c, StepCall(e, r, c, ok))
  {
    hide RegInv, CallInv, StackInv, TargetInv, KeptBy;
    CheckFacts(e, r, c);
    if c.pc.path in r.loading {
      WaitKeeps(e, r, c, ok);
    } else if c.pc.path in r.loaded {
      HitKeeps(e, r, c, r.loaded[c.pc.path]);
    } else {
      TakeKeeps(e, r, c, ok);
    }
  }

  lemma FailKeeps(e: Env, r: Reg, c: Call)
    requires RegInv(e, r) && CallInv(e, r, c) && c.stack != []
    ensures KeptBy(e, r, c, Fail(r, c))
  {
    hide RegInv, CallInv, StackInv, Return, Pop;
    var f := c.Top();
    TopSlot(e, r, c);
    PopKeeps(e, c);
    ReleaseKeeps(e, r, f.path);
    ReturnKeeps(e, Release(r, f.path), Pop(c), None);
  }

  lemma SucceedKeeps(e: Env, r: Reg, c: Call)
    requires e.WellFormed() && RegInv(e, r) && CallInv(e, r, c) && c.stack != []
    ensures KeptBy(e, r, c, Succeed(e, r, c))
  {
    hide RegInv, CallInv, StackInv, Return, Pop, Publish;
    var f := c.Top();
    TopSlot(e, r, c);
    PopKeeps(e, c);
    RegisterKeeps(e, r, f.path, f.request, f.global, f.acquired);
    ReturnKeeps(e, Succeed(e, r, c).reg, Pop(c), Some(|r.libs|));
  }

  /** The top frame's slot is taken. */
  lemma TopSlot(e: Env, r: Reg, c: Call)
    requires CallInv(e, r, c) && c.stack != []
    ensures var f := c.Top();
            && StackInv(e, c) && c.visiting <= r.loading && f.path in c.visiting && f.path in e.paths
            && (f.request in e.paths ==> f.request == f.path) && f.next <= |e.Needed(f.path)|
  {
    assert c.Top() in c.stack;
  }

  lemma StepCallKeeps(e: Env, r: Reg, c: Call, ok: bool)
    requires e.WellFormed() && RegInv(e, r) && CallInv(e, r, c) && c.Runnable()
    ensures r.IdsValid() && KeptBy(e, r, c, StepCall(e, r, c, ok))
  {
    match c.pc
    case Enter =>
      if c.name in r.loaded {
        HitKeeps(e, r, c, r.loaded[c.name]);
      }
    case Check(_, _, _) =>
      CheckKeeps(e, r, c, ok);
    case Cycle(path) =>
      assert path !in r.loaded;
      ReturnKeeps(e, r, c, None);
    case Work =>
      var f := c.Top();
      if f.path in e.needed && f.next < |e.Needed(f.path)| {
        NextDependencyKeeps(e, r, c);
      } else if f.path in e.needed && ok {
        SucceedKeeps(e, r, c);
      } else {
        FailKeeps(e, r, c);
      }
  }

  lemma OtherKeeps(e: Env, r: Reg, c: Call, o: Outcome, d: Call)
    requires Local(r, c, o) && CallInv(e, r, d) && c.visiting !! d.visiting
    ensures CallInv(e, o.reg, if o.wakes then Wake(d) else d)
    ensures o.call.visiting !! d.visiting
  {
    assert d.visiting <= r.loading - c.visiting;
  }

  lemma AdvanceOther(e: Env, s: State, g: nat, ok: bool, h: nat)
    requires e.WellFormed() && Inv(e, s) && Enabled(s, Advance(g, ok)) && h < |s.calls| && h != g
    ensures CallInv(e, Apply(e, s, Advance(g, ok)).reg, Apply(e, s, Advance(g, ok)).calls[h])
    ensures Apply(e, s, Advance(g, ok)).calls[h].visiting == s.calls[h].visiting
    ensures s.calls[h].visiting !! StepCall(e, s.reg, s.calls[g], ok).call.visiting
  {
    var c := s.calls[g];
    StepCallKeeps(e, s.reg, c, ok);
    assert if g < h then c.visiting !! s.calls[h].visiting else s.calls[h].visiting !! c.visiting;
    OtherKeeps(e, s.reg, c, StepCall(e, s.reg, c, ok), s.calls[h]);
  }

  lemma AdvanceSlots(s: State, g: nat, o: Outcome, t: State)
    requires SlotsInv(s) && g < |s.calls| && Local(s.reg, s.calls[g], o)
    requires |t.calls| == |s.calls| && t.reg == o.reg && t.calls[g] == o.call
    requires forall h :: 0 <= h < |s.calls| && h != g ==>
                           t.calls[h].visiting == s.calls[h].visiting && s.calls[h].visiting !! o.call.visiting
    ensures SlotsInv(t)
  {
    forall p | p in t.reg.loading
      ensures exists h :: 0 <= h < |t.calls| && p in t.calls[h].visiting
    {
      if p in o.call.visiting {
        assert p in t.calls[g].visiting;
      } else {
        assert p in s.reg.loading - s.calls[g].visiting;
        var h :| 0 <= h < |s.calls| && p in s.calls[h].visiting;
        assert p in t.calls[h].visiting;
      }
    }
  }

  lemma AdvanceKeeps(e: Env, s: State, g: nat, ok: bool)
    requires e.WellFormed() && Inv(e, s) && Enabled(s, Advance(g, ok))
    ensures Inv(e, Apply(e, s, Advance(g, ok)))
  {
    var t := Apply(e, s, Advance(g, ok));
    StepCallKeeps(e, s.reg, s.calls[g], ok);
    forall h | 0 <= h < |t.calls| && h != g
      ensures CallInv(e, t.reg, t.calls[h])
      ensures t.calls[h].visiting == s.calls[h].visiting
      ensures s.calls[h].visiting !! StepCall(e, s.reg, s.calls[g], ok).call.visiting
    {
      AdvanceOther(e, s, g, ok, h);
    }
    AdvanceSlots(s, g, StepCall(e, s.reg, s.calls[g], ok), t);
  }

  lemma StartKeeps(e: Env, s: State, name: Name, global: bool)
    requires Inv(e, s)
    ensures Inv(e, Apply(e, s, Start(name, global)))
  {
    hide RegInv;
    var t := Apply(e, s, Start(name, global));
    forall p | p in t.reg.loading
      ensures exists g :: 0 <= g < |t.calls| && p in t.calls[g].visiting
    {
      var g :| 0 <= g < |s.calls| && p in s.calls[g].visiting;
      assert p in t.calls[g].visiting;
    }
  }

  /** The invariant of a call only needs the slots of the registry. */
  lemma SameSlotsKeep(e: Env, r: Reg, t: Reg, c: Call)
    requires CallInv(e, r, c) && t.loading == r.loading
    ensures CallInv(e, t, c)
  {
    hide StackInv, TargetInv;
  }

  lemma CloseHandleKeeps(e: Env, s: State, id: nat)
    requires Inv(e, s) && id < |s.reg.libs|
    ensures Inv(e, Apply(e, s, CloseHandle(id)))
  {
    var t := Apply(e, s, CloseHandle(id));
    CloseKeeps(e, s.reg, id);
    assert t.reg.loading == s.reg.loading;
    hide RegInv, CallInv, Close;
    forall g | 0 <= g < |t.calls| ensures CallInv(e, t.reg, t.calls[g]) {
      SameSlotsKeep(e, s.reg, t.reg, s.calls[g]);
    }
  }

  lemma StepKeeps(e: Env, s: State, step: Step)
    requires e.WellFormed() && Inv(e, s) && Enabled(s, step)
    ensures Inv(e, Apply(e, s, step))
  {
    hide Inv, Apply;
    match step
    case Start(name, global) => StartKeeps(e, s, name, global);
    case Advance(g, ok) => AdvanceKeeps(e, s, g, ok);
    case CloseHandle(id) => CloseHandleKeeps(e, s, id);
  }

  lemma {:induction false} RunKeeps(e: Env, states: seq<State>, steps: seq<Step>, i: nat)
    requires e.WellFormed() && Run(e, states, steps) && Inv(e, states[0]) && i <= |steps|
    ensures Inv(e, states[i])
  {
    if i > 0 {
      RunKeeps(e, states, steps, i - 1);
      assert Next(e, states[i - 1], steps[i - 1], states[i]);
      StepKeeps(e, states[i - 1], steps[i - 1]);
    }
  }

  lemma ReachableInv(e: Env, s: State)
    requires e.WellFormed() && Reachable(e, s)
    ensures Inv(e, s)
  {
    var states, steps :| RunTo(e, INIT, states, steps, s);
    RunKeeps(e, states, steps, |steps|);
  }
}
