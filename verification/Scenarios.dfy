/** Two short runs over two files, a of which needs b: one in which a client closes b once too
    often, and one in which b was opened RTLD_LOCAL before a needed it. */
module Scenarios {
  import opened Wrappers
  import opened RegistryModel
  import opened Protocol
  import Deadlock

  /** Two files; a needs b. */
  const TWO_FILES: Env :=
    Env({"a", "b"},
        map[("a", None) := "a", ("b", None) := "b", ("b", Some("a")) := "b"],
        map["a" := ["b"], "b" := []],
        map[])

  /** The client's Open of a, at a given place. */
  function OpeningA(visiting: set<Name>, stack: seq<Frame>, pc: Pc): Call {
    Call("a", false, visiting, stack, pc)
  }

  function FrameA(next: nat, acquired: seq<nat>): Frame {
    Frame("a", "a", false, next, acquired)
  }

  const FRAME_B := Frame("b", "b", true, 0, [])

  /** Equality of calls and of states, part by part. */
  ghost predicate SameCall(c: Call, d: Call) {
    && c.name == d.name && c.global == d.global && c.visiting == d.visiting && c.pc == d.pc
    && |c.stack| == |d.stack|
    && forall i | 0 <= i < |c.stack| :: c.stack[i].acquired == d.stack[i].acquired && c.stack[i] == d.stack[i]
  }

  ghost predicate Same(s: State, t: State) {
    && s.reg.libs == t.reg.libs && s.reg.loaded == t.reg.loaded
    && s.reg.loading == t.reg.loading && s.reg.globals == t.reg.globals && s.log == t.log
    && |s.calls| == |t.calls| && forall i | 0 <= i < |s.calls| :: SameCall(s.calls[i], t.calls[i])
  }

  lemma Step(s: State, step: Protocol.Step, t: State)
    requires Reachable(TWO_FILES, s) && Enabled(s, step) && Same(t, Apply(TWO_FILES, s, step))
    ensures Reachable(TWO_FILES, t)
  {
    var u := Apply(TWO_FILES, s, step);
    forall i | 0 <= i < |t.calls| ensures t.calls[i] == u.calls[i] {
      assert SameCall(t.calls[i], u.calls[i]);
      assert t.calls[i].stack == u.calls[i].stack;
    }
    assert t.calls == u.calls;
    Deadlock.ReachStep(TWO_FILES, s, step, t);
  }

  lemma InitReachable()
    ensures Reachable(TWO_FILES, INIT)
  {
    assert RunTo(TWO_FILES, INIT, [INIT], [], INIT);
  }

  const BOTH_CLAIMED :=
    State(Reg([], map[], {"a", "b"}, []),
          [OpeningA({"a", "b"}, [FrameA(1, []), FRAME_B], Work)], multiset{})

  /** Open of a has claimed a. */
  lemma ClaimsA()
    ensures Reachable(TWO_FILES, A_CLAIMED)
  {
    hide Reachable;
    InitReachable();
    var s1 := State(EMPTY_REG, [OpeningA({}, [], Enter)], multiset{});
    Step(INIT, Start("a", false), s1);
    var s2 := s1.(calls := [OpeningA({}, [], Check("a", "a", false))]);
    Step(s1, Advance(0, true), s2);
    Step(s2, Advance(0, true), A_CLAIMED);
  }

  const A_CLAIMED := State(Reg([], map[], {"a"}, []), [OpeningA({"a"}, [FrameA(0, [])], Work)], multiset{})

  /** Then it has claimed b. */
  lemma ClaimsBoth()
    ensures Reachable(TWO_FILES, BOTH_CLAIMED)
  {
    hide Reachable;
    ClaimsA();
    var s4 := A_CLAIMED.(calls := [OpeningA({"a"}, [FrameA(1, [])], Check("b", "b", true))]);
    Step(A_CLAIMED, Advance(0, true), s4);
    Step(s4, Advance(0, true), BOTH_CLAIMED);
  }

  const LIB_B := Lib("b", true, 1, [])
  const LIB_A := Lib("a", false, 1, [0])

  const OPENED :=
    State(Reg([LIB_B, LIB_A], map["b" := 0, "a" := 1], {}, [0]),
          [OpeningA({}, [], Done(Some(1)))],
          multiset{Registered(0, ByDependency), Registered(1, ByClient)})

  const B_REGISTERED :=
    State(Reg([LIB_B], map["b" := 0], {"a"}, [0]),
          [OpeningA({"a"}, [FrameA(1, [0])], Work)],
          multiset{Registered(0, ByDependency)})

  lemma RegistersB()
    ensures Reachable(TWO_FILES, B_REGISTERED)
  {
    hide Reachable;
    ClaimsBoth();
    Step(BOTH_CLAIMED, Advance(0, true), B_REGISTERED);
  }

  lemma OpensA()
    ensures Reachable(TWO_FILES, OPENED)
  {
    hide Reachable;
    RegistersB();
    Step(B_REGISTERED, Advance(0, true), OPENED);
  }

  const BOTH_OPENED :=
    State(Reg([LIB_B.(refs := 2), LIB_A], map["b" := 0, "a" := 1], {}, [0]),
          [OpeningA({}, [], Done(Some(1))), Call("b", false, {}, [], Done(Some(0)))],
          multiset{Registered(0, ByDependency), Registered(1, ByClient), CacheHit(0, ByClient)})

  lemma OpensB()
    ensures Reachable(TWO_FILES, BOTH_OPENED)
  {
    hide Reachable;
    OpensA();
    var s1 := OPENED.(calls := OPENED.calls + [Call("b", false, {}, [], Enter)]);
    Step(OPENED, Start("b", false), s1);
    Step(s1, Advance(1, true), BOTH_OPENED);
  }

  const B_CLOSED_ONCE :=
    State(OPENED.reg, BOTH_OPENED.calls, BOTH_OPENED.log + multiset{Closed(0)})

  lemma ClosesB()
    ensures Reachable(TWO_FILES, B_CLOSED_ONCE)
  {
    hide Reachable;
    OpensB();
    Step(BOTH_OPENED, CloseHandle(0), B_CLOSED_ONCE);
  }

  const B_CLOSED_TWICE :=
    State(Reg([LIB_B.(refs := 0), LIB_A], map["a" := 1], {}, []), BOTH_OPENED.calls,
          B_CLOSED_ONCE.log + multiset{Closed(0), Unmapped(0)})

  lemma ClosesBAgain()
    ensures Reachable(TWO_FILES, B_CLOSED_TWICE)
  {
    hide Reachable;
    ClosesB();
    Step(B_CLOSED_ONCE, CloseHandle(0), B_CLOSED_TWICE);
  }

  /** The client opens a, opens b, and closes b twice: a is still loaded, and b, which was
      loaded for a, is not. */
  lemma OverClosingDangles() returns (s: State)
    ensures TWO_FILES.WellFormed() && Reachable(TWO_FILES, s)
    ensures s.log[Closed(0)] == 2 && s.log[CacheHit(0, ByClient)] == 1
    ensures |s.reg.libs| == 2 && 0 in s.reg.libs[1].deps && s.reg.Live(1) && !s.reg.Live(0) && "b" !in s.reg.loaded
  {
    ClosesBAgain();
    FilesWellFormed();
    hide Reachable;
    s := B_CLOSED_TWICE;
  }

  lemma FilesWellFormed()
    ensures TWO_FILES.WellFormed()
  {
  }

  // ---------------------------------------------------------------- b is there already, RTLD_LOCAL

  const LOCAL_B := Lib("b", false, 1, [])
  const DONE_B := Call("b", false, {}, [], Done(Some(0)))

  const B_CLAIMED :=
    State(Reg([], map[], {"b"}, []), [Call("b", false, {"b"}, [Frame("b", "b", false, 0, [])], Work)], multiset{})

  lemma ClaimsB()
    ensures Reachable(TWO_FILES, B_CLAIMED)
  {
    hide Reachable;
    InitReachable();
    var s1 := State(EMPTY_REG, [Call("b", false, {}, [], Enter)], multiset{});
    Step(INIT, Start("b", false), s1);
    var s2 := s1.(calls := [Call("b", false, {}, [], Check("b", "b", false))]);
    Step(s1, Advance(0, true), s2);
    Step(s2, Advance(0, true), B_CLAIMED);
  }

  const B_LOCAL :=
    State(Reg([LOCAL_B], map["b" := 0], {}, []), [DONE_B], multiset{Registered(0, ByClient)})

  lemma OpensBLocally()
    ensures Reachable(TWO_FILES, B_LOCAL)
  {
    hide Reachable;
    ClaimsB();
    Step(B_CLAIMED, Advance(0, true), B_LOCAL);
  }

  const A_FOLLOWS := B_LOCAL.(calls := [DONE_B, OpeningA({}, [], Check("a", "a", false))])

  lemma StartsA()
    ensures Reachable(TWO_FILES, A_FOLLOWS)
  {
    hide Reachable;
    OpensBLocally();
    var s1 := B_LOCAL.(calls := [DONE_B, OpeningA({}, [], Enter)]);
    Step(B_LOCAL, Start("a", false), s1);
    Step(s1, Advance(1, true), A_FOLLOWS);
  }

  const A_FINDS_B :=
    State(Reg([LOCAL_B], map["b" := 0], {"a"}, []),
          [DONE_B, OpeningA({"a"}, [FrameA(1, [])], Check("b", "b", true))], B_LOCAL.log)

  const A_CLAIMS :=
    State(Reg([LOCAL_B], map["b" := 0], {"a"}, []), [DONE_B, OpeningA({"a"}, [FrameA(0, [])], Work)], B_LOCAL.log)

  lemma ClaimsAToo()
    ensures Reachable(TWO_FILES, A_CLAIMS)
  {
    hide Reachable;
    StartsA();
    Step(A_FOLLOWS, Advance(1, true), A_CLAIMS);
  }

  lemma FindsB()
    ensures Reachable(TWO_FILES, A_FINDS_B)
  {
    hide Reachable;
    ClaimsAToo();
    Step(A_CLAIMS, Advance(1, true), A_FINDS_B);
  }

  const A_HAS_B :=
    State(Reg([LOCAL_B.(refs := 2)], map["b" := 0], {"a"}, []),
          [DONE_B, OpeningA({"a"}, [FrameA(1, [0])], Work)],
          multiset{Registered(0, ByClient), CacheHit(0, ByDependency)})

  lemma AcquiresB()
    ensures Reachable(TWO_FILES, A_HAS_B)
  {
    hide Reachable;
    FindsB();
    Step(A_FINDS_B, Advance(1, true), A_HAS_B);
  }

  const BOTH_LOCAL :=
    State(Reg([LOCAL_B.(refs := 2), LIB_A], map["b" := 0, "a" := 1], {}, []),
          [DONE_B, OpeningA({}, [], Done(Some(1)))],
          multiset{Registered(0, ByClient), CacheHit(0, ByDependency), Registered(1, ByClient)})

  /** The last step of the Open of a. */
  lemma EndsA()
    ensures var o := StepCall(TWO_FILES, A_HAS_B.reg, A_HAS_B.calls[1], true);
            && o.reg.libs == BOTH_LOCAL.reg.libs && o.reg.loaded == BOTH_LOCAL.reg.loaded
            && o.reg.loading == BOTH_LOCAL.reg.loading && o.reg.globals == BOTH_LOCAL.reg.globals
            && SameCall(o.call, BOTH_LOCAL.calls[1]) && o.wakes && o.events == multiset{Registered(1, ByClient)}
  {
  }

  lemma RegistersA()
    ensures Reachable(TWO_FILES, BOTH_LOCAL)
  {
    hide Reachable, StepCall;
    AcquiresB();
    EndsA();
    Step(A_HAS_B, Advance(1, true), BOTH_LOCAL);
  }

  /** The client opens b RTLD_LOCAL and then a: b is a dependency of a and loaded, but a's
      symbols are never looked up in it. */
  lemma LocalDependencyStaysOut() returns (s: State)
    ensures TWO_FILES.WellFormed() && Reachable(TWO_FILES, s)
    ensures |s.reg.libs| == 2 && 0 in s.reg.libs[1].deps && s.reg.Live(0) && s.reg.Live(1) && 0 !in s.reg.globals
  {
    RegistersA();
    FilesWellFormed();
    hide Reachable;
    s := BOTH_LOCAL;
  }
}
