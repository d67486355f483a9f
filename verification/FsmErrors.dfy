/** Which entries to `ErrorState` are followed by a zeroization, and a run in which one that
    matters is not. */
module FsmErrors {
  import opened Wrappers
  import opened FsmModel
  import opened FsmRuntime

  predicate HasZeroized(log: seq<Record>) {
    exists k :: 0 <= k < |log| && log[k].Zeroized?
  }

  lemma {:induction false} CountAppend(a: seq<Record>, b: seq<Record>)
    ensures Zeroizations(a + b) == Zeroizations(a) + Zeroizations(b)
    decreases |b|
  {
    if b == [] {
      assert a + b == a;
    } else {
      var front := b[..|b| - 1];
      CountAppend(a, front);
      assert (a + b)[..|a + b| - 1] == a + front;
    }
  }

  lemma {:induction false} CountSome(log: seq<Record>)
    ensures Zeroizations(log) > 0 <==> HasZeroized(log)
  {
    if log != [] {
      var front := log[..|log| - 1];
      CountSome(front);
      if HasZeroized(front) {
        var k :| 0 <= k < |front| && front[k].Zeroized?;
        assert log[k].Zeroized?;
      }
      if HasZeroized(log) && !log[|log| - 1].Zeroized? {
        var k :| 0 <= k < |log| && log[k].Zeroized?;
        assert front[k].Zeroized?;
      }
    }
  }

  /** In every interleaving whose error calls have all returned: something that happened, such
      as an entry to `ErrorState` by an edge or by force, is followed by a zeroization if and
      only if an error call was made at all and the one zeroization had not happened before. */
  lemma FollowedIff(m: Model, steps: seq<Step>, i: nat)
    requires IsRun(m, Start(m), steps)
    requires forall t :: t in Final(m, Start(m), steps).threads ==> !InsideEnter(Final(m, Start(m), steps).threads[t])
    requires i < |Final(m, Start(m), steps).log|
    ensures var log := Final(m, Start(m), steps).log;
            HasZeroized(log[i + 1..]) <==>
            (exists j :: 0 <= j < |log| && log[j].EnterCalled?) && !HasZeroized(log[..i + 1])
  {
    hide IsRun, Final, Zeroizations, HookInv;
    var s := Final(m, Start(m), steps);
    var log := s.log;
    ZeroizedExactlyOnce(m, steps);
    assert log == log[..i + 1] + log[i + 1..];
    CountAppend(log[..i + 1], log[i + 1..]);
    CountSome(log[..i + 1]);
    CountSome(log[i + 1..]);
    if !(exists j :: 0 <= j < |log| && log[j].EnterCalled?) {
      assert Zeroizations(log) == 0 by { OnlyWhenCalled(m, steps); }
    }
  }

  // ----- no zeroization without a call ----------------------------------------------------

  /** Threads inside `enter_error_state`, and zeroizations, come from calls. */
  ghost predicate CallsInv(s: System) {
    ((exists t :: t in s.threads && InsideEnter(s.threads[t])) || HasZeroized(s.log)) ==>
      exists j :: 0 <= j < |s.log| && s.log[j].EnterCalled?
  }

  lemma CallsKept(m: Model, s: System, step: Step)
    requires CallsInv(s) && Enabled(s, step)
    ensures CallsInv(Do(m, s, step))
  {
    hide FindEdge, Name, StateOf, Idx;
    var s' := Do(m, s, step);
    assert s.log <= s'.log;
    if step.CallEnter? {
      assert s'.log[|s.log|].EnterCalled?;
    } else if exists t :: t in s.threads && InsideEnter(s.threads[t]) {
      var j :| 0 <= j < |s.log| && s.log[j].EnterCalled?;
      assert s'.log[j].EnterCalled?;
    } else if HasZeroized(s.log) {
      var j :| 0 <= j < |s.log| && s.log[j].EnterCalled?;
      assert s'.log[j].EnterCalled?;
    } else {
      assert forall t :: t in s'.threads ==> !InsideEnter(s'.threads[t]);
      assert forall k :: |s.log| <= k < |s'.log| ==> !s'.log[k].Zeroized?;
      assert forall k :: 0 <= k < |s.log| ==> s'.log[k] == s.log[k];
    }
  }

  lemma {:induction false} CallsRun(m: Model, s: System, steps: seq<Step>)
    requires CallsInv(s) && IsRun(m, s, steps)
    ensures CallsInv(Final(m, s, steps))
    decreases |steps|
  {
    hide CallsInv, Do, Enabled;
    if steps != [] {
      CallsKept(m, s, steps[0]);
      CallsRun(m, Do(m, s, steps[0]), steps[1..]);
    }
  }

  lemma OnlyWhenCalled(m: Model, steps: seq<Step>)
    requires IsRun(m, Start(m), steps)
    ensures var log := Final(m, Start(m), steps).log;
            Zeroizations(log) > 0 ==> exists j :: 0 <= j < |log| && log[j].EnterCalled?
  {
    hide IsRun, Final, Zeroizations;
    CallsRun(m, Start(m), steps);
    CountSome(Final(m, Start(m), steps).log);
  }

  // ----- one thread at work ---------------------------------------------------------------

  predicate Idle(s: System) {
    s.state < STATE_COUNT && (0 in s.threads ==> Returned(s.threads[0]))
  }

  lemma {:induction false} RunConcat(m: Model, s: System, a: seq<Step>, b: seq<Step>)
    requires IsRun(m, s, a) && IsRun(m, Final(m, s, a), b)
    ensures IsRun(m, s, a + b) && Final(m, s, a + b) == Final(m, Final(m, s, a), b)
    decreases |a|
  {
    hide Do, Enabled;
    if a == [] {
      assert a + b == b;
    } else {
      RunConcat(m, Do(m, s, a[0]), a[1..], b);
      assert (a + b)[0] == a[0] && (a + b)[1..] == a[1..] + b;
    }
  }

  /** One step, or two, at the head of a run. */
  lemma RunOne(m: Model, s: System, step: Step)
    requires Enabled(s, step)
    ensures IsRun(m, s, [step]) && Final(m, s, [step]) == Do(m, s, step)
  {
    hide Do, Enabled;
    assert [step][1..] == [];
    assert IsRun(m, Do(m, s, step), []) && Final(m, Do(m, s, step), []) == Do(m, s, step);
  }

  lemma RunThen(m: Model, s: System, a: seq<Step>, step: Step)
    requires IsRun(m, s, a) && Enabled(Final(m, s, a), step)
    ensures IsRun(m, s, a + [step]) && Final(m, s, a + [step]) == Do(m, Final(m, s, a), step)
  {
    hide Do, Enabled, IsRun, Final;
    RunOne(m, Final(m, s, a), step);
    RunConcat(m, s, a, [step]);
  }

  /** The system as thread 0 alone has changed it. */
  function At(s: System, state: nat, latched: bool, pc: Pc, more: seq<Record>): System {
    System(state, latched, s.threads[0 := pc], s.log + more)
  }

  lemma Begin(m: Model, s: System, step: Step, pc: Pc, more: seq<Record>)
    requires Idle(s) && !step.Run? && step.tid == 0 && Do(m, s, step) == Goto(s, 0, pc, more)
    ensures IsRun(m, s, [step]) && Final(m, s, [step]) == At(s, s.state, s.latched, pc, more)
  {
    hide Do;
    RunOne(m, s, step);
  }

  lemma Advance(m: Model, s: System, steps: seq<Step>, at: System, more: seq<Record>,
                state: nat, latched: bool, pc: Pc, what: seq<Record>)
    requires IsRun(m, s, steps) && Final(m, s, steps) == at && 0 in at.threads && !Returned(at.threads[0])
    requires at == At(s, at.state, at.latched, at.threads[0], more)
    requires RunPc(m, at, 0, at.threads[0], true) == Goto(at.(state := state, latched := latched), 0, pc, what)
    ensures IsRun(m, s, steps + [Run(0, true)])
    ensures Final(m, s, steps + [Run(0, true)]) == At(s, state, latched, pc, more + what)
  {
    hide RunPc, IsRun, Final;
    RunThen(m, s, steps, Run(0, true));
    assert at.log + what == s.log + (more + what);
    assert at.threads[0 := pc] == s.threads[0 := pc];
  }

  /** Thread 0 takes the edge `t` by its event; the guard, if any, answers yes. */
  lemma TakeEdge(m: Model, s: System, e: Event, t: Transition) returns (steps: seq<Step>, more: seq<Record>)
    requires Idle(s) && FindEdge(m.transitions, StateOf(s.state), Name(e)) == Some(t)
    ensures IsRun(m, s, steps) && Final(m, s, steps) == At(s, Idx(t.to), s.latched, TryOk(t.to), more)
    ensures more != [] && more[|more| - 1] == Moved(0, t) && !HasZeroized(more)
  {
    hide IsRun, Final, FindEdge, Name, Idx, StateOf;
    var loaded, run := Loaded(0, StateOf(s.state)), Run(0, true);
    var swap := TrySwap(e, s.state, t);
    steps, more := [CallTry(0, e)], [];
    Begin(m, s, CallTry(0, e), TryLoad(e), []);
    if t.guard.None? {
      Advance(m, s, steps, At(s, s.state, s.latched, TryLoad(e), more), more, s.state, s.latched, swap, [loaded]);
      steps, more := steps + [run], more + [loaded];
    } else {
      var guard := TryGuard(e, s.state, t);
      Advance(m, s, steps, At(s, s.state, s.latched, TryLoad(e), more), more, s.state, s.latched, guard, [loaded]);
      steps, more := steps + [run], more + [loaded];
      var ok := Evaluated(0, t.guard.value, true);
      Advance(m, s, steps, At(s, s.state, s.latched, guard, more), more, s.state, s.latched, swap, [ok]);
      steps, more := steps + [run], more + [ok];
    }
    Advance(m, s, steps, At(s, s.state, s.latched, swap, more), more, Idx(t.to), s.latched, TryOk(t.to), [Moved(0, t)]);
    steps, more := steps + [run], more + [Moved(0, t)];
  }

  /** Thread 0 runs `enter_error_state` to its end, alone: it zeroizes exactly when it finds the
      latch clear. */
  lemma EnterAlone(m: Model, s: System) returns (steps: seq<Step>, more: seq<Record>)
    requires Idle(s) && s.state != Idx(ErrorState)
    ensures IsRun(m, s, steps) && Final(m, s, steps) == At(s, Idx(ErrorState), true, EnterDone, more)
    ensures more != [] && more[|more| - 1] == Forced(0, StateOf(s.state)) && (HasZeroized(more) <==> !s.latched)
  {
    hide IsRun, Final, StateOf, Idx;
    var st, run := s.state, Run(0, true);
    var loaded, forced := Loaded(0, StateOf(st)), Forced(0, StateOf(st));
    steps, more := [CallEnter(0)], [EnterCalled(0)];
    Begin(m, s, CallEnter(0), EnterLatch, more);
    if s.latched {
      Advance(m, s, steps, At(s, st, true, EnterLatch, more), more, st, true, EnterLoad, []);
      steps, more := steps + [run], more + [];
    } else {
      Advance(m, s, steps, At(s, st, false, EnterLatch, more), more, st, true, EnterHook, []);
      steps, more := steps + [run], more + [];
      Advance(m, s, steps, At(s, st, true, EnterHook, more), more, st, true, EnterLoad, [Zeroized(0)]);
      steps, more := steps + [run], more + [Zeroized(0)];
      assert more[1].Zeroized?;
    }
    ghost var before := more;
    Advance(m, s, steps, At(s, st, true, EnterLoad, more), more, st, true, EnterSwap(st), [loaded]);
    steps, more := steps + [run], more + [loaded];
    Advance(m, s, steps, At(s, st, true, EnterSwap(st), more), more, Idx(ErrorState), true, EnterDone, [forced]);
    steps, more := steps + [run], more + [forced];
    assert HasZeroized(before) ==> more[1].Zeroized?;
  }

  // ----- back to work, and into error again -----------------------------------------------

  lemma DefaultFind(i: nat, e: Event)
    requires i < |DefaultFsm().transitions| && DefaultFsm().transitions[i].event == Name(e)
    ensures FindEdge(DefaultFsm().transitions, DefaultFsm().transitions[i].from, Name(e)) == Some(DefaultFsm().transitions[i])
  {
    hide DefaultFsm, Name, FindEdge;
    var m := DefaultFsm();
    var t := m.transitions[i];
    DefaultUnambiguous(t.from, Name(e));
    FindsMember(m.transitions, t.from, Name(e), t);
    OnlyOneFires(m, t.from, Name(e), t, FindEdge(m.transitions, t.from, Name(e)).value);
  }

  lemma DefaultNames()
    ensures var t := DefaultFsm().transitions;
            && |t| == 13 && t[0].event == Name(PowerUp) && t[1].event == Name(RunSelfTests) && t[2].event == Name(SelfTestsPassed)
            && t[11].event == Name(PowerDown) && t[11].from == ErrorState && t[11].to == PowerOff
  {
  }

  /** From PowerOff, thread 0 brings the module up to the officer state. */
  lemma BringUp(s: System) returns (steps: seq<Step>, more: seq<Record>)
    requires Idle(s) && s.state == Idx(PowerOff)
    ensures var m := DefaultFsm();
            IsRun(m, s, steps) && Final(m, s, steps) == At(s, Idx(CryptoOfficerMode), s.latched, TryOk(CryptoOfficerMode), more)
    ensures more != [] && !HasZeroized(more)
    ensures more[|more| - 1].Moved? && more[|more| - 1].edge.to == CryptoOfficerMode
  {
    hide DefaultFsm, FindEdge, Name, IsRun, Final;
    var m := DefaultFsm();
    DefaultNames();
    DefaultStart();
    DefaultFind(0, PowerUp);
    var a, r := TakeEdge(m, s, PowerUp, m.transitions[0]);
    var s1 := Final(m, s, a);
    DefaultFind(1, RunSelfTests);
    var a', r' := TakeEdge(m, s1, RunSelfTests, m.transitions[1]);
    var s2 := Final(m, s1, a');
    RunConcat(m, s, a, a');
    DefaultFind(2, SelfTestsPassed);
    var a'', r'' := TakeEdge(m, s2, SelfTestsPassed, m.transitions[2]);
    RunConcat(m, s, a + a', a'');
    steps, more := a + a' + a'', r + r' + r'';
    assert s.log + r + r' + r'' == s.log + more;
    assert s.threads[0 := TryOk(PowerOn)][0 := TryOk(SelfTest)][0 := TryOk(CryptoOfficerMode)] == s.threads[0 := TryOk(CryptoOfficerMode)];
    NoneIn(r, r');
    NoneIn(r + r', r'');
  }

  lemma NoneIn(a: seq<Record>, b: seq<Record>)
    ensures HasZeroized(a + b) <==> HasZeroized(a) || HasZeroized(b)
  {
    var c := a + b;
    if HasZeroized(a) {
      var k :| 0 <= k < |a| && a[k].Zeroized?;
      assert c[k].Zeroized?;
    }
    if HasZeroized(b) {
      var k :| 0 <= k < |b| && b[k].Zeroized?;
      assert c[|a| + k].Zeroized?;
    }
  }

  /** The module errs in the officer state, is powered off and brought up again, and errs a
      second time in the officer state: that entry to `ErrorState` is not followed by a
      zeroization, and none has happened since the officer state was entered. */
  lemma SecondErrorNotZeroized() returns (steps: seq<Step>, officer: nat)
    ensures var m := DefaultFsm();
            && IsRun(m, Start(m), steps)
            && var s := Final(m, Start(m), steps);
               && officer < |s.log| - 1 && s.log[officer].Moved? && s.log[officer].edge.to == CryptoOfficerMode
               && s.log[|s.log| - 1] == Forced(0, CryptoOfficerMode) && StateOf(s.state) == ErrorState
               && !HasZeroized(s.log[officer..])
               && forall t :: t in s.threads ==> Returned(s.threads[t])
  {
    hide DefaultFsm, FindEdge, Name, IsRun, Final, Idx, StateOf;
    var m := DefaultFsm();
    assert Idle(Start(m)) && Start(m).state == Idx(PowerOff) && Idx(CryptoOfficerMode) != Idx(ErrorState) by {
      DefaultStart();
      Indices(m);
    }
    var a, r := BringUp(Start(m));
    var s1 := Final(m, Start(m), a);
    assert Idle(s1) by { Indices(m); }
    var b, q := EnterAlone(m, s1);
    var s2 := Final(m, s1, b);
    RunConcat(m, Start(m), a, b);
    assert Idle(s2) && StateOf(s2.state) == ErrorState by { Indices(m); }
    DefaultNames();
    DefaultFind(11, PowerDown);
    var c, p := TakeEdge(m, s2, PowerDown, m.transitions[11]);
    var s3 := Final(m, s2, c);
    RunConcat(m, Start(m), a + b, c);
    assert Idle(s3) by { Indices(m); }
    var d, u := BringUp(s3);
    var s4 := Final(m, s3, d);
    RunConcat(m, Start(m), a + b + c, d);
    assert Idle(s4) && StateOf(s4.state) == CryptoOfficerMode by { Indices(m); }
    var e, v := EnterAlone(m, s4);
    RunConcat(m, Start(m), a + b + c + d, e);
    steps, officer := a + b + c + d + e, |s4.log| - 1;
    var log := s4.log + v;
    assert s4.log[officer] == u[|u| - 1];
    assert log[officer..] == [u[|u| - 1]] + v;
    NoneIn([u[|u| - 1]], v);
    assert StateOf(Idx(ErrorState)) == ErrorState by { Indices(m); }
    assert Start(m).threads == map[];
  }

  lemma Indices(m: Model)
    ensures forall st: State :: Idx(st) < STATE_COUNT && StateOf(Idx(st)) == st
    ensures Idx(ErrorState) != Idx(CryptoOfficerMode) && Idx(PowerOff) != Idx(ErrorState)
    ensures m.initial == PowerOff ==> Start(m).state == Idx(PowerOff)
  {
  }
}
