/** The lock-free runtime state machine as interleaved atomic steps of any number of
    threads, each running `try_transition` or `enter_error_state`. */
module FsmRuntime {
  import opened Wrappers
  import opened FsmModel

  datatype Event = PowerUp | RunSelfTests | SelfTestsPassed | SelfTestsFailed | Zeroize | PowerDown

  function Name(e: Event): string {
    match e
    case PowerUp => "power_on"
    case RunSelfTests => "run_self_tests"
    case SelfTestsPassed => "self_tests_passed"
    case SelfTestsFailed => "self_tests_failed"
    case Zeroize => "zeroize"
    case PowerDown => "power_off"
  }

  /** `u8_to_state`: unknown bytes fail secure. */
  function StateOf(b: nat): State {
    if b < |ALL_STATES| then ALL_STATES[b] else ErrorState
  }

  /** Where a thread stands inside a call; the constructors after each load carry the
      byte that was loaded. */
  datatype Pc =
    | TryLoad(event: Event)
    | TryGuard(event: Event, loaded: nat, edge: Transition)
    | TrySwap(event: Event, loaded: nat, edge: Transition)
    | TryOk(to: State)
    | TryErr(error: TransitionError)
    | EnterLatch
    | EnterHook
    | EnterLoad
    | EnterSwap(loaded: nat)
    | EnterDone

  predicate Returned(pc: Pc) {
    pc.TryOk? || pc.TryErr? || pc.EnterDone?
  }

  /** What the threads did, in order. */
  datatype Record =
    | Loaded(tid: nat, s: State)
    | Evaluated(tid: nat, guard: string, ok: bool)
    | Moved(tid: nat, edge: Transition)
    | EnterCalled(tid: nat)
    | Zeroized(tid: nat)
    | Forced(tid: nat, from: State)

  datatype System = System(state: nat, latched: bool, threads: map<nat, Pc>, log: seq<Record>)

  /** A thread calls, or takes its next atomic step; `answer` is what the installed
      guard returns if this step evaluates one. */
  datatype Step =
    | CallTry(tid: nat, event: Event)
    | CallEnter(tid: nat)
    | Run(tid: nat, answer: bool)

  function Start(m: Model): System {
    System(Idx(m.initial), false, map[], [])
  }

  predicate Enabled(s: System, step: Step) {
    if step.Run? then step.tid in s.threads && !Returned(s.threads[step.tid])
    else step.tid !in s.threads || Returned(s.threads[step.tid])
  }

  function Goto(s: System, tid: nat, pc: Pc, what: seq<Record>): System {
    s.(threads := s.threads[tid := pc], log := s.log + what)
  }

  function RunPc(m: Model, s: System, tid: nat, pc: Pc, answer: bool): System {
    match pc
    case TryLoad(event) =>
      var current := StateOf(s.state);
      (match FindEdge(m.transitions, current, Name(event))
       case None => Goto(s, tid, TryErr(NoSuchTransition(current, Name(event))), [Loaded(tid, current)])
       case Some(t) =>
         Goto(s, tid, if t.guard.Some? then TryGuard(event, s.state, t) else TrySwap(event, s.state, t), [Loaded(tid, current)]))
    case TryGuard(event, loaded, t) =>
      var g := if t.guard.Some? then t.guard.value else "";
      Goto(s, tid,
           if answer then TrySwap(event, loaded, t) else TryErr(GuardFailed(StateOf(loaded), t.to, Name(event), g)),
           [Evaluated(tid, g, answer)])
    case TrySwap(event, loaded, t) =>
      if s.state == loaded then Goto(s.(state := Idx(t.to)), tid, TryOk(t.to), [Moved(tid, t)])
      else Goto(s, tid, TryLoad(event), [])
    case EnterLatch =>
      if !s.latched then Goto(s.(latched := true), tid, EnterHook, []) else Goto(s, tid, EnterLoad, [])
    case EnterHook =>
      Goto(s, tid, EnterLoad, [Zeroized(tid)])
    case EnterLoad =>
      if s.state == Idx(ErrorState) then Goto(s, tid, EnterDone, [Loaded(tid, StateOf(s.state))])
      else Goto(s, tid, EnterSwap(s.state), [Loaded(tid, StateOf(s.state))])
    case EnterSwap(loaded) =>
      if s.state == loaded then Goto(s.(state := Idx(ErrorState)), tid, EnterDone, [Forced(tid, StateOf(loaded))])
      else Goto(s, tid, EnterLoad, [])
    case _ => s
  }

  function Do(m: Model, s: System, step: Step): System {
    match step
    case CallTry(tid, event) => Goto(s, tid, TryLoad(event), [])
    case CallEnter(tid) => Goto(s, tid, EnterLatch, [EnterCalled(tid)])
    case Run(tid, answer) => if tid in s.threads then RunPc(m, s, tid, s.threads[tid], answer) else s
  }

  predicate IsRun(m: Model, s: System, steps: seq<Step>)
    decreases |steps|
  {
    steps != [] ==> Enabled(s, steps[0]) && IsRun(m, Do(m, s, steps[0]), steps[1..])
  }

  function Final(m: Model, s: System, steps: seq<Step>): System
    decreases |steps|
  {
    if steps == [] then s else Final(m, Do(m, s, steps[0]), steps[1..])
  }

  // ----- reading the log ----------------------------------------------------------------

  /** The state that the recorded changes lead to. */
  function StateAfter(m: Model, log: seq<Record>): State {
    if log == [] then m.initial
    else
      var r := log[|log| - 1];
      if r.Moved? then r.edge.to
      else if r.Forced? then ErrorState
      else StateAfter(m, log[..|log| - 1])
  }

  /** The last thing a thread did. */
  function LastOf(log: seq<Record>, tid: nat): Option<Record> {
    if log == [] then None
    else if log[|log| - 1].tid == tid then Some(log[|log| - 1])
    else LastOf(log[..|log| - 1], tid)
  }

  function Zeroizations(log: seq<Record>): nat {
    if log == [] then 0
    else (if log[|log| - 1].Zeroized? then 1 else 0) + Zeroizations(log[..|log| - 1])
  }

  /** The thread's own last act before taking `t`: the guard that `t` names came out
      true for it, or, for an unguarded `t`, it loaded the state that `t` leaves. */
  predicate Cleared(log: seq<Record>, tid: nat, t: Transition) {
    LastOf(log, tid) == Some(if t.guard.Some? then Evaluated(tid, t.guard.value, true) else Loaded(tid, t.from))
  }

  predicate Justified(m: Model, before: seq<Record>, r: Record) {
    match r
    case Moved(tid, t) => t in m.transitions && t.from == StateAfter(m, before) && Cleared(before, tid, t)
    case Forced(_, from) => from == StateAfter(m, before)
    case _ => true
  }

  predicate AllJustified(m: Model, log: seq<Record>) {
    forall i :: 0 <= i < |log| ==> Justified(m, log[..i], log[i])
  }

  // ----- the invariant ------------------------------------------------------------------

  /** What a result says about the model and about the thread's own last act: the edge it took;
      the state it loaded, which has no such edge; the guard that came out false; or, for an
      error call, that it forced `ErrorState` or found the module there. */
  ghost predicate Explains(m: Model, log: seq<Record>, tid: nat, result: Pc)
    requires Returned(result)
  {
    match result
    case TryOk(to) => exists t :: t in m.transitions && t.to == to && LastOf(log, tid) == Some(Moved(tid, t))
    case TryErr(NoSuchTransition(from, event)) =>
      LastOf(log, tid) == Some(Loaded(tid, from)) && FindEdge(m.transitions, from, event).None?
    case TryErr(GuardFailed(from, to, event, g)) =>
      LastOf(log, tid) == Some(Evaluated(tid, g, false)) &&
      exists t :: t in m.transitions && Fires(t, from, event) && t.to == to && t.guard == Some(g)
    case EnterDone =>
      LastOf(log, tid) == Some(Loaded(tid, ErrorState)) ||
      exists from :: LastOf(log, tid) == Some(Forced(tid, from))
  }

  ghost predicate ThreadOk(m: Model, s: System, tid: nat, pc: Pc) {
    if Returned(pc) then Explains(m, s.log, tid, pc)
    else match pc
    case TryGuard(event, loaded, t) =>
      loaded < STATE_COUNT && t in m.transitions && Fires(t, StateOf(loaded), Name(event)) && t.guard.Some?
    case TrySwap(event, loaded, t) =>
      loaded < STATE_COUNT && t in m.transitions && Fires(t, StateOf(loaded), Name(event)) && Cleared(s.log, tid, t)
    case EnterSwap(loaded) => loaded < STATE_COUNT
    case _ => true
  }

  ghost predicate Inv(m: Model, s: System) {
    && s.state < STATE_COUNT && StateOf(s.state) == StateAfter(m, s.log)
    && AllJustified(m, s.log)
    && forall tid :: tid in s.threads ==> ThreadOk(m, s, tid, s.threads[tid])
  }

  lemma LogGrows(m: Model, log: seq<Record>, r: Record)
    ensures var longer := log + [r];
            && longer[..|log|] == log && longer[|log|] == r
            && StateAfter(m, longer) == (if r.Moved? then r.edge.to else if r.Forced? then ErrorState else StateAfter(m, log))
            && (forall tid :: LastOf(longer, tid) == if r.tid == tid then Some(r) else LastOf(log, tid))
            && Zeroizations(longer) == Zeroizations(log) + if r.Zeroized? then 1 else 0
  {
    assert (log + [r])[..|log|] == log;
  }

  lemma JustifiedGrows(m: Model, log: seq<Record>, r: Record)
    requires AllJustified(m, log) && Justified(m, log, r)
    ensures AllJustified(m, log + [r])
  {
    hide Justified;
    var longer := log + [r];
    forall i | 0 <= i < |longer|
      ensures Justified(m, longer[..i], longer[i])
    {
      assert longer[..i] == log[..i];
      assert i == |log| ==> log[..i] == log;
    }
  }

  lemma IdxOf(s: State)
    ensures StateOf(Idx(s)) == s
  {
  }

  /** One record at most per step; the other threads' standing is not touched by it. */
  lemma GotoKeeps(m: Model, s: System, state: nat, tid: nat, pc: Pc, r: Record)
    requires Inv(m, s) && r.tid == tid && Justified(m, s.log, r)
    requires state < STATE_COUNT && StateOf(state) == StateAfter(m, s.log + [r])
    requires ThreadOk(m, Goto(s.(state := state), tid, pc, [r]), tid, pc)
    ensures Inv(m, Goto(s.(state := state), tid, pc, [r]))
  {
    hide Justified, StateAfter, LastOf, StateOf;
    LogGrows(m, s.log, r);
    JustifiedGrows(m, s.log, r);
  }

  lemma GotoSilent(m: Model, s: System, tid: nat, pc: Pc)
    requires Inv(m, s) && ThreadOk(m, s, tid, pc)
    ensures Inv(m, Goto(s, tid, pc, []))
  {
    hide Justified, StateAfter, LastOf, StateOf;
    assert s.log + [] == s.log;
  }

  lemma LoadKeeps(m: Model, s: System, tid: nat, event: Event)
    requires Inv(m, s)
    ensures Inv(m, RunPc(m, s, tid, TryLoad(event), false)) && Inv(m, RunPc(m, s, tid, TryLoad(event), true))
  {
    hide FindEdge, StateAfter, LastOf, AllJustified, StateOf, Name;
    var current := StateOf(s.state);
    var r := Loaded(tid, current);
    LogGrows(m, s.log, r);
    match FindEdge(m.transitions, current, Name(event))
    case None =>
      GotoKeeps(m, s, s.state, tid, TryErr(NoSuchTransition(current, Name(event))), r);
    case Some(t) =>
      GotoKeeps(m, s, s.state, tid, if t.guard.Some? then TryGuard(event, s.state, t) else TrySwap(event, s.state, t), r);
  }

  lemma GuardKeeps(m: Model, s: System, tid: nat, pc: Pc, answer: bool)
    requires Inv(m, s) && pc.TryGuard? && ThreadOk(m, s, tid, pc)
    ensures Inv(m, RunPc(m, s, tid, pc, answer))
  {
    hide StateAfter, LastOf, AllJustified, StateOf, Fires, Name;
    var t := pc.edge;
    var r := Evaluated(tid, t.guard.value, answer);
    LogGrows(m, s.log, r);
    GotoKeeps(m, s, s.state, tid,
              if answer then TrySwap(pc.event, pc.loaded, t)
              else TryErr(GuardFailed(StateOf(pc.loaded), t.to, Name(pc.event), t.guard.value)), r);
  }

  lemma SwapKeeps(m: Model, s: System, tid: nat, pc: Pc, answer: bool)
    requires Inv(m, s) && pc.TrySwap? && ThreadOk(m, s, tid, pc)
    ensures Inv(m, RunPc(m, s, tid, pc, answer))
  {
    hide StateAfter, LastOf, AllJustified, StateOf, Name;
    if s.state == pc.loaded {
      var r := Moved(tid, pc.edge);
      LogGrows(m, s.log, r);
      IdxOf(pc.edge.to);
      assert Explains(m, s.log + [r], tid, TryOk(pc.edge.to));
      GotoKeeps(m, s, Idx(pc.edge.to), tid, TryOk(pc.edge.to), r);
    } else {
      GotoSilent(m, s, tid, TryLoad(pc.event));
    }
  }

  lemma EnterKeeps(m: Model, s: System, tid: nat, pc: Pc, answer: bool)
    requires Inv(m, s) && ThreadOk(m, s, tid, pc)
    requires pc.EnterLatch? || pc.EnterHook? || pc.EnterLoad? || pc.EnterSwap?
    ensures Inv(m, RunPc(m, s, tid, pc, answer))
  {
    hide StateAfter, LastOf, AllJustified, StateOf;
    match pc
    case EnterLatch =>
      assert Inv(m, s.(latched := true));
      GotoSilent(m, s.(latched := true), tid, EnterHook);
      GotoSilent(m, s, tid, EnterLoad);
    case EnterHook =>
      LogGrows(m, s.log, Zeroized(tid));
      GotoKeeps(m, s, s.state, tid, EnterLoad, Zeroized(tid));
    case EnterLoad =>
      var r := Loaded(tid, StateOf(s.state));
      LogGrows(m, s.log, r);
      IdxOf(ErrorState);
      GotoKeeps(m, s, s.state, tid, if s.state == Idx(ErrorState) then EnterDone else EnterSwap(s.state), r);
    case EnterSwap(loaded) =>
      if s.state == loaded {
        var r := Forced(tid, StateOf(loaded));
        LogGrows(m, s.log, r);
        IdxOf(ErrorState);
        assert Explains(m, s.log + [r], tid, EnterDone);
        GotoKeeps(m, s, Idx(ErrorState), tid, EnterDone, r);
      } else {
        GotoSilent(m, s, tid, EnterLoad);
      }
  }

  lemma StepKeeps(m: Model, s: System, step: Step)
    requires Inv(m, s) && Enabled(s, step)
    ensures Inv(m, Do(m, s, step))
  {
    hide StateAfter, LastOf, AllJustified, StateOf, RunPc, ThreadOk;
    match step
    case CallTry(tid, event) =>
      ThreadOkTrivial(m, s, tid, TryLoad(event));
      GotoSilent(m, s, tid, TryLoad(event));
    case CallEnter(tid) =>
      var r := EnterCalled(tid);
      LogGrows(m, s.log, r);
      ThreadOkTrivial(m, Goto(s, tid, EnterLatch, [r]), tid, EnterLatch);
      GotoKeeps(m, s, s.state, tid, EnterLatch, r);
    case Run(tid, answer) =>
      var pc := s.threads[tid];
      assert ThreadOk(m, s, tid, pc);
      if pc.TryLoad? {
        LoadKeeps(m, s, tid, pc.event);
      } else if pc.TryGuard? {
        GuardKeeps(m, s, tid, pc, answer);
      } else if pc.TrySwap? {
        SwapKeeps(m, s, tid, pc, answer);
      } else {
        EnterKeeps(m, s, tid, pc, answer);
      }
  }

  lemma ThreadOkTrivial(m: Model, s: System, tid: nat, pc: Pc)
    requires pc.TryLoad? || pc.EnterLatch?
    ensures ThreadOk(m, s, tid, pc)
  {
  }

  /** In every interleaving, the state byte always equals what the recorded changes
      lead to; each change is an edge of the model leaving the state it was taken in,
      cleared by the thread that took it, or a forced move to `ErrorState`. */
  lemma {:induction false} EveryChangeJustified(m: Model, s: System, steps: seq<Step>)
    requires Inv(m, s) && IsRun(m, s, steps)
    ensures Inv(m, Final(m, s, steps))
    decreases |steps|
  {
    hide Inv, Do, Enabled;
    if steps != [] {
      StepKeeps(m, s, steps[0]);
      EveryChangeJustified(m, Do(m, s, steps[0]), steps[1..]);
    }
  }

  /** In every interleaving, whatever a call returned is explained by its own last act. */
  lemma CallsExplained(m: Model, steps: seq<Step>, tid: nat)
    requires IsRun(m, Start(m), steps) && tid in Final(m, Start(m), steps).threads
    requires Returned(Final(m, Start(m), steps).threads[tid])
    ensures Explains(m, Final(m, Start(m), steps).log, tid, Final(m, Start(m), steps).threads[tid])
  {
    hide Do, Explains, AllJustified, StateAfter, IsRun, Final;
    assert Inv(m, Start(m)) by { StartOk(m); }
    EveryChangeJustified(m, Start(m), steps);
    var s := Final(m, Start(m), steps);
    assert ThreadOk(m, s, tid, s.threads[tid]);
  }

  /** An error call never returns but with the module in `ErrorState`, however often it loses
      the race for the state byte. */
  lemma EnterEnds(m: Model, s: System, step: Step)
    requires Inv(m, s) && Enabled(s, step) && step.Run? && InsideEnter(s.threads[step.tid])
    requires Do(m, s, step).threads[step.tid] == EnterDone
    ensures StateOf(Do(m, s, step).state) == ErrorState
  {
    hide Inv;
    IdxOf(ErrorState);
  }

  lemma StartOk(m: Model)
    ensures Inv(m, Start(m))
  {
    IdxOf(m.initial);
  }

  // ----- the zeroize hook -----------------------------------------------------------------

  predicate InsideEnter(pc: Pc) {
    pc.EnterLatch? || pc.EnterHook? || pc.EnterLoad? || pc.EnterSwap?
  }

  predicate Pending(s: System, tid: nat) {
    tid in s.threads && s.threads[tid] == EnterHook
  }

  /** Until the hook has run, exactly the thread that set the latch is about to run it. */
  ghost predicate HookInv(s: System) {
    && Zeroizations(s.log) <= 1
    && (Zeroizations(s.log) == 1 ==> s.latched)
    && (forall t :: Pending(s, t) ==> s.latched && Zeroizations(s.log) == 0)
    && (forall t, u :: Pending(s, t) && Pending(s, u) ==> t == u)
    && (s.latched && Zeroizations(s.log) == 0 ==> exists t :: Pending(s, t))
    && ((exists i :: 0 <= i < |s.log| && s.log[i].EnterCalled?) && !s.latched ==>
          exists t :: t in s.threads && s.threads[t] == EnterLatch)
  }

  /** A step that neither sets the latch nor runs the hook. */
  lemma HookQuiet(s: System, s': System, tid: nat, pc: Pc, what: seq<Record>)
    requires HookInv(s) && s' == Goto(s.(state := s'.state), tid, pc, what) && |what| <= 1 && !pc.EnterHook?
    requires !Pending(s, tid) && (forall i :: 0 <= i < |what| ==> !what[i].Zeroized? && (what[i].EnterCalled? ==> pc.EnterLatch?))
    requires tid in s.threads && s.threads[tid] == EnterLatch ==> s.latched
    ensures HookInv(s')
  {
    hide StateAfter, LastOf;
    if what != [] {
      assert what == [what[0]];
      CountGrows(s.log, what[0]);
    } else {
      assert s.log + what == s.log;
    }
    assert forall t :: Pending(s', t) <==> Pending(s, t);
    if !s'.latched && exists i :: 0 <= i < |s'.log| && s'.log[i].EnterCalled? {
      if pc.EnterLatch? {
        assert s'.threads[tid] == EnterLatch;
      } else {
        var i :| 0 <= i < |s'.log| && s'.log[i].EnterCalled?;
        assert s.log[i].EnterCalled?;
        var t :| t in s.threads && s.threads[t] == EnterLatch;
        assert s'.threads[t] == EnterLatch;
      }
    }
  }

  lemma CountGrows(log: seq<Record>, r: Record)
    ensures Zeroizations(log + [r]) == Zeroizations(log) + if r.Zeroized? then 1 else 0
  {
    assert (log + [r])[..|log|] == log;
  }

  /** What a step of a running thread writes down. */
  lemma RunShape(m: Model, s: System, tid: nat, pc: Pc, answer: bool)
    requires !Returned(pc) && pc != EnterHook && !(pc == EnterLatch && !s.latched)
    ensures var s' := RunPc(m, s, tid, pc, answer);
            var what := s'.log[|s.log|..];
            && |s.log| <= |s'.log| && tid in s'.threads
            && s' == Goto(s.(state := s'.state), tid, s'.threads[tid], what)
            && |what| <= 1 && s'.threads[tid] != EnterHook
            && (forall i :: 0 <= i < |what| ==> !what[i].Zeroized? && !what[i].EnterCalled?)
  {
    hide FindEdge, Name, StateOf;
    var s' := RunPc(m, s, tid, pc, answer);
    assert forall r: Record :: (s.log + [r])[|s.log|..] == [r];
    assert (s.log + [])[|s.log|..] == [];
  }

  lemma HookKeeps(m: Model, s: System, step: Step)
    requires HookInv(s) && Enabled(s, step)
    ensures HookInv(Do(m, s, step))
  {
    hide Zeroizations, HookInv;
    var s' := Do(m, s, step);
    match step
    case CallTry(tid, event) =>
      HookQuiet(s, s', tid, TryLoad(event), []);
    case CallEnter(tid) =>
      HookQuiet(s, s', tid, EnterLatch, [EnterCalled(tid)]);
    case Run(tid, answer) =>
      var pc := s.threads[tid];
      if pc == EnterLatch && !s.latched {
        LatchSet(s, s', tid);
      } else if pc == EnterHook {
        HookRuns(s, s', tid);
      } else {
        HookKeepsRun(m, s, tid, answer);
      }
  }

  lemma HookKeepsRun(m: Model, s: System, tid: nat, answer: bool)
    requires HookInv(s) && tid in s.threads && !Returned(s.threads[tid])
    requires s.threads[tid] != EnterHook && !(s.threads[tid] == EnterLatch && !s.latched)
    ensures HookInv(RunPc(m, s, tid, s.threads[tid], answer))
  {
    hide Zeroizations, HookInv, RunPc;
    var s' := RunPc(m, s, tid, s.threads[tid], answer);
    RunShape(m, s, tid, s.threads[tid], answer);
    HookQuiet(s, s', tid, s'.threads[tid], s'.log[|s.log|..]);
  }

  lemma LatchSet(s: System, s': System, tid: nat)
    requires HookInv(s) && !s.latched && s' == Goto(s.(latched := true), tid, EnterHook, [])
    ensures HookInv(s')
  {
    assert s.log + [] == s.log;
    assert Pending(s', tid) && forall t :: Pending(s', t) ==> t == tid || Pending(s, t);
  }

  lemma HookRuns(s: System, s': System, tid: nat)
    requires HookInv(s) && Pending(s, tid) && s' == Goto(s, tid, EnterLoad, [Zeroized(tid)])
    ensures HookInv(s')
  {
    CountGrows(s.log, Zeroized(tid));
    assert forall t :: Pending(s', t) ==> Pending(s, t) && t != tid;
  }

  lemma {:induction false} HookRun(m: Model, s: System, steps: seq<Step>)
    requires HookInv(s) && IsRun(m, s, steps)
    ensures HookInv(Final(m, s, steps))
    decreases |steps|
  {
    hide HookInv, Do, Enabled;
    if steps != [] {
      HookKeeps(m, s, steps[0]);
      HookRun(m, Do(m, s, steps[0]), steps[1..]);
    }
  }

  /** In every interleaving the hook runs at most once; once some call of
      `enter_error_state` was made and all of them have returned, it ran exactly once
      and the latch is set. */
  lemma ZeroizedExactlyOnce(m: Model, steps: seq<Step>)
    requires IsRun(m, Start(m), steps)
    ensures var s := Final(m, Start(m), steps);
            && Zeroizations(s.log) <= 1
            && ((exists i :: 0 <= i < |s.log| && s.log[i].EnterCalled?) && (forall t :: t in s.threads ==> !InsideEnter(s.threads[t])) ==>
                  s.latched && Zeroizations(s.log) == 1)
  {
    hide Zeroizations, IsRun, Final;
    assert HookInv(Start(m)) by { HookStarts(m); }
    HookRun(m, Start(m), steps);
  }

  lemma HookStarts(m: Model)
    ensures HookInv(Start(m))
  {
  }

  // ----- the default model ----------------------------------------------------------------

  function DefaultFsm(): Model {
    Model([
      Transition(PowerOff, PowerOn, "power_on", None),
      Transition(PowerOn, SelfTest, "run_self_tests", None),
      Transition(SelfTest, CryptoOfficerMode, "self_tests_passed", Some("all_kats_pass")),
      Transition(SelfTest, ErrorState, "self_tests_failed", None),
      Transition(CryptoOfficerMode, UserMode, "authenticate_user", Some("valid_credentials")),
      Transition(UserMode, CryptoOfficerMode, "authenticate_co", Some("valid_co_credentials")),
      Transition(CryptoOfficerMode, Zeroization, "zeroize", None),
      Transition(UserMode, Zeroization, "zeroize", None),
      Transition(CryptoOfficerMode, ErrorState, "runtime_error", None),
      Transition(UserMode, ErrorState, "runtime_error", None),
      Transition(ErrorState, Zeroization, "zeroize", None),
      Transition(ErrorState, PowerOff, "power_off", None),
      Transition(Zeroization, PowerOff, "zeroization_complete", None)
    ], PowerOff)
  }

  lemma EventNames(e: Event)
    ensures |Name(e)| in {7, 8, 9, 14, 17} && (|Name(e)| == 17 ==> Name(e)[0] == 's')
  {
  }

  lemma DefaultEvents(t: Transition)
    requires t in DefaultFsm().transitions
    ensures t.to == CryptoOfficerMode ==> (t.from == SelfTest && t.guard == Some("all_kats_pass")) || |t.event| == 15
    ensures t.from == CryptoOfficerMode || t.from == Zeroization ==>
              t.to == Zeroization || |t.event| == 13 || |t.event| == 20 || (|t.event| == 17 && t.event[0] == 'a')
    ensures t.to == UserMode ==> |t.event| == 17 && t.event[0] == 'a'
  {
  }

  /** The edges of the default model that some runtime event can take. */
  lemma DefaultEdges(t: Transition, e: Event)
    requires t in DefaultFsm().transitions && t.event == Name(e)
    ensures t.to == CryptoOfficerMode ==> t.from == SelfTest && t.guard == Some("all_kats_pass")
    ensures t.from == CryptoOfficerMode || t.from == Zeroization ==> t.to == Zeroization
    ensures t.to != UserMode
  {
    hide DefaultFsm, Name;
    EventNames(e);
    DefaultEvents(t);
  }

  /** Every taken edge answers to a runtime event. */
  predicate ByEvents(log: seq<Record>) {
    forall i :: 0 <= i < |log| && log[i].Moved? ==> exists e: Event :: log[i].edge.event == Name(e)
  }

  lemma ByEventsGrows(m: Model, s: System, step: Step)
    requires Inv(m, s) && Enabled(s, step) && ByEvents(s.log)
    ensures ByEvents(Do(m, s, step).log)
    ensures s.log <= Do(m, s, step).log && |Do(m, s, step).log| <= |s.log| + 1
  {
    hide FindEdge, StateOf, StateAfter, LastOf, AllJustified, Name;
    var s' := Do(m, s, step);
    if step.Run? {
      var pc := s.threads[step.tid];
      assert ThreadOk(m, s, step.tid, pc);
      assert pc.TrySwap? ==> pc.edge.event == Name(pc.event);
    }
  }

  predicate VisitedOfficer(log: seq<Record>) {
    exists i :: 0 <= i < |log| && log[i].Moved? && log[i].edge.to == CryptoOfficerMode
  }

  /** After the officer state was entered, only the error path leads anywhere but to
      `Zeroization`. */
  ghost predicate OfficerInv(s: System) {
    && ByEvents(s.log)
    && (forall t :: t in s.threads && PastLatch(s.threads[t]) ==> s.latched)
    && (VisitedOfficer(s.log) && !s.latched ==> StateOf(s.state) == CryptoOfficerMode || StateOf(s.state) == Zeroization)
  }

  lemma VisitedGrows(log: seq<Record>, longer: seq<Record>)
    requires log <= longer && |longer| <= |log| + 1
    ensures VisitedOfficer(longer) <==>
            VisitedOfficer(log) || (|longer| > |log| && longer[|log|].Moved? && longer[|log|].edge.to == CryptoOfficerMode)
  {
    assert forall i :: 0 <= i < |log| ==> longer[i] == log[i];
  }

  lemma OfficerMoves(s: System, tid: nat, answer: bool)
    requires Inv(DefaultFsm(), s) && OfficerInv(s) && tid in s.threads && s.threads[tid].TrySwap?
    requires s.state == s.threads[tid].loaded
    ensures OfficerInv(RunPc(DefaultFsm(), s, tid, s.threads[tid], answer))
  {
    hide FindEdge, StateAfter, LastOf, AllJustified, VisitedOfficer, DefaultFsm, Name, StateOf, ByEvents;
    var m := DefaultFsm();
    var pc := s.threads[tid];
    assert ThreadOk(m, s, tid, pc);
    var s' := RunPc(m, s, tid, pc, answer);
    ByEventsGrows(m, s, Run(tid, answer));
    DefaultEdges(pc.edge, pc.event);
    VisitedGrows(s.log, s'.log);
    IdxOf(pc.edge.to);
    assert forall t :: t in s'.threads && t != tid ==> t in s.threads && s'.threads[t] == s.threads[t];
  }

  predicate PastLatch(pc: Pc) {
    pc.EnterHook? || pc.EnterLoad? || pc.EnterSwap?
  }

  /** Any other step of a running thread: it takes no edge, and leaves the state alone
      unless it forces the error state. */
  lemma OtherEffect(m: Model, s: System, tid: nat, pc: Pc, answer: bool)
    requires !(pc.TrySwap? && s.state == pc.loaded)
    ensures var s' := RunPc(m, s, tid, pc, answer);
            && (s'.latched <==> s.latched || pc.EnterLatch?)
            && (s'.state == s.state || PastLatch(pc))
            && (|s.log| < |s'.log| ==> !s'.log[|s.log|].Moved?)
            && (tid in s'.threads && PastLatch(s'.threads[tid]) ==> PastLatch(pc) || pc.EnterLatch? || s'.threads == s.threads)
            && (forall t :: t in s'.threads && t != tid ==> t in s.threads && s'.threads[t] == s.threads[t])
  {
    hide FindEdge, Name, StateOf;
  }

  lemma OfficerStays(m: Model, s: System, step: Step)
    requires Inv(m, s) && OfficerInv(s) && Enabled(s, step)
    requires !(step.Run? && s.threads[step.tid].TrySwap? && s.state == s.threads[step.tid].loaded)
    ensures OfficerInv(Do(m, s, step))
  {
    hide StateAfter, LastOf, AllJustified, VisitedOfficer, Name, StateOf, ByEvents, RunPc, Inv;
    var s' := Do(m, s, step);
    ByEventsGrows(m, s, step);
    VisitedGrows(s.log, s'.log);
    if step.Run? {
      OtherEffect(m, s, step.tid, s.threads[step.tid], step.answer);
    }
  }

  lemma {:induction false} OfficerRun(s: System, steps: seq<Step>)
    requires Inv(DefaultFsm(), s) && OfficerInv(s) && IsRun(DefaultFsm(), s, steps)
    ensures OfficerInv(Final(DefaultFsm(), s, steps))
    decreases |steps|
  {
    hide Inv, OfficerInv, DefaultFsm, RunPc;
    if steps != [] {
      var step := steps[0];
      if step.Run? && s.threads[step.tid].TrySwap? && s.state == s.threads[step.tid].loaded {
        OfficerMoves(s, step.tid, step.answer);
      } else {
        OfficerStays(DefaultFsm(), s, step);
      }
      StepKeeps(DefaultFsm(), s, step);
      OfficerRun(Do(DefaultFsm(), s, step), steps[1..]);
    }
  }

  /** In every interleaving over the default model, the officer state is entered only
      from `SelfTest` by a thread for which `all_kats_pass` just came out true; and a
      module that was there and is powered off went through the error latch. */
  lemma OfficerOnlyAfterSelfTest(steps: seq<Step>)
    requires IsRun(DefaultFsm(), Start(DefaultFsm()), steps)
    ensures var s := Final(DefaultFsm(), Start(DefaultFsm()), steps);
            && (forall i :: 0 <= i < |s.log| && s.log[i].Moved? && s.log[i].edge.to == CryptoOfficerMode ==>
                  && s.log[i].edge.from == SelfTest == StateAfter(DefaultFsm(), s.log[..i])
                  && LastOf(s.log[..i], s.log[i].tid) == Some(Evaluated(s.log[i].tid, "all_kats_pass", true)))
            && (VisitedOfficer(s.log) && StateOf(s.state) == PowerOff ==> s.latched)
  {
    hide IsRun, Final, StateAfter, LastOf, DefaultFsm;
    var m := DefaultFsm();
    var s := Final(m, Start(m), steps);
    StartOk(m);
    assert OfficerInv(Start(m)) by { OfficerStarts(m); }
    EveryChangeJustified(m, Start(m), steps);
    OfficerRun(Start(m), steps);
    forall i | 0 <= i < |s.log| && s.log[i].Moved? && s.log[i].edge.to == CryptoOfficerMode
      ensures s.log[i].edge.from == SelfTest == StateAfter(m, s.log[..i])
      ensures LastOf(s.log[..i], s.log[i].tid) == Some(Evaluated(s.log[i].tid, "all_kats_pass", true))
    {
      assert Justified(m, s.log[..i], s.log[i]);
      var e: Event :| s.log[i].edge.event == Name(e);
      DefaultEdges(s.log[i].edge, e);
    }
  }

  lemma OfficerStarts(m: Model)
    ensures OfficerInv(Start(m))
  {
  }

  // ----- the default model is valid ---------------------------------------------------------

  lemma EdgeAt(m: Model, i: nat, a: State, b: State)
    requires i < |m.transitions| && m.transitions[i].from == a && m.transitions[i].to == b
    ensures Edge(m, a, b)
  {
  }

  lemma DefaultStart()
    ensures var t := DefaultFsm().transitions;
            && |t| == 13 && DefaultFsm().initial == PowerOff
            && t[0].from == PowerOff && t[0].to == PowerOn && t[1].from == PowerOn && t[1].to == SelfTest
            && t[2].from == SelfTest && t[2].to == CryptoOfficerMode
  {
  }

  lemma DefaultRest()
    ensures var t := DefaultFsm().transitions;
            && |t| == 13 && t[3].from == SelfTest && t[3].to == ErrorState
            && t[4].from == CryptoOfficerMode && t[4].to == UserMode
            && t[6].from == CryptoOfficerMode && t[6].to == Zeroization
  {
  }

  lemma DefaultReachable(s: State)
    ensures Reachable(DefaultFsm(), s)
  {
    hide Reachable, Edge, DefaultFsm;
    DefaultStart();
    DefaultRest();
    var m := DefaultFsm();
    ReachableInitial(m);
    EdgeAt(m, 0, PowerOff, PowerOn);
    EdgeAt(m, 1, PowerOn, SelfTest);
    EdgeAt(m, 2, SelfTest, CryptoOfficerMode);
    EdgeAt(m, 3, SelfTest, ErrorState);
    EdgeAt(m, 4, CryptoOfficerMode, UserMode);
    EdgeAt(m, 6, CryptoOfficerMode, Zeroization);
    AllReached(m, s);
  }

  lemma AllReached(m: Model, s: State)
    requires Reachable(m, PowerOff) && Edge(m, PowerOff, PowerOn) && Edge(m, PowerOn, SelfTest)
    requires Edge(m, SelfTest, CryptoOfficerMode) && Edge(m, SelfTest, ErrorState)
    requires Edge(m, CryptoOfficerMode, UserMode) && Edge(m, CryptoOfficerMode, Zeroization)
    ensures Reachable(m, s)
  {
    hide Reachable, Edge;
    ReachableStep(m, PowerOff, PowerOn);
    ReachableStep(m, PowerOn, SelfTest);
    ReachableStep(m, SelfTest, CryptoOfficerMode);
    ReachableStep(m, SelfTest, ErrorState);
    ReachableStep(m, CryptoOfficerMode, UserMode);
    ReachableStep(m, CryptoOfficerMode, Zeroization);
  }

  /** Transitions of one state are told apart by the length of their event, except for
      the two self-test outcomes. */
  lemma DefaultLengths(i: nat, j: nat)
    requires i < j < |DefaultFsm().transitions|
    requires DefaultFsm().transitions[i].from == DefaultFsm().transitions[j].from
    ensures (i == 2 && j == 3) || |DefaultFsm().transitions[i].event| != |DefaultFsm().transitions[j].event|
  {
  }

  lemma DefaultUnambiguous(from: State, event: string)
    ensures !Ambiguous(DefaultFsm(), from, event)
  {
    hide DefaultFsm;
    var ts := DefaultFsm().transitions;
    forall i, j | 0 <= i < j < |ts| && ts[i].from == ts[j].from
      ensures ts[i].event != ts[j].event
    {
      DefaultLengths(i, j);
      SelfTestOutcomes();
    }
  }

  lemma SelfTestOutcomes()
    ensures |DefaultFsm().transitions| == 13
    ensures DefaultFsm().transitions[2].event != DefaultFsm().transitions[3].event
  {
    assert "self_tests_passed"[11] == 'p' && "self_tests_failed"[11] == 'f';
  }

  lemma DefaultExits(a: State, b: State)
    requires Edge(DefaultFsm(), a, b)
    ensures a == PowerOn ==> b == SelfTest
    ensures a == ErrorState ==> b == Zeroization || b == PowerOff
    ensures a == CryptoOfficerMode || a == UserMode ==> b != PowerOff
  {
    var ts := DefaultFsm().transitions;
    var i :| 0 <= i < |ts| && ts[i].from == a && ts[i].to == b;
  }

  /** The default model satisfies every rule. */
  lemma DefaultWellFormed()
    ensures WellFormed(DefaultFsm())
  {
    hide Reachable, Edge, Ambiguous, DefaultFsm;
    var m := DefaultFsm();
    forall v: Violation
      ensures !Violates(m, v)
    {
      match v
      case Unreachable(s) => DefaultReachable(s);
      case Dead(s) => DefaultAlive(s);
      case NoSelfTest => DefaultAlive(PowerOn);
      case BypassesSelfTest(to) => if Edge(m, PowerOn, to) { DefaultExits(PowerOn, to); }
      case BadErrorExit(to) => if Edge(m, ErrorState, to) { DefaultExits(ErrorState, to); }
      case DirectShutdown(from) => if Edge(m, from, PowerOff) { DefaultExits(from, PowerOff); }
      case Duplicate(from, event) => DefaultUnambiguous(from, event);
    }
  }

  lemma DefaultAlive(s: State)
    ensures s != PowerOff ==> exists b: State :: Edge(DefaultFsm(), s, b)
    ensures Edge(DefaultFsm(), PowerOn, SelfTest)
  {
    hide Edge;
    var m := DefaultFsm();
    EdgeAt(m, 1, PowerOn, SelfTest);
    EdgeAt(m, 3, SelfTest, ErrorState);
    EdgeAt(m, 6, CryptoOfficerMode, Zeroization);
    EdgeAt(m, 7, UserMode, Zeroization);
    EdgeAt(m, 10, ErrorState, Zeroization);
    EdgeAt(m, 12, Zeroization, PowerOff);
  }
}
