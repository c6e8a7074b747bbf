/** What every interleaving of the scheduler keeps, as long as the loop does not give up waiting for a
    dispatch. */
module SchedulerProof {
  import opened Bits
  import opened Scheduler
  import opened Wrappers

  /** The emulator thread is between its suspend and its resume rendezvous. */
  predicate Suspended(emu: EmuPc) {
    emu.Sending? || emu == AtResume
  }

  /** It is executing guest code, or on its way into or out of a hook. */
  predicate GuestSide(emu: EmuPc) {
    !Suspended(emu) && emu != Stopped
  }

  predicate OnCpu(s: State, t: nat) {
    s.current == Some(t) && GuestSide(s.emu)
  }

  predicate LoopHolds(s: State, t: nat) {
    s.loop == Got(t) || s.loop == Restoring(t) || s.loop == Offering(Some(t))
  }

  /** How many places task `t` is in at once. */
  function Tokens(s: State, t: nat): nat
    requires t in s.tasks
  {
    var k := s.tasks[t];
    Bit(OnCpu(s, t)) + Bit(s.emu == Sending(t)) + Bit(LoopHolds(s, t))
    + Bit(k.run == Dispatching) + Bit(k.pc == InCallback) + Bit(k.pc == Redispatching)
  }

  ghost predicate TaskOk(s: State, t: nat)
    requires t in s.tasks
  {
    Tokens(s, t) <= (if s.tasks[t].run == NotRun then 0 else 1)
  }

  predicate EmuAgrees(s: State) {
    && (s.current.Some? ==> s.current.value in s.tasks && s.tasks[s.current.value].run == RunOver)
    && (s.current == None <==> s.emu == Stopped)
    && (match s.emu
        case Guest => true
        case AsyncEntry(t, _) => s.current == Some(t)
        case SyncEntry(t, _) => s.current == Some(t)
        case SyncCallback(t) => s.current == Some(t)
        case SyncAfter(t) => s.current == Some(t)
        case AtSuspend(t, _) => s.current == Some(t)
        case Sending(t) => t in s.tasks && s.tasks[t].run == RunOver
        case AtResume => true
        case Stopped => true)
    && (s.hasSync <==> s.emu.SyncCallback?)
  }

  predicate LoopAgrees(s: State) {
    && (Suspended(s.emu) <==> s.loop != AwaitSuspend && s.loop != Exited)
    && (match s.loop
        case AwaitSuspend => true
        case AwaitDispatch => true
        case Got(t) => t in s.tasks && s.tasks[t].run == RunOver
        case Restoring(t) => t in s.tasks && s.current == Some(t)
        case Offering(d) => d.Some? && s.current == d
        case Exited => true)
  }

  /** The registers of the emulator are those saved for the current task wherever the task can still
      go back to the CPU without a restore. */
  predicate RegsOk(s: State)
    requires EmuAgrees(s)
  {
    s.current.Some? ==>
      var t := s.current.value;
      var k := s.tasks[t];
      && (s.loop.Offering? ==> s.regs == k.saved)
      && (s.emu == AtSuspend(t, true) ==> s.regs == k.saved)
      && ((s.emu.SyncCallback? || s.emu.SyncAfter?) && !k.change ==> s.regs == k.saved)
      && (s.emu == Sending(t) || k.pc == InCallback || k.pc == Redispatching || s.loop == Got(t) ==>
            !k.change ==> s.regs == k.saved)
  }

  ghost predicate Core(s: State) {
    EmuAgrees(s) && LoopAgrees(s) && RegsOk(s) && forall t :: t in s.tasks ==> TaskOk(s, t)
  }

  // ----- kinds of state change that keep the core invariant

  /** A task's status, cancellation or goroutines change, and it enters no new place. */
  lemma TaskChanges(s: State, t: nat, k: Task)
    requires Core(s) && t in s.tasks
    requires var o := s.tasks[t];
      && k.saved == o.saved && k.change == o.change
      && (k.run == o.run || (o.run == Dispatching && k.run == RunOver))
      && Bit(k.pc == InCallback) + Bit(k.pc == Redispatching) <= Bit(o.pc == InCallback) + Bit(o.pc == Redispatching)
    ensures Core(SetTask(s, t, k))
  {
    var s' := SetTask(s, t, k);
    assert TaskOk(s, t);
    forall u | u in s'.tasks ensures TaskOk(s', u) {
      assert TaskOk(s, u);
    }
  }

  /** The task on the CPU has its registers saved. */
  lemma TaskSaves(s: State, t: nat, k: Task)
    requires Core(s) && OnCpu(s, t)
    requires k.saved == s.regs && k.change == s.tasks[t].change && k.run == s.tasks[t].run && k.pc == s.tasks[t].pc
    ensures Core(SetTask(s, t, k))
  {
    var s' := SetTask(s, t, k);
    forall u | u in s'.tasks ensures TaskOk(s', u) {
      assert TaskOk(s, u);
    }
  }

  /** The registers and the context of the task on the CPU change, between a hook and the guest. */
  lemma CpuChanges(s: State, t: nat, k: Task, regs: int)
    requires Core(s) && s.emu == SyncAfter(t) && t in s.tasks
    requires k.saved == s.tasks[t].saved && k.run == s.tasks[t].run && k.pc == s.tasks[t].pc
    requires k.change || regs == k.saved
    ensures Core(SetTask(s, t, k).(regs := regs))
  {
    var s' := SetTask(s, t, k).(regs := regs);
    assert TaskOk(s, t);
    forall u | u in s'.tasks ensures TaskOk(s', u) {
      assert TaskOk(s, u);
    }
  }

  /** The emulator thread moves on without leaving the guest's side of the rendezvous. */
  lemma EmuMoves(s: State, emu: EmuPc, hasSync: bool)
    requires Core(s) && GuestSide(s.emu) && GuestSide(emu)
    requires EmuAgrees(s.(emu := emu, hasSync := hasSync)) && RegsOk(s.(emu := emu, hasSync := hasSync))
    ensures Core(s.(emu := emu, hasSync := hasSync))
  {
    var s' := s.(emu := emu, hasSync := hasSync);
    forall u | u in s'.tasks ensures TaskOk(s', u) {
      assert TaskOk(s, u);
    }
  }

  lemma AsyncSaveKeeps(s: State, ok: bool)
    requires Core(s) && Enabled(s, AsyncSave(ok))
    ensures Core(Apply(s, AsyncSave(ok)))
  {
    var t, k := s.emu.t, s.tasks[s.emu.t];
    if !s.emu.call {
      EmuMoves(s, AtSuspend(t, false), s.hasSync);
    } else if ok {
      TaskSaves(s, t, Started(k).(saved := s.regs));
      EmuMoves(SetTask(s, t, Started(k).(saved := s.regs)), AtSuspend(t, true), s.hasSync);
    } else {
      TaskChanges(s, t, Ended(k));
      EmuMoves(SetTask(s, t, Ended(k)), AtSuspend(t, false), s.hasSync);
    }
  }

  lemma SyncSaveKeeps(s: State, ok: bool)
    requires Core(s) && Enabled(s, SyncSave(ok))
    ensures Core(Apply(s, SyncSave(ok)))
  {
    var t, k := s.emu.t, s.tasks[s.emu.t];
    if !s.emu.live {
      EmuMoves(s, AtSuspend(t, false), s.hasSync);
    } else if ok {
      TaskSaves(s, t, Started(k).(saved := s.regs));
      EmuMoves(SetTask(s, t, Started(k).(saved := s.regs)), SyncCallback(t), true);
    } else {
      TaskChanges(s, t, Ended(k));
      EmuMoves(SetTask(s, t, Ended(k)), AtSuspend(t, false), s.hasSync);
    }
  }

  lemma SyncCheckKeeps(s: State, ok: bool, x: int)
    requires Core(s) && Enabled(s, SyncCheck(ok, x))
    ensures Core(Apply(s, SyncCheck(ok, x)))
  {
    var t, k := s.emu.t, s.tasks[s.emu.t];
    if k.status == Finished {
      EmuMoves(s, AtSuspend(t, false), s.hasSync);
    } else if !k.change {
      EmuMoves(s, Guest, s.hasSync);
    } else if ok {
      CpuChanges(s, t, k.(change := false), k.saved);
      EmuMoves(SetTask(s, t, k.(change := false)).(regs := k.saved), Guest, s.hasSync);
    } else {
      SyncRestoreFails(s, t, x);
    }
  }

  lemma SyncRestoreFails(s: State, t: nat, x: int)
    requires Core(s) && s.emu == SyncAfter(t) && t in s.tasks
    ensures Core(SetTask(s, t, Ended(s.tasks[t].(change := false))).(regs := x, emu := AtSuspend(t, false)))
  {
    var s' := SetTask(s, t, Ended(s.tasks[t].(change := false))).(regs := x, emu := AtSuspend(t, false));
    assert TaskOk(s, t);
    forall u | u in s'.tasks ensures TaskOk(s', u) {
      assert TaskOk(s, u);
    }
  }

  // ----- steps one by one; each is a case of its own to keep the proofs small

  /** The loop stops waiting for a dispatch because the scheduler has been closed. */
  predicate Forced(s: State, step: Step) {
    step.LoopClosed? && s.loop == AwaitDispatch
  }

  lemma CreateKeeps(s: State, step: Step)
    requires Core(s) && Enabled(s, step) && (step.Create?)
    ensures Core(Apply(s, step))
  {
    var s' := Apply(s, step);
    forall u | u in s'.tasks ensures TaskOk(s', u) {
      assert u in s.tasks ==> TaskOk(s, u);
    }
  }

  lemma CallRunKeeps(s: State, step: Step)
    requires Core(s) && Enabled(s, step) && (step.CallRun?)
    ensures Core(Apply(s, step))
  {
    var s' := Apply(s, step);
    forall u | u in s'.tasks ensures TaskOk(s', u) {
      assert u in s.tasks ==> TaskOk(s, u);
    }
  }

  lemma RegWriteKeeps(s: State, step: Step)
    requires Core(s) && Enabled(s, step) && (step.RegWrite?)
    ensures Core(Apply(s, step))
  {
    var s' := Apply(s, step);
    forall u | u in s'.tasks ensures TaskOk(s', u) {
      assert u in s.tasks ==> TaskOk(s, u);
    }
  }

  lemma DispatchKeeps(s: State, t: nat)
    requires Core(s) && Enabled(s, Dispatch(t))
    ensures Core(Apply(s, Dispatch(t)))
  {
    var s' := Apply(s, Dispatch(t));
    DispatchAgrees(s, t);
    forall u | u in s'.tasks ensures TaskOk(s', u) {
      assert TaskOk(s, u);
      DispatchTask(s, t, u);
    }
  }

  lemma DispatchAgrees(s: State, t: nat)
    requires Core(s) && Enabled(s, Dispatch(t))
    ensures var s' := Apply(s, Dispatch(t));
      EmuAgrees(s') && LoopAgrees(s') && RegsOk(s')
  {
    assert TaskOk(s, t);
  }

  lemma DispatchTask(s: State, t: nat, u: nat)
    requires Enabled(s, Dispatch(t)) && u in s.tasks && TaskOk(s, u)
    ensures TaskOk(Apply(s, Dispatch(t)), u)
  {
  }

  lemma CheckKeeps(s: State)
    requires Core(s) && Enabled(s, Check)
    ensures Core(Apply(s, Check))
  {
    var s' := Apply(s, Check);
    CheckAgrees(s);
    forall u | u in s'.tasks ensures TaskOk(s', u) {
      assert TaskOk(s, u);
      CheckTask(s, u);
    }
  }

  lemma CheckAgrees(s: State)
    requires EmuAgrees(s) && LoopAgrees(s) && RegsOk(s) && Enabled(s, Check) && TaskOk(s, s.loop.t)
    ensures var s' := Apply(s, Check);
      EmuAgrees(s') && LoopAgrees(s') && RegsOk(s')
  {
  }

  lemma CheckTask(s: State, u: nat)
    requires LoopAgrees(s) && Enabled(s, Check) && u in s.tasks && TaskOk(s, u)
    ensures u in Apply(s, Check).tasks && TaskOk(Apply(s, Check), u)
  {
  }

  lemma RestoreOkKeeps(s: State, step: Step)
    requires Core(s) && Enabled(s, step) && (step.RestoreOk?)
    ensures Core(Apply(s, step))
  {
    var s' := Apply(s, step);
    forall u | u in s'.tasks ensures TaskOk(s', u) {
      assert u in s.tasks ==> TaskOk(s, u);
    }
  }

  lemma RestoreFailKeeps(s: State, step: Step)
    requires Core(s) && Enabled(s, step) && (step.RestoreFail?)
    ensures Core(Apply(s, step))
  {
    var s' := Apply(s, step);
    forall u | u in s'.tasks ensures TaskOk(s', u) {
      assert u in s.tasks ==> TaskOk(s, u);
    }
  }

  lemma SendKeeps(s: State, step: Step)
    requires Core(s) && Enabled(s, step) && (step.Send?)
    ensures Core(Apply(s, step))
  {
    var s' := Apply(s, step);
    forall u | u in s'.tasks ensures TaskOk(s', u) {
      assert u in s.tasks ==> TaskOk(s, u);
    }
  }

  lemma RendezvousKeeps(s: State, step: Step)
    requires Core(s) && Enabled(s, step) && (step.Suspend? || step.Resume?)
    ensures Core(Apply(s, step))
  {
    var s' := Apply(s, step);
    forall u | u in s'.tasks ensures TaskOk(s', u) {
      assert u in s.tasks ==> TaskOk(s, u);
    }
  }

  lemma AloneKeeps(s: State, step: Step)
    requires Core(s) && Enabled(s, step) && !Forced(s, step)
    requires step.SendCancelled? || step.Execute? || step.SuspendClosed? || step.LoopClosed?
    ensures Core(Apply(s, step))
  {
    var s' := Apply(s, step);
    forall u | u in s'.tasks ensures TaskOk(s', u) {
      assert u in s.tasks ==> TaskOk(s, u);
    }
  }

  lemma EmuStopsKeeps(s: State, step: Step)
    requires Core(s) && Enabled(s, step) && (step.EmuStops? || step.GuestRuns?)
    ensures Core(Apply(s, step))
  {
    var s' := Apply(s, step);
    forall u | u in s'.tasks ensures TaskOk(s', u) {
      assert u in s.tasks ==> TaskOk(s, u);
    }
  }

  lemma HookKeeps(s: State, step: Step)
    requires Core(s) && Enabled(s, step) && (step.HookAsync? || step.HookSync? || step.SyncEnds?)
    ensures Core(Apply(s, step))
  {
    EmuMoves(s, Apply(s, step).emu, Apply(s, step).hasSync);
  }

  lemma CloseKeeps(s: State)
    requires Core(s)
    ensures Core(s.(closed := true))
  {
    var s' := s.(closed := true);
    forall u | u in s'.tasks ensures TaskOk(s', u) {
      assert TaskOk(s, u);
    }
  }

  lemma StepKeepsCore(s: State, step: Step)
    requires Core(s) && Enabled(s, step) && !Forced(s, step)
    ensures Core(Apply(s, step))
  {
    hide Core;
    match step
    case Create(_, _) => CreateKeeps(s, step);
    case CallRun(_) => CallRunKeeps(s, step);
    case RegWrite(_, _) => RegWriteKeeps(s, step);
    case MarkDone(t) => TaskChanges(s, t, Ended(s.tasks[t]));
    case Fire(t) => TaskChanges(s, t, s.tasks[t].(cancelled := true));
    case GiveUp(t) => TaskChanges(s, t, StopWaiting(s.tasks[t]));
    case Refuse(t) => TaskChanges(s, t, Ended(StopWaiting(s.tasks[t])).(cancelled := true));
    case Dispatch(t) => DispatchKeeps(s, t);
    case Check => CheckKeeps(s);
    case RestoreOk => RestoreOkKeeps(s, step);
    case RestoreFail(_) => RestoreFailKeeps(s, step);
    case HookAsync => HookKeeps(s, step);
    case AsyncSave(ok) => AsyncSaveKeeps(s, ok);
    case Send => SendKeeps(s, step);
    case CallbackEnds(t) => TaskChanges(s, t, Apply(s, step).tasks[t]);
    case TaskLoopEnds(t) => TaskChanges(s, t, s.tasks[t].(pc := LoopOver));
    case HookSync => HookKeeps(s, step);
    case SyncSave(ok) => SyncSaveKeeps(s, ok);
    case SyncEnds => HookKeeps(s, step);
    case SyncCheck(ok, x) => SyncCheckKeeps(s, ok, x);
    case EmuStops => EmuStopsKeeps(s, step);
    case GuestRuns(_) => EmuStopsKeeps(s, step);
    case Close => CloseKeeps(s);
    case Suspend => RendezvousKeeps(s, step);
    case Resume => RendezvousKeeps(s, step);
    case _ => AloneKeeps(s, step);
  }

  // ----- all runs

  lemma StartCore(x: int, r: int)
    ensures Core(Start(x, r))
  {
  }

  /** A run in which the loop never gives up waiting for a dispatch, closed or not. */
  predicate Orderly(s: State, steps: seq<Step>)
    requires IsRun(s, steps)
    decreases |steps|
  {
    steps != [] ==> !Forced(s, steps[0]) && Orderly(Apply(s, steps[0]), steps[1..])
  }

  lemma {:induction false} RunKeepsCore(s: State, steps: seq<Step>)
    requires Core(s) && IsRun(s, steps) && Orderly(s, steps)
    ensures Core(After(s, steps))
    decreases |steps|
  {
    hide Core, Apply, Enabled, Forced;
    if steps != [] {
      StepKeepsCore(s, steps[0]);
      RunKeepsCore(Apply(s, steps[0]), steps[1..]);
    }
  }

  /** Every run that has not been closed is one of those. */
  lemma {:induction false} OpenIsOrderly(s: State, steps: seq<Step>)
    requires IsRun(s, steps) && !After(s, steps).closed
    ensures Orderly(s, steps) && !s.closed
    decreases |steps|
  {
    if steps != [] {
      OpenIsOrderly(Apply(s, steps[0]), steps[1..]);
    }
  }

  /** The guest is executing code of task `t`. */
  predicate Executes(s: State, t: nat) {
    s.emu == Guest && s.current == Some(t)
  }

  /** Scheduler token: in every interleaving, closed or not, in which the loop does not give up waiting
      for a dispatch, each task is in at most one place; so its guest code never runs while its own
      asynchronous callback does, nor while it waits to be dispatched. */
  lemma OnePlaceAtATime(x: int, r: int, steps: seq<Step>, t: nat)
    requires IsRun(Start(x, r), steps) && Orderly(Start(x, r), steps)
    ensures var s := After(Start(x, r), steps);
      t in s.tasks ==>
        && Tokens(s, t) <= 1
        && (Executes(s, t) ==> s.tasks[t].pc != InCallback && !Waiting(s.tasks[t]) && s.emu != Sending(t))
        && (s.tasks[t].pc == InCallback ==> !Waiting(s.tasks[t]))
  {
    var s := After(Start(x, r), steps);
    StartCore(x, r);
    RunKeepsCore(Start(x, r), steps);
    if t in s.tasks {
      assert TaskOk(s, t);
    }
  }

  /** The loop has given up waiting and offers to resume the emulator thread undispatched; all else is as
      if it were waiting still. */
  ghost predicate GivenUp(s: State) {
    s.loop == Offering(None) && Core(s.(loop := AwaitDispatch))
  }

  /** Until the resume nothing changes that, whatever else is done. */
  lemma GivenUpStays(s: State, step: Step)
    requires GivenUp(s) && Enabled(s, step) && step != Resume
    ensures GivenUp(Apply(s, step))
  {
    hide Core, Apply, Enabled;
    LoopAside(s, step);
    StepKeepsCore(s.(loop := AwaitDispatch), step);
  }

  /** The other steps do not look at the loop in that state. */
  lemma LoopAside(s: State, step: Step)
    requires s.loop == Offering(None) && Enabled(s, step) && step != Resume
    ensures var w := s.(loop := AwaitDispatch);
      && Enabled(w, step) && !Forced(w, step)
      && Apply(s, step).loop == Offering(None)
      && Apply(s, step).(loop := AwaitDispatch) == Apply(w, step)
  {
    hide Apply, Enabled, Forced;
    if IsTaskStep(step) {
      LoopAsideTask(s, step);
    } else if step.AsyncSave? || step.EmuStops? {
      LoopAsideSave(s, step);
    } else if step.SyncSave? || step.SyncCheck? {
      LoopAsideSync(s, step);
    } else if IsLoopStep(step) {
      LoopAsideLoop(s, step);
    } else {
      LoopAsideEmu(s, step);
    }
  }

  lemma LoopAsideTask(s: State, step: Step)
    requires s.loop == Offering(None) && Enabled(s, step)
    requires IsTaskStep(step)
    ensures var w := s.(loop := AwaitDispatch);
      && Enabled(w, step) && !Forced(w, step)
      && Apply(s, step).loop == Offering(None)
      && Apply(s, step).(loop := AwaitDispatch) == Apply(w, step)
  {
  }

  lemma LoopAsideSave(s: State, step: Step)
    requires s.loop == Offering(None) && Enabled(s, step)
    requires step.AsyncSave? || step.EmuStops?
    ensures var w := s.(loop := AwaitDispatch);
      && Enabled(w, step) && !Forced(w, step)
      && Apply(s, step).loop == Offering(None)
      && Apply(s, step).(loop := AwaitDispatch) == Apply(w, step)
  {
  }

  lemma LoopAsideSync(s: State, step: Step)
    requires s.loop == Offering(None) && Enabled(s, step)
    requires step.SyncSave? || step.SyncCheck?
    ensures var w := s.(loop := AwaitDispatch);
      && Enabled(w, step) && !Forced(w, step)
      && Apply(s, step).loop == Offering(None)
      && Apply(s, step).(loop := AwaitDispatch) == Apply(w, step)
  {
  }

  lemma LoopAsideLoop(s: State, step: Step)
    requires s.loop == Offering(None) && IsLoopStep(step) && step != Resume
    ensures !Enabled(s, step)
  {
  }

  lemma LoopAsideEmu(s: State, step: Step)
    requires s.loop == Offering(None) && Enabled(s, step)
    requires !IsTaskStep(step) && !IsLoopStep(step)
    requires !(step.AsyncSave? || step.SyncSave? || step.SyncCheck? || step.EmuStops?)
    ensures var w := s.(loop := AwaitDispatch);
      && Enabled(w, step) && !Forced(w, step)
      && Apply(s, step).loop == Offering(None)
      && Apply(s, step).(loop := AwaitDispatch) == Apply(w, step)
  {
  }

  /** With the resume the current task goes back to the CPU: every task is in one place if and only if
      that one is nowhere at that moment. */
  lemma GivenUpResumes(s: State)
    requires GivenUp(s) && Enabled(s, Resume)
    ensures var s' := Apply(s, Resume);
      && s.current.Some? && s.current.value in s.tasks && Executes(s', s.current.value)
      && ((forall t :: t in s'.tasks ==> Tokens(s', t) <= 1) <==> Tokens(s, s.current.value) == 0)
  {
    var s', c, w := Apply(s, Resume), s.current.value, s.(loop := AwaitDispatch);
    assert Tokens(s', c) == Tokens(s, c) + 1;
    forall t | t in s'.tasks && t != c ensures Tokens(s', t) <= 1 {
      assert TaskOk(w, t);
    }
  }

  predicate NoResume(steps: seq<Step>) {
    forall i :: 0 <= i < |steps| ==> steps[i] != Resume
  }

  lemma {:induction false} GivenUpRun(s: State, steps: seq<Step>)
    requires GivenUp(s) && IsRun(s, steps) && NoResume(steps)
    ensures GivenUp(After(s, steps))
    decreases |steps|
  {
    hide GivenUp, Apply, Enabled;
    if steps != [] {
      assert steps[0] != Resume;
      GivenUpStays(s, steps[0]);
      assert forall i :: 0 <= i < |steps[1..]| ==> steps[1..][i] == steps[i + 1];
      GivenUpRun(Apply(s, steps[0]), steps[1..]);
    }
  }

  /** Once the loop does give up, in whatever state the emulator thread is, and after any steps up to the
      resume, the current task goes back to the CPU undispatched: the token survives if and only if that
      task is nowhere when it does. */
  lemma GivingUpIsExact(x: int, r: int, before: seq<Step>, during: seq<Step>)
    requires IsRun(Start(x, r), before) && Orderly(Start(x, r), before)
    requires var s := After(Start(x, r), before);
      Enabled(s, LoopClosed) && s.loop == AwaitDispatch && IsRun(Apply(s, LoopClosed), during) && NoResume(during)
    ensures var s := After(Apply(After(Start(x, r), before), LoopClosed), during);
      Enabled(s, Resume) ==>
        && s.current.Some? && s.current.value in s.tasks && Executes(Apply(s, Resume), s.current.value)
        && ((forall t :: t in Apply(s, Resume).tasks ==> Tokens(Apply(s, Resume), t) <= 1)
            <==> Tokens(s, s.current.value) == 0)
  {
    hide Tokens, Executes;
    var s0 := After(Start(x, r), before);
    StartCore(x, r);
    RunKeepsCore(Start(x, r), before);
    GiveUpHere(s0);
    GivenUpRun(Apply(s0, LoopClosed), during);
    var s := After(Apply(s0, LoopClosed), during);
    if Enabled(s, Resume) {
      GivenUpResumes(s);
    }
  }

  lemma GiveUpHere(s: State)
    requires Core(s) && Enabled(s, LoopClosed) && s.loop == AwaitDispatch
    ensures GivenUp(Apply(s, LoopClosed))
  {
    assert Apply(s, LoopClosed).(loop := AwaitDispatch) == s;
  }

  ghost predicate Reaches(s: State, steps: seq<Step>, end: State) {
    IsRun(s, steps) && After(s, steps) == end
  }

  lemma ReachesNext(s: State, step: Step, rest: seq<Step>, end: State)
    requires Enabled(s, step) && Reaches(Apply(s, step), rest, end)
    ensures Reaches(s, [step] + rest, end)
  {
    assert ([step] + rest)[1..] == rest;
  }

  /** And it need not survive: the loop resumes the guest without a dispatch, next to the callback that
      is still running. */
  lemma ClosingBreaksTheToken(x: int, r: int)
    ensures exists steps, s :: (Reaches(Start(x, r), steps, s)
                                && s.closed && Executes(s, 0) && 0 in s.tasks && s.tasks[0].pc == InCallback)
  {
    var mid := FirstHook(r);
    ClosingSecondHalf(mid);
    var rest := [Send, Close, LoopClosed, Resume];
    var end := mid.(tasks := mid.tasks[0 := mid.tasks[0].(pc := InCallback)], emu := Guest, loop := AwaitSuspend,
                    closed := true);
    ClosingFirstHalf(x, r, rest, end);
    assert Executes(end, 0);
  }

  /** The main task has hit its first asynchronous hook and is about to hand out the callback. */
  function FirstHook(r: int): State {
    State(map[0 := Task(Running, false, true, r, RunOver, Idle)], Sending(0), AwaitDispatch, Some(0), false, r,
          false, false)
  }

  lemma ClosingFirstHalf(x: int, r: int, rest: seq<Step>, end: State)
    requires Reaches(FirstHook(r), rest, end)
    ensures Reaches(Start(x, r), [HookAsync] + ([AsyncSave(true)] + ([Suspend] + rest)), end)
  {
    hide IsRun, After, Reaches;
    var s1 := Apply(Start(x, r), HookAsync);
    var s2 := Apply(s1, AsyncSave(true));
    assert Apply(s2, Suspend).tasks == FirstHook(r).tasks;
    ReachesNext(s2, Suspend, rest, end);
    ReachesNext(s1, AsyncSave(true), [Suspend] + rest, end);
    ReachesNext(Start(x, r), HookAsync, [AsyncSave(true)] + ([Suspend] + rest), end);
  }

  lemma ClosingSecondHalf(s3: State)
    requires 0 in s3.tasks && s3.tasks[0].pc == Idle && s3.emu == Sending(0) && s3.loop == AwaitDispatch
    ensures var k := s3.tasks[0].(pc := InCallback);
      Reaches(s3, [Send, Close, LoopClosed, Resume],
              s3.(tasks := s3.tasks[0 := k], emu := Guest, loop := AwaitSuspend, closed := true))
  {
    var s4 := Apply(s3, Send);
    var s5 := Apply(s4, Close);
    var s6 := Apply(s5, LoopClosed);
    var s7 := Apply(s6, Resume);
    ReachesNext(s6, Resume, [], s7);
    ReachesNext(s5, LoopClosed, [Resume], s7);
    ReachesNext(s4, Close, [LoopClosed] + [Resume], s7);
    ReachesNext(s3, Send, [Close] + ([LoopClosed] + [Resume]), s7);
    assert [Send] + ([Close] + ([LoopClosed] + [Resume])) == [Send, Close, LoopClosed, Resume];
  }

  // ----- a task that is Done at its hook

  /** On its way off the CPU after a hook found it Done, or off it already, with no goroutine that
      could bring it back. */
  predicate Leaving(s: State, t: nat) {
    && t in s.tasks && s.tasks[t].run == RunOver
    && (s.emu == AsyncEntry(t, false) || s.emu == SyncEntry(t, false) || s.emu == AtSuspend(t, false)
        || Tokens(s, t) == 0)
  }

  /** The step is one of the task's own goroutines or of whoever may cancel it. */
  predicate IsTaskStep(step: Step) {
    step.Create? || step.CallRun? || step.RegWrite? || step.MarkDone? || step.Fire? || step.GiveUp? || step.Refuse?
    || step.Dispatch? || step.CallbackEnds? || step.TaskLoopEnds?
  }

  predicate IsLoopStep(step: Step) {
    step.Check? || step.RestoreOk? || step.RestoreFail? || step.Suspend? || step.Resume? || step.LoopClosed?
  }

  /** A closed scheduler lets the emulator thread go back to the guest instead of suspending. */
  predicate Slips(s: State, step: Step, t: nat) {
    step.SuspendClosed? && s.emu == AtSuspend(t, false)
  }

  /** A step that is not forced brings a leaving task back if and only if it lets it slip. */
  lemma LeavingStays(s: State, step: Step, t: nat)
    requires Core(s) && Leaving(s, t) && Enabled(s, step) && !Forced(s, step)
    ensures Leaving(Apply(s, step), t) <==> !Slips(s, step, t)
    ensures Slips(s, step, t) ==> Executes(Apply(s, step), t)
  {
    if Slips(s, step, t) {
      assert OnCpu(Apply(s, step), t);
    } else {
      hide Core, Leaving, Apply, Enabled, Slips, Forced;
      if IsTaskStep(step) {
        LeavingTaskStep(s, step, t);
      } else if step.Check? || step.RestoreOk? || step.RestoreFail? {
        LeavingRestoreStep(s, step, t);
      } else if IsLoopStep(step) {
        LeavingLoopStep(s, step, t);
      } else {
        LeavingEmuStep(s, step, t);
      }
    }
  }

  lemma LeavingTaskStep(s: State, step: Step, t: nat)
    requires Core(s) && Leaving(s, t) && Enabled(s, step) && IsTaskStep(step)
    ensures Leaving(Apply(s, step), t)
  {
    hide RegsOk, LoopAgrees;
    assert TaskOk(s, t);
  }

  lemma LeavingRestoreStep(s: State, step: Step, t: nat)
    requires Core(s) && Leaving(s, t) && Enabled(s, step) && (step.Check? || step.RestoreOk? || step.RestoreFail?)
    ensures Leaving(Apply(s, step), t)
  {
    hide RegsOk;
    assert TaskOk(s, t);
  }

  lemma LeavingLoopStep(s: State, step: Step, t: nat)
    requires Core(s) && Leaving(s, t) && !Forced(s, step) && Enabled(s, step)
    requires step.Suspend? || step.Resume? || step.LoopClosed?
    ensures Leaving(Apply(s, step), t)
  {
    hide RegsOk;
    assert TaskOk(s, t);
  }

  lemma LeavingEmuStep(s: State, step: Step, t: nat)
    requires Core(s) && Leaving(s, t) && Enabled(s, step) && !IsTaskStep(step) && !IsLoopStep(step)
    requires !Slips(s, step, t)
    ensures Leaving(Apply(s, step), t)
  {
    hide Leaving, Apply, Enabled, Slips, Core;
    if step.AsyncSave? || step.SyncSave? {
      LeavingSaveStep(s, step, t);
    } else if step.SyncCheck? {
      LeavingSyncStep(s, step, t);
    } else {
      LeavingOtherStep(s, step, t);
    }
  }

  lemma LeavingSaveStep(s: State, step: Step, t: nat)
    requires Core(s) && Leaving(s, t) && Enabled(s, step) && (step.AsyncSave? || step.SyncSave?)
    ensures Leaving(Apply(s, step), t)
  {
    hide RegsOk, LoopAgrees;
    assert TaskOk(s, t);
  }

  lemma LeavingSyncStep(s: State, step: Step, t: nat)
    requires Core(s) && Leaving(s, t) && Enabled(s, step) && step.SyncCheck?
    ensures Leaving(Apply(s, step), t)
  {
    hide RegsOk, LoopAgrees;
    assert TaskOk(s, t);
  }

  lemma LeavingOtherStep(s: State, step: Step, t: nat)
    requires Core(s) && Leaving(s, t) && Enabled(s, step) && !IsTaskStep(step) && !IsLoopStep(step)
    requires !(step.SyncSave? || step.SyncCheck? || step.AsyncSave?)
    requires !Slips(s, step, t)
    ensures Leaving(Apply(s, step), t)
  {
    hide RegsOk, LoopAgrees;
    assert TaskOk(s, t);
  }

  /** No step of the run is forced or lets task `t` slip. */
  predicate Holds(s: State, steps: seq<Step>, t: nat)
    requires IsRun(s, steps)
    decreases |steps|
  {
    steps != [] ==>
      !Forced(s, steps[0]) && !Slips(s, steps[0], t) && Holds(Apply(s, steps[0]), steps[1..], t)
  }

  lemma {:induction false} LeavingForGood(s: State, steps: seq<Step>, t: nat)
    requires Core(s) && Leaving(s, t) && IsRun(s, steps) && Holds(s, steps, t)
    ensures Core(After(s, steps)) && Leaving(After(s, steps), t)
    decreases |steps|
  {
    hide Core, Apply, Enabled, Leaving, Forced, Slips;
    if steps != [] {
      StepKeepsCore(s, steps[0]);
      LeavingStays(s, steps[0], t);
      LeavingForGood(Apply(s, steps[0]), steps[1..], t);
    }
  }

  /** Before closing nothing slips. */
  lemma {:induction false} OpenHolds(s: State, steps: seq<Step>, t: nat)
    requires IsRun(s, steps) && !After(s, steps).closed
    ensures Holds(s, steps, t) && !s.closed
    decreases |steps|
  {
    if steps != [] {
      OpenHolds(Apply(s, steps[0]), steps[1..], t);
    }
  }

  /** A task that is Done when its asynchronous or synchronous hook fires never executes again, unless a
      closed scheduler lets it slip back to the guest or resumes it without a dispatch. */
  lemma DoneAtHookNeverResumes(x: int, r: int, before: seq<Step>, hook: Step, after: seq<Step>, t: nat)
    requires IsRun(Start(x, r), before) && Orderly(Start(x, r), before)
    requires var s := After(Start(x, r), before);
      Executes(s, t) && t in s.tasks && s.tasks[t].status == Finished
      && (hook == HookAsync || hook == HookSync)
      && IsRun(Apply(s, hook), after) && Holds(Apply(s, hook), after, t)
    ensures var s' := After(Apply(After(Start(x, r), before), hook), after);
      t in s'.tasks && !Executes(s', t) && s'.tasks[t].pc != InCallback && !Waiting(s'.tasks[t])
  {
    hide Start, Orderly, Holds, IsRun, After;
    var s := After(Start(x, r), before);
    var h := Apply(s, hook);
    StartCore(x, r);
    RunKeepsCore(Start(x, r), before);
    StepKeepsCore(s, hook);
    LeavingForGood(h, after, t);
    LeavingIsOff(After(h, after), t);
  }

  /** As long as the scheduler is open that is without exception. */
  lemma DoneAtHookWhileOpen(x: int, r: int, before: seq<Step>, hook: Step, after: seq<Step>, t: nat)
    requires IsRun(Start(x, r), before)
    requires var s := After(Start(x, r), before);
      Executes(s, t) && t in s.tasks && s.tasks[t].status == Finished
      && (hook == HookAsync || hook == HookSync)
      && IsRun(Apply(s, hook), after) && !After(Apply(s, hook), after).closed
    ensures var s' := After(Apply(After(Start(x, r), before), hook), after);
      t in s'.tasks && !Executes(s', t) && s'.tasks[t].pc != InCallback && !Waiting(s'.tasks[t])
  {
    var s := After(Start(x, r), before);
    OpenHolds(Apply(s, hook), after, t);
    assert Apply(s, hook).closed == s.closed;
    OpenIsOrderly(Start(x, r), before);
    DoneAtHookNeverResumes(x, r, before, hook, after, t);
  }

  lemma LeavingIsOff(s: State, t: nat)
    requires Core(s) && Leaving(s, t)
    ensures t in s.tasks && !Executes(s, t) && s.tasks[t].pc != InCallback && !Waiting(s.tasks[t])
  {
    assert TaskOk(s, t);
  }

  // ----- what the loop may do, and when

  /** Whenever the loop resumes the emulator after a dispatch, the registers are those saved for the
      dispatched task, which is the current one, whether or not a restore was skipped or another
      task's restore has failed in between. */
  lemma ResumeFindsRegisters(x: int, r: int, steps: seq<Step>)
    requires IsRun(Start(x, r), steps) && Orderly(Start(x, r), steps)
    ensures var s := After(Start(x, r), steps);
      Enabled(s, Resume) ==>
        s.current.Some? && s.loop == Offering(s.current) && s.current.value in s.tasks
        && s.regs == s.tasks[s.current.value].saved
  {
    var s := After(Start(x, r), steps);
    StartCore(x, r);
    RunKeepsCore(Start(x, r), steps);
  }

  /** Handshake safety: the loop checks and restores and the current task changes only between the suspend
      and resume rendezvous of the emulator thread; and the registers change only there, by guest
      execution, or when a synchronous hook puts its own changes back.  That functions sent to the
      emulator thread run only there is how it receives them: nowhere else does it take any. */
  lemma HandshakeSafety(x: int, r: int, steps: seq<Step>, step: Step)
    requires IsRun(Start(x, r), steps) && Orderly(Start(x, r), steps)
    requires Enabled(After(Start(x, r), steps), step)
    ensures var s := After(Start(x, r), steps);
      var s' := Apply(s, step);
      && (step.Check? || step.RestoreOk? || step.RestoreFail? || step.Execute? ==> Suspended(s.emu))
      && (s'.current != s.current ==> Suspended(s.emu) || step.EmuStops?)
      && (s'.regs != s.regs ==> Suspended(s.emu) || step.GuestRuns? || step.SyncCheck?)
  {
    hide Core, Enabled, Apply;
    StartCore(x, r);
    RunKeepsCore(Start(x, r), steps);
    HandshakeStep(After(Start(x, r), steps), step);
  }

  lemma HandshakeStep(s: State, step: Step)
    requires Core(s) && Enabled(s, step)
    ensures var s' := Apply(s, step);
      && (step.Check? || step.RestoreOk? || step.RestoreFail? || step.Execute? ==> Suspended(s.emu))
      && (s'.current != s.current ==> Suspended(s.emu) || step.EmuStops?)
      && (s'.regs != s.regs ==> Suspended(s.emu) || step.GuestRuns? || step.SyncCheck?)
  {
    hide RegsOk, TaskOk;
  }

  /** No guest code can be executing: the emulator has stopped or is inside a synchronous callback. */
  predicate Clear(s: State) {
    s.emu == Stopped || s.emu.SyncCallback?
  }

  /** What mainThreadRun looks at before it calls its function on the spot; once closed, its select may
      take that branch as well. */
  predicate OnTheSpot(s: State) {
    s.current == None || s.hasSync || s.closed
  }

  /** At the moment it looks, a call on the spot is chosen exactly when no guest code can be executing, or
      the scheduler has been closed. */
  lemma DirectCallsAreSafe(x: int, r: int, steps: seq<Step>)
    requires IsRun(Start(x, r), steps) && Orderly(Start(x, r), steps)
    ensures var s := After(Start(x, r), steps);
      && (s.current == None || s.hasSync <==> Clear(s))
      && (OnTheSpot(s) <==> Clear(s) || s.closed)
  {
    var s := After(Start(x, r), steps);
    StartCore(x, r);
    RunKeepsCore(Start(x, r), steps);
  }

  /** Once closed the guest may be executing when the call is made: nothing but the close is needed. */
  lemma ClosedCallMeetsGuest(x: int, r: int)
    ensures exists steps, s :: Reaches(Start(x, r), steps, s) && OnTheSpot(s) && Executes(s, 0)
  {
    var s0 := Start(x, r);
    var s1 := Apply(s0, Close);
    ReachesSelf(s1);
    ReachesNext(s0, Close, [], s1);
    assert OnTheSpot(s1) && Executes(s1, 0);
  }

  /** A call begun on the spot stays clear of the guest for one more step exactly if the synchronous
      callback does not end. */
  lemma ClearStays(s: State, step: Step)
    requires Clear(s) && Enabled(s, step)
    ensures Clear(Apply(s, step)) <==> step != SyncEnds
  {
  }

  /** Every state of the run is clear. */
  predicate ClearAlong(s: State, steps: seq<Step>)
    requires IsRun(s, steps)
    decreases |steps|
  {
    Clear(s) && (steps != [] ==> ClearAlong(Apply(s, steps[0]), steps[1..]))
  }

  /** So however long the call takes, it stays clear exactly as long as no synchronous callback ends; and
      one begun after the emulator has stopped, for good. */
  lemma {:induction false} ClearForTheCall(s: State, steps: seq<Step>)
    requires Clear(s) && IsRun(s, steps)
    ensures ClearAlong(s, steps) <==> SyncEnds !in steps
    ensures s.emu == Stopped ==> ClearAlong(s, steps)
    decreases |steps|
  {
    if steps != [] {
      ClearStays(s, steps[0]);
      assert steps == [steps[0]] + steps[1..];
      if steps[0] != SyncEnds {
        ClearForTheCall(Apply(s, steps[0]), steps[1..]);
      }
    }
  }

  /** The decision can be out of date by the time of the call: from a state in which another goroutine
      would decide so, the guest is back on the CPU two steps later. */
  lemma DirectCallCanBeLate(x: int, r: int)
    ensures exists first, s, then_, s' ::
      Reaches(Start(x, r), first, s) && s.hasSync && Reaches(s, then_, s') && Executes(s', 0)
  {
    hide Reaches, Start;
    IntoCallback(x, r);
    OutOfCallback(r);
    assert InCallbackOf(r, true).hasSync;
  }

  /** The main task in its first synchronous hook: before and after the callback, and back in the guest. */
  function InCallbackOf(r: int, during: bool): State {
    var main := Task(Running, false, true, r, RunOver, Idle);
    State(map[0 := main], if during then SyncCallback(0) else SyncAfter(0), AwaitSuspend, Some(0), during, r,
          false, false)
  }

  function AfterCallback(r: int): State {
    State(map[0 := Task(Running, false, false, r, RunOver, Idle)], Guest, AwaitSuspend, Some(0), false, r, false, false)
  }

  lemma IntoCallback(x: int, r: int)
    ensures Reaches(Start(x, r), [HookSync] + ([SyncSave(true)] + []), InCallbackOf(r, true))
  {
    hide IsRun, After, Reaches;
    var s1 := Apply(Start(x, r), HookSync);
    assert Apply(s1, SyncSave(true)).tasks == InCallbackOf(r, true).tasks;
    ReachesSelf(InCallbackOf(r, true));
    ReachesNext(s1, SyncSave(true), [], InCallbackOf(r, true));
    ReachesNext(Start(x, r), HookSync, [SyncSave(true)] + [], InCallbackOf(r, true));
  }

  lemma OutOfCallback(r: int)
    ensures Reaches(InCallbackOf(r, true), [SyncEnds] + ([SyncCheck(true, r)] + []), AfterCallback(r))
    ensures Executes(AfterCallback(r), 0)
  {
    hide IsRun, After, Reaches;
    var s := InCallbackOf(r, false);
    assert Apply(InCallbackOf(r, true), SyncEnds) == s;
    assert Apply(s, SyncCheck(true, r)).tasks == AfterCallback(r).tasks;
    ReachesSelf(AfterCallback(r));
    ReachesNext(s, SyncCheck(true, r), [], AfterCallback(r));
    ReachesNext(InCallbackOf(r, true), SyncEnds, [SyncCheck(true, r)] + [], AfterCallback(r));
  }

  lemma ReachesSelf(s: State)
    ensures Reaches(s, [], s)
  {
  }
}
