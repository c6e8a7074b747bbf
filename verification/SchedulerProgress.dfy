/** No task is lost: a task that has been run and is neither Done nor cancelled is always in exactly one
    place, and can always get back to the CPU; and what it writes to its registers gets there with it. */
module SchedulerProgress {
  import opened Scheduler
  import opened SchedulerProof
  import opened Wrappers

  /** The task has been run, is below Done, and nobody has closed its context or the scheduler. */
  predicate Live(s: State, t: nat) {
    t in s.tasks && s.tasks[t].run != NotRun && s.tasks[t].status != Finished && !s.tasks[t].cancelled && !s.closed
  }

  /** A hook that does not call back, or a suspend without a callback, is one of a task that is Done. */
  predicate Done(s: State, t: nat) {
    t in s.tasks && s.tasks[t].status == Finished
  }

  predicate Entries(s: State) {
    && (s.emu.AsyncEntry? && !s.emu.call ==> Done(s, s.emu.t))
    && (s.emu.SyncEntry? && !s.emu.live ==> Done(s, s.emu.t))
    && (s.emu.AtSuspend? && !s.emu.call ==> Done(s, s.emu.t))
    && (s.emu == Stopped <==> s.emuErr)
    && (s.loop == Exited ==> s.closed)
  }

  /** A live task is in exactly one place, and only a cancelled one has ended its goroutine. */
  ghost predicate Kept(s: State, t: nat)
    requires t in s.tasks
  {
    (Live(s, t) ==> Tokens(s, t) == 1) && (s.tasks[t].pc == LoopOver ==> s.tasks[t].cancelled)
  }

  ghost predicate Alive(s: State) {
    Core(s) && Entries(s) && forall t :: t in s.tasks ==> Kept(s, t)
  }

  // ----- exactly which steps lose a task

  /** The waiting goroutine of the task gives up, or its callback is not handed out. */
  predicate Loses(s: State, step: Step, t: nat) {
    step == GiveUp(t) || (step == SendCancelled && s.emu == Sending(t))
  }

  /** A task below Done that is in one place stays so, or becomes Done, in every step but these two; and
      these need its context to be cancelled, or the scheduler closed. */
  lemma LosingIsExact(s: State, step: Step, t: nat)
    requires Core(s) && Entries(s) && t in s.tasks && s.tasks[t].status != Finished && Tokens(s, t) == 1
    requires Enabled(s, step) && !Forced(s, step)
    ensures t in Apply(s, step).tasks
    ensures Loses(s, step, t) <==> Apply(s, step).tasks[t].status != Finished && Tokens(Apply(s, step), t) == 0
    ensures !Loses(s, step, t) && Apply(s, step).tasks[t].status != Finished ==> Tokens(Apply(s, step), t) == 1
    ensures Loses(s, step, t) ==> s.tasks[t].cancelled || s.closed
  {
    CoreParts(s, t);
    hide Core, Apply, Enabled, Entries, Tokens, Forced, TaskOk, EmuAgrees, LoopAgrees;
    if IsTaskStep(step) {
      TaskStepTokens(s, step, t);
    } else if IsLoopStep(step) {
      LoopStepTokens(s, step, t);
    } else {
      EmuStepTokens(s, step, t);
    }
  }

  lemma CoreParts(s: State, t: nat)
    requires Core(s) && t in s.tasks
    ensures EmuAgrees(s) && LoopAgrees(s) && TaskOk(s, t)
  {
  }

  /** The task has become Done, or is in `n` places. */
  predicate Left(s: State, t: nat, n: nat) {
    t in s.tasks && (s.tasks[t].status == Finished || Tokens(s, t) == n)
  }

  lemma TaskStepTokens(s: State, step: Step, t: nat)
    requires t in s.tasks && TaskOk(s, t) && s.tasks[t].status != Finished && Tokens(s, t) == 1
    requires Enabled(s, step) && IsTaskStep(step)
    ensures Left(Apply(s, step), t, if step == GiveUp(t) then 0 else 1)
    ensures step == GiveUp(t) ==>
      (s.tasks[t].cancelled || s.closed) && Apply(s, step).tasks[t].status != Finished
  {
    if step.GiveUp? || step.Refuse? || step.Dispatch? {
      WaitStepTokens(s, step, t);
    } else {
      hide TaskOk;
      assert step == CallRun(t) ==> s.tasks[t].run != NotRun by { RunOnce(s, t); }
      OwnStepTokens(s, step, t);
    }
  }

  lemma RunOnce(s: State, t: nat)
    requires t in s.tasks && TaskOk(s, t) && Tokens(s, t) == 1
    ensures s.tasks[t].run != NotRun
  {
  }

  lemma WaitStepTokens(s: State, step: Step, t: nat)
    requires t in s.tasks && s.tasks[t].status != Finished && Tokens(s, t) == 1
    requires Enabled(s, step) && (step.GiveUp? || step.Refuse? || step.Dispatch?)
    ensures Left(Apply(s, step), t, if step == GiveUp(t) then 0 else 1)
    ensures step == GiveUp(t) ==>
      (s.tasks[t].cancelled || s.closed) && Apply(s, step).tasks[t].status != Finished
  {
  }

  lemma OwnStepTokens(s: State, step: Step, t: nat)
    requires t in s.tasks && s.tasks[t].run != NotRun && s.tasks[t].status != Finished && Tokens(s, t) == 1
    requires Enabled(s, step) && IsTaskStep(step) && !(step.GiveUp? || step.Refuse? || step.Dispatch?)
    ensures Left(Apply(s, step), t, 1)
  {
  }

  lemma LoopStepTokens(s: State, step: Step, t: nat)
    requires EmuAgrees(s) && LoopAgrees(s) && Entries(s)
    requires t in s.tasks && s.tasks[t].status != Finished && Tokens(s, t) == 1
    requires Enabled(s, step) && !Forced(s, step) && IsLoopStep(step)
    ensures Left(Apply(s, step), t, 1)
  {
  }

  lemma EmuStepTokens(s: State, step: Step, t: nat)
    requires EmuAgrees(s) && t in s.tasks && s.tasks[t].status != Finished && Tokens(s, t) == 1
    requires Enabled(s, step) && !IsTaskStep(step) && !IsLoopStep(step)
    ensures Left(Apply(s, step), t, if step == SendCancelled && s.emu == Sending(t) then 0 else 1)
    ensures step == SendCancelled && s.emu == Sending(t) ==>
      s.tasks[t].cancelled && Apply(s, step).tasks[t].status != Finished
  {
    hide EmuAgrees, Apply, Enabled, Tokens, Left;
    if step.AsyncSave? {
      AsyncSaveTokens(s, step, t);
    } else if step.EmuStops? {
      EmuStopsTokens(s, t);
    } else if step.SyncSave? {
      SyncSaveTokens(s, step, t);
    } else if step.SyncCheck? {
      SyncCheckTokens(s, step, t);
    } else {
      MoveStepTokens(s, step, t);
    }
  }

  lemma AsyncSaveTokens(s: State, step: Step, t: nat)
    requires EmuAgrees(s) && t in s.tasks && s.tasks[t].status != Finished && Tokens(s, t) == 1
    requires step.AsyncSave? && Enabled(s, step)
    ensures Left(Apply(s, step), t, 1)
  {
  }

  lemma EmuStopsTokens(s: State, t: nat)
    requires EmuAgrees(s) && t in s.tasks && s.tasks[t].status != Finished && Tokens(s, t) == 1
    requires Enabled(s, EmuStops)
    ensures Left(Apply(s, EmuStops), t, 1)
  {
  }

  lemma SyncSaveTokens(s: State, step: Step, t: nat)
    requires EmuAgrees(s) && t in s.tasks && s.tasks[t].status != Finished && Tokens(s, t) == 1
    requires step.SyncSave? && Enabled(s, step)
    ensures Left(Apply(s, step), t, 1)
  {
  }

  lemma SyncCheckTokens(s: State, step: Step, t: nat)
    requires EmuAgrees(s) && t in s.tasks && s.tasks[t].status != Finished && Tokens(s, t) == 1
    requires step.SyncCheck? && Enabled(s, step)
    ensures Left(Apply(s, step), t, 1)
  {
  }

  lemma MoveStepTokens(s: State, step: Step, t: nat)
    requires EmuAgrees(s) && t in s.tasks && s.tasks[t].status != Finished && Tokens(s, t) == 1
    requires Enabled(s, step) && !IsTaskStep(step) && !IsLoopStep(step)
    requires !(step.AsyncSave? || step.SyncSave? || step.SyncCheck? || step.EmuStops?)
    ensures Left(Apply(s, step), t, if step == SendCancelled && s.emu == Sending(t) then 0 else 1)
    ensures Apply(s, step).tasks[t].status != Finished
    ensures step == SendCancelled && s.emu == Sending(t) ==> s.tasks[t].cancelled
  {
  }

  // ----- what every step keeps

  lemma EntriesStay(s: State, step: Step)
    requires Core(s) && Entries(s) && Enabled(s, step) && !Forced(s, step)
    ensures Entries(Apply(s, step))
  {
    assert EmuAgrees(s) && LoopAgrees(s);
    hide Core, Entries, Apply, Enabled, Forced, LoopAgrees, EmuAgrees;
    if IsTaskStep(step) {
      TaskStepEntries(s, step);
    } else if IsLoopStep(step) {
      LoopStepEntries(s, step);
    } else {
      EmuStepEntries(s, step);
    }
  }

  lemma TaskStepEntries(s: State, step: Step)
    requires Entries(s) && Enabled(s, step) && IsTaskStep(step)
    ensures Entries(Apply(s, step))
  {
  }

  lemma LoopStepEntries(s: State, step: Step)
    requires EmuAgrees(s) && LoopAgrees(s) && Entries(s) && Enabled(s, step) && !Forced(s, step) && IsLoopStep(step)
    ensures Entries(Apply(s, step))
  {
  }

  lemma EmuStepEntries(s: State, step: Step)
    requires EmuAgrees(s) && Entries(s) && Enabled(s, step) && !IsTaskStep(step) && !IsLoopStep(step)
    ensures Entries(Apply(s, step))
  {
  }

  /** The task is further on: what it has been, and whether it has been run by this step. */
  predicate Further(k: Task, k': Task, run: bool) {
    && (k.status == Finished ==> k'.status == Finished) && (k.cancelled ==> k'.cancelled)
    && (k'.run == NotRun <==> k.run == NotRun && !run)
    && (k'.pc == LoopOver ==> k.pc == LoopOver || k.cancelled)
  }

  /** Being run, Done, cancelled and closed are for good. */
  lemma OnlyOn(s: State, step: Step, t: nat)
    requires Enabled(s, step) && t in s.tasks
    ensures var s' := Apply(s, step);
      t in s'.tasks && (s.closed ==> s'.closed) && Further(s.tasks[t], s'.tasks[t], step == CallRun(t))
  {
    hide Apply, Enabled, Further;
    if IsTaskStep(step) {
      TaskStepOn(s, step, t);
    } else if IsLoopStep(step) {
      LoopStepOn(s, step, t);
    } else if step.AsyncSave? || step.SyncSave? {
      SaveStepOn(s, step, t);
    } else {
      OtherStepOn(s, step, t);
    }
  }

  lemma TaskStepOn(s: State, step: Step, t: nat)
    requires Enabled(s, step) && t in s.tasks && IsTaskStep(step)
    ensures var s' := Apply(s, step);
      t in s'.tasks && s.closed == s'.closed && Further(s.tasks[t], s'.tasks[t], step == CallRun(t))
  {
  }

  lemma LoopStepOn(s: State, step: Step, t: nat)
    requires Enabled(s, step) && t in s.tasks && IsLoopStep(step)
    ensures var s' := Apply(s, step);
      t in s'.tasks && s.closed == s'.closed && Further(s.tasks[t], s'.tasks[t], false)
  {
  }

  lemma SaveStepOn(s: State, step: Step, t: nat)
    requires Enabled(s, step) && t in s.tasks && (step.AsyncSave? || step.SyncSave?)
    ensures var s' := Apply(s, step);
      t in s'.tasks && s.closed == s'.closed && Further(s.tasks[t], s'.tasks[t], false)
  {
  }

  lemma OtherStepOn(s: State, step: Step, t: nat)
    requires Enabled(s, step) && t in s.tasks
    requires !IsTaskStep(step) && !IsLoopStep(step) && !step.AsyncSave? && !step.SyncSave?
    ensures var s' := Apply(s, step);
      t in s'.tasks && (s.closed ==> s'.closed) && Further(s.tasks[t], s'.tasks[t], false)
  {
  }

  lemma KeptStays(s: State, step: Step, t: nat)
    requires Core(s) && Entries(s) && t in s.tasks && Kept(s, t) && Enabled(s, step) && !Forced(s, step)
    ensures t in Apply(s, step).tasks && Kept(Apply(s, step), t)
  {
    hide Core, Entries, Tokens, Apply, Enabled, Forced, Loses;
    OnlyOn(s, step, t);
    if Live(Apply(s, step), t) {
      if s.tasks[t].run == NotRun {
        RunGivesToken(s, t);
      } else {
        LosingIsExact(s, step, t);
      }
    }
  }

  lemma RunGivesToken(s: State, t: nat)
    requires Core(s) && Enabled(s, CallRun(t))
    ensures t in Apply(s, CallRun(t)).tasks && Tokens(Apply(s, CallRun(t)), t) == 1
  {
    assert TaskOk(s, t);
  }

  lemma StepKeepsAlive(s: State, step: Step)
    requires Alive(s) && Enabled(s, step) && !Forced(s, step)
    ensures Alive(Apply(s, step))
  {
    hide Core, Entries, Apply, Enabled, Forced, Kept;
    StepKeepsCore(s, step);
    EntriesStay(s, step);
    var s' := Apply(s, step);
    forall t | t in s'.tasks ensures Kept(s', t) {
      if t in s.tasks {
        KeptStays(s, step, t);
      } else {
        NewIsKept(s, step, t);
      }
    }
  }

  lemma NewIsKept(s: State, step: Step, t: nat)
    requires Enabled(s, step) && Core(s) && t !in s.tasks && t in Apply(s, step).tasks
    ensures Kept(Apply(s, step), t)
  {
    hide RegsOk, TaskOk;
  }

  lemma StartAlive(x: int, r: int)
    ensures Alive(Start(x, r))
  {
  }

  lemma {:induction false} RunKeepsAlive(s: State, steps: seq<Step>)
    requires Alive(s) && IsRun(s, steps) && Orderly(s, steps)
    ensures Alive(After(s, steps))
    decreases |steps|
  {
    hide Alive, Apply, Enabled, Forced;
    if steps != [] {
      StepKeepsAlive(s, steps[0]);
      RunKeepsAlive(Apply(s, steps[0]), steps[1..]);
    }
  }

  /** The token is never lost: after every interleaving that leaves the scheduler open, each task that has
      been run, is below Done and has not had its context cancelled is in exactly one place. */
  lemma NoTaskIsLost(x: int, r: int, steps: seq<Step>, t: nat)
    requires IsRun(Start(x, r), steps)
    ensures Live(After(Start(x, r), steps), t) ==> Tokens(After(Start(x, r), steps), t) == 1
  {
    hide Core, Entries, Tokens;
    if Live(After(Start(x, r), steps), t) {
      StartAlive(x, r);
      OpenIsOrderly(Start(x, r), steps);
      RunKeepsAlive(Start(x, r), steps);
      assert Kept(After(Start(x, r), steps), t);
    }
  }

  /** A context cancelled from outside: the task is below Done and nowhere, so it is never run. */
  lemma CancelledIsLost(x: int, r: int, y: int)
    ensures exists steps, s :: (Reaches(Start(x, r), steps, s) && !s.closed && !s.emuErr
                                && 1 in s.tasks && s.tasks[1].status == Pending && Tokens(s, 1) == 0
                                && s.tasks[1].run == RunOver)
  {
    hide IsRun, After, Reaches, Start;
    var s0 := Start(x, r);
    NothingOfOne(x, r);
    var s1 := Apply(s0, Create(1, y));
    var s2 := Apply(s1, CallRun(1));
    var s3 := Apply(s2, Fire(1));
    var s4 := Apply(s3, GiveUp(1));
    ReachesSelf(s4);
    ReachesNext(s3, GiveUp(1), [], s4);
    ReachesNext(s2, Fire(1), [GiveUp(1)] + [], s4);
    ReachesNext(s1, CallRun(1), [Fire(1)] + ([GiveUp(1)] + []), s4);
    ReachesNext(s0, Create(1, y), [CallRun(1)] + ([Fire(1)] + ([GiveUp(1)] + [])), s4);
    assert Tokens(s4, 1) == 0;
  }

  lemma NothingOfOne(x: int, r: int)
    ensures var s := Start(x, r);
      1 !in s.tasks && !s.closed && !s.emuErr && s.current == Some(0) && s.emu == Guest && s.loop == AwaitSuspend
  {
  }

  // ----- a live task can always get back to the CPU

  /** A step that brings the emulator thread, the loop or task `t` nearer to `t` executing. */
  function Next(s: State, t: nat): Step
    requires t in s.tasks && Core(s)
  {
    match s.emu
    case Guest => HookAsync
    case AsyncEntry(_, _) => AsyncSave(true)
    case SyncEntry(_, _) => SyncSave(true)
    case SyncCallback(_) => SyncEnds
    case SyncAfter(_) => SyncCheck(true, 0)
    case AtSuspend(_, _) => Suspend
    case Sending(u) => if s.tasks[u].pc == Idle then Send else SendCancelled
    case AtResume =>
      (match s.loop
       case AwaitDispatch => if s.tasks[t].pc == InCallback then CallbackEnds(t) else Dispatch(t)
       case Got(_) => Check
       case Restoring(_) => RestoreOk
       case _ => Resume)
    case Stopped => Execute
  }

  function LoopRank(s: State, t: nat): nat
    requires t in s.tasks
  {
    match s.loop
    case AwaitDispatch => if s.tasks[t].pc == InCallback then 11 else 10
    case Got(d) => if d == t then 9 else 40
    case Restoring(d) => if d == t then 8 else 39
    case Offering(d) => if d == Some(t) then 7 else 38
    case _ => 0
  }

  /** How far it is at most. */
  function Rank(s: State, t: nat): nat
    requires t in s.tasks
  {
    match s.emu
    case Guest => if s.current == Some(t) then 0 else 20
    case SyncEntry(_, _) => 23
    case SyncCallback(_) => 22
    case SyncAfter(_) => 21
    case AsyncEntry(_, _) => 19
    case AtSuspend(_, _) => 18
    case Sending(_) => LoopRank(s, t) + 5
    case AtResume => LoopRank(s, t)
    case Stopped => 0
  }

  /** As long as the task does not execute there is a next step, and it brings it nearer. */
  lemma NextAdvances(s: State, t: nat)
    requires Alive(s) && Live(s, t) && s.emu != Stopped && !Executes(s, t)
    ensures var step := Next(s, t);
      && Enabled(s, step) && !Forced(s, step)
      && Live(Apply(s, step), t) && Apply(s, step).emu != Stopped && Rank(Apply(s, step), t) < Rank(s, t)
  {
    hide Core, Kept, Next, Rank, Tokens;
    assert Kept(s, t);
    if s.emu == AtResume {
      NextAtResume(s, t);
    } else if s.emu.Sending? {
      assert s.emu.t in s.tasks && Kept(s, s.emu.t) by { CoreSending(s); }
      NextSending(s, t);
    } else {
      NextGuestSide(s, t);
    }
  }

  lemma CoreSending(s: State)
    requires Core(s) && s.emu.Sending?
    ensures s.emu.t in s.tasks
  {
  }

  lemma NextGuestSide(s: State, t: nat)
    requires Core(s) && Entries(s) && Live(s, t) && GuestSide(s.emu) && !Executes(s, t)
    ensures var step := Next(s, t);
      && Enabled(s, step) && !Forced(s, step)
      && Live(Apply(s, step), t) && Apply(s, step).emu != Stopped && Rank(Apply(s, step), t) < Rank(s, t)
  {
    hide RegsOk, TaskOk;
  }

  lemma NextSending(s: State, t: nat)
    requires Core(s) && Live(s, t) && s.emu.Sending? && s.emu.t in s.tasks && Kept(s, s.emu.t)
    ensures var step := Next(s, t);
      && Enabled(s, step) && !Forced(s, step)
      && Live(Apply(s, step), t) && Apply(s, step).emu != Stopped && Rank(Apply(s, step), t) < Rank(s, t)
  {
    hide RegsOk;
    assert TaskOk(s, s.emu.t) && TaskOk(s, t);
  }

  lemma NextAtResume(s: State, t: nat)
    requires Core(s) && Live(s, t) && s.emu == AtResume && Kept(s, t)
    ensures var step := Next(s, t);
      && Enabled(s, step) && !Forced(s, step)
      && Live(Apply(s, step), t) && Apply(s, step).emu != Stopped && Rank(Apply(s, step), t) < Rank(s, t)
  {
    hide RegsOk, TaskOk;
  }

  /** By which steps the current task goes on, and with which registers. */
  lemma GoesOnWith(s: State, t: nat)
    requires Core(s) && Live(s, t) && s.emu != Stopped && !Executes(s, t) && Enabled(s, Next(s, t))
    ensures var s' := Apply(s, Next(s, t));
      Executes(s', t) ==> t in s'.tasks && s'.regs == s'.tasks[t].saved
  {
    hide TaskOk;
  }

  /** From every such state there is a way for the task to the CPU, on which it is not ended: no
      interleaving leaves it waiting for something that cannot happen any more. */
  lemma {:induction false} WayToCpu(s: State, t: nat) returns (steps: seq<Step>, s': State)
    requires Alive(s) && Live(s, t) && s.emu != Stopped
    ensures Reaches(s, steps, s') && Executes(s', t) && Live(s', t)
    ensures steps != [] ==> s'.regs == s'.tasks[t].saved
    decreases Rank(s, t)
  {
    hide Alive, Apply, Enabled, Forced, Next, Rank, Reaches;
    if Executes(s, t) {
      ReachesSelf(s);
      return [], s;
    }
    NextAdvances(s, t);
    AliveCore(s);
    var step := Next(s, t);
    StepKeepsAlive(s, step);
    GoesOnWith(s, t);
    var rest;
    rest, s' := WayToCpu(Apply(s, step), t);
    ReachesNext(s, step, rest, s');
    steps := [step] + rest;
    if rest == [] {
      ReachesNothing(Apply(s, step), s');
    }
  }

  lemma ReachesNothing(s: State, s': State)
    requires Reaches(s, [], s')
    ensures s == s'
  {
  }

  lemma AliveCore(s: State)
    requires Alive(s)
    ensures Core(s)
  {
  }

  /** Over all runs: as long as the scheduler is open and the emulator has not stopped, every task that has
      been run, is below Done and has not been cancelled can still get to the CPU, and with the registers
      saved for it. */
  lemma EveryLiveTaskCanRun(x: int, r: int, steps: seq<Step>, t: nat)
    requires IsRun(Start(x, r), steps)
    ensures var s := After(Start(x, r), steps);
      Live(s, t) && s.emu != Stopped ==>
        exists rest, s' :: (Reaches(s, rest, s') && Executes(s', t) && Live(s', t)
                            && (rest != [] ==> s'.regs == s'.tasks[t].saved))
  {
    hide Alive, Reaches;
    var s := After(Start(x, r), steps);
    if Live(s, t) && s.emu != Stopped {
      StartAlive(x, r);
      OpenIsOrderly(Start(x, r), steps);
      RunKeepsAlive(Start(x, r), steps);
      var rest, s' := WayToCpu(s, t);
    }
  }

  // ----- registers written by a task get to the CPU

  /** After a synchronous callback the guest goes on exactly if its task is below Done and the registers it
      has written can be restored, and then with them; otherwise the task is Done and suspends. */
  lemma SyncGoesOn(x: int, r: int, steps: seq<Step>, ok: bool, garbage: int)
    requires IsRun(Start(x, r), steps) && Orderly(Start(x, r), steps)
    ensures var s := After(Start(x, r), steps);
      Enabled(s, SyncCheck(ok, garbage)) ==>
        var s', t := Apply(s, SyncCheck(ok, garbage)), s.emu.t;
        && t in s'.tasks && s'.tasks[t].saved == s.tasks[t].saved
        && (Executes(s', t) <==> s.tasks[t].status != Finished && (s.tasks[t].change ==> ok))
        && (Executes(s', t) ==> s'.regs == s.tasks[t].saved && !s'.tasks[t].change)
        && (!Executes(s', t) ==> s'.emu == AtSuspend(t, false) && s'.tasks[t].status == Finished)
  {
    hide Core, IsRun, After, Start, Orderly;
    StartCore(x, r);
    RunKeepsCore(Start(x, r), steps);
    if Enabled(After(Start(x, r), steps), SyncCheck(ok, garbage)) {
      SyncGoesOnHere(After(Start(x, r), steps), ok, garbage);
    }
  }

  lemma SyncGoesOnHere(s: State, ok: bool, garbage: int)
    requires Core(s) && Enabled(s, SyncCheck(ok, garbage))
    ensures var s', t := Apply(s, SyncCheck(ok, garbage)), s.emu.t;
      && t in s'.tasks && s'.tasks[t].saved == s.tasks[t].saved
      && (Executes(s', t) <==> s.tasks[t].status != Finished && (s.tasks[t].change ==> ok))
      && (Executes(s', t) ==> s'.regs == s.tasks[t].saved && !s'.tasks[t].change)
      && (!Executes(s', t) ==> s'.emu == AtSuspend(t, false) && s'.tasks[t].status == Finished)
  {
  }

  /** The step writes the context of task `t`: one of its registers, or all of them at a hook of its own. */
  predicate Touches(s: State, step: Step, t: nat) {
    (step.RegWrite? && step.t == t)
    || (step.AsyncSave? && s.emu.AsyncEntry? && s.emu.t == t) || (step.SyncSave? && s.emu.SyncEntry? && s.emu.t == t)
  }

  predicate Untouched(s: State, steps: seq<Step>, t: nat)
    requires IsRun(s, steps)
    decreases |steps|
  {
    steps != [] ==> !Touches(s, steps[0], t) && Untouched(Apply(s, steps[0]), steps[1..], t)
  }

  lemma SavedStays(s: State, step: Step, t: nat)
    requires Enabled(s, step) && t in s.tasks && !Touches(s, step, t)
    ensures t in Apply(s, step).tasks && Apply(s, step).tasks[t].saved == s.tasks[t].saved
  {
    hide Apply, Enabled, Touches;
    if IsTaskStep(step) {
      TaskStepSaves(s, step, t);
    } else if IsLoopStep(step) {
      LoopStepSaves(s, step, t);
    } else {
      OtherStepSaves(s, step, t);
    }
  }

  lemma TaskStepSaves(s: State, step: Step, t: nat)
    requires Enabled(s, step) && t in s.tasks && !Touches(s, step, t) && IsTaskStep(step)
    ensures t in Apply(s, step).tasks && Apply(s, step).tasks[t].saved == s.tasks[t].saved
  {
  }

  lemma LoopStepSaves(s: State, step: Step, t: nat)
    requires Enabled(s, step) && t in s.tasks && IsLoopStep(step)
    ensures t in Apply(s, step).tasks && Apply(s, step).tasks[t].saved == s.tasks[t].saved
  {
  }

  lemma OtherStepSaves(s: State, step: Step, t: nat)
    requires Enabled(s, step) && t in s.tasks && !Touches(s, step, t) && !IsTaskStep(step) && !IsLoopStep(step)
    ensures t in Apply(s, step).tasks && Apply(s, step).tasks[t].saved == s.tasks[t].saved
  {
  }

  lemma {:induction false} SavedAlong(s: State, steps: seq<Step>, t: nat)
    requires IsRun(s, steps) && t in s.tasks && Untouched(s, steps, t)
    ensures t in After(s, steps).tasks && After(s, steps).tasks[t].saved == s.tasks[t].saved
    decreases |steps|
  {
    hide Apply, Enabled, Touches;
    if steps != [] {
      SavedStays(s, steps[0], t);
      SavedAlong(Apply(s, steps[0]), steps[1..], t);
    }
  }

  /** The last value written to a task's registers, by its creator or by one of its callbacks, is the one
      with which its guest code goes on, by a resume or after a synchronous callback. */
  lemma WriteReachesCpu(x: int, r: int, before: seq<Step>, t: nat, v: int, after: seq<Step>, last: Step)
    requires IsRun(Start(x, r), before) && Orderly(Start(x, r), before)
    requires Enabled(After(Start(x, r), before), RegWrite(t, v))
    requires var s := Apply(After(Start(x, r), before), RegWrite(t, v));
      && IsRun(s, after) && Orderly(s, after) && Untouched(s, after, t)
      && Enabled(After(s, after), last) && (last == Resume || last.SyncCheck?)
    ensures var s := Apply(After(Start(x, r), before), RegWrite(t, v));
      Executes(Apply(After(s, after), last), t) ==> Apply(After(s, after), last).regs == v
  {
    hide Core, IsRun, After, Start, Orderly, Untouched, Apply, Enabled, Executes;
    var s0 := After(Start(x, r), before);
    StartCore(x, r);
    RunKeepsCore(Start(x, r), before);
    StepKeepsCore(s0, RegWrite(t, v));
    RunKeepsCore(Apply(s0, RegWrite(t, v)), after);
    Written(s0, t, v);
    SavedAlong(Apply(s0, RegWrite(t, v)), after, t);
    var s2 := After(Apply(s0, RegWrite(t, v)), after);
    if Executes(Apply(s2, last), t) {
      GoesOnSaved(s2, last, t);
    }
  }

  lemma Written(s: State, t: nat, v: int)
    requires Enabled(s, RegWrite(t, v))
    ensures t in Apply(s, RegWrite(t, v)).tasks && Apply(s, RegWrite(t, v)).tasks[t].saved == v
  {
  }

  lemma GoesOnSaved(s: State, last: Step, t: nat)
    requires Core(s) && Enabled(s, last) && t in s.tasks && (last == Resume || last.SyncCheck?)
    requires Executes(Apply(s, last), t)
    ensures Apply(s, last).regs == s.tasks[t].saved
  {
    hide TaskOk;
  }

  // ----- for good

  /** What was Done, cancelled or closed once stays so over every run. */
  lemma {:induction false} OnlyOnAlong(s: State, steps: seq<Step>, t: nat)
    requires IsRun(s, steps) && t in s.tasks
    ensures var s' := After(s, steps);
      && t in s'.tasks && (s.closed ==> s'.closed)
      && (s.tasks[t].status == Finished ==> s'.tasks[t].status == Finished)
      && (s.tasks[t].cancelled ==> s'.tasks[t].cancelled)
    decreases |steps|
  {
    hide Apply, Enabled;
    if steps != [] {
      OnlyOn(s, steps[0], t);
      OnlyOnAlong(Apply(s, steps[0]), steps[1..], t);
    }
  }

  /** A task marked Done, in whatever state, and once the emulator has stopped the one that was current, is
      Done from then on. */
  lemma EndedForGood(s: State, step: Step, steps: seq<Step>, t: nat)
    requires Enabled(s, step) && IsRun(Apply(s, step), steps) && t in s.tasks
    requires step == MarkDone(t) || (step == EmuStops && s.current == Some(t))
    ensures t in After(Apply(s, step), steps).tasks && After(Apply(s, step), steps).tasks[t].status == Finished
  {
    hide IsRun, After;
    assert t in Apply(s, step).tasks && Apply(s, step).tasks[t].status == Finished;
    OnlyOnAlong(Apply(s, step), steps, t);
  }
}
