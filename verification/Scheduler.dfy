/** The hand-over between the emulator thread, the loop goroutine and the goroutines of the tasks, as
    a transition system (internal/debugger/task.go, internal/debugger/runner.go). */
module Scheduler {

  import opened Wrappers

  /** `Finished` covers Done and Close: what matters is whether a status is below Done. */
  datatype Status = Pending | Running | Finished

  /** The goroutine that Run starts: in runTask until its dispatch is taken or given up. */
  datatype RunPc = NotRun | Dispatching | RunOver

  /** The goroutine that executes the callbacks of a task. */
  datatype TaskPc = Idle | InCallback | Redispatching | LoopOver

  /** `saved` is the register file in the task's context, `change` the flag RegWrite raises, and
      `cancelled` says that the context's Done channel is closed: by the task's own cancellation, which
      has raised the status before, or by that of the context it derives from, its parent's or its
      creator's, which leaves the status as it is. */
  datatype Task = Task(status: Status, cancelled: bool, change: bool, saved: int, run: RunPc, pc: TaskPc)

  /** The emulator thread. */
  datatype EmuPc =
    | Guest                           // executing guest code of the current task
    | AsyncEntry(t: nat, call: bool)  // asyncTask has read the current task and its status
    | SyncEntry(t: nat, live: bool)   // syncTask has
    | SyncCallback(t: nat)            // syncTask runs the callback itself
    | SyncAfter(t: nat)               // the callback has returned
    | AtSuspend(t: nat, call: bool)   // offering the suspend rendezvous
    | Sending(t: nat)                 // handing the callback to the task's goroutine
    | AtResume                        // waiting for resume, executing functions meanwhile
    | Stopped

  /** The loop goroutine; `Offering` remembers the task it dispatched, if any. */
  datatype LoopPc =
    | AwaitSuspend
    | AwaitDispatch
    | Got(t: nat)
    | Restoring(t: nat)
    | Offering(dispatched: Option<nat>)
    | Exited

  datatype State = State(
    tasks: map<nat, Task>, emu: EmuPc, loop: LoopPc, current: Option<nat>, hasSync: bool, regs: int,
    closed: bool, emuErr: bool)

  datatype Step =
    | Create(t: nat, saved: int)            // CreateTask or Fork
    | CallRun(t: nat)
    | RegWrite(t: nat, value: int)
    | MarkDone(t: nat)                      // CancelCause or Close, from anywhere: first the status,
    | Fire(t: nat)                          // then the context; or the context it derives from
    | GiveUp(t: nat)                        // runTask returns without a dispatch
    | Refuse(t: nat)                        // runTask finds the emulator stopped and cancels the task
    | Dispatch(t: nat)                      // runTask hands the task to the loop
    | Check                                 // the loop looks at what it got
    | RestoreOk
    | RestoreFail(garbage: int)
    | Suspend                               // rendezvous of the emulator thread and the loop
    | Resume                                // rendezvous back
    | Execute                               // a function sent by mainThreadRun runs
    | GuestRuns(regs: int)
    | HookAsync
    | AsyncSave(ok: bool)
    | Send                                  // the callback reaches the task's goroutine
    | SendCancelled
    | CallbackEnds(t: nat)
    | TaskLoopEnds(t: nat)
    | HookSync
    | SyncSave(ok: bool)
    | SyncEnds
    | SyncCheck(ok: bool, garbage: int)
    | EmuStops
    | Close
    | SuspendClosed
    | LoopClosed

  // ----- the steps

  predicate Waiting(k: Task) {
    k.run == Dispatching || k.pc == Redispatching
  }

  /** Registers of a task are written by its creator before Run and by its own callbacks. */
  predicate MayWrite(s: State, t: nat) {
    t in s.tasks && (s.tasks[t].run == NotRun || s.tasks[t].pc == InCallback || s.emu == SyncCallback(t))
  }

  predicate Enabled(s: State, step: Step) {
    match step
    case Create(t, _) => t !in s.tasks
    case CallRun(t) => t in s.tasks && s.tasks[t].run == NotRun && s.tasks[t].status == Pending
    case RegWrite(t, _) => MayWrite(s, t)
    case MarkDone(t) => t in s.tasks
    case Fire(t) => t in s.tasks
    case GiveUp(t) => t in s.tasks && Waiting(s.tasks[t]) && (s.closed || s.tasks[t].cancelled)
    case Refuse(t) => t in s.tasks && Waiting(s.tasks[t]) && s.emuErr
    case Dispatch(t) => t in s.tasks && Waiting(s.tasks[t]) && s.loop == AwaitDispatch
    case Check => s.loop.Got? && s.loop.t in s.tasks
    case RestoreOk => s.loop.Restoring? && s.loop.t in s.tasks
    case RestoreFail(_) => s.loop.Restoring? && s.loop.t in s.tasks
    case Suspend => s.emu.AtSuspend? && s.loop == AwaitSuspend
    case Resume => s.emu == AtResume && s.loop.Offering?
    case Execute => s.emu == AtResume
    case GuestRuns(_) => s.emu == Guest
    case HookAsync => s.emu == Guest && s.current.Some? && s.current.value in s.tasks
    case AsyncSave(_) => s.emu.AsyncEntry? && s.emu.t in s.tasks
    case Send => s.emu.Sending? && s.emu.t in s.tasks && s.tasks[s.emu.t].pc == Idle
    case SendCancelled => s.emu.Sending? && s.emu.t in s.tasks && s.tasks[s.emu.t].cancelled
    case CallbackEnds(t) => t in s.tasks && s.tasks[t].pc == InCallback
    case TaskLoopEnds(t) => t in s.tasks && s.tasks[t].pc == Idle && s.tasks[t].cancelled
    case HookSync => s.emu == Guest && s.current.Some? && s.current.value in s.tasks
    case SyncSave(_) => s.emu.SyncEntry? && s.emu.t in s.tasks
    case SyncEnds => s.emu.SyncCallback?
    case SyncCheck(_, _) => s.emu.SyncAfter? && s.emu.t in s.tasks
    case EmuStops => s.emu == Guest
    case Close => true
    case SuspendClosed => s.closed && s.emu.AtSuspend?
    case LoopClosed => s.closed && (s.loop == AwaitSuspend || s.loop == AwaitDispatch)
  }

  function SetTask(s: State, t: nat, k: Task): State {
    s.(tasks := s.tasks[t := k])
  }

  /** updateStatus never lowers a status. */
  function Started(k: Task): Task {
    if k.status == Pending then k.(status := Running) else k
  }

  function Ended(k: Task): Task {
    k.(status := Finished)
  }

  /** The waiting goroutine of a task stops waiting. */
  function StopWaiting(k: Task): Task {
    if k.run == Dispatching then k.(run := RunOver) else k.(pc := Idle)
  }

  function Apply(s: State, step: Step): State
    requires Enabled(s, step)
  {
    match step
    case Create(t, x) => SetTask(s, t, Task(Pending, false, true, x, NotRun, Idle))
    case CallRun(t) => SetTask(s, t, s.tasks[t].(run := Dispatching))
    case RegWrite(t, x) => SetTask(s, t, s.tasks[t].(change := true, saved := x))
    case MarkDone(t) => SetTask(s, t, Ended(s.tasks[t]))
    case Fire(t) => SetTask(s, t, s.tasks[t].(cancelled := true))
    case GiveUp(t) => SetTask(s, t, StopWaiting(s.tasks[t]))
    case Refuse(t) => SetTask(s, t, Ended(StopWaiting(s.tasks[t])).(cancelled := true))
    case Dispatch(t) => SetTask(s, t, StopWaiting(s.tasks[t])).(loop := Got(t))
    case Check =>
      var t := s.loop.t;
      if s.current != Some(t) || s.tasks[t].change then s.(current := Some(t), loop := Restoring(t))
      else s.(loop := Offering(Some(t)))
    case RestoreOk =>
      var t := s.loop.t;
      SetTask(s, t, s.tasks[t].(change := false)).(regs := s.tasks[t].saved, loop := Offering(Some(t)))
    case RestoreFail(x) =>
      var t := s.loop.t;
      SetTask(s, t, Ended(s.tasks[t].(change := false))).(regs := x, loop := AwaitDispatch)
    case Suspend => s.(loop := AwaitDispatch, emu := if s.emu.call then Sending(s.emu.t) else AtResume)
    case Resume => s.(loop := AwaitSuspend, emu := Guest)
    case Execute => s
    case GuestRuns(x) => s.(regs := x)
    case HookAsync => s.(emu := AsyncEntry(s.current.value, s.tasks[s.current.value].status != Finished))
    case AsyncSave(ok) =>
      var t, k := s.emu.t, s.tasks[s.emu.t];
      if !s.emu.call then s.(emu := AtSuspend(t, false))
      else if ok then SetTask(s, t, Started(k).(saved := s.regs)).(emu := AtSuspend(t, true))
      else SetTask(s, t, Ended(k)).(emu := AtSuspend(t, false))
    case Send => SetTask(s, s.emu.t, s.tasks[s.emu.t].(pc := InCallback)).(emu := AtResume)
    case SendCancelled => s.(emu := AtResume)
    case CallbackEnds(t) =>
      var k := s.tasks[t];
      SetTask(s, t, k.(pc := if k.status == Finished then Idle else Redispatching))
    case TaskLoopEnds(t) => SetTask(s, t, s.tasks[t].(pc := LoopOver))
    case HookSync => s.(emu := SyncEntry(s.current.value, s.tasks[s.current.value].status != Finished))
    case SyncSave(ok) =>
      var t, k := s.emu.t, s.tasks[s.emu.t];
      if !s.emu.live then s.(emu := AtSuspend(t, false))
      else if ok then SetTask(s, t, Started(k).(saved := s.regs)).(emu := SyncCallback(t), hasSync := true)
      else SetTask(s, t, Ended(k)).(emu := AtSuspend(t, false))
    case SyncEnds => s.(emu := SyncAfter(s.emu.t), hasSync := false)
    case SyncCheck(ok, x) =>
      var t, k := s.emu.t, s.tasks[s.emu.t];
      if k.status == Finished then s.(emu := AtSuspend(t, false))
      else if !k.change then s.(emu := Guest)
      else if ok then SetTask(s, t, k.(change := false)).(regs := k.saved, emu := Guest)
      else SetTask(s, t, Ended(k.(change := false))).(regs := x, emu := AtSuspend(t, false))
    case EmuStops =>
      var s1 := s.(emu := Stopped, current := None, emuErr := true);
      if s.current.Some? && s.current.value in s.tasks then
        SetTask(s1, s.current.value, Ended(s.tasks[s.current.value]))
      else s1
    case Close => s.(closed := true)
    case SuspendClosed => s.(emu := Guest)
    case LoopClosed => s.(loop := if s.loop == AwaitSuspend then Exited else Offering(None))
  }

  /** The main task, with id 0, runs on the CPU from the start; it is never handed to Run. */
  function Start(saved: int, regs: int): State {
    State(map[0 := Task(Pending, false, true, saved, RunOver, Idle)], Guest, AwaitSuspend, Some(0), false, regs,
          false, false)
  }

  /** `steps` is a run from `s`. */
  predicate IsRun(s: State, steps: seq<Step>)
    decreases |steps|
  {
    steps != [] ==> Enabled(s, steps[0]) && IsRun(Apply(s, steps[0]), steps[1..])
  }

  function After(s: State, steps: seq<Step>): State
    requires IsRun(s, steps)
    decreases |steps|
  {
    if steps == [] then s else After(Apply(s, steps[0]), steps[1..])
  }
}
