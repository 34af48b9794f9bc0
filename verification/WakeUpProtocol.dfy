/**
 The message loop as a transition system: any number of threads post under the queue's
 lock while the loop thread runs `MessagePumpForIO::DoRunLoop`. Every step below is one
 atomic action of the program; the lock-free ones (the interlocked exchanges, the port)
 interleave freely with everything else.
 */
module WakeUpProtocol {
  import opened Prelude
  import opened PendingTasks
  import opened MessagePump
  import opened IncomingTasks
  import opened MessageLoops

  /** Where a thread stands inside `IncomingTaskQueue::ScheduleWork`; it holds the lock throughout. */
  datatype PosterPc =
    | Exchanging  // about to exchange HAVE_WORK into work_state_
    | Posting     // found READY, about to post the wake-up packet
    | Flagging    // about to set message_loop_scheduled_ and unlock

  /** Where the loop thread stands. `more` is `more_work_is_plausible`. */
  datatype LoopPc =
    | Starting                   // before Run
    | Reloading                  // in DoWork, about to reload
    | Popping                    // in DoWork, the work queue is not empty
    | Polling(more: bool)        // at WaitForIOCompletion(0, nullptr)
    | TimerTurn(more: bool)      // at DoDelayedWork
    | Deciding(more: bool)       // at the bottom of the loop
    | Blocked(since: nat, until: Option<nat>)  // in WaitForWork; no deadline means INFINITE
    | Resetting(next: LoopPc)    // dequeued a wake-up packet, about to exchange READY
    | Running(next: LoopPc)      // in a task or in an I/O callback

  /** The thread the loop runs on; it can post too, from inside a task or a callback. */
  const LOOP_THREAD: nat := 0

  datatype Execution = Execution(task: PendingTask, at: nat)

  /** `accepted`, `retired` (popped from the work queue), `executed` and `arrived` record the run. */
  datatype System = System(
    pump: Pump,
    incoming: Incoming,
    work: seq<PendingTask>,
    delayed: seq<PendingTask>,
    recentTime: nat,
    now: nat,
    lock: Option<nat>,
    posters: map<nat, PosterPc>,
    pc: LoopPc,
    accepted: seq<PendingTask>,
    retired: seq<PendingTask>,
    executed: seq<Execution>,
    arrived: seq<IOItem>)

  datatype Action =
    | Post(thread: nat, task: nat, delay: int)
    | StartScheduling
    | Exchange(thread: nat)
    | PostPacket(thread: nat)
    | Unlock(thread: nat)
    | EnterLoop
    | Reload
    | Pop
    | Return                       // the running task or callback returns
    | Poll
    | Reset
    | RunTimers
    | Decide
    | Wake                         // the blocked wait receives an item
    | Expire                       // the blocked wait times out
    | FilteredWait(filter: Option<nat>)  // a task or callback calls WaitForIOCompletion
    | Complete(item: IOItem)       // the system finishes an I/O operation
    | Tick(elapsed: nat)

  ghost predicate Init(s: System) {
    && s.pump == Pump(READY, [], [], 0, [])
    && s.incoming == Incoming([], 0, false, false, s.incoming.alwaysScheduleWork)
    && s.work == s.delayed == s.accepted == s.retired == []
    && s.executed == [] && s.arrived == []
    && s.recentTime == 0
    && s.lock == None && s.posters == map[]
    && s.pc == Starting
  }

  predicate PosterAt(s: System, thread: nat, pc: PosterPc) {
    thread in s.posters && s.posters[thread] == pc
  }

  /** Whether the loop thread is free to take its own next step. */
  predicate LoopFree(s: System) {
    LOOP_THREAD !in s.posters
  }

  predicate Enabled(s: System, a: Action) {
    match a
    case Post(thread, _, _) =>
      s.lock.None? && (thread == LOOP_THREAD ==> s.pc.Running? || s.pc.Starting?)
    case StartScheduling => s.lock.None? && s.pc.Starting? && !s.incoming.isReadyForScheduling
    case Exchange(thread) => PosterAt(s, thread, Exchanging)
    case PostPacket(thread) => PosterAt(s, thread, Posting)
    case Unlock(thread) => PosterAt(s, thread, Flagging)
    case EnterLoop => s.pc.Starting? && s.incoming.isReadyForScheduling && LoopFree(s)
    case Reload => s.pc.Reloading? && (s.work == [] ==> s.lock.None?)
    case Pop => s.pc.Popping? && s.work != []
    case Return => s.pc.Running? && LoopFree(s)
    case Poll => s.pc.Polling?
    case Reset => s.pc.Resetting?
    case RunTimers => s.pc.TimerTurn?
    case Decide => s.pc.Deciding?
    case Wake => s.pc.Blocked? && !Wait(s.pump, None).1.TimedOut?
    case Expire => s.pc.Blocked? && s.pc.until.Some? && s.pc.until.value <= s.now
    case FilteredWait(_) => s.pc.Running? && LoopFree(s)
    case Complete(item) => !IsInternal(item)
    case Tick(_) => true
  }

  // ------------------------------------------------------------ the steps

  /** Lock, push and decide; a post that needs no wake-up unlocks at once. */
  function AfterPost(s: System, thread: nat, task: nat, delay: int): System {
    var runTime := DelayedRuntime(delay, s.now);
    var t := s.(
      incoming := Enqueued(s.incoming, task, runTime),
      accepted := s.accepted + [PendingTask(task, s.incoming.nextSequenceNum, runTime)]);
    if NeedsWakeUp(s.incoming) then BeginWakeUp(t, thread) else t
  }

  function BeginWakeUp(s: System, thread: nat): System {
    s.(lock := Some(thread), posters := s.posters[thread := Exchanging])
  }

  function AfterStartScheduling(s: System): System {
    var t := s.(incoming := s.incoming.(isReadyForScheduling := true));
    if s.incoming.queue != [] then BeginWakeUp(t, LOOP_THREAD) else t
  }

  function AfterExchange(s: System, thread: nat): System {
    s.(pump := SetHaveWork(s.pump),
       posters := s.posters[thread := if s.pump.workState == READY then Posting else Flagging])
  }

  function AfterPostPacket(s: System, thread: nat): System {
    s.(pump := PostWakeUp(s.pump), posters := s.posters[thread := Flagging])
  }

  function AfterUnlock(s: System, thread: nat): System {
    s.(incoming := s.incoming.(messageLoopScheduled := true), lock := None, posters := s.posters - {thread})
  }

  function AfterReload(s: System): System {
    var (incoming, work) := if s.work == [] then Reloaded(s.incoming, s.work) else (s.incoming, s.work);
    s.(incoming := incoming, work := work, pc := if work == [] then Polling(false) else Popping)
  }

  function AfterPop(s: System): System
    requires s.work != []
  {
    var t := s.work[0];
    var rest := s.(work := s.work[1..], retired := s.retired + [t]);
    if t.IsDelayed() then
      var delayed := s.delayed + [t];
      rest.(delayed := delayed,
            pump := s.pump.(delayedWorkTime := Top(delayed).delayedRunTime),
            pc := if rest.work == [] then Reloading else Popping)
    else
      rest.(executed := s.executed + [Execution(t, s.now)], pc := Running(Polling(true)))
  }

  /** A wait, from the program point whose continuation is `idle` if nothing came and `busy` otherwise. */
  function AfterWait(s: System, filter: Option<nat>, idle: LoopPc, busy: LoopPc): System {
    var (pump, result) := Wait(s.pump, filter);
    s.(pump := pump,
       pc := match result
             case TimedOut => idle
             case Internal => Resetting(busy)
             case Delivered(_) => Running(busy)
             case Postponed(_) => busy)
  }

  function AfterTimers(s: System): System
    requires s.pc.TimerTurn?
  {
    var (timers, ran) := DelayedTurn(Timers(s.delayed, s.recentTime, s.pump.delayedWorkTime), s.now);
    var t := s.(
      delayed := timers.delayed,
      recentTime := timers.recentTime,
      pump := s.pump.(delayedWorkTime := timers.nextTime));
    if ran.Some? then t.(executed := s.executed + [Execution(ran.value, s.now)], pc := Running(Deciding(true)))
    else t.(pc := Deciding(s.pc.more))
  }

  /** `WaitForWork` computes its timeout and goes to sleep. */
  function AfterDecide(s: System): System
    requires s.pc.Deciding?
  {
    if s.pc.more then s.(pc := Reloading)
    else
      var delay := CurrentDelay(s.pump.delayedWorkTime, s.now);
      s.(pc := Blocked(s.now, if delay < 0 then None else Some(s.now + delay)))
  }

  function Apply(s: System, a: Action): System
    requires Enabled(s, a)
  {
    match a
    case Post(thread, task, delay) => AfterPost(s, thread, task, delay)
    case StartScheduling => AfterStartScheduling(s)
    case Exchange(thread) => AfterExchange(s, thread)
    case PostPacket(thread) => AfterPostPacket(s, thread)
    case Unlock(thread) => AfterUnlock(s, thread)
    case EnterLoop => s.(pc := Reloading)
    case Reload => AfterReload(s)
    case Pop => AfterPop(s)
    case Return => s.(pc := s.pc.next)
    case Poll => AfterWait(s, None, TimerTurn(s.pc.more), TimerTurn(true))
    case Reset => s.(pump := SetReady(s.pump), pc := s.pc.next)
    case RunTimers => AfterTimers(s)
    case Decide => AfterDecide(s)
    case Wake => AfterWait(s, None, Reloading, Reloading)
    case Expire => s.(pc := Reloading)
    case FilteredWait(filter) => AfterWait(s, filter, s.pc, s.pc)
    case Complete(item) => s.(pump := s.pump.(port := s.pump.port + [item]), arrived := s.arrived + [item])
    case Tick(elapsed) => s.(now := s.now + elapsed)
  }

  /** `states` is a run taking `actions` one after the other from an initial state. */
  ghost predicate IsRun(states: seq<System>, actions: seq<Action>) {
    && |states| == |actions| + 1
    && Init(states[0])
    && forall i :: 0 <= i < |actions| ==>
         Enabled(states[i], actions[i]) && states[i + 1] == Apply(states[i], actions[i])
  }
}
