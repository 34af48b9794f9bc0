/** From wherever a run has got to, the loop's own steps do all the work that is waiting. */
module WorkProgress {
  import opened Prelude
  import opened PendingTasks
  import opened MessagePump
  import opened MessageLoops
  import opened WakeUpProtocol
  import opened WakeUpSafety
  import opened TaskHistory
  import opened WakeUpProgress
  import opened WorkTurns

  /** How many steps the loop is away from taking a task off the work queue, at most. */
  function Rank(pc: LoopPc): nat {
    match pc
    case Popping => 0
    case Reloading => 1
    case Blocked(_, _) => 3
    case Deciding(_) => 4
    case TimerTurn(_) => 6
    case Polling(_) => 8
    case Starting => 0
    case Resetting(next) => 1 + Rank(next)
    case Running(next) => 1 + Rank(next)
  }

  function Distance(s: System): nat
    requires LockInv(s)
  {
    10 * |Backlog(s)| + HolderDistance(s) + Rank(s.pc)
  }

  ghost predicate Invs(s: System) {
    SafetyInv(s) && HistoryInv(s)
  }

  lemma KeepsInvs(s: System, a: Action)
    requires Invs(s) && Enabled(s, a)
    ensures Invs(Apply(s, a))
  {
    hide LockInv, SignalInv, WakeInv, OnlyOwnPackets, TaskInv, OrderInv, TimerInv, CompletionInv, Enabled, Apply;
    KeepsLock(s, a);
    KeepsSignals(s, a);
    KeepsWake(s, a);
    KeepsOwnPackets(s, a);
    KeepsTasks(s, a);
    KeepsOrder(s, a);
    KeepsTimers(s, a);
    KeepsCompletions(s, a);
  }

  /** The step to take next: the lock holder's if there is one, the loop's otherwise. */
  function NextStep(s: System): Action
    requires LockInv(s) && !s.pc.Starting?
  {
    if s.lock.Some? then HolderStep(s)
    else
      match s.pc
      case Reloading => Reload
      case Popping => Pop
      case Polling(_) => Poll
      case TimerTurn(_) => RunTimers
      case Deciding(_) => Decide
      case Blocked(_, _) => Wake
      case Resetting(_) => Reset
      case Running(_) => Return
  }

  /** The step is possible, brings the work closer and accepts no new task. */
  ghost predicate Advances(s: System, a: Action) {
    && Enabled(s, a) && IsInternalStep(a)
    && LockInv(s) && LockInv(Apply(s, a)) && Distance(Apply(s, a)) < Distance(s)
    && Apply(s, a).accepted == s.accepted && !Apply(s, a).pc.Starting?
  }

  lemma HolderAdvances(s: System)
    requires LockInv(s) && !s.pc.Starting? && s.lock.Some?
    ensures Advances(s, NextStep(s))
  {
    HolderIs(s, s.lock.value);
    KeepsLock(s, NextStep(s));
    hide Rank, WakefulContinuations, CleanStash;
  }

  /** What a step of the loop leaves alone. */
  ghost predicate LeavesTasks(s: System, t: System) {
    t.lock == s.lock && t.accepted == s.accepted && !t.pc.Starting?
  }

  lemma LoopAdvances(s: System, a: Action)
    requires LockInv(s) && s.lock.None? && Enabled(s, a) && IsInternalStep(a) && LeavesTasks(s, Apply(s, a))
    requires 10 * |Backlog(Apply(s, a))| + Rank(Apply(s, a).pc) < 10 * |Backlog(s)| + Rank(s.pc)
    ensures Advances(s, a)
  {
    hide Enabled, Apply, Rank, Backlog, LockInv;
    KeepsLock(s, a);
  }

  lemma PopCloses(s: System)
    requires s.pc.Popping? && s.work != []
    ensures LeavesTasks(s, Apply(s, Pop)) && |Backlog(s)| == 1 + |Backlog(Apply(s, Pop))|
    ensures Rank(Apply(s, Pop).pc) <= 9
  {
    hide Top, Tasks;
  }

  lemma PopAdvances(s: System)
    requires LockInv(s) && s.lock.None? && s.pc.Popping? && s.work != []
    ensures Advances(s, Pop)
  {
    PopCloses(s);
    hide LockInv, Apply, Backlog;
    LoopAdvances(s, Pop);
  }

  lemma ReloadAdvances(s: System)
    requires LockInv(s) && s.lock.None? && s.pc.Reloading? && Backlog(s) != []
    ensures Advances(s, Reload)
  {
    ReloadKeepsBacklog(s);
    hide LockInv, Backlog;
    LoopAdvances(s, Reload);
  }

  lemma WaitCloses(s: System, filter: Option<nat>, idle: LoopPc, busy: LoopPc)
    requires Rank(idle) < Rank(s.pc) && 1 + Rank(busy) < Rank(s.pc) && !idle.Starting? && !busy.Starting?
    ensures var t := AfterWait(s, filter, idle, busy);
            LeavesTasks(s, t) && Backlog(t) == Backlog(s) && Rank(t.pc) < Rank(s.pc)
  {
    hide Wait;
  }

  lemma PollAdvances(s: System)
    requires LockInv(s) && s.lock.None? && s.pc.Polling?
    ensures Advances(s, Poll)
  {
    WaitCloses(s, None, TimerTurn(s.pc.more), TimerTurn(true));
    hide LockInv, AfterWait, Backlog;
    LoopAdvances(s, Poll);
  }

  lemma WakeAdvances(s: System)
    requires SafetyInv(s) && TimerInv(s) && s.lock.None? && s.pc.Blocked? && Backlog(s) != []
    ensures Advances(s, Wake)
  {
    assert s.work == [];
    BlockedLoopCanWake(s);
    WaitCloses(s, None, Reloading, Reloading);
    hide LockInv, AfterWait, Backlog, Enabled, SignalInv, WakeInv, OnlyOwnPackets, TimerInv;
    LoopAdvances(s, Wake);
  }

  lemma TimersClose(s: System)
    requires s.pc.TimerTurn?
    ensures var t := AfterTimers(s);
            LeavesTasks(s, t) && Backlog(t) == Backlog(s) && Rank(t.pc) < Rank(s.pc)
  {
    hide DelayedTurn;
  }

  lemma TimersAdvance(s: System)
    requires LockInv(s) && s.lock.None? && s.pc.TimerTurn?
    ensures Advances(s, RunTimers)
  {
    TimersClose(s);
    hide LockInv, AfterTimers, Backlog;
    LoopAdvances(s, RunTimers);
  }

  lemma MovingCloses(s: System, a: Action)
    requires Enabled(s, a) && (a == Decide || a == Reset || a == Return) && WakefulContinuations(s.pc)
    ensures var t := Apply(s, a);
            LeavesTasks(s, t) && Backlog(t) == Backlog(s) && Rank(t.pc) < Rank(s.pc)
  {
    hide CurrentDelay;
  }

  lemma MovingAdvances(s: System, a: Action)
    requires LockInv(s) && s.lock.None?
    requires (a == Decide && s.pc.Deciding?) || (a == Reset && s.pc.Resetting?) || (a == Return && s.pc.Running?)
    ensures Advances(s, a)
  {
    assert s.posters.Keys == {};
    MovingCloses(s, a);
    hide LockInv, Apply, Backlog;
    LoopAdvances(s, a);
  }

  lemma NextStepAdvances(s: System)
    requires Invs(s) && !s.pc.Starting? && Backlog(s) != []
    ensures Advances(s, NextStep(s))
  {
    hide Advances, LockInv, SignalInv, WakeInv, OnlyOwnPackets, TaskInv, OrderInv, CompletionInv;
    if s.lock.Some? {
      HolderAdvances(s);
    } else {
      match s.pc
      case Reloading => ReloadAdvances(s);
      case Popping => PopAdvances(s);
      case Polling(_) => PollAdvances(s);
      case TimerTurn(_) => TimersAdvance(s);
      case Blocked(_, _) => WakeAdvances(s);
      case Deciding(_) => MovingAdvances(s, Decide);
      case Resetting(_) => MovingAdvances(s, Reset);
      case Running(_) => MovingAdvances(s, Return);
    }
  }

  lemma {:induction false} BacklogDrains(s: System) returns (steps: seq<Action>, t: System)
    requires Invs(s) && !s.pc.Starting?
    ensures Execute(s, steps) == Some(t) && |steps| <= Distance(s)
    ensures forall a :: a in steps ==> IsInternalStep(a)
    ensures Invs(t) && Backlog(t) == [] && t.accepted == s.accepted && !t.pc.Starting?
    decreases Distance(s)
  {
    hide SafetyInv, HistoryInv, NextStep, Enabled, Apply, Distance, Backlog;
    if Backlog(s) == [] {
      return [], s;
    }
    NextStepAdvances(s);
    var a := NextStep(s);
    KeepsInvs(s, a);
    ExecuteOne(s, a);
    var rest;
    rest, t := BacklogDrains(Apply(s, a));
    ExecuteConcat(s, [a], rest);
    steps := [a] + rest;
  }

  lemma DistanceIs(s: System)
    requires SafetyInv(s)
    ensures Distance(s) <= 10 * |Backlog(s)| + 3 + Rank(s.pc)
  {
  }

  lemma DrainedHasRun(t: System)
    requires HistoryInv(t) && Backlog(t) == []
    ensures Undelayed(Tasks(t.executed)) == Undelayed(t.accepted)
  {
    hide LockInv, OrderInv, TimerInv, CompletionInv, Tasks, Undelayed;
    assert |t.work| + |t.incoming.queue| == |Backlog(t)| == 0;
    assert t.accepted == t.retired;
  }

  /**
   Once the loop runs, a number of steps of the lock holder and the loop itself, bounded by what
   is waiting, has executed every undelayed task accepted so far, in the order of posting.
   */
  lemma UndelayedTasksRun(states: seq<System>, actions: seq<Action>, i: nat)
    returns (steps: seq<Action>, t: System)
    requires IsRun(states, actions) && i < |states| && !states[i].pc.Starting?
    ensures Execute(states[i], steps) == Some(t)
    ensures |steps| <= 10 * |Backlog(states[i])| + 3 + Rank(states[i].pc)
    ensures forall a :: a in steps ==> IsInternalStep(a)
    ensures t.accepted == states[i].accepted && Undelayed(Tasks(t.executed)) == Undelayed(states[i].accepted)
    ensures forall task :: task in states[i].accepted && !task.IsDelayed() ==> task in Tasks(t.executed)
  {
    RunsAreSafe(states, actions, i);
    RunsKeepHistory(states, actions, i);
    var s := states[i];
    DistanceIs(s);
    hide HistoryInv, SafetyInv, IsRun, Execute, Tasks, Undelayed, Backlog, Distance;
    steps, t := BacklogDrains(s);
    DrainedHasRun(t);
    forall task | task in s.accepted && !task.IsDelayed()
      ensures task in Tasks(t.executed)
    {
      UndelayedIn(s.accepted, task);
      UndelayedIn(Tasks(t.executed), task);
    }
  }

  // ------------------------------------------------------------ delayed tasks

  /** Everything that waits on a timer is due. */
  ghost predicate AllDue(s: System) {
    forall d :: d in s.delayed ==> d.delayedRunTime <= s.now
  }

  lemma {:induction false} LatestTime(tasks: seq<PendingTask>) returns (time: nat)
    ensures forall d :: d in tasks ==> d.delayedRunTime <= time
  {
    if tasks == [] {
      return 0;
    }
    time := LatestTime(tasks[1..]);
    assert tasks == [tasks[0]] + tasks[1..];
    time := if tasks[0].delayedRunTime > time then tasks[0].delayedRunTime else time;
  }

  /** A step of the loop or the lock's holder, the end of a wait that has timed out, or a tick of the clock. */
  predicate IsLoopOrClock(a: Action) {
    IsInternalStep(a) || a.Expire? || a.Tick?
  }

  /** How many steps the loop is away from its timers, at most, if no work is waiting. */
  function TimerRank(pc: LoopPc): nat {
    match pc
    case TimerTurn(_) => 0
    case Polling(_) => 2
    case Reloading => 3
    case Blocked(_, _) => 5
    case Deciding(_) => 6
    case Popping => 0
    case Starting => 0
    case Resetting(next) => 1 + TimerRank(next)
    case Running(next) => 1 + TimerRank(next)
  }

  function TimerDistance(s: System): nat {
    10 * |s.delayed| + TimerRank(s.pc)
  }

  /** No work is waiting, and all timers are due. */
  ghost predicate OnlyTimersLeft(s: System) {
    Backlog(s) == [] && s.lock.None? && AllDue(s) && !s.pc.Starting?
  }

  function NextTimerStep(s: System): Action
    requires !s.pc.Starting? && !s.pc.Popping?
  {
    match s.pc
    case Reloading => Reload
    case Polling(_) => Poll
    case TimerTurn(_) => RunTimers
    case Deciding(_) => Decide
    case Blocked(_, _) => Expire
    case Resetting(_) => Reset
    case Running(_) => Return
  }

  /** The step is possible, brings the loop closer to running the next timer, and accepts no new task. */
  ghost predicate Approaches(s: System, a: Action) {
    && Enabled(s, a) && IsLoopOrClock(a)
    && OnlyTimersLeft(Apply(s, a)) && Apply(s, a).accepted == s.accepted
    && TimerDistance(Apply(s, a)) < TimerDistance(s)
  }

  lemma DueSleepEnds(s: System)
    requires TaskInv(s) && TimerInv(s) && OnlyTimersLeft(s) && s.delayed != [] && s.pc.Blocked?
    ensures Approaches(s, Expire)
  {
    hide TaskInv, Top;
    assert Top(s.delayed).IsDelayed() by { DelayedAre(s, Top(s.delayed)); }
  }

  lemma DelayedAre(s: System, t: PendingTask)
    requires TaskInv(s) && t in s.delayed
    ensures t.IsDelayed()
  {
  }

  lemma DueTimerRuns(s: System)
    requires OnlyTimersLeft(s) && s.delayed != [] && s.pc.TimerTurn?
    ensures Approaches(s, RunTimers)
  {
    hide Top, WithoutTop, Tasks;
    assert |s.delayed| == |WithoutTop(s.delayed)| + 1 by { OneLess(s.delayed); }
  }

  lemma OneLess(tasks: seq<PendingTask>)
    requires tasks != []
    ensures |tasks| == |WithoutTop(tasks)| + 1
  {
    assert |multiset(tasks)| == |multiset(WithoutTop(tasks))| + 1;
  }

  /** What a step leaves alone that only moves the loop on. */
  ghost predicate MovesOn(s: System, t: System) {
    && t.lock == s.lock && t.accepted == s.accepted && t.delayed == s.delayed && t.now == s.now
    && t.work == s.work && t.incoming.queue == s.incoming.queue && !t.pc.Starting?
  }

  lemma MovingApproaches(s: System, a: Action)
    requires OnlyTimersLeft(s) && Enabled(s, a) && IsLoopOrClock(a)
    requires MovesOn(s, Apply(s, a)) && TimerRank(Apply(s, a).pc) < TimerRank(s.pc)
    ensures Approaches(s, a)
  {
    hide Enabled, Apply, TimerRank, IsLoopOrClock;
  }

  lemma PollMovesOn(s: System)
    requires s.pc.Polling?
    ensures MovesOn(s, Apply(s, Poll)) && TimerRank(Apply(s, Poll).pc) < TimerRank(s.pc)
  {
    hide Wait;
  }

  lemma DecideMovesOn(s: System)
    requires s.pc.Deciding?
    ensures MovesOn(s, Apply(s, Decide)) && TimerRank(Apply(s, Decide).pc) < TimerRank(s.pc)
  {
    hide CurrentDelay;
  }

  lemma OtherMovesOn(s: System, a: Action)
    requires Enabled(s, a) && WakefulContinuations(s.pc)
    requires a.Reset? || a.Return? || (a.Reload? && s.work == [] && s.incoming.queue == [])
    ensures MovesOn(s, Apply(s, a)) && TimerRank(Apply(s, a).pc) < TimerRank(s.pc)
  {
  }

  lemma LoopApproaches(s: System)
    requires LockInv(s) && OnlyTimersLeft(s) && s.delayed != []
    requires s.pc.Reloading? || s.pc.Polling? || s.pc.Deciding? || s.pc.Resetting? || s.pc.Running?
    ensures Approaches(s, NextTimerStep(s))
  {
    assert s.posters.Keys == {};
    assert |s.work| + |s.incoming.queue| == |Backlog(s)| == 0;
    assert WakefulContinuations(s.pc);
    hide LockInv, Apply, MovesOn, OnlyTimersLeft, Approaches, TimerRank, WakefulContinuations;
    var a := NextTimerStep(s);
    if s.pc.Polling? {
      PollMovesOn(s);
    } else if s.pc.Deciding? {
      DecideMovesOn(s);
    } else {
      OtherMovesOn(s, a);
    }
    MovingApproaches(s, a);
  }

  lemma NextTimerStepApproaches(s: System)
    requires Invs(s) && OnlyTimersLeft(s) && s.delayed != []
    ensures !s.pc.Popping? && Approaches(s, NextTimerStep(s))
  {
    assert |s.work| + |s.incoming.queue| == |Backlog(s)| == 0;
    assert !s.pc.Popping?;
    hide Approaches, LockInv, SignalInv, WakeInv, OnlyOwnPackets, TaskInv, OrderInv, CompletionInv, TimerInv;
    match s.pc
    case Blocked(_, _) => DueSleepEnds(s);
    case TimerTurn(_) => DueTimerRuns(s);
    case Reloading => LoopApproaches(s);
    case Polling(_) => LoopApproaches(s);
    case Deciding(_) => LoopApproaches(s);
    case Resetting(_) => LoopApproaches(s);
    case Running(_) => LoopApproaches(s);
  }

  lemma {:induction false} TimersDrain(s: System) returns (steps: seq<Action>, t: System)
    requires Invs(s) && OnlyTimersLeft(s)
    ensures Execute(s, steps) == Some(t) && forall a :: a in steps ==> IsLoopOrClock(a)
    ensures Invs(t) && Backlog(t) == [] && t.delayed == [] && t.accepted == s.accepted
    decreases TimerDistance(s)
  {
    hide SafetyInv, HistoryInv, NextTimerStep, Enabled, Apply, TimerDistance, Backlog;
    if s.delayed == [] {
      return [], s;
    }
    NextTimerStepApproaches(s);
    var a := NextTimerStep(s);
    KeepsInvs(s, a);
    ExecuteOne(s, a);
    var rest;
    rest, t := TimersDrain(Apply(s, a));
    ExecuteConcat(s, [a], rest);
    steps := [a] + rest;
  }

  lemma WaitUntilDue(s: System) returns (tick: Action)
    requires Invs(s) && Backlog(s) == [] && !s.pc.Starting?
    ensures tick.Tick? && Enabled(s, tick)
    ensures OnlyTimersLeft(Apply(s, tick)) && Apply(s, tick).accepted == s.accepted
  {
    var time := LatestTime(s.delayed);
    tick := Tick(time);
    assert |s.work| + |s.incoming.queue| == |Backlog(s)| == 0;
    assert LockInv(s);
  }

  lemma AllHaveRun(t: System)
    requires HistoryInv(t) && Backlog(t) == [] && t.delayed == []
    ensures multiset(Tasks(t.executed)) == multiset(t.accepted)
  {
    hide LockInv, OrderInv, TimerInv, CompletionInv, Tasks, Undelayed;
    assert |t.work| + |t.incoming.queue| == |Backlog(t)| == 0;
    assert t.accepted == t.retired;
  }

  /**
   Once the loop runs, some steps of the loop, the lock's holder and the clock alone run every task
   accepted so far exactly once, the delayed ones included: no task can be stuck.
   */
  lemma AllTasksRun(states: seq<System>, actions: seq<Action>, i: nat)
    returns (steps: seq<Action>, t: System)
    requires IsRun(states, actions) && i < |states| && !states[i].pc.Starting?
    ensures Execute(states[i], steps) == Some(t) && forall a :: a in steps ==> IsLoopOrClock(a)
    ensures t.accepted == states[i].accepted && multiset(Tasks(t.executed)) == multiset(states[i].accepted)
  {
    RunsAreSafe(states, actions, i);
    RunsKeepHistory(states, actions, i);
    var s := states[i];
    hide HistoryInv, SafetyInv, IsRun, Execute, Tasks, Backlog, Distance, Enabled, Apply;
    var first, u := BacklogDrains(s);
    var tick := WaitUntilDue(u);
    KeepsInvs(u, tick);
    ExecuteOne(u, tick);
    var last;
    last, t := TimersDrain(Apply(u, tick));
    ExecuteConcat(u, [tick], last);
    ExecuteConcat(s, first, [tick] + last);
    steps := first + ([tick] + last);
    AllHaveRun(t);
  }
}
