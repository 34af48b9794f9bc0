/** What every run keeps about the tasks themselves: none lost, none early, none out of order. */
module TaskHistory {
  import opened Prelude
  import opened PendingTasks
  import opened MessagePump
  import opened IncomingTasks
  import opened MessageLoops
  import opened WakeUpProtocol
  import opened WakeUpSafety

  function Tasks(e: seq<Execution>): seq<PendingTask> {
    if e == [] then [] else Tasks(e[..|e| - 1]) + [e[|e| - 1].task]
  }

  lemma TasksSnoc(e: seq<Execution>, x: Execution)
    ensures Tasks(e + [x]) == Tasks(e) + [x.task]
  {
    assert (e + [x])[..|e|] == e;
  }

  lemma {:induction false} TasksAt(e: seq<Execution>, i: nat)
    requires i < |e|
    ensures |Tasks(e)| == |e| && Tasks(e)[i] == e[i].task
  {
    if i < |e| - 1 {
      TasksAt(e[..|e| - 1], i);
    } else if i > 0 {
      TasksAt(e[..|e| - 1], 0);
    }
  }

  // ------------------------------------------------------------- conservation

  ghost predicate Numbered(s: seq<PendingTask>) {
    forall i :: 0 <= i < |s| ==> s[i].sequenceNum == i
  }

  /** Sequence numbers tell tasks apart. */
  lemma {:induction false} NumberedAreDistinct(s: seq<PendingTask>, t: PendingTask)
    requires Numbered(s)
    ensures multiset(s)[t] <= 1
    ensures t in s ==> t.sequenceNum < |s|
  {
    if s != [] {
      var n := |s| - 1;
      NumberedAreDistinct(s[..n], t);
      assert s == s[..n] + [s[n]];
      if t == s[n] {
        assert t !in s[..n];
      }
    }
  }

  ghost predicate TaskInv(s: System) {
    && s.accepted == s.retired + s.work + s.incoming.queue
    && Numbered(s.accepted) && s.incoming.nextSequenceNum == |s.accepted|
    && multiset(s.retired) == multiset(s.delayed) + multiset(Tasks(s.executed))
    && Undelayed(s.retired) == Undelayed(Tasks(s.executed))
    && (forall d :: d in s.delayed ==> d.IsDelayed())
  }

  lemma PopKeepsTasks(s: System)
    requires TaskInv(s) && s.work != []
    ensures TaskInv(AfterPop(s))
  {
    hide Undelayed, Tasks, Top;
    var t := s.work[0];
    assert s.work == [t] + s.work[1..];
    assert s.retired + s.work + s.incoming.queue == s.retired + [t] + s.work[1..] + s.incoming.queue;
    UndelayedSnoc(s.retired, t);
    if !t.IsDelayed() {
      TasksSnoc(s.executed, Execution(t, s.now));
      UndelayedSnoc(Tasks(s.executed), t);
    }
  }

  lemma TimersKeepTasks(s: System)
    requires TaskInv(s) && s.pc.TimerTurn?
    ensures TaskInv(AfterTimers(s))
  {
    hide Undelayed, Tasks, Top, WithoutTop;
    var (_, ran) := DelayedTurn(Timers(s.delayed, s.recentTime, s.pump.delayedWorkTime), s.now);
    if ran.Some? {
      TasksSnoc(s.executed, Execution(ran.value, s.now));
      UndelayedSnoc(Tasks(s.executed), ran.value);
    }
  }

  lemma PostKeepsTasks(s: System, thread: nat, task: nat, delay: int)
    requires TaskInv(s)
    ensures TaskInv(AfterPost(s, thread, task, delay))
  {
    hide Undelayed, Tasks;
    var t := PendingTask(task, s.incoming.nextSequenceNum, DelayedRuntime(delay, s.now));
    assert s.accepted + [t] == s.retired + s.work + (s.incoming.queue + [t]);
  }

  lemma KeepsTasks(s: System, a: Action)
    requires TaskInv(s) && Enabled(s, a)
    ensures TaskInv(Apply(s, a))
  {
    hide Undelayed, Tasks, Wait;
    match a
    case Post(thread, task, delay) => PostKeepsTasks(s, thread, task, delay);
    case Pop => PopKeepsTasks(s);
    case RunTimers => TimersKeepTasks(s);
    case _ =>
  }

  // -------------------------------------------------------------------- order

  /** A delayed task that ran had a smaller number than any left waiting for the same time. */
  ghost predicate OrderInv(s: System) {
    && (forall i, d :: 0 <= i < |s.executed| && d in s.delayed ==> RanBefore(s.executed[i].task, d))
    && (forall i, j :: 0 <= i < j < |s.executed| ==> RanBefore(s.executed[i].task, s.executed[j].task))
  }

  /** `t` may run before `u`: if both are due at the same time, `t` was posted first. */
  predicate RanBefore(t: PendingTask, u: PendingTask) {
    t.IsDelayed() && t.delayedRunTime == u.delayedRunTime ==> t.sequenceNum < u.sequenceNum
  }

  /** Whatever was executed or waits on a timer was popped before, so its number is smaller. */
  lemma RetiredAreOlder(s: System, t: PendingTask)
    requires TaskInv(s) && (t in s.delayed || t in Tasks(s.executed))
    ensures t.sequenceNum < |s.retired|
  {
    assert t in multiset(s.retired);
    assert forall i :: 0 <= i < |s.retired| ==> s.accepted[i] == s.retired[i];
    NumberedAreDistinct(s.retired, t);
  }

  lemma PopKeepsOrder(s: System)
    requires TaskInv(s) && OrderInv(s) && s.work != []
    ensures OrderInv(AfterPop(s))
  {
    hide Undelayed, Tasks, Top;
    assert s.accepted[|s.retired|] == s.work[0];
    forall i | 0 <= i < |s.executed|
      ensures s.executed[i].task.sequenceNum < s.work[0].sequenceNum
    {
      TasksAt(s.executed, i);
      RetiredAreOlder(s, s.executed[i].task);
    }
  }

  lemma TimersKeepOrder(s: System)
    requires TaskInv(s) && OrderInv(s) && s.pc.TimerTurn?
    ensures OrderInv(AfterTimers(s))
  {
    hide Top, WithoutTop, TaskInv;
    var (timers, ran) := DelayedTurn(Timers(s.delayed, s.recentTime, s.pump.delayedWorkTime), s.now);
    if ran.Some? {
      var t := ran.value;
      forall d | d in timers.delayed && d.delayedRunTime == t.delayedRunTime
        ensures t.sequenceNum < d.sequenceNum
      {
        TopIsStrict(s, d);
      }
    }
  }

  /** Among equal run times, the top of the queue has the strictly smallest number. */
  lemma TopIsStrict(s: System, d: PendingTask)
    requires TaskInv(s) && s.delayed != [] && d in WithoutTop(s.delayed)
    requires d.delayedRunTime == Top(s.delayed).delayedRunTime
    ensures Top(s.delayed).sequenceNum < d.sequenceNum
  {
    var t := Top(s.delayed);
    assert multiset(s.delayed)[t] == multiset(WithoutTop(s.delayed))[t] + 1;
    assert forall i :: 0 <= i < |s.retired| ==> s.accepted[i] == s.retired[i];
    NumberedAreDistinct(s.retired, t);
    assert d != t;
    assert t in multiset(s.retired) && d in multiset(s.retired);
  }

  lemma KeepsOrder(s: System, a: Action)
    requires TaskInv(s) && OrderInv(s) && Enabled(s, a)
    ensures OrderInv(Apply(s, a))
  {
    hide AfterTimers, AfterPop, TaskInv;
    match a
    case Pop => PopKeepsOrder(s);
    case RunTimers => TimersKeepOrder(s);
    case _ =>
  }

  // ------------------------------------------------------------------- timers

  ghost predicate SleepTimeIsRight(s: System) {
    && (s.delayed == [] ==> s.pump.delayedWorkTime == 0)
    && (s.delayed != [] ==> s.pump.delayedWorkTime == Top(s.delayed).delayedRunTime)
  }

  ghost predicate TimerInv(s: System) {
    && s.recentTime <= s.now
    && (forall i :: 0 <= i < |s.executed| ==>
          s.executed[i].task.delayedRunTime <= s.executed[i].at <= s.now)
    && (Sleepy(s.pc) ==> s.work == [])
    && (s.pc == Deciding(false) || s.pc.Blocked? ==> SleepTimeIsRight(s))
    && (s.pc.Popping? ==> s.work != [])
    && (s.pc.Blocked? ==>
          && s.pc.since <= s.now
          && (s.pc.until.None? <==> s.delayed == [])
          && (s.pc.until.Some? ==>
                s.pc.until.value == s.pc.since + CurrentDelay(s.pump.delayedWorkTime, s.pc.since)))
  }

  lemma TimersKeepTimers(s: System)
    requires TaskInv(s) && TimerInv(s) && s.pc.TimerTurn?
    ensures TimerInv(AfterTimers(s))
  {
    hide TaskInv, Top;
    TurnUsesTheClock(Timers(s.delayed, s.recentTime, s.pump.delayedWorkTime), s.now);
  }

  lemma TurnUsesTheClock(t: Timers, now: nat)
    requires t.recentTime <= now
    ensures var (u, ran) := DelayedTurn(t, now);
            && u.recentTime <= now
            && (ran.Some? ==> ran.value.delayedRunTime <= now)
            && (ran.None? && u.delayed == [] ==> u.nextTime == 0)
            && (ran.None? && u.delayed != [] ==> u.nextTime == Top(u.delayed).delayedRunTime)
  {
  }

  lemma SleepKeepsTimers(s: System)
    requires TaskInv(s) && TimerInv(s) && s.pc.Deciding?
    ensures TimerInv(AfterDecide(s))
  {
    if !s.pc.more && s.delayed != [] {
      assert Top(s.delayed).IsDelayed();
    }
  }

  lemma WaitKeepsTimers(s: System, filter: Option<nat>, idle: LoopPc, busy: LoopPc)
    requires LockInv(s) && TimerInv(s)
    requires !Sleepy(busy) && !busy.Popping? && (Sleepy(idle) ==> Sleepy(s.pc) && idle.TimerTurn?)
    requires idle.TimerTurn? || idle.Running? || idle.Reloading?
    ensures TimerInv(AfterWait(s, filter, idle, busy))
  {
    hide Wait, Top;
    WaitKeepsPort(s.pump, filter);
  }

  lemma PopKeepsTimers(s: System)
    requires TaskInv(s) && TimerInv(s) && Enabled(s, Pop)
    ensures TimerInv(AfterPop(s))
  {
    hide Top, TaskInv;
    var t := AfterPop(s);
    assert !Sleepy(t.pc) && !t.pc.Blocked? && t.recentTime == s.recentTime && t.now == s.now;
    assert t.executed == s.executed
        || (!s.work[0].IsDelayed() && t.executed == s.executed + [Execution(s.work[0], s.now)]);
    hide AfterPop, Sleepy;
  }

  /** What posting and arriving completions leave alone. */
  ghost predicate SameTimers(s: System, t: System) {
    && t.recentTime == s.recentTime && t.now == s.now && t.executed == s.executed && t.work == s.work
    && t.pc == s.pc && t.delayed == s.delayed && t.pump.delayedWorkTime == s.pump.delayedWorkTime
  }

  lemma SameTimersKeepInv(s: System, t: System)
    requires TimerInv(s) && SameTimers(s, t)
    ensures TimerInv(t)
  {
    hide Top;
  }

  lemma AsideKeepsTimers(s: System, a: Action)
    requires TimerInv(s) && Enabled(s, a) && (IsPosting(a) || a.Complete?)
    ensures TimerInv(Apply(s, a))
  {
    hide TimerInv;
    SameTimersKeepInv(s, Apply(s, a));
  }

  /** The steps that only move the loop thread on, and the clock. */
  lemma MovingKeepsTimers(s: System, a: Action)
    requires LockInv(s) && TimerInv(s) && Enabled(s, a)
    requires a.EnterLoop? || a.Reload? || a.Return? || a.Reset? || a.Expire? || a.Tick?
    ensures TimerInv(Apply(s, a))
  {
    hide Top, SleepTimeIsRight;
    if a.Tick? {
      SleepIgnoresTheClock(s, a);
    }
  }

  lemma SleepIgnoresTheClock(s: System, a: Action)
    requires Enabled(s, a) && a.Tick?
    ensures SleepTimeIsRight(s) == SleepTimeIsRight(Apply(s, a))
  {
  }

  lemma KeepsTimers(s: System, a: Action)
    requires LockInv(s) && TaskInv(s) && TimerInv(s) && Enabled(s, a)
    ensures TimerInv(Apply(s, a))
  {
    if IsPosting(a) || a.Complete? {
      AsideKeepsTimers(s, a);
    } else if a.EnterLoop? || a.Reload? || a.Return? || a.Reset? || a.Expire? || a.Tick? {
      MovingKeepsTimers(s, a);
    } else {
      hide AfterWait, AfterTimers, AfterDecide, AfterPop, TaskInv, TimerInv, IsPosting;
      match a
      case Pop => PopKeepsTimers(s);
      case Poll => WaitKeepsTimers(s, None, TimerTurn(s.pc.more), TimerTurn(true));
      case Wake => WaitKeepsTimers(s, None, Reloading, Reloading);
      case FilteredWait(filter) => WaitKeepsTimers(s, filter, s.pc, s.pc);
      case Decide => SleepKeepsTimers(s);
      case RunTimers => TimersKeepTimers(s);
    }
  }

  // -------------------------------------------------------------- completions

  ghost predicate CompletionInv(s: System) {
    forall h: nat :: HandlerView(s.pump, h) == Of(h, s.arrived)
  }

  lemma KeepsCompletions(s: System, a: Action)
    requires LockInv(s) && CompletionInv(s) && Enabled(s, a)
    ensures CompletionInv(Apply(s, a))
  {
    var t := Apply(s, a);
    forall h: nat
      ensures HandlerView(t.pump, h) == Of(h, t.arrived)
    {
      StepKeepsHandlerView(s, a, h);
    }
  }

  lemma ArrivalJoinsView(p: Pump, item: IOItem, h: nat)
    ensures HandlerView(p.(port := p.port + [item]), h) == HandlerView(p, h) + Of(h, [item])
  {
    OfConcat(h, p.port, [item]);
  }

  lemma WaitStepKeepsView(s: System, filter: Option<nat>, idle: LoopPc, busy: LoopPc, h: nat)
    requires LockInv(s)
    ensures HandlerView(AfterWait(s, filter, idle, busy).pump, h) == HandlerView(s.pump, h)
    ensures AfterWait(s, filter, idle, busy).arrived == s.arrived
  {
    WaitKeepsHandlerOrder(s.pump, filter, h);
  }

  lemma SameQueuesSameView(p: Pump, q: Pump, h: nat)
    requires p.port == q.port && p.completedIo == q.completedIo && p.delivered == q.delivered
    ensures HandlerView(p, h) == HandlerView(q, h)
  {
  }

  lemma StepKeepsHandlerView(s: System, a: Action, h: nat)
    requires LockInv(s) && HandlerView(s.pump, h) == Of(h, s.arrived) && Enabled(s, a)
    ensures HandlerView(Apply(s, a).pump, h) == Of(h, Apply(s, a).arrived)
  {
    hide HandlerView, Of, AfterWait, DelayedTurn;
    match a
    case Complete(item) =>
      ArrivalJoinsView(s.pump, item, h);
      OfConcat(h, s.arrived, [item]);
    case PostPacket(_) =>
      ArrivalJoinsView(s.pump, WAKE_UP, h);
      OfOne(h, WAKE_UP);
    case Poll => WaitStepKeepsView(s, None, TimerTurn(s.pc.more), TimerTurn(true), h);
    case Wake => WaitStepKeepsView(s, None, Reloading, Reloading, h);
    case FilteredWait(filter) => WaitStepKeepsView(s, filter, s.pc, s.pc, h);
    case _ => SameQueuesSameView(s.pump, Apply(s, a).pump, h);
  }

  // -------------------------------------------------------------- whole runs

  ghost predicate HistoryInv(s: System) {
    LockInv(s) && TaskInv(s) && OrderInv(s) && TimerInv(s) && CompletionInv(s)
  }

  lemma {:induction false} RunsKeepHistory(states: seq<System>, actions: seq<Action>, i: nat)
    requires IsRun(states, actions) && i < |states|
    ensures HistoryInv(states[i])
  {
    if i > 0 {
      RunsKeepHistory(states, actions, i - 1);
      var s, a := states[i - 1], actions[i - 1];
      KeepsLock(s, a);
      KeepsTasks(s, a);
      KeepsOrder(s, a);
      KeepsTimers(s, a);
      KeepsCompletions(s, a);
    }
  }

  /** Every accepted task is in exactly one of the four places, once. */
  lemma TasksAreConserved(states: seq<System>, actions: seq<Action>, i: nat, t: PendingTask)
    requires IsRun(states, actions) && i < |states|
    ensures var s := states[i];
            multiset(s.incoming.queue)[t] + multiset(s.work)[t] + multiset(s.delayed)[t] +
            multiset(Tasks(s.executed))[t] == if t in s.accepted then 1 else 0
  {
    RunsKeepHistory(states, actions, i);
    var s := states[i];
    NumberedAreDistinct(s.accepted, t);
    assert multiset(s.accepted) == multiset(s.retired) + multiset(s.work) + multiset(s.incoming.queue);
    assert t in s.accepted <==> t in multiset(s.accepted);
  }

  /** Tasks without a delay run in the order they were posted, and none is skipped. */
  lemma UndelayedRunInPostingOrder(states: seq<System>, actions: seq<Action>, i: nat)
    requires IsRun(states, actions) && i < |states|
    ensures var s := states[i];
            Undelayed(s.accepted) == Undelayed(Tasks(s.executed)) + Undelayed(s.work + s.incoming.queue)
  {
    RunsKeepHistory(states, actions, i);
    var s := states[i];
    assert s.retired + s.work + s.incoming.queue == s.retired + (s.work + s.incoming.queue);
    UndelayedConcat(s.retired, s.work + s.incoming.queue);
  }

  /** Delayed tasks due at the same time run in the order they were posted. */
  lemma EqualTimesRunInPostingOrder(states: seq<System>, actions: seq<Action>, i: nat, j: nat, k: nat)
    requires IsRun(states, actions) && i < |states|
    requires j < |states[i].executed| && k < |states[i].executed|
    requires var e := states[i].executed;
             && e[j].task.IsDelayed() && e[j].task.delayedRunTime == e[k].task.delayedRunTime
             && e[j].task.sequenceNum < e[k].task.sequenceNum
    ensures j < k
  {
    RunsKeepHistory(states, actions, i);
  }

  /** No task runs before its time, although `DoDelayedWork` trusts a cached clock. */
  lemma TimersAreNeverEarly(states: seq<System>, actions: seq<Action>, i: nat, k: nat)
    requires IsRun(states, actions) && i < |states| && k < |states[i].executed|
    ensures states[i].executed[k].task.delayedRunTime <= states[i].executed[k].at
  {
    RunsKeepHistory(states, actions, i);
  }

  /**
   A loop that sleeps has an empty work queue, knows the earliest pending run time, and
   sleeps without a deadline exactly when no delayed task is pending. A deadline is exactly
   the earliest run time, unless that had come before the loop fell asleep, when it does not
   sleep at all, or was further off than `INT_MAX`, when it sleeps that long.
   */
  lemma SleepIsPunctual(states: seq<System>, actions: seq<Action>, i: nat)
    requires IsRun(states, actions) && i < |states| && states[i].pc.Blocked?
    ensures var s := states[i];
            && s.work == []
            && (s.pump.delayedWorkTime == 0 <==> s.delayed == [])
            && (s.delayed != [] ==>
                  && (exists d :: d in s.delayed && d.delayedRunTime == s.pump.delayedWorkTime)
                  && forall d :: d in s.delayed ==> s.pump.delayedWorkTime <= d.delayedRunTime)
            && (s.pc.until.None? <==> s.delayed == [])
            && s.pc.since <= s.now
            && (s.pc.until.Some? ==>
                  s.pc.until.value == if s.pump.delayedWorkTime <= s.pc.since then s.pc.since
                                      else if s.pump.delayedWorkTime <= s.pc.since + 0x7FFF_FFFF
                                        then s.pump.delayedWorkTime
                                      else s.pc.since + 0x7FFF_FFFF)
  {
    RunsKeepHistory(states, actions, i);
    var s := states[i];
    if s.delayed != [] {
      assert Top(s.delayed).IsDelayed();
    }
  }

  // ------------------------------------------------------------ delays as posted

  lemma {:induction false} AcceptedGrow(states: seq<System>, actions: seq<Action>, i: nat, j: nat)
    requires IsRun(states, actions) && i <= j < |states|
    ensures states[i].accepted <= states[j].accepted
    decreases j - i
  {
    hide Enabled, Apply;
    if i < j {
      AcceptedGrow(states, actions, i, j - 1);
      StepAccepts(states[j - 1], actions[j - 1]);
    }
  }

  lemma StepAccepts(s: System, a: Action)
    requires Enabled(s, a)
    ensures s.accepted <= Apply(s, a).accepted
  {
    hide Wait, DelayedTurn, Top;
  }

  /** The task that the post at step `k` numbers: its time is `delay` after the post, or it is not delayed at all. */
  lemma PostsAreDelayedAsAsked(states: seq<System>, actions: seq<Action>, k: nat, j: nat)
    requires IsRun(states, actions) && k < j < |states| && actions[k].Post?
    ensures var n, delay := |states[k].accepted|, actions[k].delay;
            && n < |states[j].accepted| && states[j].accepted[n].task == actions[k].task
            && states[j].accepted[n].sequenceNum == n
            && (delay > 0 ==> states[j].accepted[n].delayedRunTime == states[k].now + delay)
            && (delay <= 0 ==> states[j].accepted[n].delayedRunTime == 0)
  {
    RunsKeepHistory(states, actions, k);
    PostAccepts(states[k], actions[k]);
    hide HistoryInv, Enabled, Apply;
    AcceptedGrow(states, actions, k + 1, j);
  }

  lemma PostAccepts(s: System, a: Action)
    requires TaskInv(s) && Enabled(s, a) && a.Post?
    ensures Apply(s, a).accepted == s.accepted
            + [PendingTask(a.task, |s.accepted|, if a.delay > 0 then s.now + a.delay else 0)]
  {
    hide Tasks, Undelayed;
  }

  /** A task in one of the loop's places is the accepted one of its number. */
  lemma NumberTellsTask(s: System, t: PendingTask)
    requires TaskInv(s) && (t in s.delayed || t in Tasks(s.executed))
    ensures t.sequenceNum < |s.accepted| && s.accepted[t.sequenceNum] == t
  {
    hide Tasks, Undelayed;
    RetiredAreOlder(s, t);
    assert t in multiset(s.retired);
    var i :| 0 <= i < |s.retired| && s.retired[i] == t;
    assert s.accepted[i] == t;
  }

  /** The task posted at step `k` never runs before its delay, counted from the post, is over. */
  lemma DelaysAreWaitedOut(states: seq<System>, actions: seq<Action>, k: nat, j: nat, e: nat)
    requires IsRun(states, actions) && k < j < |states| && actions[k].Post?
    requires e < |states[j].executed| && states[j].executed[e].task.sequenceNum == |states[k].accepted|
    ensures states[j].executed[e].task.task == actions[k].task
    ensures actions[k].delay > 0 ==> states[j].executed[e].at >= states[k].now + actions[k].delay
    ensures actions[k].delay <= 0 ==> states[j].executed[e].task in Undelayed(states[j].accepted)
  {
    hide IsRun, Tasks, OrderInv, CompletionInv, Undelayed;
    RunsKeepHistory(states, actions, j);
    PostsAreDelayedAsAsked(states, actions, k, j);
    TasksAt(states[j].executed, e);
    NumberTellsTask(states[j], states[j].executed[e].task);
    UndelayedIn(states[j].accepted, states[j].executed[e].task);
  }

  /**
   While a task posted with a delay waits and the loop sleeps, the sleep ends no later than the delay,
   counted from the post, unless it was over when the loop fell asleep: then it ends at once.
   */
  lemma SleepEndsWithDelay(states: seq<System>, actions: seq<Action>, k: nat, j: nat, t: PendingTask)
    requires IsRun(states, actions) && k < j < |states| && actions[k].Post?
    requires states[j].pc.Blocked? && t in states[j].delayed && t.sequenceNum == |states[k].accepted|
    ensures actions[k].delay > 0 && t.delayedRunTime == states[k].now + actions[k].delay
    ensures var s := states[j];
            && s.pc.until.Some?
            && (s.pc.until.value <= states[k].now + actions[k].delay || s.pc.until.value == s.pc.since)
  {
    hide IsRun, Tasks, OrderInv, CompletionInv, Undelayed, Top;
    RunsKeepHistory(states, actions, j);
    PostsAreDelayedAsAsked(states, actions, k, j);
    NumberTellsTask(states[j], t);
    SleepIsPunctual(states, actions, j);
  }

  /** Between `i` and `j` the loop takes no completions but with the filter `h`. */
  ghost predicate WaitsOnlyFor(actions: seq<Action>, i: nat, j: nat, h: nat)
    requires i <= j <= |actions|
  {
    forall k :: i <= k < j ==> !actions[k].Poll? && !actions[k].Wake?
                               && (actions[k].FilteredWait? ==> actions[k].filter == Some(h))
  }

  lemma StepServesOnly(s: System, a: Action, h: nat)
    requires Enabled(s, a) && !a.Poll? && !a.Wake? && (a.FilteredWait? ==> a.filter == Some(h))
    ensures var t := Apply(s, a);
            || t.pump.delivered == s.pump.delivered
            || exists item: IOItem :: item.handler == h && t.pump.delivered == s.pump.delivered + [item]
  {
    hide Wait, DelayedTurn, Top;
    if a.FilteredWait? {
      FilteredWaitServesItsHandler(s.pump, h);
      assert Apply(s, a).pump == Wait(s.pump, Some(h)).0;
    }
  }

  /** While the loop thread waits for one handler, in a task or a callback, no other handler's callback runs. */
  lemma {:induction false} FilteredWaitsServeOneHandler(
      states: seq<System>, actions: seq<Action>, i: nat, j: nat, h: nat)
    requires IsRun(states, actions) && i <= j < |states| && WaitsOnlyFor(actions, i, j, h)
    ensures states[i].pump.delivered <= states[j].pump.delivered
    ensures forall k :: |states[i].pump.delivered| <= k < |states[j].pump.delivered| ==>
              states[j].pump.delivered[k].handler == h
    decreases j - i
  {
    hide Enabled, Apply;
    if i < j {
      FilteredWaitsServeOneHandler(states, actions, i, j - 1, h);
      StepServesOnly(states[j - 1], actions[j - 1], h);
    }
  }

  /** Each handler's callbacks are a prefix of its completions, in the order the port got them. */
  lemma CompletionsAreInPortOrder(states: seq<System>, actions: seq<Action>, i: nat, h: nat)
    requires IsRun(states, actions) && i < |states|
    ensures var s := states[i];
            Of(h, s.arrived) == Of(h, s.pump.delivered) + Of(h, s.pump.completedIo) + Of(h, s.pump.port)
  {
    RunsKeepHistory(states, actions, i);
    assert HandlerView(states[i].pump, h) == Of(h, states[i].arrived);
  }
}
