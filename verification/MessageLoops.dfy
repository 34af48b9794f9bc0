/** The message loop proper: what one call of `DoWork` and one of `DoDelayedWork` do. */
module MessageLoops {
  import opened Prelude
  import opened PendingTasks
  import opened MessagePump
  import opened IncomingTasks

  /** The state `DoDelayedWork` reads and writes; `nextTime` is the pump's `delayed_work_time_`. */
  datatype Timers = Timers(delayed: seq<PendingTask>, recentTime: nat, nextTime: nat)

  /** One `DoDelayedWork` at time `now`: the new state, and the task it runs. */
  function DelayedTurn(t: Timers, now: nat): (Timers, Option<PendingTask>) {
    if t.delayed == [] then (Timers([], 0, 0), None)
    else
      var next := Top(t.delayed);
      var recent := if next.delayedRunTime > t.recentTime then now else t.recentTime;
      if next.delayedRunTime > recent then (Timers(t.delayed, recent, next.delayedRunTime), None)
      else
        var rest := WithoutTop(t.delayed);
        (Timers(rest, recent, if rest == [] then t.nextTime else Top(rest).delayedRunTime), Some(next))
  }

  /**
   A turn that runs a task runs the one due first, and only once it is due; a turn that runs
   none leaves the time of the earliest pending task, or 0 if there is none, to sleep by. The clock
   is read only if nothing is due by the time it was read before.
   */
  lemma DelayedTurnIsPunctual(t: Timers, now: nat)
    requires t.recentTime <= now
    ensures var (u, ran) := DelayedTurn(t, now);
            && u.recentTime <= now
            && (t.delayed != [] ==>
                  u.recentTime == if exists d :: d in t.delayed && d.delayedRunTime <= t.recentTime
                                  then t.recentTime else now)
            && (ran.Some? && u.delayed != [] ==>
                  && (exists d :: d in u.delayed && d.delayedRunTime == u.nextTime)
                  && forall d :: d in u.delayed ==> u.nextTime <= d.delayedRunTime)
            && (ran.Some? ==>
                  && ran.value.delayedRunTime <= now
                  && ran.value in t.delayed
                  && (forall d :: d in t.delayed ==> ran.value.delayedRunTime <= d.delayedRunTime)
                  && multiset(t.delayed) == multiset(u.delayed) + multiset{ran.value})
            && (ran.None? ==>
                  && u.delayed == t.delayed
                  && (u.delayed == [] ==> u.nextTime == 0)
                  && (u.delayed != [] ==>
                        && now < u.nextTime
                        && (exists d :: d in u.delayed && d.delayedRunTime == u.nextTime)
                        && forall d :: d in u.delayed ==> u.nextTime <= d.delayedRunTime))
  {
    if t.delayed != [] {
      var next := Top(t.delayed);
      assert next in t.delayed;
    }
  }

  ghost predicate AllDelayed(s: seq<PendingTask>) {
    forall i :: 0 <= i < |s| ==> s[i].IsDelayed()
  }

  /** What a call of `DoWork` may run: nothing, or one task that is not delayed. */
  ghost predicate AtMostOneUndelayed(s: seq<PendingTask>) {
    s == [] || (|s| == 1 && !s[0].IsDelayed())
  }

  lemma NoneAreDelayed()
    ensures AllDelayed([]) && AtMostOneUndelayed([])
  {
  }

  lemma DelayedSnoc(s: seq<PendingTask>, t: PendingTask)
    requires AllDelayed(s) && t.IsDelayed()
    ensures AllDelayed(s + [t])
  {
  }

  lemma DelayedConcat(a: seq<PendingTask>, b: seq<PendingTask>)
    requires AllDelayed(a) && AllDelayed(b)
    ensures AllDelayed(a + b)
  {
  }

  /**
   What `DoWork` makes of the tasks it can reach: it moves those at the front that are delayed to
   the timers, runs the next one, and leaves the rest; it runs none only if there is no other.
   */
  ghost predicate WorkSplit(
    backlog: seq<PendingTask>, moved: seq<PendingTask>, done: seq<PendingTask>, rest: seq<PendingTask>)
  {
    && AllDelayed(moved) && AtMostOneUndelayed(done)
    && backlog == moved + done + rest && (done == [] ==> rest == [])
  }

  lemma NothingRan(backlog: seq<PendingTask>, moved: seq<PendingTask>, rest: seq<PendingTask>)
    requires backlog == moved + rest && rest == [] && AllDelayed(moved)
    ensures WorkSplit(backlog, moved, [], rest)
  {
  }

  lemma TaskRan(
    backlog: seq<PendingTask>, moved: seq<PendingTask>, done: seq<PendingTask>, rest: seq<PendingTask>)
    requires backlog == moved + done + rest && done != [] && AllDelayed(moved) && AtMostOneUndelayed(done)
    ensures WorkSplit(backlog, moved, done, rest)
  {
  }

  /** There is only one way to split a backlog like that. */
  lemma WorkSplitIsUnique(
    backlog: seq<PendingTask>, m1: seq<PendingTask>, d1: seq<PendingTask>, r1: seq<PendingTask>,
    m2: seq<PendingTask>, d2: seq<PendingTask>, r2: seq<PendingTask>)
    requires WorkSplit(backlog, m1, d1, r1) && WorkSplit(backlog, m2, d2, r2)
    ensures m1 == m2 && d1 == d2 && r1 == r2
  {
    assert |m1| < |backlog| ==> d1 != [] && backlog[|m1|] == d1[0];
    assert |m2| < |backlog| ==> d2 != [] && backlog[|m2|] == d2[0];
    assert forall i :: 0 <= i < |m1| ==> backlog[i] == m1[i];
    assert forall i :: 0 <= i < |m2| ==> backlog[i] == m2[i];
    assert m1 == backlog[..|m1|] && m2 == backlog[..|m2|];
    assert r1 == backlog[|m1| + |d1|..] && r2 == backlog[|m2| + |d2|..];
  }

  lemma Regroup<T>(whole: seq<T>, a: seq<T>, b: seq<T>, c: seq<T>, d: seq<T>, e: seq<T>)
    requires whole == a + (b + c + d + e)
    ensures whole == (a + b) + c + (d + e)
    ensures c == [] ==> whole == (a + b) + (d + e)
  {
    assert a + (b + c + d + e) == (a + b) + c + (d + e);
    assert c == [] ==> (a + b) + c == a + b;
  }

  class MessageLoop {
    const incoming: IncomingTaskQueue
    const pump: MessagePumpForIO
    var workQueue: seq<PendingTask>
    var delayedWorkQueue: seq<PendingTask>
    var recentTime: nat
    var nestableTasksAllowed: bool
    // The closures run so far, oldest first.
    var executed: seq<PendingTask>

    function TimerState(): Timers
      reads this, pump
    {
      Timers(delayedWorkQueue, recentTime, pump.delayedWorkTime)
    }

    /** Every task that `DoWork` can still reach, in posting order. */
    function Backlog(): seq<PendingTask>
      reads this, incoming
    {
      workQueue + incoming.queue
    }

    constructor (incoming: IncomingTaskQueue, pump: MessagePumpForIO)
      ensures this.incoming == incoming && this.pump == pump
      ensures workQueue == delayedWorkQueue == executed == [] && recentTime == 0 && nestableTasksAllowed
    {
      this.incoming, this.pump := incoming, pump;
      workQueue, delayedWorkQueue, executed, recentTime, nestableTasksAllowed := [], [], [], 0, true;
    }

    /** The closure runs, and while it does, `DoWork` and `DoDelayedWork` find nested work forbidden. */
    method RunClosure(t: PendingTask)
      requires !nestableTasksAllowed
      modifies this`executed
      ensures executed == old(executed) + [t]
    {
      executed := executed + [t];
    }

    method RunTask(t: PendingTask)
      modifies this`nestableTasksAllowed, this`executed
      ensures executed == old(executed) + [t] && nestableTasksAllowed
    {
      nestableTasksAllowed := false;
      RunClosure(t);
      nestableTasksAllowed := true;
    }

    method ReloadWorkQueue()
      modifies this`workQueue, incoming`queue, incoming`messageLoopScheduled
      ensures Backlog() == old(Backlog())
      ensures old(workQueue) == [] ==> (incoming.Value(), workQueue) == Reloaded(old(incoming.Value()), [])
      ensures old(workQueue) != [] ==> workQueue == old(workQueue) && incoming.Value() == old(incoming.Value())
    {
      if workQueue == [] {
        workQueue := incoming.ReloadWorkQueue(workQueue);
      }
    }

    /** The time `ScheduleDelayedWork` was last given, once `moved` tasks went to the timers. */
    twostate predicate SleepTimeFollows(moved: seq<PendingTask>)
      reads this, pump
    {
      pump.delayedWorkTime ==
        if moved == [] || delayedWorkQueue == [] then old(pump.delayedWorkTime)
        else Top(delayedWorkQueue).delayedRunTime
    }

    /** The inner loop of `DoWork`: works off the work queue up to the first task it runs. */
    method RunOldestTask() returns (ran: bool, ghost moved: seq<PendingTask>, ghost done: seq<PendingTask>)
      requires nestableTasksAllowed
      modifies this`workQueue, this`delayedWorkQueue, this`nestableTasksAllowed, this`executed
      modifies pump`delayedWorkTime
      ensures nestableTasksAllowed
      ensures AllDelayed(moved) && AtMostOneUndelayed(done) && ran == (done != [])
      ensures old(workQueue) == moved + done + workQueue
      ensures executed == old(executed) + done
      ensures delayedWorkQueue == old(delayedWorkQueue) + moved
      ensures SleepTimeFollows(moved)
      ensures !ran ==> workQueue == []
    {
      hide Top, AllDelayed;
      moved, done := [], [];
      NoneAreDelayed();
      while workQueue != []
        invariant AllDelayed(moved) && old(workQueue) == moved + workQueue
        invariant delayedWorkQueue == old(delayedWorkQueue) + moved
        invariant executed == old(executed) && nestableTasksAllowed
        invariant SleepTimeFollows(moved)
        decreases |workQueue|
      {
        var pendingTask := workQueue[0];
        workQueue := workQueue[1..];
        if pendingTask.IsDelayed() {
          delayedWorkQueue := delayedWorkQueue + [pendingTask];
          pump.ScheduleDelayedWork(Top(delayedWorkQueue).delayedRunTime);
          DelayedSnoc(moved, pendingTask);
          moved := moved + [pendingTask];
        } else {
          RunTask(pendingTask);
          return true, moved, [pendingTask];
        }
      }
      return false, moved, [];
    }

    /**
     Moves the delayed tasks at the front of the backlog to the timers and runs the first task
     that is not delayed. Answers false only after a reload that found nothing.
     */
    method DoWork() returns (ran: bool, ghost moved: seq<PendingTask>, ghost done: seq<PendingTask>)
      modifies this`workQueue, this`delayedWorkQueue, this`nestableTasksAllowed, this`executed
      modifies incoming`queue, incoming`messageLoopScheduled, pump`delayedWorkTime
      ensures nestableTasksAllowed == old(nestableTasksAllowed)
      ensures ran == (done != []) && executed == old(executed) + done
      ensures delayedWorkQueue == old(delayedWorkQueue) + moved
      ensures SleepTimeFollows(moved)
      ensures !nestableTasksAllowed ==> !ran && moved == [] && Backlog() == old(Backlog())
      ensures nestableTasksAllowed ==> WorkSplit(old(Backlog()), moved, done, Backlog())
      ensures nestableTasksAllowed && !ran ==> !incoming.messageLoopScheduled
    {
      hide Top, AllDelayed, AtMostOneUndelayed, WorkSplit;
      ran, moved, done := false, [], [];
      if !nestableTasksAllowed {
        return;
      }
      NoneAreDelayed();
      while true
        invariant nestableTasksAllowed && !ran && done == []
        invariant AllDelayed(moved) && old(Backlog()) == moved + Backlog()
        invariant delayedWorkQueue == old(delayedWorkQueue) + moved
        invariant executed == old(executed)
        invariant SleepTimeFollows(moved)
        decreases |Backlog()|
      {
        ReloadWorkQueue();
        if workQueue == [] {
          NothingRan(old(Backlog()), moved, Backlog());
          break;
        }
        ghost var batch;
        ran, batch, done := RunOldestTask();
        Regroup(old(Backlog()), moved, batch, done, workQueue, incoming.queue);
        DelayedConcat(moved, batch);
        moved := moved + batch;
        if ran {
          TaskRan(old(Backlog()), moved, done, Backlog());
          return;
        }
      }
    }

    method DoDelayedWork(now: nat) returns (ran: bool)
      modifies this`delayedWorkQueue, this`recentTime, this`nestableTasksAllowed, this`executed
      modifies pump`delayedWorkTime
      ensures nestableTasksAllowed == old(nestableTasksAllowed)
      ensures !nestableTasksAllowed ==>
                !ran && executed == old(executed) && TimerState() == Timers(old(delayedWorkQueue), 0, 0)
      ensures nestableTasksAllowed ==>
                var (timers, task) := DelayedTurn(old(TimerState()), now);
                && TimerState() == timers
                && ran == task.Some?
                && executed == old(executed) + (if task.Some? then [task.value] else [])
    {
      if !nestableTasksAllowed || delayedWorkQueue == [] {
        recentTime := 0;
        pump.ScheduleDelayedWork(0);
        return false;
      }
      var nextRunTime := Top(delayedWorkQueue).delayedRunTime;
      if nextRunTime > recentTime {
        recentTime := now;
        if nextRunTime > recentTime {
          pump.ScheduleDelayedWork(nextRunTime);
          return false;
        }
      }
      var pendingTask := Top(delayedWorkQueue);
      delayedWorkQueue := WithoutTop(delayedWorkQueue);
      if delayedWorkQueue != [] {
        pump.ScheduleDelayedWork(Top(delayedWorkQueue).delayedRunTime);
      }
      RunTask(pendingTask);
      return true;
    }
  }
}
