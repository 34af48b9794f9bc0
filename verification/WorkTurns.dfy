/** The reloads and pops of the transition system, taken together, are one call of `DoWork`. */
module WorkTurns {
  import opened Prelude
  import opened PendingTasks
  import opened MessageLoops
  import opened TaskHistory
  import opened WakeUpProgress
  import opened WakeUpProtocol

  /** The tasks `DoWork` can reach. */
  function Backlog(s: System): seq<PendingTask> {
    s.work + s.incoming.queue
  }

  /** From `s` to `t` happens what the contract of `DoWork` promises. */
  ghost predicate Works(s: System, t: System, moved: seq<PendingTask>, done: seq<PendingTask>) {
    && WorkSplit(Backlog(s), moved, done, Backlog(t))
    && t.delayed == s.delayed + moved
    && Tasks(t.executed) == Tasks(s.executed) + done
    && t.pump.delayedWorkTime == (if moved == [] then s.pump.delayedWorkTime else Top(t.delayed).delayedRunTime)
    && (done == [] ==> !t.incoming.messageLoopScheduled)
    && t.pc == if done == [] then Polling(false) else Running(Polling(true))
  }

  predicate IsWorkStep(a: Action) {
    a.Reload? || a.Pop?
  }

  lemma FoundNothing(s: System)
    requires s.pc.Reloading? && s.lock.None? && Backlog(s) == []
    ensures Works(s, Apply(s, Reload), [], [])
  {
    assert |s.work| + |s.incoming.queue| == 0;
  }

  lemma ReloadKeepsBacklog(s: System)
    requires s.pc.Reloading? && s.lock.None? && Backlog(s) != []
    ensures var t := Apply(s, Reload);
            && Backlog(t) == Backlog(s) && t.pc.Popping? && t.work != [] && t.lock.None?
            && t.delayed == s.delayed && t.executed == s.executed && t.pump == s.pump
  {
  }

  lemma RunsTheTask(s: System)
    requires s.pc.Popping? && s.work != [] && !s.work[0].IsDelayed()
    ensures Works(s, Apply(s, Pop), [], [s.work[0]])
  {
    TasksSnoc(s.executed, Execution(s.work[0], s.now));
    assert s.work == [s.work[0]] + s.work[1..];
  }

  lemma MovesTheTask(s: System, t: System, moved: seq<PendingTask>, done: seq<PendingTask>)
    requires s.pc.Popping? && s.work != [] && s.work[0].IsDelayed()
    requires Works(Apply(s, Pop), t, moved, done)
    ensures Works(s, t, [s.work[0]] + moved, done)
  {
    hide Tasks, Top;
    var first, u := s.work[0], Apply(s, Pop);
    assert s.work == [first] + s.work[1..];
    assert Backlog(s) == [first] + Backlog(u);
    assert [first] + (moved + done + Backlog(t)) == ([first] + moved) + done + Backlog(t);
    assert s.delayed + [first] + moved == s.delayed + ([first] + moved);
    if moved == [] {
      assert t.delayed == s.delayed + [first];
    }
  }

  /** From where `DoWork` starts, reloads and pops lead to where it returns. */
  lemma {:induction false} StepsWork(s: System)
    returns (steps: seq<Action>, t: System, moved: seq<PendingTask>, done: seq<PendingTask>)
    requires s.lock.None? && (s.pc.Reloading? || (s.pc.Popping? && s.work != []))
    ensures Execute(s, steps) == Some(t) && forall a :: a in steps ==> IsWorkStep(a)
    ensures Works(s, t, moved, done)
    decreases |Backlog(s)|, s.pc.Reloading?
  {
    hide Works;
    var a := if s.pc.Reloading? then Reload else Pop;
    ExecuteOne(s, a);
    var rest: seq<Action>;
    if s.pc.Reloading? && Backlog(s) == [] {
      FoundNothing(s);
      steps, t, moved, done := [a], Apply(s, a), [], [];
    } else if s.pc.Reloading? {
      ReloadKeepsBacklog(s);
      rest, t, moved, done := StepsWork(Apply(s, a));
      ExecuteConcat(s, [a], rest);
      steps := [a] + rest;
      ReloadingWorks(s, t, moved, done);
    } else if s.work[0].IsDelayed() {
      rest, t, moved, done := StepsWork(Apply(s, a));
      ExecuteConcat(s, [a], rest);
      steps := [a] + rest;
      MovesTheTask(s, t, moved, done);
      moved := [s.work[0]] + moved;
    } else {
      RunsTheTask(s);
      steps, t, moved, done := [a], Apply(s, a), [], [s.work[0]];
    }
  }

  lemma ReloadingWorks(s: System, t: System, moved: seq<PendingTask>, done: seq<PendingTask>)
    requires s.pc.Reloading? && s.lock.None? && Backlog(s) != []
    requires Works(Apply(s, Reload), t, moved, done)
    ensures Works(s, t, moved, done)
  {
    ReloadKeepsBacklog(s);
  }

  /**
   Whatever split of the backlog `DoWork` ends with, the loop's own steps, with no post in between,
   move and run the same tasks and leave the same backlog.
   */
  lemma StepsAreDoWork(s: System, moved: seq<PendingTask>, done: seq<PendingTask>, rest: seq<PendingTask>)
    returns (steps: seq<Action>, t: System)
    requires s.pc.Reloading? && s.lock.None? && WorkSplit(Backlog(s), moved, done, rest)
    ensures Execute(s, steps) == Some(t) && forall a :: a in steps ==> IsWorkStep(a)
    ensures Works(s, t, moved, done) && Backlog(t) == rest
  {
    var m, d;
    steps, t, m, d := StepsWork(s);
    WorkSplitIsUnique(Backlog(s), moved, done, rest, m, d, Backlog(t));
  }
}
