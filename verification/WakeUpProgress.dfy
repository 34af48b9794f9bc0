/** A sleeping loop with work waiting is always a few steps from doing it. */
module WakeUpProgress {
  import opened Prelude
  import opened MessagePump
  import opened PendingTasks
  import opened MessageLoops
  import opened WakeUpProtocol
  import opened WakeUpSafety
  import opened TaskHistory

  /** Takes the steps one after the other; None if one of them is not enabled. */
  function Execute(s: System, steps: seq<Action>): Option<System>
    decreases |steps|
  {
    if steps == [] then Some(s)
    else if Enabled(s, steps[0]) then Execute(Apply(s, steps[0]), steps[1..])
    else None
  }

  lemma {:induction false} ExecuteConcat(s: System, a: seq<Action>, b: seq<Action>)
    requires Execute(s, a).Some?
    ensures Execute(s, a + b) == Execute(Execute(s, a).value, b)
    decreases |a|
  {
    if a == [] {
      assert a + b == b;
    } else {
      assert (a + b)[1..] == a[1..] + b;
      ExecuteConcat(Apply(s, a[0]), a[1..], b);
    }
  }

  lemma ExecuteOne(s: System, a: Action)
    requires Enabled(s, a)
    ensures Execute(s, [a]) == Some(Apply(s, a))
  {
    assert [a][1..] == [];
  }

  /** A step the program takes by itself: nobody posts, no I/O completes and no time passes. */
  predicate IsInternalStep(a: Action) {
    !a.Post? && !a.Complete? && !a.Tick? && !a.Expire?
  }

  /** One step of the thread that holds the lock. */
  function HolderStep(s: System): Action
    requires LockInv(s) && s.lock.Some?
  {
    var t := s.lock.value;
    assert t in s.posters.Keys;
    match s.posters[t]
    case Exchanging => Exchange(t)
    case Posting => PostPacket(t)
    case Flagging => Unlock(t)
  }

  /**
   What the model leaves free: whenever nobody holds the lock, any other thread may post anything, and so
   may the loop's own before it runs and inside a task or callback; I/O completes and time passes at any
   moment; a task or callback may wait for any handler; a sleep ends by itself once its deadline has come.
   */
  lemma SurroundingsAreFree(s: System, thread: nat, task: nat, delay: int, item: IOItem, h: Option<nat>, elapsed: nat)
    ensures s.lock.None? && (thread == 0 ==> s.pc.Running? || s.pc.Starting?) ==> Enabled(s, Post(thread, task, delay))
    ensures item.handler != THIS || item.context != THIS ==> Enabled(s, Complete(item))
    ensures Enabled(s, Tick(elapsed)) && Apply(s, Tick(elapsed)).now == s.now + elapsed
    ensures s.pc.Running? && 0 !in s.posters ==> Enabled(s, FilteredWait(h))
    ensures s.pc.Blocked? && s.pc.until.Some? && s.pc.until.value <= s.now ==> Enabled(s, Expire)
  {
  }

  /** The loop gets going: the objects are as constructed, scheduling starts, and the loop is entered. */
  lemma LoopStarts(s: System)
    requires Init(s)
    ensures s.pump == Pump(READY, [], [], 0, [])
    ensures s.incoming.queue == [] && s.incoming.nextSequenceNum == 0
            && !s.incoming.messageLoopScheduled && !s.incoming.isReadyForScheduling
    ensures
      var t := Execute(s, [StartScheduling, EnterLoop]);
      t.Some? && t.value.pc == Reloading && t.value.incoming.isReadyForScheduling
  {
    var t := Apply(s, StartScheduling);
    assert [StartScheduling, EnterLoop][1..] == [EnterLoop];
    ExecuteOne(t, EnterLoop);
  }

  /** The exchange and the post, one step each, are one call of `ScheduleWork`. */
  lemma StepsAreScheduleWork(s: System, thread: nat)
    requires PosterAt(s, thread, Exchanging)
    ensures
      var t := Apply(s, Exchange(thread));
      var u := if PosterAt(t, thread, Posting) then Apply(t, PostPacket(thread)) else t;
      u.pump == Scheduled(s.pump) && PosterAt(u, thread, Flagging)
  {
  }

  /** A post begins a wake-up only into an empty queue whose loop has not been told yet, unless every post is to. */
  lemma OnlyTheFirstPostWakes(s: System, a: Action)
    requires Enabled(s, a) && a.Post? && s.incoming.isReadyForScheduling
    ensures Apply(s, a).lock.Some? <==>
            s.incoming.alwaysScheduleWork || (s.incoming.queue == [] && !s.incoming.messageLoopScheduled)
  {
  }

  /** The reload that finds both queues empty, on the way to sleep. */
  predicate FindsNothing(s: System, a: Action) {
    a.Reload? && s.work == [] && s.incoming.queue == []
  }

  lemma {:induction false} ToldStaysTold(states: seq<System>, actions: seq<Action>, i: nat, j: nat)
    requires IsRun(states, actions) && i <= j < |states| && states[i].incoming.messageLoopScheduled
    requires forall k :: i <= k < j ==> !FindsNothing(states[k], actions[k])
    ensures states[j].incoming.messageLoopScheduled
    decreases j - i
  {
    hide Wait, DelayedTurn, Top;
    if i < j {
      ToldStaysTold(states, actions, i, j - 1);
    }
  }

  lemma {:induction false} AlwaysStays(states: seq<System>, actions: seq<Action>, i: nat)
    requires IsRun(states, actions) && i < |states|
    ensures states[i].incoming.alwaysScheduleWork == states[0].incoming.alwaysScheduleWork
  {
    hide Wait, DelayedTurn, Top;
    if i > 0 {
      AlwaysStays(states, actions, i - 1);
    }
  }

  /** Between a finished wake-up and a post that begins another, the loop has found nothing to do. */
  lemma WakeUpsAreNotRepeated(states: seq<System>, actions: seq<Action>, i: nat, j: nat)
    requires IsRun(states, actions) && i < j < |actions| && !states[0].incoming.alwaysScheduleWork
    requires actions[i].Unlock? && actions[j].Post? && states[j + 1].lock.Some?
    ensures exists k :: i < k < j && FindsNothing(states[k], actions[k])
  {
    hide Wait, DelayedTurn, Top;
    RunsAreSafe(states, actions, j);
    AlwaysStays(states, actions, j);
    assert states[i + 1].incoming.messageLoopScheduled;
    if forall k :: i < k < j ==> !FindsNothing(states[k], actions[k]) {
      ToldStaysTold(states, actions, i + 1, j);
    }
  }

  /** How many steps the holder still has to take, at most. */
  function HolderDistance(s: System): nat
    requires LockInv(s)
  {
    if s.lock.None? then 0
    else
      assert s.lock.value in s.posters.Keys;
      match s.posters[s.lock.value]
      case Exchanging => 3
      case Posting => 2
      case Flagging => 1
  }

  /** The holder always gets out, leaving queue and loop alone. */
  lemma {:induction false} HolderFinishes(s: System) returns (steps: seq<Action>, t: System)
    requires SafetyInv(s)
    ensures Execute(s, steps) == Some(t) && |steps| <= HolderDistance(s)
    ensures forall a :: a in steps ==> IsInternalStep(a)
    ensures SafetyInv(t) && t.lock.None?
    ensures t.pc == s.pc && t.work == s.work && t.incoming.queue == s.incoming.queue
    decreases HolderDistance(s)
  {
    if s.lock.None? {
      return [], s;
    }
    var a := HolderStep(s);
    HolderIs(s, s.lock.value);
    KeepsLock(s, a);
    KeepsSignals(s, a);
    KeepsWake(s, a);
    KeepsOwnPackets(s, a);
    ExecuteOne(s, a);
    var rest;
    rest, t := HolderFinishes(Apply(s, a));
    ExecuteConcat(s, [a], rest);
    steps := [a] + rest;
  }

  /** With nobody inside a wake-up, a blocked loop with a task waiting has something to receive. */
  lemma BlockedLoopCanWake(s: System)
    requires SafetyInv(s) && s.pc.Blocked? && s.lock.None? && s.incoming.queue != []
    ensures Enabled(s, Wake)
    ensures var t := Apply(s, Wake);
            && (t.pc == Resetting(Reloading) || t.pc == Running(Reloading))
            && t.lock.None? && t.posters == s.posters && t.work == s.work && t.incoming == s.incoming
  {
    assert WakePackets(s.pump.port) > 0;
  }

  /** From waking up to the reload that takes the whole incoming queue. */
  lemma WokenLoopReloads(s: System) returns (steps: seq<Action>, t: System)
    requires LockInv(s) && s.lock.None? && s.work == [] && s.incoming.queue != []
    requires s.pc == Resetting(Reloading) || s.pc == Running(Reloading)
    ensures Execute(s, steps) == Some(t) && |steps| == 2
    ensures forall a :: a in steps ==> IsInternalStep(a)
    ensures t.work == s.incoming.queue && t.incoming.queue == [] && t.pc == Popping
  {
    assert s.posters.Keys == {};
    var a := if s.pc.Resetting? then Reset else Return;
    var u := Apply(s, a);
    ExecuteOne(s, a);
    ExecuteOne(u, Reload);
    ExecuteConcat(s, [a], [Reload]);
    steps, t := [a] + [Reload], Apply(u, Reload);
  }

  /**
   Whenever the loop is blocked with tasks in the incoming queue, at most six steps of the
   lock holder and the loop itself bring all of them into the work queue.
   */
  lemma BlockedLoopGetsItsTasks(states: seq<System>, actions: seq<Action>, i: nat)
    returns (steps: seq<Action>, t: System)
    requires IsRun(states, actions) && i < |states|
    requires states[i].pc.Blocked? && states[i].incoming.queue != []
    ensures Execute(states[i], steps) == Some(t) && |steps| <= 6
    ensures forall a :: a in steps ==> IsInternalStep(a)
    ensures t.work == states[i].incoming.queue && t.incoming.queue == [] && t.pc == Popping
  {
    var s := states[i];
    RunsAreSafe(states, actions, i);
    BlockedHasNoWork(states, actions, i);
    hide SafetyInv, Apply, Enabled, IsRun;
    var first, u := HolderFinishes(s);
    var last;
    last, t := BlockedLoopWakes(u);
    ExecuteConcat(s, first, last);
    steps := first + last;
  }

  lemma BlockedHasNoWork(states: seq<System>, actions: seq<Action>, i: nat)
    requires IsRun(states, actions) && i < |states| && states[i].pc.Blocked?
    ensures states[i].work == []
  {
    SleepIsPunctual(states, actions, i);
  }

  lemma BlockedLoopWakes(u: System) returns (steps: seq<Action>, t: System)
    requires SafetyInv(u) && u.pc.Blocked? && u.lock.None? && u.incoming.queue != [] && u.work == []
    ensures Execute(u, steps) == Some(t) && |steps| <= 3
    ensures forall a :: a in steps ==> IsInternalStep(a)
    ensures t.work == u.incoming.queue && t.incoming.queue == [] && t.pc == Popping
  {
    BlockedLoopCanWake(u);
    KeepsLock(u, Wake);
    ExecuteOne(u, Wake);
    var last;
    last, t := WokenLoopReloads(Apply(u, Wake));
    hide SafetyInv, Apply, Enabled;
    ExecuteConcat(u, [Wake], last);
    steps := [Wake] + last;
  }
}
