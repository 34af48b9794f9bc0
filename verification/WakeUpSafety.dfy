/** What every interleaving of posters and loop keeps: one wake-up at most, and none lost. */
module WakeUpSafety {
  import opened Prelude
  import opened PendingTasks
  import opened MessagePump
  import opened MessageLoops
  import opened WakeUpProtocol

  // ------------------------------------------------------------ invariants

  /** The wake-up packets in a port. */
  function WakePackets(port: seq<IOItem>): nat {
    if port == [] then 0 else (if IsInternal(port[0]) then 1 else 0) + WakePackets(port[1..])
  }

  lemma {:induction false} WakePacketsSnoc(port: seq<IOItem>, item: IOItem)
    ensures WakePackets(port + [item]) == WakePackets(port) + if IsInternal(item) then 1 else 0
  {
    if port == [] {
      assert port + [item] == [item];
    } else {
      assert (port + [item])[1..] == port[1..] + [item];
      WakePacketsSnoc(port[1..], item);
    }
  }

  /** The loop thread will not reload again before it sleeps. */
  predicate Sleepy(pc: LoopPc) {
    match pc
    case Polling(more) => !more
    case TimerTurn(more) => !more
    case Deciding(more) => !more
    case Blocked(_, _) => true
    case _ => false
  }

  /** A callback or a reset never continues at a point from which the loop may fall asleep, nor inside a step. */
  predicate WakefulContinuations(pc: LoopPc) {
    pc.Running? || pc.Resetting? ==>
      !Sleepy(pc.next) && !pc.next.Starting? && !pc.next.Popping? && !pc.next.Resetting?
      && WakefulContinuations(pc.next)
  }

  /** Mutual exclusion, and why: the only thread inside a wake-up is the one that holds the lock. */
  ghost predicate LockInv(s: System) {
    && s.posters.Keys == (if s.lock.Some? then {s.lock.value} else {})
    && (s.lock.Some? ==> s.incoming.queue != [] && s.incoming.isReadyForScheduling)
    && (!s.pc.Starting? ==> s.incoming.isReadyForScheduling)
    && WakefulContinuations(s.pc)
    && CleanStash(s.pump)
  }

  /** Some thread stands at `pc` inside a wake-up. */
  predicate SomePosterAt(s: System, pc: PosterPc) {
    s.lock.Some? && PosterAt(s, s.lock.value, pc)
  }

  function Signals(s: System): nat {
    WakePackets(s.pump.port) + (if SomePosterAt(s, Posting) then 1 else 0) + if s.pc.Resetting? then 1 else 0
  }

  /** `work_state_` counts the wake-ups under way exactly. */
  ghost predicate SignalInv(s: System) {
    Signals(s) == if s.pump.workState == HAVE_WORK then 1 else 0
  }

  /** A wake-up is in the port or about to be put there. */
  predicate WakeUpInFlight(s: System) {
    WakePackets(s.pump.port) > 0 || SomePosterAt(s, Exchanging) || SomePosterAt(s, Posting)
  }

  ghost predicate WakeInv(s: System) {
    Sleepy(s.pc) ==>
      && (s.incoming.queue == [] ==> !s.incoming.messageLoopScheduled)
      && (s.incoming.queue != [] ==> WakeUpInFlight(s))
  }

  /** Every internal packet in the port is the one `ScheduleWork` posts. */
  ghost predicate OnlyOwnPackets(port: seq<IOItem>) {
    forall j :: 0 <= j < |port| && IsInternal(port[j]) ==> port[j] == WAKE_UP
  }

  ghost predicate SafetyInv(s: System) {
    LockInv(s) && SignalInv(s) && WakeInv(s) && OnlyOwnPackets(s.pump.port)
  }

  // ------------------------------------------------------ they are invariants

  lemma WaitKeepsPort(p: Pump, filter: Option<nat>)
    requires CleanStash(p)
    ensures var (q, result) := Wait(p, filter);
            && CleanStash(q) && q.workState == p.workState && q.delayedWorkTime == p.delayedWorkTime
            && WakePackets(p.port) == WakePackets(q.port) + if result.Internal? then 1 else 0
  {
  }

  lemma WaitKeepsLock(s: System, filter: Option<nat>, idle: LoopPc, busy: LoopPc)
    requires LockInv(s) && !s.pc.Starting?
    requires WakefulContinuations(idle) && WakefulContinuations(busy) && WakefulContinuations(Running(busy))
    ensures LockInv(AfterWait(s, filter, idle, busy))
  {
    hide Wait;
    WaitKeepsPort(s.pump, filter);
  }

  /** What a step of posting is: one that the loop's own position does not matter to. */
  predicate IsPosting(a: Action) {
    a.Post? || a.StartScheduling? || a.Exchange? || a.PostPacket? || a.Unlock?
  }

  lemma PostingKeepsLock(s: System, a: Action)
    requires LockInv(s) && Enabled(s, a) && IsPosting(a)
    ensures LockInv(Apply(s, a))
  {
    hide WakefulContinuations;
  }

  lemma WorkKeepsLock(s: System, a: Action)
    requires LockInv(s) && Enabled(s, a) && (a.Reload? || a.Pop? || a.RunTimers?)
    ensures LockInv(Apply(s, a))
  {
    hide DelayedTurn, Top;
    var t := Apply(s, a);
    assert WakefulContinuations(t.pc) && t.pump.completedIo == s.pump.completedIo;
    hide WakefulContinuations;
  }

  lemma KeepsLock(s: System, a: Action)
    requires LockInv(s) && Enabled(s, a)
    ensures LockInv(Apply(s, a))
  {
    if IsPosting(a) {
      PostingKeepsLock(s, a);
    } else {
      hide AfterWait, AfterTimers, AfterPop, AfterReload, IsPosting;
      match a
      case Reload => WorkKeepsLock(s, a);
      case Pop => WorkKeepsLock(s, a);
      case RunTimers => WorkKeepsLock(s, a);
      case Poll => WaitKeepsLock(s, None, TimerTurn(s.pc.more), TimerTurn(true));
      case Wake => WaitKeepsLock(s, None, Reloading, Reloading);
      case FilteredWait(filter) => WaitKeepsLock(s, filter, s.pc, s.pc);
      case _ =>
    }
  }

  /** A thread inside a wake-up is the lock's holder. */
  lemma HolderIs(s: System, thread: nat)
    requires LockInv(s) && thread in s.posters
    ensures s.lock == Some(thread) && s.posters == map[thread := s.posters[thread]]
  {
    assert thread in s.posters.Keys;
  }

  lemma KeepsOwnPackets(s: System, a: Action)
    requires OnlyOwnPackets(s.pump.port) && Enabled(s, a)
    ensures OnlyOwnPackets(Apply(s, a).pump.port)
  {
    hide DelayedTurn, Top, MatchIndex;
  }

  lemma WaitKeepsSignals(s: System, filter: Option<nat>, idle: LoopPc, busy: LoopPc)
    requires CleanStash(s.pump) && SignalInv(s)
    requires !s.pc.Resetting? && !idle.Resetting? && !busy.Resetting?
    ensures SignalInv(AfterWait(s, filter, idle, busy))
  {
    hide Wait;
    WaitKeepsPort(s.pump, filter);
  }

  lemma PostingKeepsSignals(s: System, a: Action)
    requires LockInv(s) && SignalInv(s) && Enabled(s, a) && IsPosting(a)
    ensures SignalInv(Apply(s, a))
  {
    hide WakefulContinuations, CleanStash, WakePackets;
    match a
    case Exchange(thread) => HolderIs(s, thread);
    case Unlock(thread) => HolderIs(s, thread);
    case PostPacket(thread) =>
      HolderIs(s, thread);
      WakePacketsSnoc(s.pump.port, WAKE_UP);
    case _ =>
  }

  lemma KeepsSignals(s: System, a: Action)
    requires LockInv(s) && SignalInv(s) && Enabled(s, a)
    ensures SignalInv(Apply(s, a))
  {
    if IsPosting(a) {
      PostingKeepsSignals(s, a);
    } else {
      hide AfterWait, DelayedTurn, Top, WakePackets, IsPosting;
      match a
      case Complete(item) => WakePacketsSnoc(s.pump.port, item);
      case Poll => WaitKeepsSignals(s, None, TimerTurn(s.pc.more), TimerTurn(true));
      case Wake => WaitKeepsSignals(s, None, Reloading, Reloading);
      case FilteredWait(filter) => WaitKeepsSignals(s, filter, s.pc, s.pc);
      case _ =>
    }
  }

  lemma WaitKeepsWake(s: System, filter: Option<nat>, idle: LoopPc, busy: LoopPc)
    requires CleanStash(s.pump) && WakeInv(s)
    requires !Sleepy(busy) && (Sleepy(idle) ==> Sleepy(s.pc))
    ensures WakeInv(AfterWait(s, filter, idle, busy))
  {
    hide Wait;
    WaitKeepsPort(s.pump, filter);
  }

  lemma PostingKeepsWake(s: System, a: Action)
    requires SafetyInv(s) && Enabled(s, a) && IsPosting(a)
    ensures WakeInv(Apply(s, a))
  {
    hide WakefulContinuations, CleanStash, WakePackets, OnlyOwnPackets;
    match a
    case Exchange(thread) => HolderIs(s, thread);
    case Unlock(thread) => HolderIs(s, thread);
    case PostPacket(thread) =>
      HolderIs(s, thread);
      WakePacketsSnoc(s.pump.port, WAKE_UP);
    case _ =>
  }

  lemma KeepsWake(s: System, a: Action)
    requires SafetyInv(s) && Enabled(s, a)
    ensures WakeInv(Apply(s, a))
  {
    if IsPosting(a) {
      PostingKeepsWake(s, a);
    } else {
      hide AfterWait, DelayedTurn, Top, WakePackets, OnlyOwnPackets, IsPosting;
      match a
      case Complete(item) => WakePacketsSnoc(s.pump.port, item);
      case Poll => WaitKeepsWake(s, None, TimerTurn(s.pc.more), TimerTurn(true));
      case Wake => WaitKeepsWake(s, None, Reloading, Reloading);
      case FilteredWait(filter) => WaitKeepsWake(s, filter, s.pc, s.pc);
      case _ =>
    }
  }

  lemma {:induction false} RunsAreSafe(states: seq<System>, actions: seq<Action>, i: nat)
    requires IsRun(states, actions) && i < |states|
    ensures SafetyInv(states[i])
  {
    if i > 0 {
      RunsAreSafe(states, actions, i - 1);
      var s, a := states[i - 1], actions[i - 1];
      KeepsLock(s, a);
      KeepsSignals(s, a);
      KeepsWake(s, a);
      KeepsOwnPackets(s, a);
    }
  }

  // ---------------------------------------------------------- what they mean

  /**
   While the loop is blocked with a task in the incoming queue, a wake-up packet is in the
   port, or the thread holding the lock is about to post one.
   */
  lemma NoLostWakeUp(states: seq<System>, actions: seq<Action>, i: nat)
    requires IsRun(states, actions) && i < |states|
    ensures var s := states[i];
            s.pc.Blocked? && s.incoming.queue != [] && s.incoming.isReadyForScheduling ==>
              || WAKE_UP in s.pump.port
              || (exists t :: s.lock == Some(t) && PosterAt(s, t, Posting))
              || (exists t :: s.lock == Some(t) && PosterAt(s, t, Exchanging) && s.pump.workState == READY)
  {
    RunsAreSafe(states, actions, i);
    if WakePackets(states[i].pump.port) > 0 {
      CountedIsPresent(states[i].pump.port);
    }
  }

  lemma {:induction false} CountedIsPresent(port: seq<IOItem>)
    requires OnlyOwnPackets(port) && WakePackets(port) > 0
    ensures WAKE_UP in port
  {
    if !IsInternal(port[0]) {
      CountedIsPresent(port[1..]);
    }
  }

  /**
   The port never holds two wake-up packets, and `work_state_` is READY exactly when no
   packet is queued, being posted, or dequeued but not yet acknowledged.
   */
  lemma AtMostOneWakeUp(states: seq<System>, actions: seq<Action>, i: nat)
    requires IsRun(states, actions) && i < |states|
    ensures Signals(states[i]) == if states[i].pump.workState == HAVE_WORK then 1 else 0
    ensures WakePackets(states[i].pump.port) <= 1
  {
    RunsAreSafe(states, actions, i);
  }

  /** Two threads are never inside a wake-up at once. */
  lemma PostersExcludeEachOther(states: seq<System>, actions: seq<Action>, i: nat, t: nat, u: nat)
    requires IsRun(states, actions) && i < |states|
    requires t in states[i].posters && u in states[i].posters
    ensures t == u && states[i].lock == Some(t)
  {
    RunsAreSafe(states, actions, i);
    HolderIs(states[i], t);
    HolderIs(states[i], u);
  }
}
