/** The queue other threads post to, guarded in the program by one lock. */
module IncomingTasks {
  import opened PendingTasks
  import opened MessagePump

  /** The lock-protected fields of `IncomingTaskQueue`. */
  datatype Incoming = Incoming(
    queue: seq<PendingTask>,
    nextSequenceNum: nat,
    messageLoopScheduled: bool,
    isReadyForScheduling: bool,
    alwaysScheduleWork: bool)

  function DelayedRuntime(delay: int, now: nat): nat {
    if delay > 0 then now + delay else 0
  }

  /** The push made by `PostPendingTask`. */
  function Enqueued(q: Incoming, task: nat, runTime: nat): Incoming {
    q.(queue := q.queue + [PendingTask(task, q.nextSequenceNum, runTime)],
       nextSequenceNum := q.nextSequenceNum + 1)
  }

  /** Whether a post into `q` has to wake the loop up. */
  predicate NeedsWakeUp(q: Incoming) {
    q.isReadyForScheduling && (q.alwaysScheduleWork || (!q.messageLoopScheduled && q.queue == []))
  }

  /** `ReloadWorkQueue`: the incoming queue it leaves, and the work queue. */
  function Reloaded(q: Incoming, work: seq<PendingTask>): (Incoming, seq<PendingTask>) {
    if q.queue == [] then (q.(messageLoopScheduled := false), work)
    else (q.(queue := work), q.queue)
  }

  class IncomingTaskQueue {
    var queue: seq<PendingTask>
    var nextSequenceNum: nat
    var messageLoopScheduled: bool
    var isReadyForScheduling: bool
    const alwaysScheduleWork: bool
    // The loop is used only for the wake-up it forwards to its pump.
    var messageLoop: MessagePumpForIO?

    function Value(): Incoming
      reads this
    {
      Incoming(queue, nextSequenceNum, messageLoopScheduled, isReadyForScheduling, alwaysScheduleWork)
    }

    constructor (pump: MessagePumpForIO)
      ensures Value() == Incoming([], 0, false, false, false) && messageLoop == pump
    {
      queue, nextSequenceNum, messageLoop := [], 0, pump;
      messageLoopScheduled, isReadyForScheduling, alwaysScheduleWork := false, false, false;
    }

    method AddToIncomingQueue(task: nat, delay: int, now: nat) returns (accepted: bool)
      modifies this, messageLoop
      ensures messageLoop == old(messageLoop) && accepted == (messageLoop != null)
      ensures !accepted ==> Value() == old(Value())
      ensures accepted ==>
                && nextSequenceNum == old(nextSequenceNum) + 1
                && queue == old(queue)
                            + [PendingTask(task, old(nextSequenceNum), if delay > 0 then now + delay else 0)]
      ensures !old(isReadyForScheduling)
              || (!alwaysScheduleWork && (old(messageLoopScheduled) || old(queue) != [])) ==>
                messageLoopScheduled == old(messageLoopScheduled)
                && (accepted ==> messageLoop.Value() == old(messageLoop.Value()))
      ensures accepted && !NeedsWakeUp(old(Value())) ==>
                && Value() == Enqueued(old(Value()), task, DelayedRuntime(delay, now))
                && messageLoop.Value() == old(messageLoop.Value())
      ensures accepted && NeedsWakeUp(old(Value())) ==>
                && Value() == Enqueued(old(Value()), task, DelayedRuntime(delay, now)).(messageLoopScheduled := true)
                && messageLoop.Value() == Scheduled(old(messageLoop.Value()))
    {
      var runTime := 0;
      if delay > 0 {
        runTime := now + delay;
      }
      accepted := PostPendingTask(task, runTime);
    }

    method PostPendingTask(task: nat, runTime: nat) returns (accepted: bool)
      modifies this, messageLoop
      ensures messageLoop == old(messageLoop) && accepted == (messageLoop != null)
      ensures !accepted ==> Value() == old(Value())
      ensures accepted && !NeedsWakeUp(old(Value())) ==>
                && Value() == Enqueued(old(Value()), task, runTime)
                && messageLoop.Value() == old(messageLoop.Value())
      ensures accepted && NeedsWakeUp(old(Value())) ==>
                && Value() == Enqueued(old(Value()), task, runTime).(messageLoopScheduled := true)
                && messageLoop.Value() == Scheduled(old(messageLoop.Value()))
    {
      if messageLoop == null {
        return false;
      }
      var pendingTask := PendingTask(task, nextSequenceNum, runTime);
      nextSequenceNum := nextSequenceNum + 1;
      var wasEmpty := queue == [];
      queue := queue + [pendingTask];
      if isReadyForScheduling && (alwaysScheduleWork || (!messageLoopScheduled && wasEmpty)) {
        ScheduleWork();
      }
      return true;
    }

    method ScheduleWork()
      modifies this`messageLoopScheduled, messageLoop
      ensures messageLoop == null ==> messageLoopScheduled == old(messageLoopScheduled)
      ensures messageLoop != null ==>
                messageLoopScheduled && messageLoop.Value() == Scheduled(old(messageLoop.Value()))
    {
      if messageLoop != null {
        messageLoop.ScheduleWork();
        messageLoopScheduled := true;
      }
    }

    method StartScheduling()
      modifies this`isReadyForScheduling, this`messageLoopScheduled, messageLoop
      ensures isReadyForScheduling
      ensures queue == [] || messageLoop == null ==> messageLoopScheduled == old(messageLoopScheduled)
      ensures queue == [] && messageLoop != null ==> messageLoop.Value() == old(messageLoop.Value())
      ensures queue != [] && messageLoop != null ==>
                messageLoopScheduled && messageLoop.Value() == Scheduled(old(messageLoop.Value()))
    {
      isReadyForScheduling := true;
      if queue != [] {
        ScheduleWork();
      }
    }

    /** Swaps the accepted tasks into the caller's work queue. */
    method ReloadWorkQueue(workQueue: seq<PendingTask>) returns (reloaded: seq<PendingTask>)
      modifies this`queue, this`messageLoopScheduled
      ensures (Value(), reloaded) == Reloaded(old(Value()), workQueue)
    {
      reloaded := workQueue;
      if queue == [] {
        messageLoopScheduled := false;
      } else {
        queue, reloaded := reloaded, queue;
      }
    }

    method WillDestroyCurrentMessageLoop()
      modifies this`messageLoop
      ensures messageLoop == null
    {
      messageLoop := null;
    }
  }
}
