/**
 The task record of the message loop, its order in the delayed queue, and the
 filters used to state who ran before whom.
 */
module PendingTasks {

  /** `task` identifies the closure. A `delayedRunTime` of 0 means "not delayed". */
  datatype PendingTask = PendingTask(task: nat, sequenceNum: nat, delayedRunTime: nat) {
    predicate IsDelayed() {
      delayedRunTime != 0
    }
  }

  /** `PendingTask::operator<`: the task due first is the greatest. */
  predicate Less(a: PendingTask, b: PendingTask) {
    if a.delayedRunTime < b.delayedRunTime then false
    else if a.delayedRunTime > b.delayedRunTime then true
    else a.sequenceNum - b.sequenceNum > 0
  }

  /** Where `std::priority_queue::top` finds its greatest element. */
  function TopIndex(q: seq<PendingTask>): (i: nat)
    requires q != []
    ensures i < |q|
    ensures forall j :: 0 <= j < |q| ==> !Less(q[i], q[j])
  {
    var last := |q| - 1;
    if last == 0 then 0
    else
      var k := TopIndex(q[..last]);
      assert forall j :: 0 <= j < last ==> q[j] == q[..last][j];
      if Less(q[k], q[last]) then last else k
  }

  function Top(q: seq<PendingTask>): (t: PendingTask)
    requires q != []
    ensures t in q
    ensures forall u :: u in q ==> t.delayedRunTime <= u.delayedRunTime
    ensures forall u :: u in q && u.delayedRunTime == t.delayedRunTime ==> t.sequenceNum <= u.sequenceNum
  {
    assert forall u :: u in q ==> !Less(q[TopIndex(q)], u);
    q[TopIndex(q)]
  }

  /** `std::priority_queue::pop`. */
  function WithoutTop(q: seq<PendingTask>): (r: seq<PendingTask>)
    requires q != []
    ensures multiset(q) == multiset(r) + multiset{Top(q)}
    ensures forall u :: u in r ==> u in q
  {
    var i := TopIndex(q);
    assert q == q[..i] + [q[i]] + q[i + 1..];
    q[..i] + q[i + 1..]
  }

  /** The tasks that were posted without a delay, in order. */
  function Undelayed(s: seq<PendingTask>): seq<PendingTask> {
    if s == [] then []
    else
      var t := s[|s| - 1];
      if t.IsDelayed() then Undelayed(s[..|s| - 1]) else Undelayed(s[..|s| - 1]) + [t]
  }

  lemma UndelayedSnoc(s: seq<PendingTask>, t: PendingTask)
    ensures Undelayed(s + [t]) == if t.IsDelayed() then Undelayed(s) else Undelayed(s) + [t]
  {
    assert (s + [t])[..|s|] == s;
  }

  lemma {:induction false} UndelayedIn(s: seq<PendingTask>, t: PendingTask)
    ensures t in Undelayed(s) <==> t in s && !t.IsDelayed()
  {
    if s != [] {
      UndelayedIn(s[..|s| - 1], t);
    }
  }

  lemma {:induction false} UndelayedConcat(a: seq<PendingTask>, b: seq<PendingTask>)
    ensures Undelayed(a + b) == Undelayed(a) + Undelayed(b)
  {
    if b == [] {
      assert a + b == a;
    } else {
      var n := |b| - 1;
      assert a + b == (a + b[..n]) + [b[n]];
      UndelayedSnoc(a + b[..n], b[n]);
      UndelayedConcat(a, b[..n]);
    }
  }
}
