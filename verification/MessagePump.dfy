/**
 The I/O message pump: the wake-up flag, the completion port, and the stash of
 completions that a filtered wait received for somebody else.
 */
module MessagePump {
  import opened Prelude

  datatype WorkState = READY | HAVE_WORK

  /** One completion. `handler` is the completion key, `context` the overlapped pointer. */
  datatype IOItem = IOItem(handler: nat, context: nat, bytesTransfered: nat, error: nat)

  /** The address of the pump itself, used as key and context of a wake-up packet. */
  const THIS: nat := 0

  const WAKE_UP := IOItem(THIS, THIS, 0, 0)

  /** INFINITE, as the Windows wait functions take it. */
  const INFINITE: int := 0xFFFF_FFFF

  const INT_MAX: int := 0x7FFF_FFFF

  /** `MessagePumpForIO::ProcessInternalIOItem`, the test. */
  predicate IsInternal(item: IOItem) {
    item.context == THIS && item.handler == THIS
  }

  /** The pump as a value; `delivered` records the calls of `OnIOCompleted` in order. */
  datatype Pump = Pump(
    workState: WorkState,
    port: seq<IOItem>,
    completedIo: seq<IOItem>,
    delayedWorkTime: nat,
    delivered: seq<IOItem>)

  datatype WaitResult = TimedOut | Internal | Delivered(item: IOItem) | Postponed(item: IOItem)

  // ---------------------------------------------------------------- wake-ups

  /** The first half of `ScheduleWork`: the interlocked exchange. */
  function SetHaveWork(p: Pump): Pump {
    p.(workState := HAVE_WORK)
  }

  /** The second half: `PostQueuedCompletionStatus`, which is taken to succeed. */
  function PostWakeUp(p: Pump): Pump {
    p.(port := p.port + [WAKE_UP])
  }

  function Scheduled(p: Pump): Pump {
    if p.workState != READY then SetHaveWork(p) else PostWakeUp(SetHaveWork(p))
  }

  /** What `ProcessInternalIOItem` does once a wake-up packet is recognised. */
  function SetReady(p: Pump): Pump {
    p.(workState := READY)
  }

  // ------------------------------------------------------------- completions

  predicate Accepts(filter: Option<nat>, item: IOItem) {
    filter.None? || item.handler == filter.value
  }

  /** The index of the first stashed item the filter accepts, or the length if there is none. */
  function MatchIndex(stash: seq<IOItem>, filter: Option<nat>): (i: nat)
    ensures i <= |stash|
    ensures i < |stash| ==> Accepts(filter, stash[i])
    ensures forall j :: 0 <= j < i ==> !Accepts(filter, stash[j])
  {
    if stash == [] || Accepts(filter, stash[0]) then 0 else 1 + MatchIndex(stash[1..], filter)
  }

  /** One `WaitForIOCompletion`, up to the point where it runs a callback or resets the flag. */
  function Wait(p: Pump, filter: Option<nat>): (r: (Pump, WaitResult)) {
    var i := MatchIndex(p.completedIo, filter);
    if i < |p.completedIo| then
      var item := p.completedIo[i];
      (p.(completedIo := p.completedIo[..i] + p.completedIo[i + 1..], delivered := p.delivered + [item]),
       Delivered(item))
    else if p.port == [] then (p, TimedOut)
    else
      var item := p.port[0];
      var q := p.(port := p.port[1..]);
      if IsInternal(item) then (q, Internal)
      else if !Accepts(filter, item) then (q.(completedIo := q.completedIo + [item]), Postponed(item))
      else (q.(delivered := q.delivered + [item]), Delivered(item))
  }

  /** The completions of handler `h` in `s`, wake-up packets left out. */
  function Of(h: nat, s: seq<IOItem>): seq<IOItem> {
    if s == [] then []
    else if s[0].handler == h && !IsInternal(s[0]) then [s[0]] + Of(h, s[1..])
    else Of(h, s[1..])
  }

  /** Everything handler `h` has seen or will see, oldest first. */
  function HandlerView(p: Pump, h: nat): seq<IOItem> {
    Of(h, p.delivered) + Of(h, p.completedIo) + Of(h, p.port)
  }

  lemma {:induction false} OfConcat(h: nat, a: seq<IOItem>, b: seq<IOItem>)
    ensures Of(h, a + b) == Of(h, a) + Of(h, b)
  {
    if a == [] {
      assert a + b == b;
    } else {
      var ab := a + b;
      assert ab[0] == a[0] && ab[1..] == a[1..] + b;
      OfConcat(h, a[1..], b);
    }
  }

  lemma OfOne(h: nat, item: IOItem)
    ensures Of(h, [item]) == if item.handler == h && !IsInternal(item) then [item] else []
  {
    assert [item][1..] == [];
  }

  lemma {:induction false} NoneOf(h: nat, s: seq<IOItem>)
    requires forall j :: 0 <= j < |s| ==> s[j].handler != h
    ensures Of(h, s) == []
  {
    if s != [] {
      NoneOf(h, s[1..]);
    }
  }

  /** The pump's stash holds no wake-up packet. */
  ghost predicate CleanStash(p: Pump) {
    forall i :: 0 <= i < |p.completedIo| ==> !IsInternal(p.completedIo[i])
  }

  /** A stashed item taken out of turn overtakes nothing of its own handler. */
  lemma TakeKeepsOrder(h: nat, stash: seq<IOItem>, filter: Option<nat>)
    requires forall j :: 0 <= j < |stash| ==> !IsInternal(stash[j])
    ensures var i := MatchIndex(stash, filter);
            i < |stash| ==> Of(h, [stash[i]]) + Of(h, stash[..i] + stash[i + 1..]) == Of(h, stash)
  {
    hide Of, MatchIndex;
    var i := MatchIndex(stash, filter);
    if i < |stash| {
      var before, item, after := stash[..i], [stash[i]], stash[i + 1..];
      assert stash == before + (item + after);
      OfConcat(h, before, item + after);
      OfConcat(h, item, after);
      OfConcat(h, before, after);
      OfOne(h, stash[i]);
      if stash[i].handler == h {
        NoneOf(h, before);
      }
      NothingAside(Of(h, before), Of(h, item), Of(h, after));
    }
  }

  lemma NothingAside<T>(a: seq<T>, b: seq<T>, c: seq<T>)
    requires a == [] || b == []
    ensures b + (a + c) == a + (b + c)
  {
  }

  /** Taking the oldest item of a port splits off at most one item of each handler. */
  lemma OfHead(h: nat, s: seq<IOItem>)
    requires s != []
    ensures Of(h, s) == Of(h, [s[0]]) + Of(h, s[1..])
  {
    OfConcat(h, [s[0]], s[1..]);
    assert [s[0]] + s[1..] == s;
  }

  lemma Reassociate<T>(a: seq<T>, b: seq<T>, c: seq<T>, d: seq<T>)
    requires b == [] || c == []
    ensures a + b + c + d == a + c + (b + d)
  {
  }

  /** An item delivered past a stash that holds nothing of its handler overtakes nothing. */
  lemma DeliverKeepsOrder(h: nat, delivered: seq<IOItem>, stash: seq<IOItem>, port: seq<IOItem>)
    requires port != [] && forall j :: 0 <= j < |stash| ==> stash[j].handler != port[0].handler
    ensures Of(h, delivered + [port[0]]) + Of(h, stash) + Of(h, port[1..])
         == Of(h, delivered) + Of(h, stash) + Of(h, port)
  {
    OfHead(h, port);
    OfConcat(h, delivered, [port[0]]);
    var one, kept := Of(h, [port[0]]), Of(h, stash);
    assert one == [] || kept == [] by {
      OfOne(h, port[0]);
      if port[0].handler == h {
        NoneOf(h, stash);
      }
    }
    Reassociate(Of(h, delivered), one, kept, Of(h, port[1..]));
  }

  /** An item put at the end of the stash stays behind the older ones of its handler. */
  lemma PostponeKeepsOrder(h: nat, stash: seq<IOItem>, port: seq<IOItem>)
    requires port != []
    ensures Of(h, stash + [port[0]]) + Of(h, port[1..]) == Of(h, stash) + Of(h, port)
  {
    hide Of;
    OfHead(h, port);
    OfConcat(h, stash, [port[0]]);
    Associative(Of(h, stash), Of(h, [port[0]]), Of(h, port[1..]));
  }

  /**
   Whatever filter a wait uses, no completion is lost, duplicated or overtaken by a later
   one of the same handler.
   */
  lemma WaitKeepsHandlerOrder(p: Pump, filter: Option<nat>, h: nat)
    requires CleanStash(p)
    ensures HandlerView(Wait(p, filter).0, h) == HandlerView(p, h)
  {
    hide Of, MatchIndex;
    var i := MatchIndex(p.completedIo, filter);
    if i < |p.completedIo| {
      TakingKeepsView(p, filter, h);
    } else if p.port == [] {
    } else if IsInternal(p.port[0]) {
      OfHead(h, p.port);
      OfOne(h, p.port[0]);
    } else if Accepts(filter, p.port[0]) {
      DeliverKeepsOrder(h, p.delivered, p.completedIo, p.port);
    } else {
      PostponingKeepsView(p, h);
    }
  }

  lemma TakingKeepsView(p: Pump, filter: Option<nat>, h: nat)
    requires CleanStash(p) && MatchIndex(p.completedIo, filter) < |p.completedIo|
    ensures HandlerView(Wait(p, filter).0, h) == HandlerView(p, h)
  {
    hide Of, MatchIndex;
    var i := MatchIndex(p.completedIo, filter);
    var one, others := [p.completedIo[i]], p.completedIo[..i] + p.completedIo[i + 1..];
    TakeKeepsOrder(h, p.completedIo, filter);
    OfConcat(h, p.delivered, one);
    Associative(Of(h, p.delivered), Of(h, one), Of(h, others));
  }

  lemma PostponingKeepsView(p: Pump, h: nat)
    requires p.port != []
    ensures HandlerView(p.(port := p.port[1..], completedIo := p.completedIo + [p.port[0]]), h) == HandlerView(p, h)
  {
    hide Of;
    PostponeKeepsOrder(h, p.completedIo, p.port);
    Associative(Of(h, p.delivered), Of(h, p.completedIo + [p.port[0]]), Of(h, p.port[1..]));
    Associative(Of(h, p.delivered), Of(h, p.completedIo), Of(h, p.port));
  }

  // ----------------------------------------------------- whom a wait is for

  /**
   A wait with a filter runs the filter's handler and no other: the oldest stashed item of that handler
   if there is one; otherwise the oldest item of the port, which goes to the stash if it is another's.
   */
  lemma FilteredWaitServesItsHandler(p: Pump, h: nat)
    ensures var (q, result) := Wait(p, Some(h));
            && (result.Delivered? ==> result.item.handler == h && q.delivered == p.delivered + [result.item])
            && (result.Postponed? ==> result.item.handler != h && q.completedIo == p.completedIo + [result.item])
            && (!result.Delivered? ==> q.delivered == p.delivered)
            && (result.Delivered? || result.Postponed? || q.completedIo == p.completedIo)
            && (q.port == if result.TimedOut? || Stashed(p, h) then p.port else p.port[1..])
            && (result.TimedOut? ==> p.port == [] && !Stashed(p, h))
            && (Stashed(p, h) ==> result.Delivered?)
    ensures forall i :: 0 <= i < |p.completedIo| && IsFirstOf(p.completedIo, i, h) ==>
              && Wait(p, Some(h)).1 == Delivered(p.completedIo[i])
              && Wait(p, Some(h)).0.completedIo == p.completedIo[..i] + p.completedIo[i + 1..]
  {
  }

  ghost predicate Stashed(p: Pump, h: nat) {
    exists i :: 0 <= i < |p.completedIo| && p.completedIo[i].handler == h
  }

  ghost predicate IsFirstOf(stash: seq<IOItem>, i: nat, h: nat)
    requires i < |stash|
  {
    stash[i].handler == h && forall j :: 0 <= j < i ==> stash[j].handler != h
  }

  /** A wait without a filter never puts anything aside: it takes from the stash while there is something in it. */
  lemma UnfilteredWaitServesAll(p: Pump)
    ensures var (q, result) := Wait(p, None);
            && !result.Postponed?
            && (p.completedIo != [] ==> result == Delivered(p.completedIo[0]) && q.port == p.port)
            && (p.completedIo == [] && p.port == [] ==> result == TimedOut && q == p)
  {
  }

  /** The packet `ScheduleWork` posts is never given to a handler; every other item of the port is, or is put aside. */
  lemma OnlyThePumpsOwnPacketIsInternal(p: Pump, h: nat)
    requires p.completedIo == [] && p.port != []
    ensures p.port[0].handler == THIS && p.port[0].context == THIS ==>
              Wait(p, None).1 == Internal && Wait(p, Some(h)).1 == Internal
    ensures p.port[0].handler != THIS || p.port[0].context != THIS ==>
              && Wait(p, None).1 == Delivered(p.port[0])
              && Wait(p, Some(h)).1 == if p.port[0].handler == h then Delivered(p.port[0]) else Postponed(p.port[0])
  {
  }

  // --------------------------------------------------------- the sleep timeout

  /** `GetCurrentDelay`: -1 means no timer is waiting. */
  function CurrentDelay(delayedWorkTime: nat, now: nat): (d: int)
    ensures d == -1 <==> delayedWorkTime == 0
    ensures -1 <= d <= 0x7FFF_FFFF
    ensures d > 0 ==> now + d <= delayedWorkTime
    ensures d >= 0 && d < 0x7FFF_FFFF ==> now + d >= delayedWorkTime
  {
    if delayedWorkTime == 0 then -1
    else
      var timeout := delayedWorkTime - now;
      if timeout < 0 then 0 else if timeout > INT_MAX then INT_MAX else timeout
  }

  // ------------------------------------------------------------------ the class

  /** `MessagePumpForIO`, with the port as a queue and callbacks recorded in `delivered`. */
  class MessagePumpForIO {
    var workState: WorkState
    var port: seq<IOItem>
    var completedIo: seq<IOItem>
    var delayedWorkTime: nat
    var delivered: seq<IOItem>

    function Value(): Pump
      reads this
    {
      Pump(workState, port, completedIo, delayedWorkTime, delivered)
    }

    constructor ()
      ensures Value() == Pump(READY, [], [], 0, [])
    {
      workState, port, completedIo, delayedWorkTime, delivered := READY, [], [], 0, [];
    }

    method ScheduleWork()
      modifies this
      ensures Value() == Scheduled(old(Value()))
      ensures workState == HAVE_WORK && port == old(port) + if old(workState) == READY then [WAKE_UP] else []
    {
      var previous := workState;
      workState := HAVE_WORK;
      if previous != READY {
        return;
      }
      port := port + [WAKE_UP];
    }

    method ScheduleDelayedWork(time: nat)
      modifies this`delayedWorkTime
      ensures delayedWorkTime == time
    {
      delayedWorkTime := time;
    }

    /** Removes and returns the first stashed item the filter accepts. */
    method MatchCompletedIOItem(filter: Option<nat>) returns (item: Option<IOItem>)
      modifies this`completedIo
      ensures var i := MatchIndex(old(completedIo), filter);
              if i < |old(completedIo)|
              then item == Some(old(completedIo)[i]) &&
                   completedIo == old(completedIo)[..i] + old(completedIo)[i + 1..]
              else item.None? && completedIo == old(completedIo)
      ensures filter.Some? && item.Some? ==> item.value.handler == filter.value
    {
      var i := 0;
      while i < |completedIo|
        invariant i <= |completedIo|
        invariant completedIo == old(completedIo)
        invariant MatchIndex(completedIo, filter) == i + MatchIndex(completedIo[i..], filter)
      {
        if Accepts(filter, completedIo[i]) {
          item := Some(completedIo[i]);
          completedIo := completedIo[..i] + completedIo[i + 1..];
          return;
        }
        assert completedIo[i..][1..] == completedIo[i + 1..];
        i := i + 1;
      }
      return None;
    }

    /** Returns whether any completion was processed; a wait that finds nothing times out. */
    method WaitForIOCompletion(filter: Option<nat>) returns (processed: bool)
      modifies this
      ensures var (p, result) := Wait(old(Value()), filter);
              && Value() == (if result.Internal? then SetReady(p) else p)
              && processed == !result.TimedOut?
      ensures delivered == old(delivered)
           || (|delivered| == |old(delivered)| + 1 && delivered[..|old(delivered)|] == old(delivered)
               && (filter.Some? ==> delivered[|old(delivered)|].handler == filter.value))
    {
      var item := None;
      if completedIo != [] {
        item := MatchCompletedIOItem(filter);
      }
      if item.None? {
        if port == [] {
          return false;
        }
        item := Some(port[0]);
        port := port[1..];
        if IsInternal(item.value) {
          workState := READY;
          return true;
        }
      }
      if !Accepts(filter, item.value) {
        completedIo := completedIo + [item.value];
      } else {
        delivered := delivered + [item.value];
      }
      return true;
    }

    /** The timeout `WaitForWork` passes on. */
    method WaitTimeout(now: nat) returns (timeout: int)
      ensures timeout == 0xFFFF_FFFF <==> delayedWorkTime == 0
      ensures delayedWorkTime != 0 ==> 0 <= timeout <= 0x7FFF_FFFF
      ensures delayedWorkTime > now ==> now + timeout <= delayedWorkTime
      ensures 0 < delayedWorkTime && timeout < 0x7FFF_FFFF ==> now + timeout >= delayedWorkTime
      ensures 0 < delayedWorkTime <= now ==> timeout == 0
    {
      timeout := CurrentDelay(delayedWorkTime, now);
      if timeout < 0 {
        timeout := INFINITE;
      }
    }
  }
}
