/** The limit on the number of frees is real: a value comes back after 2^32 of them. */
module TlsWraparound {
  import opened Prelude
  import opened ThreadLocalStorage
  import opened TlsRefinement

  ghost predicate Reachable(w: World) {
    exists worlds, operations :: IsRun(worlds, operations) && worlds[|worlds| - 1] == w
  }

  lemma RunGoesOn(worlds: seq<World>, operations: seq<Operation>, op: Operation)
    requires IsRun(worlds, operations)
    requires var w := worlds[|worlds| - 1]; SlotsInRange(w) && Enabled(w, op)
    ensures IsRun(worlds + [Apply(worlds[|worlds| - 1], op)], operations + [op])
  {
    hide Apply, Enabled, Init;
    var more, all := worlds + [Apply(worlds[|worlds| - 1], op)], operations + [op];
    forall k | 0 <= k < |all|
      ensures SlotsInRange(more[k]) && Enabled(more[k], all[k]) && more[k + 1] == Apply(more[k], all[k])
    {
      if k < |operations| {
        assert more[k] == worlds[k] && more[k + 1] == worlds[k + 1] && all[k] == operations[k];
      }
    }
  }

  lemma RunStaysInRange(worlds: seq<World>, operations: seq<Operation>)
    requires IsRun(worlds, operations)
    ensures SlotsInRange(worlds[|worlds| - 1])
  {
    RunsKeepInv(worlds, operations, |worlds| - 1);
  }

  lemma StepIsReachable(w: World, op: Operation)
    requires Reachable(w) && SlotsInRange(w) && Enabled(w, op)
    ensures Reachable(Apply(w, op)) && SlotsInRange(Apply(w, op))
  {
    hide Apply, Enabled, Init, SlotsInRange;
    var worlds, operations :| IsRun(worlds, operations) && worlds[|worlds| - 1] == w;
    var more := worlds + [Apply(w, op)];
    RunGoesOn(worlds, operations, op);
    assert more[|more| - 1] == Apply(w, op);
    RunStaysInRange(more, operations + [op]);
  }

  /** If all slots but one are in use, the scan ends there, wherever it starts. */
  lemma ScanFindsOnlyFreeSlot(metadata: seq<TlsMetadata>, lastAssigned: nat, k: nat)
    requires |metadata| == SLOT_COUNT && lastAssigned < SLOT_COUNT && k < SLOT_COUNT && metadata[k].status == FREE
    requires forall i :: 0 <= i < SLOT_COUNT && i != k ==> metadata[i].status == IN_USE
    ensures Scan(metadata, lastAssigned, 0) == Some(k)
  {
    ScanFindsFreeSlot(metadata, lastAssigned);
  }

  /** Slots 1 to n are taken by allocations 1 to n, and nothing else has happened. */
  ghost predicate Filled(w: World, n: nat) {
    && SlotsInRange(w) && n < SLOT_COUNT && w.tls.lastAssigned == n
    && (forall i :: 0 <= i < SLOT_COUNT ==>
          w.tls.metadata[i].version == 0 && w.generations[i] == 0
          && (w.tls.metadata[i].status == IN_USE <==> 1 <= i <= n))
    && (forall a :: a in w.handles ==> 1 <= a <= n)
    && w.stamps == map[] && w.values == map[]
  }

  function InitialWorld(): World {
    World(Tls(seq(SLOT_COUNT, _ => TlsMetadata(FREE, None, 0)), 0, map[]), map[], seq(SLOT_COUNT, _ => 0),
          map[], map[])
  }

  lemma InitialIsReachable()
    ensures Reachable(InitialWorld()) && Filled(InitialWorld(), 0)
  {
    assert IsRun([InitialWorld()], []);
  }

  /** `Initialize` gives an allocation the slot that the scan finds. */
  lemma InitializeAssigns(w: World, a: nat, c: nat)
    requires SlotsInRange(w) && a !in w.handles && Scan(w.tls.metadata, w.tls.lastAssigned, 0) == Some(c)
    ensures Apply(w, Initialize(a, 0, None)) == Assigned(w.(tls := WithVector(w.tls, 0)), a, c, None)
  {
  }

  lemma NextIsFree(metadata: seq<TlsMetadata>, n: nat)
    requires |metadata| == SLOT_COUNT && 1 <= n < SLOT_COUNT && metadata[n].status == FREE
    ensures Scan(metadata, n - 1, 0) == Some(n)
  {
    assert Candidate(n - 1, 0) == n;
  }

  lemma FillOneMore(v: World, n: nat)
    requires 1 <= n < SLOT_COUNT && Filled(v, n - 1)
    ensures n !in v.handles && Filled(Apply(v, Initialize(n, 0, None)), n)
  {
    NextIsFree(v.tls.metadata, n);
    hide Scan;
    InitializeAssigns(v, n, n);
    hide Apply;
  }

  lemma {:induction false} FillSlots(n: nat) returns (w: World)
    requires n < SLOT_COUNT
    ensures Reachable(w) && Filled(w, n)
  {
    hide Apply, Reachable;
    if n == 0 {
      InitialIsReachable();
      w := InitialWorld();
    } else {
      var v := FillSlots(n - 1);
      FillOneMore(v, n);
      hide Filled;
      StepIsReachable(v, Initialize(n, 0, None));
      w := Apply(v, Initialize(n, 0, None));
    }
  }

  ghost predicate OthersInUse(w: World) {
    && SlotsInRange(w)
    && forall i :: 1 <= i < SLOT_COUNT ==> w.tls.metadata[i].status == IN_USE
  }

  /** Only slot 0 is free; it has been freed `g` times, and thread 0 has left `entry` there. */
  ghost predicate Idle(w: World, g: nat, entry: TlsVectorEntry) {
    && OthersInUse(w) && 0 !in w.handles
    && w.generations[0] == g
    && w.tls.metadata[0].status == FREE && w.tls.metadata[0].version == g % VERSION_LIMIT
    && Entry(w, 0, 0) == entry
  }

  /** Allocation 0 holds slot 0 in its generation `g`. */
  ghost predicate Holding(w: World, g: nat, entry: TlsVectorEntry) {
    && OthersInUse(w) && 0 in w.handles && w.handles[0] == Handle(0, g % VERSION_LIMIT)
    && w.generations[0] == g
    && w.tls.metadata[0].version == g % VERSION_LIMIT
    && Entry(w, 0, 0) == entry
  }

  lemma FilledIsIdle(w: World) returns (entry: TlsVectorEntry)
    requires Filled(w, SLOT_COUNT - 1)
    ensures Idle(w, 0, entry)
  {
    entry := Entry(w, 0, 0);
  }

  lemma InitializeHolds(v: World, g: nat, entry: TlsVectorEntry)
    requires Idle(v, g, entry)
    ensures SlotsInRange(v) && Enabled(v, Initialize(0, 0, None))
    ensures Holding(Apply(v, Initialize(0, 0, None)), g, entry)
    ensures ValueOf(Apply(v, Initialize(0, 0, None)), 0, 0) == None
  {
    ScanFindsOnlyFreeSlot(v.tls.metadata, v.tls.lastAssigned, 0);
    hide Scan;
    InitializeAssigns(v, 0, 0);
    hide Apply;
    VectorChangesNoEntry(v, 0, 0, 0);
  }

  lemma SetHolds(x: World, g: nat, entry: TlsVectorEntry, value: nat)
    requires Holding(x, g, entry)
    ensures Holding(Apply(x, Set(0, 0, Some(value))), g, TlsVectorEntry(Some(value), g % VERSION_LIMIT))
  {
  }

  lemma FreeIdles(y: World, g: nat, entry: TlsVectorEntry)
    requires Holding(y, g, entry)
    ensures Idle(Apply(y, Free(0)), g + 1, entry)
  {
    NextVersion(g);
  }

  /** Thread 0 has left `value` in slot 0 in its first generation, and has not set it since. */
  ghost predicate Cycling(w: World, g: nat, value: nat) {
    Idle(w, g, TlsVectorEntry(Some(value), 0))
  }

  lemma FirstRound(value: nat) returns (w: World)
    ensures Reachable(w) && Cycling(w, 1, value)
  {
    hide Apply, Reachable, Idle, Filled;
    var v := FillSlots(SLOT_COUNT - 1);
    var entry := FilledIsIdle(v);
    InitializeHolds(v, 0, entry);
    StepIsReachable(v, Initialize(0, 0, None));
    var x := Apply(v, Initialize(0, 0, None));
    SetHolds(x, 0, entry, value);
    StepIsReachable(x, Set(0, 0, Some(value)));
    var y := Apply(x, Set(0, 0, Some(value)));
    FreeIdles(y, 0, TlsVectorEntry(Some(value), 0));
    StepIsReachable(y, Free(0));
    w := Apply(y, Free(0));
  }

  lemma NextRound(v: World, g: nat, value: nat) returns (w: World)
    requires Reachable(v) && Cycling(v, g, value)
    ensures Reachable(w) && Cycling(w, g + 1, value)
  {
    hide Apply, Reachable;
    var entry := TlsVectorEntry(Some(value), 0);
    InitializeHolds(v, g, entry);
    StepIsReachable(v, Initialize(0, 0, None));
    var x := Apply(v, Initialize(0, 0, None));
    FreeIdles(x, g, entry);
    StepIsReachable(x, Free(0));
    w := Apply(x, Free(0));
  }

  lemma {:induction false} ManyRounds(g: nat, value: nat) returns (w: World)
    requires g >= 1
    ensures Reachable(w) && Cycling(w, g, value)
  {
    if g == 1 {
      w := FirstRound(value);
    } else {
      var v := ManyRounds(g - 1, value);
      w := NextRound(v, g - 1, value);
    }
  }

  /**
   A run after which a thread that has set nothing in a live allocation still gets a value:
   any value it left in the slot 2^32 allocations ago.
   */
  lemma StaleValueReturns(value: nat) returns (w: World)
    ensures Reachable(w) && SlotsInRange(w) && 0 in w.handles
    ensures w.generations[w.handles[0].slot] == 0x1_0000_0000
    ensures ValueOf(w, 0, 0) == None && Got(w, 0, 0) == Some(value)
  {
    hide Apply, Reachable;
    var v := ManyRounds(VERSION_LIMIT, value);
    InitializeHolds(v, VERSION_LIMIT, TlsVectorEntry(Some(value), 0));
    StepIsReachable(v, Initialize(0, 0, None));
    w := Apply(v, Initialize(0, 0, None));
    VectorChangesNoEntry(w, 0, 0, 0);
  }
}
