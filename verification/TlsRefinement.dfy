/**
 Versioned slots against what a client means by them: one value for every allocation and
 thread. An allocation lasts from `Initialize` to `Free`.
 */
module TlsRefinement {
  import opened Prelude
  import opened ThreadLocalStorage

  /**
   The storage together with its history: `generations` counts the frees of each slot,
   `stamps` the generation in which a thread last wrote a slot, and `values` what each thread
   last set in each live allocation.
   */
  datatype World = World(
    tls: Tls,
    handles: map<nat, Handle>,
    generations: seq<nat>,
    stamps: map<(nat, nat), nat>,
    values: map<(nat, nat), Option<nat>>)

  datatype Operation =
    | Initialize(allocation: nat, thread: nat, destructor: Option<nat>)
    | Free(allocation: nat)
    | Set(allocation: nat, thread: nat, value: Option<nat>)
    | Get(allocation: nat, thread: nat)

  ghost predicate Init(w: World) {
    && w.tls == Tls(seq(SLOT_COUNT, _ => TlsMetadata(FREE, None, 0)), 0, map[])
    && w.handles == map[] && w.stamps == map[] && w.values == map[]
    && w.generations == seq(SLOT_COUNT, _ => 0)
  }

  function Stamp(w: World, thread: nat, slot: nat): nat {
    if (thread, slot) in w.stamps then w.stamps[(thread, slot)] else 0
  }

  /** What the thread last set in the allocation, or null. */
  function ValueOf(w: World, allocation: nat, thread: nat): Option<nat> {
    if (allocation, thread) in w.values then w.values[(allocation, thread)] else None
  }

  /** Clients initialize what is not live, and use what is. */
  predicate Enabled(w: World, op: Operation) {
    match op
    case Initialize(a, _, _) => a !in w.handles
    case Free(a) => a in w.handles
    case Set(a, _, _) => a in w.handles
    case Get(a, _) => a in w.handles
  }

  ghost predicate SlotsInRange(w: World) {
    && Shaped(w.tls) && |w.generations| == SLOT_COUNT
    && (forall a :: a in w.handles ==> 0 <= w.handles[a].slot < SLOT_COUNT)
  }

  /** An allocation that found no slot is not live. */
  function AfterInitialize(w: World, a: nat, thread: nat, destructor: Option<nat>): World
    requires |w.tls.metadata| == SLOT_COUNT
  {
    var (tls, h) := Initialized(w.tls, thread, destructor);
    if h.slot == INVALID_SLOT then w.(tls := tls)
    else w.(tls := tls, handles := w.handles[a := h], values := map k | k in w.values && k.0 != a :: w.values[k])
  }

  function AfterFree(w: World, a: nat): World
    requires SlotsInRange(w) && a in w.handles
  {
    var slot := w.handles[a].slot;
    w.(tls := Freed(w.tls, slot),
       handles := w.handles - {a},
       generations := w.generations[slot := w.generations[slot] + 1])
  }

  function AfterSet(w: World, a: nat, thread: nat, value: Option<nat>): World
    requires SlotsInRange(w) && a in w.handles
  {
    var h := w.handles[a];
    w.(tls := Written(WithVector(w.tls, thread), thread, h, value),
       stamps := w.stamps[(thread, h.slot as nat) := w.generations[h.slot]],
       values := w.values[(a, thread) := value])
  }

  function Apply(w: World, op: Operation): World
    requires SlotsInRange(w) && Enabled(w, op)
  {
    match op
    case Initialize(a, thread, destructor) => AfterInitialize(w, a, thread, destructor)
    case Free(a) => AfterFree(w, a)
    case Set(a, thread, value) => AfterSet(w, a, thread, value)
    case Get(_, thread) => w.(tls := WithVector(w.tls, thread))
  }

  /** What `Get` answers. */
  function Got(w: World, a: nat, thread: nat): Option<nat>
    requires SlotsInRange(w) && a in w.handles
  {
    Read(WithVector(w.tls, thread), thread, w.handles[a])
  }

  // ------------------------------------------------------------ the invariant

  /** A thread's entry; a thread without a vector is as good as one with a new vector. */
  function Entry(w: World, thread: nat, i: nat): TlsVectorEntry
    requires SlotsInRange(w) && i < SLOT_COUNT
  {
    if thread in w.tls.vectors then w.tls.vectors[thread][i] else TlsVectorEntry(None, 0)
  }

  /** A live allocation's slot is in use, at the allocation's version. */
  ghost predicate HandleOk(w: World, a: nat)
    requires SlotsInRange(w)
  {
    a in w.handles ==>
      && w.tls.metadata[w.handles[a].slot].status == IN_USE
      && w.handles[a].version == w.tls.metadata[w.handles[a].slot].version
  }

  /** Live allocations never share a slot. */
  ghost predicate SlotsDistinct(w: World) {
    forall a, b :: a in w.handles && b in w.handles && a != b ==> w.handles[a].slot != w.handles[b].slot
  }

  ghost predicate VersionOk(w: World, i: nat)
    requires SlotsInRange(w) && i < SLOT_COUNT
  {
    w.tls.metadata[i].version == w.generations[i] % VERSION_LIMIT
  }

  /** An entry carries the version of the generation it was written in. */
  ghost predicate EntryOk(w: World, thread: nat, i: nat)
    requires SlotsInRange(w) && i < SLOT_COUNT
  {
    && Stamp(w, thread, i) <= w.generations[i]
    && Entry(w, thread, i).version == Stamp(w, thread, i) % VERSION_LIMIT
    && (w.tls.metadata[i].status == FREE && Stamp(w, thread, i) == w.generations[i] ==>
          Entry(w, thread, i).data == None)
  }

  /** A thread's entry holds its value for the live allocation, if it was written in its generation. */
  ghost predicate ValueOk(w: World, a: nat, thread: nat)
    requires SlotsInRange(w)
  {
    a in w.handles ==>
      var slot := w.handles[a].slot;
      ValueOf(w, a, thread) ==
        if Stamp(w, thread, slot) == w.generations[slot] then Entry(w, thread, slot).data else None
  }

  ghost predicate Inv(w: World) {
    && SlotsInRange(w) && SlotsDistinct(w)
    && (forall a: nat :: HandleOk(w, a))
    && (forall i: nat :: i < SLOT_COUNT ==> VersionOk(w, i))
    && (forall thread: nat, i: nat :: i < SLOT_COUNT ==> EntryOk(w, thread, i))
    && (forall a: nat, thread: nat :: ValueOk(w, a, thread))
  }

  lemma InitHolds(w: World)
    requires Init(w)
    ensures Inv(w)
  {
  }

  /** Two worlds that agree on everything but who has a vector. */
  lemma VectorChangesNoEntry(w: World, thread: nat, other: nat, i: nat)
    requires SlotsInRange(w) && i < SLOT_COUNT
    ensures var u := w.(tls := WithVector(w.tls, thread));
            SlotsInRange(u) && Entry(u, other, i) == Entry(w, other, i)
  {
  }

  lemma VectorKeepsInv(w: World, thread: nat)
    requires Inv(w)
    ensures Inv(w.(tls := WithVector(w.tls, thread)))
  {
    var u := w.(tls := WithVector(w.tls, thread));
    VectorChangesNoEntry(w, thread, thread, 0);
    forall other: nat, i: nat | i < SLOT_COUNT
      ensures EntryOk(u, other, i)
    {
      VectorChangesNoEntry(w, thread, other, i);
      assert EntryOk(w, other, i);
    }
    forall a: nat, other: nat
      ensures ValueOk(u, a, other)
    {
      assert ValueOk(w, a, other);
    }
    forall a: nat
      ensures HandleOk(u, a)
    {
      assert HandleOk(w, a);
    }
    forall i: nat | i < SLOT_COUNT
      ensures VersionOk(u, i)
    {
      assert VersionOk(w, i);
    }
  }

  lemma InitializeKeepsInv(w: World, a: nat, thread: nat, destructor: Option<nat>)
    requires Inv(w) && a !in w.handles
    ensures Inv(AfterInitialize(w, a, thread, destructor))
  {
    var v := w.(tls := WithVector(w.tls, thread));
    VectorKeepsInv(w, thread);
    var u := AfterInitialize(w, a, thread, destructor);
    var found := Scan(v.tls.metadata, v.tls.lastAssigned, 0);
    if found.Some? {
      AssignKeepsInv(v, a, found.value, destructor);
      assert u == Assigned(v, a, found.value, destructor);
    } else {
      assert u == v;
    }
  }

  /** The part of `Initialize` behind the scan. */
  function Assigned(w: World, a: nat, c: nat, destructor: Option<nat>): World
    requires |w.tls.metadata| == SLOT_COUNT && c < SLOT_COUNT
  {
    var m := w.tls.metadata[c];
    w.(tls := w.tls.(metadata := w.tls.metadata[c := TlsMetadata(IN_USE, destructor, m.version)], lastAssigned := c),
       handles := w.handles[a := Handle(c, m.version)],
       values := map k | k in w.values && k.0 != a :: w.values[k])
  }

  lemma AssignKeepsInv(w: World, a: nat, c: nat, destructor: Option<nat>)
    requires Inv(w) && a !in w.handles && c < SLOT_COUNT && w.tls.metadata[c].status == FREE
    ensures Inv(Assigned(w, a, c, destructor))
  {
    hide ValueOk;
    var u := Assigned(w, a, c, destructor);
    forall b: nat
      ensures HandleOk(u, b) && (b in w.handles ==> w.handles[b].slot != c)
    {
      assert HandleOk(w, b);
    }
    forall i: nat | i < SLOT_COUNT
      ensures VersionOk(u, i)
    {
      assert VersionOk(w, i);
    }
    forall thread: nat, i: nat | i < SLOT_COUNT
      ensures EntryOk(u, thread, i)
    {
      assert EntryOk(w, thread, i);
    }
    forall b: nat, thread: nat
      ensures ValueOk(u, b, thread)
    {
      assert HandleOk(w, b) && ValueOk(w, b, thread) && EntryOk(w, thread, c);
      AssignedValueIsOk(w, a, c, destructor, b, thread);
    }
  }

  /** What a thread sees of an allocation does not change; the new one starts with nothing. */
  lemma AssignedValueIsOk(w: World, a: nat, c: nat, destructor: Option<nat>, b: nat, thread: nat)
    requires SlotsInRange(w) && a !in w.handles && c < SLOT_COUNT && w.tls.metadata[c].status == FREE
    requires HandleOk(w, b) && ValueOk(w, b, thread) && EntryOk(w, thread, c)
    ensures SlotsInRange(Assigned(w, a, c, destructor)) && ValueOk(Assigned(w, a, c, destructor), b, thread)
  {
  }

  lemma FreeKeepsInv(w: World, a: nat)
    requires Inv(w) && a in w.handles
    ensures Inv(AfterFree(w, a))
  {
    var u := AfterFree(w, a);
    forall b: nat
      ensures HandleOk(u, b)
    {
      assert HandleOk(w, b);
    }
    forall i: nat | i < SLOT_COUNT
      ensures VersionOk(u, i)
    {
      assert VersionOk(w, i);
      NextVersion(w.generations[i]);
    }
    forall thread: nat, i: nat | i < SLOT_COUNT
      ensures EntryOk(u, thread, i)
    {
      assert EntryOk(w, thread, i);
    }
    forall b: nat, thread: nat
      ensures ValueOk(u, b, thread)
    {
      assert ValueOk(w, b, thread);
    }
  }

  lemma NextVersion(g: nat)
    ensures (g % VERSION_LIMIT + 1) % VERSION_LIMIT == (g + 1) % VERSION_LIMIT
  {
  }

  lemma SetKeepsInv(w: World, a: nat, thread: nat, value: Option<nat>)
    requires Inv(w) && a in w.handles
    ensures Inv(AfterSet(w, a, thread, value))
  {
    var v := w.(tls := WithVector(w.tls, thread));
    VectorKeepsInv(w, thread);
    WriteKeepsInv(v, a, thread, value);
    assert AfterSet(w, a, thread, value) == AfterSet(v, a, thread, value);
  }

  lemma WriteKeepsInv(w: World, a: nat, thread: nat, value: Option<nat>)
    requires Inv(w) && a in w.handles && thread in w.tls.vectors
    ensures Inv(AfterSet(w, a, thread, value))
  {
    var u := AfterSet(w, a, thread, value);
    var slot := w.handles[a].slot;
    forall b: nat
      ensures HandleOk(u, b)
    {
      assert HandleOk(w, b);
    }
    forall i: nat | i < SLOT_COUNT
      ensures VersionOk(u, i)
    {
      assert VersionOk(w, i);
    }
    forall other: nat, i: nat | i < SLOT_COUNT
      ensures EntryOk(u, other, i)
    {
      assert EntryOk(w, other, i) && HandleOk(w, a) && VersionOk(w, slot);
    }
    forall b: nat, other: nat
      ensures ValueOk(u, b, other)
    {
      assert ValueOk(w, b, other);
    }
  }

  // ---------------------------------------------------------------- the runs

  ghost predicate IsRun(worlds: seq<World>, operations: seq<Operation>) {
    && |worlds| == |operations| + 1
    && Init(worlds[0])
    && forall k :: 0 <= k < |operations| ==>
         && SlotsInRange(worlds[k]) && Enabled(worlds[k], operations[k])
         && worlds[k + 1] == Apply(worlds[k], operations[k])
  }

  lemma {:induction false} RunsKeepInv(worlds: seq<World>, operations: seq<Operation>, k: nat)
    requires IsRun(worlds, operations) && k < |worlds|
    ensures Inv(worlds[k])
  {
    hide Inv;
    if k == 0 {
      InitHolds(worlds[0]);
    } else {
      RunsKeepInv(worlds, operations, k - 1);
      var w := worlds[k - 1];
      match operations[k - 1]
      case Initialize(a, thread, destructor) => InitializeKeepsInv(w, a, thread, destructor);
      case Free(a) => FreeKeepsInv(w, a);
      case Set(a, thread, value) => SetKeepsInv(w, a, thread, value);
      case Get(_, thread) => VectorKeepsInv(w, thread);
    }
  }

  // ------------------------------------------------------------ what Get gives

  /** The thread's entry is a leftover of an earlier allocation whose version has come round again. */
  ghost predicate StaleHit(w: World, a: nat, thread: nat)
    requires SlotsInRange(w) && a in w.handles
  {
    var slot := w.handles[a].slot;
    var age := w.generations[slot] - Stamp(w, thread, slot);
    age != 0 && age % 0x1_0000_0000 == 0 && Entry(w, thread, slot).data.Some?
  }

  lemma SameVersion(g: nat, h: nat)
    requires g <= h
    ensures g % VERSION_LIMIT == h % VERSION_LIMIT <==> (h - g) % VERSION_LIMIT == 0
  {
    var d := h - g;
    var q, r := g / VERSION_LIMIT, d / VERSION_LIMIT;
    assert g == q * VERSION_LIMIT + g % VERSION_LIMIT && d == r * VERSION_LIMIT + d % VERSION_LIMIT;
    if d % VERSION_LIMIT == 0 {
      assert h == (q + r) * VERSION_LIMIT + g % VERSION_LIMIT;
    }
  }

  /**
   On a live allocation `Get` answers what this thread last set since `Initialize`, or null,
   exactly unless the slot has been freed a multiple of 2^32 times since the thread's entry
   was written.
   */
  lemma GetIsExact(worlds: seq<World>, operations: seq<Operation>, k: nat, a: nat, thread: nat)
    requires IsRun(worlds, operations) && k < |worlds|
    requires SlotsInRange(worlds[k]) && a in worlds[k].handles
    ensures Got(worlds[k], a, thread) == ValueOf(worlds[k], a, thread) <==> !StaleHit(worlds[k], a, thread)
  {
    var w := worlds[k];
    var slot := w.handles[a].slot;
    RunsKeepInv(worlds, operations, k);
    VectorChangesNoEntry(w, thread, thread, slot);
    assert HandleOk(w, a) && VersionOk(w, slot) && EntryOk(w, thread, slot) && ValueOk(w, a, thread);
    SameVersion(Stamp(w, thread, slot), w.generations[slot]);
  }

  /** With fewer than 2^32 frees of the slot, `Get` is always right. */
  lemma GetIsRight(worlds: seq<World>, operations: seq<Operation>, k: nat, a: nat, thread: nat)
    requires IsRun(worlds, operations) && k < |worlds|
    requires SlotsInRange(worlds[k]) && a in worlds[k].handles
    requires worlds[k].generations[worlds[k].handles[a].slot] < 0x1_0000_0000
    ensures Got(worlds[k], a, thread) == ValueOf(worlds[k], a, thread)
  {
    GetIsExact(worlds, operations, k, a, thread);
    RunsKeepInv(worlds, operations, k);
    assert EntryOk(worlds[k], thread, worlds[k].handles[a].slot);
  }

  /** Nothing is left out of the runs: any new allocation can be made, and any live one used or freed by any thread. */
  lemma CallersAreFree(w: World, a: nat, thread: nat, value: Option<nat>, destructor: Option<nat>)
    ensures a !in w.handles ==> Enabled(w, Initialize(a, thread, destructor))
    ensures a in w.handles ==> Enabled(w, Free(a)) && Enabled(w, Set(a, thread, value)) && Enabled(w, Get(a, thread))
  {
  }

  /** Two live allocations never hold the same slot. */
  lemma LiveSlotsAreDistinct(worlds: seq<World>, operations: seq<Operation>, k: nat, a: nat, b: nat)
    requires IsRun(worlds, operations) && k < |worlds|
    requires a in worlds[k].handles && b in worlds[k].handles && a != b
    ensures 0 <= worlds[k].handles[a].slot < 256
    ensures worlds[k].handles[a].slot != worlds[k].handles[b].slot
  {
    RunsKeepInv(worlds, operations, k);
  }
}
