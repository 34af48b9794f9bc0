/**
 Thread-local slots multiplexed over one native slot: a table of slots shared by all
 threads, and one vector of entries per thread, tied together by version numbers.
 */
module ThreadLocalStorage {
  import opened Prelude

  const SLOT_COUNT: nat := 256
  const INVALID_SLOT: int := -1
  /** Versions are `uint32_t`. */
  const VERSION_LIMIT: nat := 0x1_0000_0000

  datatype Status = FREE | IN_USE

  datatype TlsMetadata = TlsMetadata(status: Status, destructor: Option<nat>, version: nat)

  /** A null pointer is None. */
  datatype TlsVectorEntry = TlsVectorEntry(data: Option<nat>, version: nat)

  /** `g_tls_metadata`, `g_last_assigned_slot` and the vectors of the threads that have one. */
  datatype Tls = Tls(metadata: seq<TlsMetadata>, lastAssigned: nat, vectors: map<nat, seq<TlsVectorEntry>>)

  datatype Handle = Handle(slot: int, version: nat)

  ghost predicate Shaped(t: Tls) {
    && |t.metadata| == SLOT_COUNT && t.lastAssigned < SLOT_COUNT
    && (forall thread :: thread in t.vectors ==> |t.vectors[thread]| == SLOT_COUNT)
  }

  function NewVector(): seq<TlsVectorEntry> {
    seq(SLOT_COUNT, _ => TlsVectorEntry(None, 0))
  }

  /** `ConstructTlsVector`, where the thread has no vector yet. */
  function WithVector(t: Tls, thread: nat): Tls {
    if thread in t.vectors then t else t.(vectors := t.vectors[thread := NewVector()])
  }

  /** The slot the circular scan looks at in its turn `i`. */
  function Candidate(lastAssigned: nat, i: nat): (c: nat)
    ensures c < SLOT_COUNT
  {
    (lastAssigned + 1 + i) % SLOT_COUNT
  }

  /** The slot the scan assigns, from turn `i` on. */
  function Scan(metadata: seq<TlsMetadata>, lastAssigned: nat, i: nat): (r: Option<nat>)
    requires |metadata| == SLOT_COUNT
    ensures r.Some? ==> r.value < SLOT_COUNT && metadata[r.value].status == FREE
    decreases SLOT_COUNT - i
  {
    if i >= SLOT_COUNT then None
    else
      var c := Candidate(lastAssigned, i);
      if metadata[c].status == FREE then Some(c) else Scan(metadata, lastAssigned, i + 1)
  }

  lemma {:induction false} ScanMissesNothing(metadata: seq<TlsMetadata>, lastAssigned: nat, i: nat, j: nat)
    requires |metadata| == SLOT_COUNT && i <= j < SLOT_COUNT
    requires metadata[Candidate(lastAssigned, j)].status == FREE
    ensures Scan(metadata, lastAssigned, i).Some?
    decreases j - i
  {
    if i < j {
      ScanMissesNothing(metadata, lastAssigned, i + 1, j);
    }
  }

  /** The scan finds a free slot whenever there is one among the 256. */
  lemma ScanFindsFreeSlot(metadata: seq<TlsMetadata>, lastAssigned: nat)
    requires |metadata| == 256 && lastAssigned < 256
    ensures Scan(metadata, lastAssigned, 0).Some? <==> exists k :: 0 <= k < 256 && metadata[k].status == FREE
  {
    if k :| 0 <= k < 256 && metadata[k].status == FREE {
      var j := if k > lastAssigned then k - lastAssigned - 1 else k + SLOT_COUNT - lastAssigned - 1;
      assert Candidate(lastAssigned, j) == k;
      ScanMissesNothing(metadata, lastAssigned, 0, j);
    }
  }

  /** The slot `k` places behind the next one, going round the 256. */
  function Around(lastAssigned: nat, k: nat): nat {
    (lastAssigned + 1 + k) % 256
  }

  /** It takes the first free slot behind the one assigned last, going round. */
  lemma {:induction false} ScanGoesRound(metadata: seq<TlsMetadata>, lastAssigned: nat, i: nat, j: nat)
    requires |metadata| == 256 && lastAssigned < 256 && i <= j < 256
    requires metadata[Around(lastAssigned, j)].status == FREE
    requires forall k :: i <= k < j ==> metadata[Around(lastAssigned, k)].status != FREE
    ensures Scan(metadata, lastAssigned, i) == Some(Around(lastAssigned, j))
    decreases j - i
  {
    assert Around(lastAssigned, i) == Candidate(lastAssigned, i);
    if i < j {
      ScanGoesRound(metadata, lastAssigned, i + 1, j);
    }
  }

  /** `StaticSlot::Initialize`: the storage afterwards, and the handle. */
  function Initialized(t: Tls, thread: nat, destructor: Option<nat>): (Tls, Handle)
    requires |t.metadata| == SLOT_COUNT
  {
    var u := WithVector(t, thread);
    match Scan(u.metadata, u.lastAssigned, 0)
    case None => (u, Handle(INVALID_SLOT, 0))
    case Some(c) =>
      var m := u.metadata[c];
      (u.(metadata := u.metadata[c := TlsMetadata(IN_USE, destructor, m.version)], lastAssigned := c),
       Handle(c, m.version))
  }

  /** `StaticSlot::Free`. */
  function Freed(t: Tls, slot: nat): Tls
    requires slot < |t.metadata|
  {
    var version := (t.metadata[slot].version + 1) % VERSION_LIMIT;
    t.(metadata := t.metadata[slot := TlsMetadata(FREE, None, version)])
  }

  /** `StaticSlot::Get`, on a thread that has a vector. */
  function Read(t: Tls, thread: nat, h: Handle): Option<nat>
    requires thread in t.vectors && 0 <= h.slot < |t.vectors[thread]|
  {
    var entry := t.vectors[thread][h.slot];
    if entry.version != h.version then None else entry.data
  }

  /** `StaticSlot::Set`, on a thread that has a vector. */
  function Written(t: Tls, thread: nat, h: Handle, value: Option<nat>): Tls
    requires thread in t.vectors && 0 <= h.slot < |t.vectors[thread]|
  {
    t.(vectors := t.vectors[thread := t.vectors[thread][h.slot := TlsVectorEntry(value, h.version)]])
  }

  // -------------------------------------------------------------- the classes

  /** The process-wide state. */
  class Storage {
    const metadata: array<TlsMetadata>
    var lastAssigned: nat
    var vectors: map<nat, seq<TlsVectorEntry>>

    function Value(): Tls
      reads this, metadata
    {
      Tls(metadata[..], lastAssigned, vectors)
    }

    constructor ()
      ensures fresh(metadata) && Shaped(Value())
      ensures Value() == Tls(seq(SLOT_COUNT, _ => TlsMetadata(FREE, None, 0)), 0, map[])
    {
      metadata := new TlsMetadata[SLOT_COUNT](_ => TlsMetadata(FREE, None, 0));
      lastAssigned, vectors := 0, map[];
    }

    method ConstructTlsVector(thread: nat)
      modifies this`vectors
      ensures Value() == old(Value()).(vectors := old(vectors)[thread := NewVector()])
    {
      vectors := vectors[thread := NewVector()];
    }
  }

  class StaticSlot {
    var slot: int
    var version: nat
    var initialized: bool

    constructor ()
      ensures slot == 0 && version == 0 && !initialized
    {
      slot, version, initialized := 0, 0, false;
    }

    method Initialize(tls: Storage, thread: nat, destructor: Option<nat>)
      requires Shaped(tls.Value())
      modifies this, tls, tls.metadata
      ensures initialized && Shaped(tls.Value())
      ensures (tls.Value(), Handle(slot, version)) == Initialized(old(tls.Value()), thread, destructor)
    {
      if thread !in tls.vectors {
        tls.ConstructTlsVector(thread);
      }
      slot, version := INVALID_SLOT, 0;
      for i := 0 to SLOT_COUNT
        invariant slot == INVALID_SLOT && version == 0
        invariant tls.Value() == WithVector(old(tls.Value()), thread)
        invariant Scan(tls.metadata[..], tls.lastAssigned, 0) == Scan(tls.metadata[..], tls.lastAssigned, i)
      {
        var candidate := Candidate(tls.lastAssigned, i);
        if tls.metadata[candidate].status == FREE {
          version := tls.metadata[candidate].version;
          tls.metadata[candidate] := TlsMetadata(IN_USE, destructor, version);
          tls.lastAssigned := candidate;
          slot := candidate;
          break;
        }
      }
      initialized := true;
    }

    method Free(tls: Storage)
      requires Shaped(tls.Value()) && 0 <= slot < SLOT_COUNT
      modifies this, tls.metadata
      ensures tls.Value() == Freed(old(tls.Value()), old(slot))
      ensures slot == INVALID_SLOT && !initialized && Shaped(tls.Value())
    {
      var next := (tls.metadata[slot].version + 1) % VERSION_LIMIT;
      tls.metadata[slot] := TlsMetadata(FREE, None, next);
      slot, initialized := INVALID_SLOT, false;
    }

    method Get(tls: Storage, thread: nat) returns (value: Option<nat>)
      requires Shaped(tls.Value()) && 0 <= slot < SLOT_COUNT
      modifies tls`vectors
      ensures tls.Value() == WithVector(old(tls.Value()), thread) && Shaped(tls.Value())
      ensures value == Read(tls.Value(), thread, Handle(slot, version))
    {
      if thread !in tls.vectors {
        tls.ConstructTlsVector(thread);
      }
      var entry := tls.vectors[thread][slot];
      if entry.version != version {
        return None;
      }
      return entry.data;
    }

    method Set(tls: Storage, thread: nat, value: Option<nat>)
      requires Shaped(tls.Value()) && 0 <= slot < SLOT_COUNT
      modifies tls`vectors
      ensures tls.Value() == Written(WithVector(old(tls.Value()), thread), thread, Handle(slot, version), value)
      ensures Shaped(tls.Value())
    {
      if thread !in tls.vectors {
        tls.ConstructTlsVector(thread);
      }
      tls.vectors := tls.vectors[thread := tls.vectors[thread][slot := TlsVectorEntry(value, version)]];
    }
  }
}
