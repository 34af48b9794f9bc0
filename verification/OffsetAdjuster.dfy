/**
 Offsets into a string that has been edited: what `AdjustOffset`, `UnadjustOffset` and
 `MergeSequentialAdjustments` compute. Offsets are unbounded here; `Npos` is npos.
 */
module OffsetAdjuster {

  datatype Adjustment = Adjustment(originalOffset: nat, originalLength: nat, outputLength: nat) {
    function End(): nat {
      originalOffset + originalLength
    }

    predicate Changes() {
      originalLength > 0 || outputLength > 0
    }

    /** How many characters the edit removes. */
    function Shrink(): int {
      originalLength - outputLength
    }
  }

  datatype Offset = At(pos: int) | Npos

  function Moved(o: Offset, delta: int): Offset {
    if o.Npos? then Npos else At(o.pos + delta)
  }

  /** What `AdjustOffset` makes of an offset other than npos. */
  function Adjusted(adjustments: seq<Adjustment>, o: int): Offset {
    if adjustments == [] || o <= adjustments[0].originalOffset then At(o)
    else if o < adjustments[0].End() then Npos
    else Moved(Adjusted(adjustments[1..], o), -adjustments[0].Shrink())
  }

  /** What `UnadjustOffset` makes of an offset other than npos. */
  function Unadjusted(adjustments: seq<Adjustment>, o: int): Offset {
    if adjustments == [] || o <= adjustments[0].originalOffset then At(o)
    else
      var p := o + adjustments[0].Shrink();
      if p < adjustments[0].End() then Npos else Unadjusted(adjustments[1..], p)
  }

  function AdjustedOffset(adjustments: seq<Adjustment>, o: Offset): Offset {
    if o.Npos? then Npos else Adjusted(adjustments, o.pos)
  }

  function UnadjustedOffset(adjustments: seq<Adjustment>, o: Offset): Offset {
    if o.Npos? then Npos else Unadjusted(adjustments, o.pos)
  }

  /** Sorted by offset and disjoint, nothing starting before `low`. */
  ghost predicate SortedFrom(adjustments: seq<Adjustment>, low: int) {
    adjustments != [] ==>
      low <= adjustments[0].originalOffset && SortedFrom(adjustments[1..], adjustments[0].End())
  }

  ghost predicate Sorted(adjustments: seq<Adjustment>) {
    SortedFrom(adjustments, 0)
  }

  // ------------------------------------------------------------- the loops

  method AdjustOffset(adjustments: seq<Adjustment>, offset: Offset) returns (adjusted: Offset)
    ensures adjusted == AdjustedOffset(adjustments, offset)
  {
    if offset.Npos? {
      return Npos;
    }
    var adjustment := 0;
    var i := 0;
    while i < |adjustments|
      invariant i <= |adjustments|
      invariant Adjusted(adjustments, offset.pos) == Moved(Adjusted(adjustments[i..], offset.pos), -adjustment)
    {
      if offset.pos <= adjustments[i].originalOffset {
        break;
      }
      if offset.pos < adjustments[i].End() {
        return Npos;
      }
      assert adjustments[i..][1..] == adjustments[i + 1..];
      adjustment := adjustment + adjustments[i].Shrink();
      i := i + 1;
    }
    return At(offset.pos - adjustment);
  }

  method UnadjustOffset(adjustments: seq<Adjustment>, offset: Offset) returns (unadjusted: Offset)
    ensures unadjusted == UnadjustedOffset(adjustments, offset)
  {
    if offset.Npos? {
      return Npos;
    }
    var adjustment := 0;
    var i := 0;
    while i < |adjustments|
      invariant i <= |adjustments|
      invariant Unadjusted(adjustments, offset.pos) == Unadjusted(adjustments[i..], offset.pos + adjustment)
    {
      if offset.pos + adjustment <= adjustments[i].originalOffset {
        break;
      }
      assert adjustments[i..][1..] == adjustments[i + 1..];
      adjustment := adjustment + adjustments[i].Shrink();
      if offset.pos + adjustment < adjustments[i].End() {
        return Npos;
      }
      i := i + 1;
    }
    return At(offset.pos + adjustment);
  }

  method AdjustOffsets(adjustments: seq<Adjustment>, offsets: array<Offset>)
    modifies offsets
    ensures forall k :: 0 <= k < offsets.Length ==> offsets[k] == AdjustedOffset(adjustments, old(offsets[k]))
  {
    if adjustments == [] {
      return;
    }
    for i := 0 to offsets.Length
      invariant forall k :: 0 <= k < i ==> offsets[k] == AdjustedOffset(adjustments, old(offsets[k]))
      invariant forall k :: i <= k < offsets.Length ==> offsets[k] == old(offsets[k])
    {
      offsets[i] := AdjustOffset(adjustments, offsets[i]);
    }
  }

  // -------------------------------------------------------- there and back

  /** What survives the edit, at least in part: the end of the edit can be told from its start. */
  predicate KeepsEndsApart(a: Adjustment) {
    a.originalLength > 0 ==> a.outputLength > 0
  }

  predicate KeepsOutputEndsApart(a: Adjustment) {
    a.outputLength > 0 ==> a.originalLength > 0
  }

  ghost predicate UnadjustUndoesAdjust(adjustments: seq<Adjustment>) {
    forall o: nat :: Adjusted(adjustments, o).At? ==> Unadjusted(adjustments, Adjusted(adjustments, o).pos) == At(o)
  }

  ghost predicate AdjustUndoesUnadjust(adjustments: seq<Adjustment>) {
    forall x: nat :: Unadjusted(adjustments, x).At? ==> Adjusted(adjustments, Unadjusted(adjustments, x).pos) == At(x)
  }

  lemma {:induction false} AdjustedStaysPast(adjustments: seq<Adjustment>, low: int, o: int)
    requires SortedFrom(adjustments, low) && o >= low && Adjusted(adjustments, o).At?
    ensures Adjusted(adjustments, o).pos >= low
    ensures o > low && (forall a :: a in adjustments ==> KeepsEndsApart(a)) ==> Adjusted(adjustments, o).pos > low
  {
    if adjustments != [] && o > adjustments[0].originalOffset {
      AdjustedStaysPast(adjustments[1..], adjustments[0].End(), o);
      assert adjustments[0] in adjustments;
    }
  }

  lemma {:induction false} AdjustIsUndone(adjustments: seq<Adjustment>, low: int, o: int)
    requires SortedFrom(adjustments, low) && forall a :: a in adjustments ==> KeepsEndsApart(a)
    requires Adjusted(adjustments, o).At?
    ensures Unadjusted(adjustments, Adjusted(adjustments, o).pos) == At(o)
  {
    if adjustments != [] && o > adjustments[0].originalOffset {
      var a := adjustments[0];
      assert a in adjustments;
      AdjustIsUndone(adjustments[1..], a.End(), o);
      AdjustedStaysPast(adjustments[1..], a.End(), o);
    }
  }

  /** An edit that removes its range altogether makes both its ends the same offset. */
  lemma {:induction false} AdjustIsNotUndone(adjustments: seq<Adjustment>, low: int) returns (o: int)
    requires SortedFrom(adjustments, low) && exists a :: a in adjustments && !KeepsEndsApart(a)
    ensures o > low && Adjusted(adjustments, o).At?
    ensures Unadjusted(adjustments, Adjusted(adjustments, o).pos) != At(o)
  {
    var a := adjustments[0];
    if !KeepsEndsApart(a) {
      o := a.End();
    } else {
      o := AdjustIsNotUndone(adjustments[1..], a.End());
      AdjustedStaysPast(adjustments[1..], a.End(), o);
    }
  }

  lemma {:induction false} UnadjustedStaysPast(adjustments: seq<Adjustment>, low: int, x: int)
    requires SortedFrom(adjustments, low) && x >= low && Unadjusted(adjustments, x).At?
    ensures Unadjusted(adjustments, x).pos >= low
    ensures x > low && (forall a :: a in adjustments ==> KeepsOutputEndsApart(a)) ==>
              Unadjusted(adjustments, x).pos > low
  {
    if adjustments != [] && x > adjustments[0].originalOffset {
      UnadjustedStaysPast(adjustments[1..], adjustments[0].End(), x + adjustments[0].Shrink());
      assert adjustments[0] in adjustments;
    }
  }

  lemma {:induction false} UnadjustIsUndone(adjustments: seq<Adjustment>, low: int, x: int)
    requires SortedFrom(adjustments, low) && forall a :: a in adjustments ==> KeepsOutputEndsApart(a)
    requires Unadjusted(adjustments, x).At?
    ensures Adjusted(adjustments, Unadjusted(adjustments, x).pos) == At(x)
  {
    if adjustments != [] && x > adjustments[0].originalOffset {
      var a := adjustments[0];
      assert a in adjustments;
      UnadjustIsUndone(adjustments[1..], a.End(), x + a.Shrink());
      UnadjustedStaysPast(adjustments[1..], a.End(), x + a.Shrink());
    }
  }

  lemma {:induction false} UnadjustIsNotUndone(adjustments: seq<Adjustment>, low: int) returns (x: int)
    requires SortedFrom(adjustments, low) && exists a :: a in adjustments && !KeepsOutputEndsApart(a)
    ensures x > low && Unadjusted(adjustments, x).At?
    ensures Adjusted(adjustments, Unadjusted(adjustments, x).pos) != At(x)
  {
    var a := adjustments[0];
    if !KeepsOutputEndsApart(a) {
      x := a.originalOffset + a.outputLength;
    } else {
      var p := UnadjustIsNotUndone(adjustments[1..], a.End());
      UnadjustedStaysPast(adjustments[1..], a.End(), p);
      x := p - a.Shrink();
    }
  }

  /**
   The two directions are mutually inverse exactly when no edit removes its whole range and
   none inserts text where there was none.
   */
  lemma RoundTrips(adjustments: seq<Adjustment>)
    requires Sorted(adjustments)
    ensures UnadjustUndoesAdjust(adjustments) <==> forall a :: a in adjustments ==> KeepsEndsApart(a)
    ensures AdjustUndoesUnadjust(adjustments) <==> forall a :: a in adjustments ==> KeepsOutputEndsApart(a)
  {
    if forall a :: a in adjustments ==> KeepsEndsApart(a) {
      forall o: nat | Adjusted(adjustments, o).At?
        ensures Unadjusted(adjustments, Adjusted(adjustments, o).pos) == At(o)
      {
        AdjustIsUndone(adjustments, 0, o);
      }
    } else {
      var o := AdjustIsNotUndone(adjustments, 0);
    }
    if forall a :: a in adjustments ==> KeepsOutputEndsApart(a) {
      forall x: nat | Unadjusted(adjustments, x).At?
        ensures Adjusted(adjustments, Unadjusted(adjustments, x).pos) == At(x)
      {
        UnadjustIsUndone(adjustments, 0, x);
      }
    } else {
      var x := UnadjustIsNotUndone(adjustments, 0);
    }
  }
}
