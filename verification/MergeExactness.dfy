/** The merge has the effect of its two lists exactly when no pair of edits clashes. */
module MergeExactness {
  import opened OffsetAdjuster
  import opened AdjustmentMerge
  import opened MergeComposition

  // ------------------------------------------------ where clashes can be

  lemma {:induction false} StartsAfter(list: seq<Adjustment>, low: int, a: Adjustment)
    requires SortedFrom(list, low) && a in list
    ensures a.originalOffset >= low
  {
    if a != list[0] {
      StartsAfter(list[1..], list[0].End(), a);
    }
  }

  /** The next edit of `first` cannot clash with edits that start after it. */
  lemma NoClashAhead(first: seq<Adjustment>, second: seq<Adjustment>, start: int, total: int)
    requires SortedFrom(second, start) && first != [] && first[0].originalOffset - total < start
    ensures forall s :: s in second ==> !Clash(first[0], s, total)
  {
    forall s | s in second
      ensures !Clash(first[0], s, total)
    {
      StartsAfter(second, start, s);
    }
  }

  lemma {:induction false} ClashesSplit(first: seq<Adjustment>, s: Adjustment, rest: seq<Adjustment>, total: int)
    requires Compatible(first, [s], total) && Compatible(first, rest, total)
    ensures Compatible(first, [s] + rest, total)
  {
    hide Clash;
    if first != [] {
      assert s in [s];
      ClashesSplit(first[1..], s, rest, total + first[0].Shrink());
    }
  }

  /** The first edit of `first` that changes anything removes a range, at `spot`; those before it are there too. */
  ghost predicate RemovesAt(first: seq<Adjustment>, spot: int) {
    && first != [] && first[0].originalOffset == spot && first[0].outputLength == 0
    && (first[0].originalLength == 0 ==> RemovesAt(first[1..], spot))
  }

  /** Where that range ends. */
  function RemovedEnd(first: seq<Adjustment>): int {
    if first == [] then 0 else if first[0].originalLength > 0 then first[0].End() else RemovedEnd(first[1..])
  }

  lemma {:induction false} RemovedEndIsPast(first: seq<Adjustment>, spot: int)
    requires RemovesAt(first, spot)
    ensures RemovedEnd(first) > spot
  {
    if first[0].originalLength == 0 {
      RemovedEndIsPast(first[1..], spot);
    }
  }

  /** An `s` that comes first can only clash by inserting at the very spot where `first` removes a range. */
  lemma {:induction false} ClashAfterHead(first: seq<Adjustment>, s: Adjustment, low: int, total: int)
    requires SortedFrom(first, low) && HeadComesFirst(first, s, total) && !Compatible(first, [s], total)
    ensures s.originalLength == 0 && s.outputLength > 0 && RemovesAt(first, s.originalOffset + total)
  {
    var f := first[0];
    if Clash(f, s, total) {
    } else {
      assert forall t :: t in [s] ==> t == s;
      ClashAfterHead(first[1..], s, f.End(), total + f.Shrink());
    }
  }

  // ------------------------------------------------------ what a clash does

  /** Text inserted at the spot where `first` removed a range is counted before the range ends. */
  lemma {:induction false} InsertionsPileUp(
    first: seq<Adjustment>, rest: seq<Adjustment>, spot: int, low: int, total: int)
    requires Mergeable(first, rest, total, 0) && SortedFrom(first, low) && RemovesAt(first, spot)
    requires SortedFrom(rest, spot - total)
    ensures var x := Adjusted(Merged(first, rest, total, 0), RemovedEnd(first));
            x.Npos? || x.pos >= spot
    decreases |first| + |rest|
  {
    hide Merged, Mergeable, Adjusted;
    var f, end := first[0], RemovedEnd(first);
    RemovedEndIsPast(first, spot);
    if rest == [] {
      OwnEnd(first, spot, low);
      MergedWithNothing(first, total);
    } else {
      var s := rest[0];
      assert rest == [s] + rest[1..];
      if HeadComesFirst(first, s, total) {
        MergedHeadStep(first, s, rest[1..], total, 0);
        InsertionsPileUp(first, rest[1..], spot, low, total);
        AdjustedStep(s.(originalOffset := s.originalOffset + total), Merged(first, rest[1..], total, 0), end);
      } else if Copies(first, s, total) {
        MergedCopyStep(first, s, rest[1..], total, 0);
        CopiedPilesUp(first, rest, spot, low, total);
        AdjustedStep(f, Merged(first[1..], rest, total + f.Shrink(), 0), end);
      } else {
        SwallowHeadStep(first, s, rest[1..], total, 0);
        SwallowerDecides(first[1..], Lengthened(s, f.Shrink()), rest[1..], f.End(), total, f.Shrink(), end);
      }
    }
  }

  lemma {:induction false} CopiedPilesUp(
    first: seq<Adjustment>, rest: seq<Adjustment>, spot: int, low: int, total: int)
    requires SortedFrom(first, low) && RemovesAt(first, spot)
    requires rest != [] && SortedFrom(rest, spot - total) && Copies(first, rest[0], total)
    requires Mergeable(first[1..], rest, total + first[0].Shrink(), 0)
    ensures var x := Adjusted(Merged(first[1..], rest, total + first[0].Shrink(), 0), RemovedEnd(first));
            x.Npos? || x.pos >= spot + first[0].Shrink()
    decreases |first| + |rest|, 0
  {
    hide Merged, Mergeable, Adjusted;
    var f := first[0];
    if f.originalLength > 0 {
      NothingBefore(first[1..], rest, f.End(), rest[0].originalOffset, total + f.Shrink(), f.End());
    } else {
      InsertionsPileUp(first[1..], rest, spot, f.End(), total);
    }
  }

  lemma MergedWithNothing(first: seq<Adjustment>, total: int)
    requires Mergeable(first, [], total, 0)
    ensures Merged(first, [], total, 0) == first
  {
  }

  /** The end of a removed range goes to where the range was, if nothing else happens. */
  lemma {:induction false} OwnEnd(first: seq<Adjustment>, spot: int, low: int)
    requires SortedFrom(first, low) && RemovesAt(first, spot)
    ensures Adjusted(first, RemovedEnd(first)) == At(spot)
  {
    if first[0].originalLength == 0 {
      RemovedEndIsPast(first, spot);
      OwnEnd(first[1..], spot, first[0].End());
    } else {
      assert Adjusted(first[1..], first[0].End()) == At(first[0].End());
    }
  }

  /** An offset before everything in both lists stays where it is. */
  lemma NothingBefore(first: seq<Adjustment>, second: seq<Adjustment>, low: int, start: int, total: int, o: int)
    requires Mergeable(first, second, total, 0) && SortedFrom(first, low) && SortedFrom(second, start)
    requires o <= low && o <= start + total
    ensures Adjusted(Merged(first, second, total, 0), o) == At(o)
  {
    if second != [] {
      var s, rest := second[0], second[1..];
      assert second == [s] + rest;
      hide Merged, Mergeable, Adjusted;
      if HeadComesFirst(first, s, total) {
        MergedHeadStep(first, s, rest, total, 0);
        AdjustedStep(s.(originalOffset := s.originalOffset + total), Merged(first, rest, total, 0), o);
      } else if Copies(first, s, total) {
        MergedCopyStep(first, s, rest, total, 0);
        AdjustedStep(first[0], Merged(first[1..], second, total + first[0].Shrink(), 0), o);
      } else {
        SwallowHeadStep(first, s, rest, total, 0);
        SwallowerDecides(first[1..], Lengthened(s, first[0].Shrink()), rest, first[0].End(), total,
                         first[0].Shrink(), o);
      }
    }
  }

  /** Both lists together take the end of a removed range to where the range was, if `second` starts there. */
  lemma RemovedEndsMeet(first: seq<Adjustment>, second: seq<Adjustment>, spot: int, low: int, shift: int)
    requires SortedFrom(first, low) && RemovesAt(first, spot)
    requires second != [] && spot - shift <= second[0].originalOffset
    ensures Composed(first, second, shift, RemovedEnd(first)) == At(spot)
  {
    OwnEnd(first, spot, low);
  }

  /** The end of a removed range, when `s` inserts at that very spot. */
  lemma InsertionClash(first: seq<Adjustment>, s: Adjustment, rest: seq<Adjustment>, low: int, shift: int)
    requires MergeableAt(first, s, rest, shift, 0) && SortedFrom(first, low) && SortedFrom(rest, s.End())
    requires HeadComesFirst(first, s, shift) && !Compatible(first, [s], shift)
    ensures first != [] && RemovedEnd(first) > first[0].originalOffset
    ensures MergedAt(first, s, rest, shift, 0, RemovedEnd(first))
         != WantedAt(first, s, rest, shift, 0, RemovedEnd(first))
  {
    hide Merged, Mergeable, MergeableAt, MergedAt, Adjusted, Composed, Compatible;
    var spot := s.originalOffset + shift;
    ClashAfterHead(first, s, low, shift);
    RemovedEndIsPast(first, spot);
    MergedPassesHead(first, s, rest, shift, 0, RemovedEnd(first));
    InsertionsPileUp(first, rest, spot, low, shift);
    RemovedEndsMeet(first, [s] + rest, spot, low, shift);
  }

  /** The end of a removed range, when `s` edits text from that very spot on. */
  lemma RemovalClash(first: seq<Adjustment>, s: Adjustment, rest: seq<Adjustment>, low: int, shift: int)
    requires MergeableAt(first, s, rest, shift, 0) && SortedFrom(first, low)
    requires Swallows(first, s, shift, 0) && first[0].outputLength == 0
    requires s.originalOffset + shift == first[0].originalOffset
    ensures MergedAt(first, s, rest, shift, 0, first[0].End()) != WantedAt(first, s, rest, shift, 0, first[0].End())
  {
    hide Merged, Mergeable, Adjusted, Composed;
    var f := first[0];
    SwallowStep(first, s, rest, shift, 0);
    RemovedEndsMeet(first, [s] + rest, f.originalOffset, low, shift);
    SwallowerDecides(first[1..], Lengthened(s, f.Shrink()), rest, f.End(), shift, f.Shrink(), f.End());
  }

  /** Both lists together take the inside of an edit of `first` to npos. */
  lemma WantedInside(first: seq<Adjustment>, second: seq<Adjustment>, total: int, o: int)
    requires first != []
    ensures first[0].originalOffset < o < first[0].End() ==> Composed(first, second, total, o) == Npos
  {
  }

  lemma UntouchedStayPast(first: seq<Adjustment>, s: Adjustment, low: int, total: int, o: int)
    requires SortedFrom(first, low) && o <= low && s.originalOffset + total < o && s.End() + total <= o
    ensures StaysPastHead(first, s, total, o)
  {
  }

  /** The point inside a collapsed range where an `s` that ends inside its output is taken to end. */
  lemma CrossingClash(
    first: seq<Adjustment>, s: Adjustment, rest: seq<Adjustment>, low: int, shift: int, collapsing: nat)
    returns (o: int)
    requires MergeableAt(first, s, rest, shift, collapsing) && SortedFrom(first, low) && SortedFrom(rest, s.End())
    requires Swallows(first, s, shift, collapsing) && MidSwallow(s, low, shift, collapsing)
    requires s.End() < first[0].originalOffset - shift - collapsing + first[0].outputLength
    requires s.originalOffset + shift + collapsing <= first[0].originalOffset
    ensures o > first[0].originalOffset
    ensures MergedAt(first, s, rest, shift, collapsing, o) != WantedAt(first, s, rest, shift, collapsing, o)
  {
    WantedInside(first, [s] + rest, shift + collapsing, s.End() + shift + collapsing + first[0].Shrink());
    hide Merged, Mergeable, Adjusted, Composed, StaysPastHead;
    var f := first[0];
    SwallowStep(first, s, rest, shift, collapsing);
    var c := f.Shrink();
    o := s.End() + shift + collapsing + c;
    UntouchedStayPast(first[1..], s, f.End(), shift + collapsing + c, o);
    PassHead(first[1..], s, rest, shift, collapsing + c, o);
    NothingBefore(first[1..], rest, f.End(), s.End(), shift + collapsing + c, o);
  }

  // -------------------------------------------------------------- the converse

  lemma {:induction false} MergeFailsFrom(
    first: seq<Adjustment>, s: Adjustment, rest: seq<Adjustment>, low: int, shift: int, collapsing: nat)
    returns (o: int)
    requires MergeableAt(first, s, rest, shift, collapsing) && SortedFrom(first, low) && SortedFrom(rest, s.End())
    requires !Compatible(first, [s] + rest, shift + collapsing)
    requires MidSwallow(s, low, shift, collapsing)
    ensures first != [] && o > first[0].originalOffset
    ensures MergedAt(first, s, rest, shift, collapsing, o) != WantedAt(first, s, rest, shift, collapsing, o)
    decreases |first| + |rest|, 2
  {
    assert first != [];
    hide Merged, Mergeable, MergeableAt, Adjusted, Composed, MergedAt, WantedAt, Compatible, Clash;
    if !HeadComesFirst(first, s, shift + collapsing) {
      o := MergeFailsInside(first, s, rest, low, shift, collapsing);
    } else if !Compatible(first, [s], shift + collapsing) {
      ClashAfterHead(first, s, low, shift + collapsing);
      assert collapsing == 0;
      InsertionClash(first, s, rest, low, shift);
      o := RemovedEnd(first);
    } else {
      o := MergeFailsBehindHead(first, s, rest, low, shift, collapsing);
    }
  }

  lemma {:induction false} MergeFailsBehindHead(
    first: seq<Adjustment>, s: Adjustment, rest: seq<Adjustment>, low: int, shift: int, collapsing: nat)
    returns (o: int)
    requires MergeableAt(first, s, rest, shift, collapsing)
    requires SortedFrom(first, low) && SortedFrom(rest, s.End()) && first != []
    requires !Compatible(first, [s] + rest, shift + collapsing) && MidSwallow(s, low, shift, collapsing)
    requires HeadComesFirst(first, s, shift + collapsing) && Compatible(first, [s], shift + collapsing)
    ensures o > first[0].originalOffset
    ensures MergedAt(first, s, rest, shift, collapsing, o) != WantedAt(first, s, rest, shift, collapsing, o)
    decreases |first| + |rest|, 1
  {
    hide Merged, Mergeable, MergeableAt, Adjusted, Composed, MergedAt, WantedAt, Compatible, StaysPastHead;
    if Compatible(first, rest, shift + collapsing) {
      ClashesSplit(first, s, rest, shift + collapsing);
    }
    MergedPassesHead(first, s, rest, shift, collapsing, 0);
    o := MergeFails(first, rest, low, s.End(), shift + collapsing);
    UnclashedStayPast(first, s, low, shift + collapsing, o);
    PassHead(first, s, rest, shift, collapsing, o);
  }

  /** If the next edit of `first` does not clash with `s`, which does not come first, a later one clashes. */
  lemma NoClashBehind(first: seq<Adjustment>, s: Adjustment, rest: seq<Adjustment>, total: int)
    requires SortedFrom(rest, s.End()) && !HeadComesFirst(first, s, total)
    requires !Compatible(first, [s] + rest, total)
    ensures Clash(first[0], s, total) || !Compatible(first[1..], [s] + rest, total + first[0].Shrink())
  {
    NoClashAhead(first, rest, s.End(), total);
    hide Clash;
  }

  lemma ClashInside(
    first: seq<Adjustment>, s: Adjustment, rest: seq<Adjustment>, low: int, shift: int, collapsing: nat)
    returns (o: int)
    requires MergeableAt(first, s, rest, shift, collapsing) && SortedFrom(first, low) && SortedFrom(rest, s.End())
    requires Swallows(first, s, shift, collapsing) && MidSwallow(s, low, shift, collapsing)
    requires Clash(first[0], s, shift + collapsing)
    ensures o > first[0].originalOffset
    ensures MergedAt(first, s, rest, shift, collapsing, o) != WantedAt(first, s, rest, shift, collapsing, o)
  {
    hide Merged, Mergeable, MergeableAt, Adjusted, Composed, MergedAt, WantedAt;
    var f := first[0];
    SwallowShrinks(first, s, rest, shift, collapsing);
    if f.outputLength == 0 && s.originalOffset + shift + collapsing == f.originalOffset {
      RemovalClash(first, s, rest, low, shift);
      o := f.End();
    } else {
      o := CrossingClash(first, s, rest, low, shift, collapsing);
    }
  }

  lemma {:induction false} MergeFailsInside(
    first: seq<Adjustment>, s: Adjustment, rest: seq<Adjustment>, low: int, shift: int, collapsing: nat)
    returns (o: int)
    requires MergeableAt(first, s, rest, shift, collapsing) && SortedFrom(first, low) && SortedFrom(rest, s.End())
    requires !Compatible(first, [s] + rest, shift + collapsing)
    requires MidSwallow(s, low, shift, collapsing) && !HeadComesFirst(first, s, shift + collapsing)
    ensures first != [] && o > first[0].originalOffset
    ensures MergedAt(first, s, rest, shift, collapsing, o) != WantedAt(first, s, rest, shift, collapsing, o)
    decreases |first| + |rest|, 0
  {
    hide Merged, Mergeable, MergeableAt, Adjusted, Composed, MergedAt, WantedAt;
    var f := first[0];
    NoClashBehind(first, s, rest, shift + collapsing);
    hide Compatible;
    if Swallows(first, s, shift, collapsing) {
      if Clash(f, s, shift + collapsing) {
        o := ClashInside(first, s, rest, low, shift, collapsing);
      } else {
        SwallowStep(first, s, rest, shift, collapsing);
        SwallowKeepsMid(first, s, low, shift, collapsing);
        o := MergeFailsFrom(first[1..], s, rest, f.End(), shift, collapsing + f.Shrink());
        PassSwallowed(first, s, rest, shift, collapsing, o);
      }
    } else {
      PassCopied(first, s, rest, shift, 0);
      o := MergeFailsFrom(first[1..], s, rest, f.End(), shift + f.Shrink(), 0);
      PassCopied(first, s, rest, shift, o);
    }
  }

  lemma {:induction false} MergeFails(
    first: seq<Adjustment>, second: seq<Adjustment>, low: int, start: int, shift: int) returns (o: int)
    requires Mergeable(first, second, shift, 0) && SortedFrom(first, low) && SortedFrom(second, start)
    requires !Compatible(first, second, shift)
    ensures first != [] && o > first[0].originalOffset
    ensures Adjusted(Merged(first, second, shift, 0), o) != Composed(first, second, shift, o)
    decreases |first| + |second|, 0
  {
    if second == [] {
      NeverClashes(first, shift);
    }
    assert [Lengthened(second[0], 0)] + second[1..] == second == [second[0]] + second[1..];
    o := MergeFailsFrom(first, second[0], second[1..], low, shift, 0);
  }

  lemma {:induction false} NeverClashes(first: seq<Adjustment>, shift: int)
    ensures Compatible(first, [], shift)
  {
    if first != [] {
      NeverClashes(first[1..], shift + first[0].Shrink());
    }
  }

  /**
   Adjusting by the merged list is adjusting by `first` and then by `second`, for every offset
   and npos, exactly when no edit of `second` clashes with one of `first`.
   */
  lemma MergeIsComposition(first: seq<Adjustment>, second: seq<Adjustment>)
    requires Mergeable(first, second, 0, 0) && Sorted(first) && Sorted(second)
    ensures Compatible(first, second, 0) <==>
            forall o: Offset :: o.Npos? || o.pos >= 0 ==>
              AdjustedOffset(Merged(first, second, 0, 0), o) == AdjustedOffset(second, AdjustedOffset(first, o))
  {
    if Compatible(first, second, 0) {
      forall o: Offset | o.At?
        ensures AdjustedOffset(Merged(first, second, 0, 0), o) == AdjustedOffset(second, AdjustedOffset(first, o))
      {
        MergeComposes(first, second, 0, 0, 0, o.pos);
      }
    } else {
      var o := MergeFails(first, second, 0, 0, 0);
      assert AdjustedOffset(Merged(first, second, 0, 0), At(o)) != AdjustedOffset(second, AdjustedOffset(first, At(o)));
    }
  }
}
