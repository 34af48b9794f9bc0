/** Which lists can be merged, said without the loop. */
module MergeDomain {
  import opened OffsetAdjuster
  import opened AdjustmentMerge
  import opened MergeComposition
  import opened MergeExactness
  import opened MergeOrder

  /**
   An edit of `first` that goes into one of `second` collapses the text; one that does not and
   expands it has no edit of `second` starting strictly inside what it left.
   */
  ghost predicate Suits(f: Adjustment, second: seq<Adjustment>, shift: int) {
    if IsSwallowed(f, second, shift) then f.Shrink() > 0 else f.Shrink() >= 0 || StartsOutside(f, second, shift)
  }

  ghost predicate AllSuit(first: seq<Adjustment>, second: seq<Adjustment>, shift: int) {
    first != [] ==> Suits(first[0], second, shift) && AllSuit(first[1..], second, shift + first[0].Shrink())
  }

  lemma AllSuitStep(first: seq<Adjustment>, second: seq<Adjustment>, shift: int)
    requires first != []
    ensures AllSuit(first, second, shift)
            <==> Suits(first[0], second, shift) && AllSuit(first[1..], second, shift + first[0].Shrink())
  {
    hide Suits;
  }

  lemma {:induction false} SuitsBesideHead(
    first: seq<Adjustment>, s: Adjustment, rest: seq<Adjustment>, low: int, total: int)
    requires SortedFrom(first, low) && HeadComesFirst(first, s, total)
    ensures AllSuit(first, [s] + rest, total) <==> AllSuit(first, rest, total)
  {
    hide IsSwallowed, StartsOutside;
    if first != [] {
      var f := first[0];
      HeadIsAside(f, s, rest, total);
      SuitsBesideHead(first[1..], s, rest, f.End(), total + f.Shrink());
    }
  }

  /** Whether the copied edit suits depends on the head alone. */
  lemma CopiedSuits(f: Adjustment, s: Adjustment, rest: seq<Adjustment>, total: int)
    requires SortedFrom(rest, s.End()) && f.originalOffset < s.originalOffset + total
    ensures Suits(f, [s] + rest, total) <==> f.Shrink() >= 0 || LeavesRoom(f, s, total)
  {
    CopiedIsClear(f, s, rest, total);
    if t :| t in [s] + rest && t.originalOffset <= f.originalOffset - total {
      if t != s {
        StartsAfter(rest, s.End(), t);
      }
    }
  }

  lemma SwallowedSuits(f: Adjustment, s: Adjustment, rest: seq<Adjustment>, total: int)
    requires s.originalOffset + total <= f.originalOffset < s.End() + total
    ensures Suits(f, [s] + rest, total) <==> f.Shrink() > 0
  {
    assert s in [s] + rest;
  }

  /** One step of what the loop demands. */
  lemma MergeableStep(first: seq<Adjustment>, s: Adjustment, rest: seq<Adjustment>, shift: int, collapsing: nat)
    requires s.originalOffset + shift >= 0
    ensures HeadComesFirst(first, s, shift + collapsing) ==>
              (MergeableAt(first, s, rest, shift, collapsing) <==> Mergeable(first, rest, shift + collapsing, 0))
    ensures Swallows(first, s, shift, collapsing) ==>
              (MergeableAt(first, s, rest, shift, collapsing) <==>
                first[0].Shrink() > 0
                && MergeableAt(first[1..], s, rest, shift, collapsing + first[0].Shrink()))
    ensures Copies(first, s, shift) && collapsing == 0 && !HeadComesFirst(first, s, shift) ==>
              (MergeableAt(first, s, rest, shift, 0) <==>
                && (first[0].Shrink() >= 0 || LeavesRoom(first[0], s, shift))
                && MergeableAt(first[1..], s, rest, shift + first[0].Shrink(), 0))
  {
    var head := Lengthened(s, collapsing);
    assert ([head] + rest)[1..] == rest;
    if Swallows(first, s, shift, collapsing) && first[0].Shrink() > 0 {
      assert Lengthened(head, first[0].Shrink()) == Lengthened(s, collapsing + first[0].Shrink());
    }
  }

  lemma {:induction false} MergeableFrom(
    first: seq<Adjustment>, s: Adjustment, rest: seq<Adjustment>, low: int, shift: int, collapsing: nat)
    requires SortedFrom(first, low) && SortedFrom(rest, s.End()) && s.originalOffset + shift >= 0
    requires collapsing > 0 ==> s.originalOffset + shift + collapsing <= low
    ensures MergeableAt(first, s, rest, shift, collapsing) <==> AllSuit(first, [s] + rest, shift + collapsing)
    decreases |first| + |rest|, 1
  {
    hide Mergeable, MergeableAt, AllSuit, Suits;
    var total := shift + collapsing;
    MergeableStep(first, s, rest, shift, collapsing);
    if HeadComesFirst(first, s, total) {
      SuitsBesideHead(first, s, rest, low, total);
      MergeableIs(first, rest, low, s.End(), total);
    } else {
      var f := first[0];
      AllSuitStep(first, [s] + rest, total);
      if Swallows(first, s, shift, collapsing) {
        SwallowedSuits(f, s, rest, total);
        if f.Shrink() > 0 {
          MergeableFrom(first[1..], s, rest, f.End(), shift, collapsing + f.Shrink());
        }
      } else {
        CopiedSuits(f, s, rest, total);
        if f.Shrink() >= 0 || LeavesRoom(f, s, shift) {
          MergeableFrom(first[1..], s, rest, f.End(), shift + f.Shrink(), 0);
        }
      }
    }
  }

  lemma {:induction false} MergeableIs(
    first: seq<Adjustment>, second: seq<Adjustment>, low: int, start: int, shift: int)
    requires SortedFrom(first, low) && SortedFrom(second, start) && start + shift >= 0
    ensures Mergeable(first, second, shift, 0) <==> AllSuit(first, second, shift)
    decreases |first| + |second|, 0
  {
    if second == [] {
      NothingUnsuited(first, shift);
    } else {
      hide AllSuit, Mergeable;
      assert [Lengthened(second[0], 0)] + second[1..] == second == [second[0]] + second[1..];
      MergeableFrom(first, second[0], second[1..], low, shift, 0);
    }
  }

  lemma {:induction false} NothingUnsuited(first: seq<Adjustment>, shift: int)
    ensures AllSuit(first, [], shift)
  {
    if first != [] {
      NothingUnsuited(first[1..], shift + first[0].Shrink());
    }
  }

  /** The loop's demands on sorted lists, as a condition on the lists. */
  lemma MergeableMeans(first: seq<Adjustment>, second: seq<Adjustment>)
    requires Sorted(first) && Sorted(second)
    ensures Mergeable(first, second, 0, 0) <==> AllSuit(first, second, 0)
  {
    MergeableIs(first, second, 0, 0, 0);
  }

  ghost predicate Collapses(first: seq<Adjustment>) {
    forall a :: a in first ==> a.Shrink() > 0
  }

  lemma CollapsesStep(first: seq<Adjustment>)
    requires Collapses(first) && first != []
    ensures Collapses(first[1..]) && first[0].Shrink() > 0
  {
    assert first[0] in first;
  }

  /** A first list that only collapses text, as the documentation wants it, can be merged with any other. */
  lemma {:induction false} CollapsingIsMergeable(
    first: seq<Adjustment>, second: seq<Adjustment>, shift: nat, collapsing: nat)
    requires Collapses(first)
    ensures Mergeable(first, second, shift, collapsing)
    decreases |first| + |second|
  {
    if second != [] {
      var s, rest := second[0], second[1..];
      if first == [] || s.End() + shift <= first[0].originalOffset {
        CollapsingIsMergeable(first, rest, shift + collapsing, 0);
      } else {
        CollapsesStep(first);
        var c := first[0].Shrink();
        if s.originalOffset + shift > first[0].originalOffset {
          CollapsingIsMergeable(first[1..], second, shift + c, collapsing);
        } else {
          CollapsingIsMergeable(first[1..], [Lengthened(s, c)] + rest, shift, collapsing + c);
        }
      }
    }
  }
}
