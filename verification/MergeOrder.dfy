/** When the merged list is sorted and disjoint again. */
module MergeOrder {
  import opened OffsetAdjuster
  import opened AdjustmentMerge
  import opened MergeComposition
  import opened MergeExactness

  /** `s` starts strictly inside what `f` left. */
  predicate StartsInside(f: Adjustment, s: Adjustment, shift: int) {
    f.originalOffset - shift < s.originalOffset < f.originalOffset - shift + f.outputLength
  }

  /** What `f` left starts inside an edit of `second`, so the merge makes it part of that edit. */
  ghost predicate IsSwallowed(f: Adjustment, second: seq<Adjustment>, shift: int) {
    exists s :: s in second && s.originalOffset <= f.originalOffset - shift < s.End()
  }

  ghost predicate StartsOutside(f: Adjustment, second: seq<Adjustment>, shift: int) {
    forall s :: s in second ==> !StartsInside(f, s, shift)
  }

  /** No edit of `second` starts strictly inside what was left by an edit of `first` that is copied. */
  ghost predicate KeepsClear(first: seq<Adjustment>, second: seq<Adjustment>, shift: int) {
    first != [] ==>
      && (IsSwallowed(first[0], second, shift) || StartsOutside(first[0], second, shift))
      && KeepsClear(first[1..], second, shift + first[0].Shrink())
  }

  /** An edit of `second` that ends before an edit of `first` has nothing to do with it. */
  lemma HeadIsAside(f: Adjustment, s: Adjustment, rest: seq<Adjustment>, shift: int)
    requires s.End() + shift <= f.originalOffset
    ensures IsSwallowed(f, [s] + rest, shift) <==> IsSwallowed(f, rest, shift)
    ensures StartsOutside(f, [s] + rest, shift) <==> StartsOutside(f, rest, shift)
  {
    assert forall t :: t in [s] + rest <==> t == s || t in rest;
  }

  lemma {:induction false} ClearOfHead(
    first: seq<Adjustment>, s: Adjustment, rest: seq<Adjustment>, low: int, total: int)
    requires SortedFrom(first, low) && HeadComesFirst(first, s, total)
    ensures KeepsClear(first, [s] + rest, total) <==> KeepsClear(first, rest, total)
  {
    hide IsSwallowed, StartsOutside;
    if first != [] {
      var f := first[0];
      HeadIsAside(f, s, rest, total);
      ClearOfHead(first[1..], s, rest, f.End(), total + f.Shrink());
    }
  }

  /** An edit of `first` that starts before all of `second` is clear of it if it ends before it. */
  lemma CopiedIsClear(f: Adjustment, s: Adjustment, rest: seq<Adjustment>, total: int)
    requires SortedFrom(rest, s.End()) && f.originalOffset < s.originalOffset + total
    ensures IsSwallowed(f, [s] + rest, total) || StartsOutside(f, [s] + rest, total)
            <==> f.originalOffset + f.outputLength <= s.originalOffset + total
  {
    forall t | t in [s] + rest
      ensures t == s || t.originalOffset >= s.End()
    {
      if t != s {
        StartsAfter(rest, s.End(), t);
      }
    }
    assert s in [s] + rest;
    if f.originalOffset + f.outputLength > s.originalOffset + total {
      assert StartsInside(f, s, total);
    }
  }

  lemma ClearStep(first: seq<Adjustment>, second: seq<Adjustment>, total: int)
    requires first != []
    ensures KeepsClear(first, second, total) <==>
            && (IsSwallowed(first[0], second, total) || StartsOutside(first[0], second, total))
            && KeepsClear(first[1..], second, total + first[0].Shrink())
  {
    hide IsSwallowed, StartsOutside;
  }

  lemma SwallowedIsClear(first: seq<Adjustment>, s: Adjustment, rest: seq<Adjustment>, total: int)
    requires first != [] && s.originalOffset + total <= first[0].originalOffset < s.End() + total
    ensures KeepsClear(first, [s] + rest, total) <==>
            KeepsClear(first[1..], [s] + rest, total + first[0].Shrink())
  {
    assert s in [s] + rest;
  }

  /** Copying an edit keeps the order if what comes next, which is `s` or another edit of `first`, is behind it. */
  lemma CopyKeepsOrder(first: seq<Adjustment>, s: Adjustment, rest: seq<Adjustment>, shift: int, bound: int)
    requires Mergeable(first, [s] + rest, shift, 0) && Copies(first, s, shift)
    requires bound <= first[0].originalOffset
    ensures Mergeable(first[1..], [s] + rest, shift + first[0].Shrink(), 0)
    ensures SortedFrom(Merged(first, [s] + rest, shift, 0), bound)
            <==> SortedFrom(Merged(first[1..], [s] + rest, shift + first[0].Shrink(), 0), first[0].End())
  {
    hide Merged, Mergeable;
    MergedCopyStep(first, s, rest, shift, 0);
    SortedStep(first[0], Merged(first[1..], [s] + rest, shift + first[0].Shrink(), 0), bound);
  }

  lemma SortedStep(a: Adjustment, rest: seq<Adjustment>, bound: int)
    ensures SortedFrom([a] + rest, bound) <==> bound <= a.originalOffset && SortedFrom(rest, a.End())
  {
    assert ([a] + rest)[1..] == rest;
  }

  /** If `s` starts before the end of the copied edit, it comes next, and out of order. */
  lemma CrowdedIsUnsorted(
    first: seq<Adjustment>, s: Adjustment, rest: seq<Adjustment>, low: int, shift: int)
    requires Mergeable(first, [s] + rest, shift, 0) && SortedFrom(first, low) && s.originalOffset + shift < low
    ensures !SortedFrom(Merged(first, [s] + rest, shift, 0), low)
  {
    SwallowerComesFirst(first, s, rest, low, shift, 0);
  }

  lemma HeadKeepsOrder(
    first: seq<Adjustment>, s: Adjustment, rest: seq<Adjustment>, shift: int, collapsing: nat, bound: int)
    requires MergeableAt(first, s, rest, shift, collapsing) && HeadComesFirst(first, s, shift + collapsing)
    requires bound <= s.originalOffset + shift
    ensures Mergeable(first, rest, shift + collapsing, 0)
    ensures SortedFrom(Merged(first, [Lengthened(s, collapsing)] + rest, shift, collapsing), bound)
            <==> SortedFrom(Merged(first, rest, shift + collapsing, 0), s.End() + shift + collapsing)
  {
    hide Merged, Mergeable;
    var head := Lengthened(s, collapsing);
    MergedHeadStep(first, head, rest, shift, collapsing);
    SortedStep(head.(originalOffset := s.originalOffset + shift), Merged(first, rest, shift + collapsing, 0), bound);
  }

  lemma {:induction false} SortedFromHead(
    first: seq<Adjustment>, s: Adjustment, rest: seq<Adjustment>, low: int, shift: int, collapsing: nat, bound: int)
    requires MergeableAt(first, s, rest, shift, collapsing) && SortedFrom(first, low) && SortedFrom(rest, s.End())
    requires collapsing > 0 ==> s.originalOffset + shift + collapsing <= low
    requires bound <= low && bound <= s.originalOffset + shift
    ensures SortedFrom(Merged(first, [Lengthened(s, collapsing)] + rest, shift, collapsing), bound)
            <==> KeepsClear(first, [s] + rest, shift + collapsing)
    decreases |first| + |rest|, 1
  {
    hide Merged, Mergeable, KeepsClear;
    var total := shift + collapsing;
    if HeadComesFirst(first, s, total) {
      HeadKeepsOrder(first, s, rest, shift, collapsing, bound);
      ClearOfHead(first, s, rest, low, total);
      MergeSorts(first, rest, s.End() + total, s.End(), total);
    } else if Swallows(first, s, shift, collapsing) {
      SwallowStep(first, s, rest, shift, collapsing);
      SwallowedIsClear(first, s, rest, total);
      SortedFromHead(first[1..], s, rest, first[0].End(), shift, collapsing + first[0].Shrink(), bound);
    } else {
      assert Lengthened(s, 0) == s;
      SortedFromCopied(first, s, rest, low, shift, bound);
    }
  }

  lemma {:induction false} SortedFromCopied(
    first: seq<Adjustment>, s: Adjustment, rest: seq<Adjustment>, low: int, shift: int, bound: int)
    requires Mergeable(first, [s] + rest, shift, 0) && SortedFrom(first, low) && SortedFrom(rest, s.End())
    requires Copies(first, s, shift) && bound <= low
    ensures SortedFrom(Merged(first, [s] + rest, shift, 0), bound) <==> KeepsClear(first, [s] + rest, shift)
    decreases |first| + |rest|, 0
  {
    hide Merged, Mergeable, IsSwallowed, StartsOutside, KeepsClear;
    var f := first[0];
    assert SortedFrom(first[1..], f.End());
    CopyKeepsOrder(first, s, rest, shift, bound);
    CopiedIsClear(f, s, rest, shift);
    ClearStep(first, [s] + rest, shift);
    hide SortedFrom;
    if f.End() <= s.originalOffset + shift + f.Shrink() {
      assert Lengthened(s, 0) == s;
      SortedFromHead(first[1..], s, rest, f.End(), shift + f.Shrink(), 0, f.End());
    } else {
      CrowdedIsUnsorted(first[1..], s, rest, f.End(), shift + f.Shrink());
    }
  }

  lemma {:induction false} MergeSorts(
    first: seq<Adjustment>, second: seq<Adjustment>, low: int, start: int, shift: int)
    requires Mergeable(first, second, shift, 0)
    requires SortedFrom(first, low) && SortedFrom(second, start) && start + shift >= low
    ensures SortedFrom(Merged(first, second, shift, 0), low) <==> KeepsClear(first, second, shift)
    decreases |first| + |second|, 0
  {
    if second == [] {
      NothingIsClear(first, shift);
      MergedWithNothing(first, shift);
    } else {
      hide Merged, Mergeable, KeepsClear, SortedFrom;
      SortedRest(second, start);
      assert [Lengthened(second[0], 0)] + second[1..] == second == [second[0]] + second[1..];
      SortedFromHead(first, second[0], second[1..], low, shift, 0, low);
    }
  }

  lemma SortedRest(list: seq<Adjustment>, bound: int)
    requires list != [] && SortedFrom(list, bound)
    ensures bound <= list[0].originalOffset && SortedFrom(list[1..], list[0].End())
  {
  }

  lemma {:induction false} NothingIsClear(first: seq<Adjustment>, shift: int)
    ensures KeepsClear(first, [], shift)
  {
    if first != [] {
      NothingIsClear(first[1..], shift + first[0].Shrink());
    }
  }

  /**
   The merged list is sorted and disjoint exactly when no edit of `second` starts strictly inside
   what was left by an edit of `first` that the merge copies.
   */
  lemma MergedIsSorted(first: seq<Adjustment>, second: seq<Adjustment>)
    requires Mergeable(first, second, 0, 0) && Sorted(first) && Sorted(second)
    ensures Sorted(Merged(first, second, 0, 0)) <==> KeepsClear(first, second, 0)
  {
    MergeSorts(first, second, 0, 0, 0);
  }
}
