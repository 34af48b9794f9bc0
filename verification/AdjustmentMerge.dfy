/**
 `MergeSequentialAdjustments`: the loop that edits the second of two lists in place, into one list
 meant to have the effect of both.
 */
module AdjustmentMerge {
  import opened OffsetAdjuster

  function Lengthened(a: Adjustment, extra: nat): Adjustment {
    a.(originalLength := a.originalLength + extra)
  }

  /**
   What the loop demands of its lists, as far as it gets in each branch: offsets stay in range, an edit
   of `first` that expands the text leaves room before the edit it is copied in front of, and an
   edit that goes into another one collapses the text.
   */
  ghost predicate Mergeable(first: seq<Adjustment>, second: seq<Adjustment>, shift: int, collapsing: nat)
    decreases |first| + |second|
  {
    second != [] ==>
      var s, rest := second[0], second[1..];
      && s.originalOffset + shift >= 0
      && if first == [] || s.End() + shift <= first[0].originalOffset then
           Mergeable(first, rest, shift + collapsing, 0)
         else if s.originalOffset + shift > first[0].originalOffset then
           && (first[0].Shrink() >= 0 || LeavesRoom(first[0], s, shift))
           && Mergeable(first[1..], second, shift + first[0].Shrink(), collapsing)
         else
           && first[0].Shrink() > 0
           && Mergeable(first[1..], [Lengthened(s, first[0].Shrink())] + rest, shift,
                        collapsing + first[0].Shrink())
  }

  predicate LeavesRoom(f: Adjustment, s: Adjustment, shift: int) {
    f.originalOffset + f.outputLength <= s.originalOffset + shift
  }

  /** The list the merging loop leaves, from a state (`shift`, `collapsing`) on. */
  function Merged(first: seq<Adjustment>, second: seq<Adjustment>, shift: int, collapsing: nat): seq<Adjustment>
    requires Mergeable(first, second, shift, collapsing)
    decreases |first| + |second|
  {
    if second == [] then first
    else
      var s, rest := second[0], second[1..];
      if first == [] || s.End() + shift <= first[0].originalOffset then
        [s.(originalOffset := s.originalOffset + shift)] + Merged(first, rest, shift + collapsing, 0)
      else if s.originalOffset + shift > first[0].originalOffset then
        [first[0]] + Merged(first[1..], second, shift + first[0].Shrink(), collapsing)
      else
        Merged(first[1..], [Lengthened(s, first[0].Shrink())] + rest, shift, collapsing + first[0].Shrink())
  }

  /** The vector the program edits in place. */
  class Adjustments {
    var entries: seq<Adjustment>

    constructor (entries: seq<Adjustment>)
      ensures this.entries == entries
    {
      this.entries := entries;
    }

    method MergeSequentialAdjustments(first: seq<Adjustment>)
      requires Mergeable(first, entries, 0, 0)
      modifies this
      ensures entries == Merged(first, old(entries), 0, 0)
    {
      hide Merged, Mergeable;
      var i, j := 0, 0;
      var shift: int, currentlyCollapsing: nat := 0, 0;
      ghost var done, left, whole := [], entries, Merged(first, entries, 0, 0);
      assert first[0..] == first;
      while i < |entries|
        invariant j <= |first|
        invariant entries == done + left && i == |done|
        invariant Mergeable(first[j..], left, shift, currentlyCollapsing)
        invariant whole == done + Merged(first[j..], left, shift, currentlyCollapsing)
        invariant left == [] ==> currentlyCollapsing == 0
        decreases |left| + |first| - j
      {
        assert entries[i] == left[0];
        if j == |first| ||
           entries[i].originalOffset + shift + entries[i].originalLength <= first[j].originalOffset {
          MoveStep(first, j, done, left, shift, currentlyCollapsing);
          var moved := entries[i].(originalOffset := entries[i].originalOffset + shift);
          SetHead(done, left, moved);
          entries := entries[i := moved];
          done, left := done + [moved], left[1..];
          shift := shift + currentlyCollapsing;
          currentlyCollapsing := 0;
          i := i + 1;
        } else if entries[i].originalOffset + shift > first[j].originalOffset {
          CopyStep(first, j, done, left, shift, currentlyCollapsing);
          Regroup(done, first[j], left);
          InsertAt(done, left, first[j]);
          shift := shift + first[j].Shrink();
          entries := entries[..i] + [first[j]] + entries[i..];
          done := done + [first[j]];
          i := i + 1;
          j := j + 1;
        } else {
          SwallowOne(first, j, left, shift, currentlyCollapsing);
          var collapse := first[j].Shrink();
          assert collapse > 0;
          var longer := Lengthened(entries[i], collapse);
          SetHead(done, left, longer);
          entries := entries[i := longer];
          left := [longer] + left[1..];
          currentlyCollapsing := currentlyCollapsing + collapse;
          j := j + 1;
        }
      }
      assert currentlyCollapsing == 0;
      NothingMore(first, j, done, shift);
      if j < |first| {
        entries := entries + first[j..];
      }
    }
  }

  /** The three branches of the loop, and its end, on the list that is still to be merged. */
  lemma MoveStep(
    first: seq<Adjustment>, j: nat, done: seq<Adjustment>, left: seq<Adjustment>, shift: int, collapsing: nat)
    requires j <= |first| && left != [] && Mergeable(first[j..], left, shift, collapsing)
    requires j == |first| || left[0].originalOffset + shift + left[0].originalLength <= first[j].originalOffset
    ensures left[0].originalOffset + shift >= 0 && Mergeable(first[j..], left[1..], shift + collapsing, 0)
    ensures done + Merged(first[j..], left, shift, collapsing)
            == (done + [left[0].(originalOffset := left[0].originalOffset + shift)])
               + Merged(first[j..], left[1..], shift + collapsing, 0)
  {
    DropOne(first, j);
    var moved := left[0].(originalOffset := left[0].originalOffset + shift);
    var rest := Merged(first[j..], left[1..], shift + collapsing, 0);
    assert Merged(first[j..], left, shift, collapsing) == [moved] + rest;
    hide Merged, Mergeable;
    Regroup(done, moved, rest);
  }

  lemma CopyStep(
    first: seq<Adjustment>, j: nat, done: seq<Adjustment>, left: seq<Adjustment>, shift: int, collapsing: nat)
    requires j < |first| && left != [] && Mergeable(first[j..], left, shift, collapsing)
    requires left[0].originalOffset + shift + left[0].originalLength > first[j].originalOffset
    requires left[0].originalOffset + shift > first[j].originalOffset
    ensures Mergeable(first[j + 1..], left, shift + first[j].Shrink(), collapsing)
    ensures done + Merged(first[j..], left, shift, collapsing)
            == (done + [first[j]]) + Merged(first[j + 1..], left, shift + first[j].Shrink(), collapsing)
  {
    DropOne(first, j);
    var rest := Merged(first[j + 1..], left, shift + first[j].Shrink(), collapsing);
    assert Merged(first[j..], left, shift, collapsing) == [first[j]] + rest;
    hide Merged, Mergeable;
    Regroup(done, first[j], rest);
  }

  lemma SwallowOne(first: seq<Adjustment>, j: nat, left: seq<Adjustment>, shift: int, collapsing: nat)
    requires j < |first| && left != [] && Mergeable(first[j..], left, shift, collapsing)
    requires left[0].originalOffset + shift + left[0].originalLength > first[j].originalOffset
    requires left[0].originalOffset + shift <= first[j].originalOffset
    ensures var c := first[j].Shrink();
            && c > 0 && Mergeable(first[j + 1..], [Lengthened(left[0], c)] + left[1..], shift, collapsing + c)
            && Merged(first[j..], left, shift, collapsing)
               == Merged(first[j + 1..], [Lengthened(left[0], c)] + left[1..], shift, collapsing + c)
  {
    DropOne(first, j);
  }

  lemma NothingMore(first: seq<Adjustment>, j: nat, done: seq<Adjustment>, shift: int)
    requires j <= |first| && Mergeable(first[j..], [], shift, 0)
    ensures done + Merged(first[j..], [], shift, 0) == if j < |first| then done + first[j..] else done
  {
  }

  lemma InsertAt<T>(a: seq<T>, b: seq<T>, x: T)
    ensures (a + b)[..|a|] + [x] + (a + b)[|a|..] == a + ([x] + b)
  {
    assert (a + b)[..|a|] == a && (a + b)[|a|..] == b;
  }

  lemma DropOne<T>(s: seq<T>, j: nat)
    requires j <= |s|
    ensures j < |s| ==> s[j] == s[j..][0] && s[j..][1..] == s[j + 1..]
  {
  }

  lemma Regroup<T>(a: seq<T>, x: T, b: seq<T>)
    ensures a + ([x] + b) == (a + [x]) + b
  {
  }

  lemma SetHead<T>(a: seq<T>, b: seq<T>, x: T)
    requires b != []
    ensures (a + b)[|a| := x] == a + ([x] + b[1..]) == (a + [x]) + b[1..]
  {
  }
}
