/** When the merged list adjusts every offset as the two lists do one after the other. */
module MergeComposition {
  import opened OffsetAdjuster
  import opened AdjustmentMerge

  /** First `first`, then `second`, whose offsets are `shift` behind those that `first` yields. */
  function Composed(first: seq<Adjustment>, second: seq<Adjustment>, shift: int, o: int): Offset {
    var y := Adjusted(first, o);
    if y.Npos? then Npos else Moved(Adjusted(second, y.pos - shift), shift)
  }

  /**
   A pair of edits the merge gets wrong: either `s` ends strictly inside what `f` left, having
   started no later, or `f` left nothing of a range and `s` edits the very spot.
   */
  predicate Clash(f: Adjustment, s: Adjustment, shift: int) {
    var p := f.originalOffset - shift;
    || s.originalOffset <= p < s.End() < p + f.outputLength
    || (f.originalLength > 0 && f.outputLength == 0 && s.originalOffset == p && s.Changes())
  }

  ghost predicate Compatible(first: seq<Adjustment>, second: seq<Adjustment>, shift: int) {
    first != [] ==>
      && (forall s :: s in second ==> !Clash(first[0], s, shift))
      && Compatible(first[1..], second, shift + first[0].Shrink())
  }

  lemma CompatibleStep(first: seq<Adjustment>, second: seq<Adjustment>, shift: int)
    requires first != []
    ensures Compatible(first, second, shift) ==> Compatible(first[1..], second, shift + first[0].Shrink())
    ensures Compatible(first, second, shift) ==> forall s :: s in second ==> !Clash(first[0], s, shift)
  {
    hide Clash;
  }

  // ---------------------------------------------------------------- one step

  lemma AdjustedStep(a: Adjustment, rest: seq<Adjustment>, o: int)
    ensures Adjusted([a] + rest, o) ==
            if o <= a.originalOffset then At(o)
            else if o < a.End() then Npos
            else Moved(Adjusted(rest, o), -a.Shrink())
  {
    assert ([a] + rest)[1..] == rest;
  }

  lemma MergedHeadStep(first: seq<Adjustment>, s: Adjustment, rest: seq<Adjustment>, shift: int, collapsing: nat)
    requires Mergeable(first, [s] + rest, shift, collapsing) && HeadComesFirst(first, s, shift)
    ensures s.originalOffset + shift >= 0 && Mergeable(first, rest, shift + collapsing, 0)
    ensures Merged(first, [s] + rest, shift, collapsing)
            == [s.(originalOffset := s.originalOffset + shift)] + Merged(first, rest, shift + collapsing, 0)
  {
    assert ([s] + rest)[1..] == rest;
  }

  /** The edit of `first` that comes next starts before `s`. */
  predicate Copies(first: seq<Adjustment>, s: Adjustment, shift: int) {
    first != [] && first[0].originalOffset < s.originalOffset + shift
  }

  lemma MergedCopyStep(first: seq<Adjustment>, s: Adjustment, rest: seq<Adjustment>, shift: int, collapsing: nat)
    requires Mergeable(first, [s] + rest, shift, collapsing)
    requires Copies(first, s, shift)
    ensures first[0].Shrink() >= 0 || LeavesRoom(first[0], s, shift)
    ensures Mergeable(first[1..], [s] + rest, shift + first[0].Shrink(), collapsing)
    ensures Merged(first, [s] + rest, shift, collapsing)
            == [first[0]] + Merged(first[1..], [s] + rest, shift + first[0].Shrink(), collapsing)
  {
  }

  /** The state of the loop when `collapsing` characters have gone into the head `s` of the second list. */
  ghost predicate MergeableAt(
    first: seq<Adjustment>, s: Adjustment, rest: seq<Adjustment>, shift: int, collapsing: nat)
  {
    Mergeable(first, [Lengthened(s, collapsing)] + rest, shift, collapsing)
  }

  /** What the list merged from there makes of `o`. */
  function MergedAt(
    first: seq<Adjustment>, s: Adjustment, rest: seq<Adjustment>, shift: int, collapsing: nat, o: int): Offset
    requires MergeableAt(first, s, rest, shift, collapsing)
  {
    Adjusted(Merged(first, [Lengthened(s, collapsing)] + rest, shift, collapsing), o)
  }

  /** What it should make of `o`. */
  function WantedAt(
    first: seq<Adjustment>, s: Adjustment, rest: seq<Adjustment>, shift: int, collapsing: nat, o: int): Offset
  {
    Moved(Composed(first, [s] + rest, shift + collapsing, o), -(collapsing as int))
  }

  lemma PastFirst(first: seq<Adjustment>, low: int, o: int)
    requires SortedFrom(first, low) && first != [] && o > first[0].originalOffset && Adjusted(first, o).At?
    ensures Adjusted(first, o).pos >= first[0].originalOffset + first[0].outputLength
  {
    AdjustedStaysPast(first[1..], first[0].End(), o);
  }

  /** `s` lies wholly before the next edit of `first`. */
  predicate HeadComesFirst(first: seq<Adjustment>, s: Adjustment, total: int) {
    first == [] || s.End() + total <= first[0].originalOffset
  }

  /** What the first list makes of `o` is past `s`, as far as it makes a difference. */
  predicate StaysPastHead(first: seq<Adjustment>, s: Adjustment, total: int, o: int) {
    Adjusted(first, o).At? ==>
      && s.End() + total <= Adjusted(first, o).pos
      && (s.Changes() ==> s.originalOffset + total < Adjusted(first, o).pos)
  }

  /** Unless an edit of the first list clashes with `s`, it takes nothing from behind `s` to its start. */
  lemma {:induction false} UnclashedStayPast(first: seq<Adjustment>, s: Adjustment, low: int, total: int, o: int)
    requires SortedFrom(first, low) && HeadComesFirst(first, s, total) && Compatible(first, [s], total)
    requires s.originalOffset + total < o && s.End() + total <= o
    ensures StaysPastHead(first, s, total, o)
  {
    if first != [] && o > first[0].originalOffset && Adjusted(first, o).At? {
      var f := first[0];
      PastFirst(first, low, o);
      if s.originalOffset + total >= Adjusted(first, o).pos {
        CompatibleStep(first, [s], total);
        assert s in [s] && !Clash(f, s, total);
        if s.Changes() {
          assert f.originalLength == 0;
          UnclashedStayPast(first[1..], s, f.End(), total, o);
        }
      }
    }
  }

  /** How the second list treats what the first makes of an offset past `s`. */
  lemma SecondPassesHead(first: seq<Adjustment>, s: Adjustment, rest: seq<Adjustment>, total: int, o: int)
    requires SortedFrom(rest, s.End()) && StaysPastHead(first, s, total, o)
    ensures Composed(first, [s] + rest, total, o) == Moved(Composed(first, rest, total, o), -s.Shrink())
  {
  }

  /** Up to the end of `s` the first list changes nothing. */
  lemma WantedBesideHead(first: seq<Adjustment>, s: Adjustment, rest: seq<Adjustment>, total: int, o: int)
    requires HeadComesFirst(first, s, total) && (o < s.End() + total || o <= s.originalOffset + total)
    ensures Composed(first, [s] + rest, total, o) == if o <= s.originalOffset + total then At(o) else Npos
  {
    assert Adjusted(first, o) == At(o);
    AdjustedStep(s, rest, o - total);
    hide Adjusted;
  }

  lemma MergedPassesHead(
    first: seq<Adjustment>, s: Adjustment, rest: seq<Adjustment>, shift: int, collapsing: nat, o: int)
    requires MergeableAt(first, s, rest, shift, collapsing) && HeadComesFirst(first, s, shift + collapsing)
    ensures s.originalOffset + shift >= 0 && Mergeable(first, rest, shift + collapsing, 0)
    ensures MergedAt(first, s, rest, shift, collapsing, o) ==
            if o <= s.originalOffset + shift then At(o)
            else if o < s.End() + shift + collapsing then Npos
            else Moved(Adjusted(Merged(first, rest, shift + collapsing, 0), o), -s.Shrink() - collapsing)
  {
    hide Merged, Mergeable;
    var head := Lengthened(s, collapsing);
    MergedHeadStep(first, head, rest, shift, collapsing);
    AdjustedStep(head.(originalOffset := s.originalOffset + shift), Merged(first, rest, shift + collapsing, 0), o);
  }

  lemma PassHead(
    first: seq<Adjustment>, s: Adjustment, rest: seq<Adjustment>, shift: int, collapsing: nat, o: int)
    requires MergeableAt(first, s, rest, shift, collapsing) && SortedFrom(rest, s.End())
    requires HeadComesFirst(first, s, shift + collapsing)
    requires collapsing > 0 ==> s.originalOffset + shift + collapsing < o
    requires s.originalOffset + shift + collapsing < o && s.End() + shift + collapsing <= o ==>
               StaysPastHead(first, s, shift + collapsing, o)
    ensures Mergeable(first, rest, shift + collapsing, 0)
    ensures s.originalOffset + shift < o && s.End() + shift + collapsing <= o ==>
              && MergedAt(first, s, rest, shift, collapsing, o)
                 == Moved(Adjusted(Merged(first, rest, shift + collapsing, 0), o), -s.Shrink() - collapsing)
              && WantedAt(first, s, rest, shift, collapsing, o)
                 == Moved(Composed(first, rest, shift + collapsing, o), -s.Shrink() - collapsing)
    ensures !(s.originalOffset + shift < o && s.End() + shift + collapsing <= o) ==>
              MergedAt(first, s, rest, shift, collapsing, o) == WantedAt(first, s, rest, shift, collapsing, o)
  {
    hide Merged, Mergeable, MergeableAt, MergedAt, Adjusted, Composed, StaysPastHead;
    MergedPassesHead(first, s, rest, shift, collapsing, o);
    if s.originalOffset + shift < o && s.End() + shift + collapsing <= o {
      SecondPassesHead(first, s, rest, shift + collapsing, o);
    } else {
      WantedBesideHead(first, s, rest, shift + collapsing, o);
    }
  }

  /** After a swallow, the merged list starts with the head that did the swallowing. */
  lemma {:induction false} SwallowerComesFirst(
    first: seq<Adjustment>, s: Adjustment, rest: seq<Adjustment>, low: int, shift: int, collapsing: nat)
    requires Mergeable(first, [s] + rest, shift, collapsing)
    requires SortedFrom(first, low) && s.originalOffset + shift < low
    ensures var m := Merged(first, [s] + rest, shift, collapsing);
            m != [] && m[0].originalOffset == s.originalOffset + shift && m[0].originalLength >= s.originalLength
    decreases |first|
  {
    hide Merged, Mergeable;
    if HeadComesFirst(first, s, shift) {
      MergedHeadStep(first, s, rest, shift, collapsing);
    } else {
      SwallowHeadStep(first, s, rest, shift, collapsing);
      var c := first[0].Shrink();
      SwallowerComesFirst(first[1..], Lengthened(s, c), rest, first[0].End(), shift, collapsing + c);
    }
  }

  lemma SwallowHeadStep(first: seq<Adjustment>, s: Adjustment, rest: seq<Adjustment>, shift: int, collapsing: nat)
    requires Mergeable(first, [s] + rest, shift, collapsing) && Swallows(first, s, shift, 0)
    ensures var c := first[0].Shrink();
            && c > 0 && Mergeable(first[1..], [Lengthened(s, c)] + rest, shift, collapsing + c)
            && Merged(first, [s] + rest, shift, collapsing)
               == Merged(first[1..], [Lengthened(s, c)] + rest, shift, collapsing + c)
  {
    assert ([s] + rest)[1..] == rest;
  }

  /** The edit of `first` that comes next starts inside `s`. */
  predicate Swallows(first: seq<Adjustment>, s: Adjustment, shift: int, collapsing: int) {
    && first != []
    && s.originalOffset + shift <= first[0].originalOffset < s.End() + shift + collapsing
  }

  lemma SwallowStep(first: seq<Adjustment>, s: Adjustment, rest: seq<Adjustment>, shift: int, collapsing: nat)
    requires MergeableAt(first, s, rest, shift, collapsing) && Swallows(first, s, shift, collapsing)
    ensures var c := first[0].Shrink();
            && c > 0 && MergeableAt(first[1..], s, rest, shift, collapsing + c)
            && Merged(first, [Lengthened(s, collapsing)] + rest, shift, collapsing)
               == Merged(first[1..], [Lengthened(s, collapsing + c)] + rest, shift, collapsing + c)
  {
    hide Merged, Mergeable;
    SwallowHeadStep(first, Lengthened(s, collapsing), rest, shift, collapsing);
    assert Lengthened(Lengthened(s, collapsing), first[0].Shrink())
        == Lengthened(s, collapsing + first[0].Shrink());
  }

  /** Where the loop is once `collapsing` characters have gone into `s`: `low` ends the last edit swallowed. */
  predicate MidSwallow(s: Adjustment, low: int, shift: int, collapsing: int) {
    collapsing > 0 ==> s.originalOffset + shift + collapsing < low <= s.End() + shift + collapsing
  }

  lemma SwallowKeepsMid(first: seq<Adjustment>, s: Adjustment, low: int, shift: int, collapsing: int)
    requires SortedFrom(first, low) && MidSwallow(s, low, shift, collapsing) && collapsing >= 0
    requires Swallows(first, s, shift, collapsing) && !Clash(first[0], s, shift + collapsing)
    requires first[0].Shrink() > 0
    ensures MidSwallow(s, first[0].End(), shift, collapsing + first[0].Shrink())
  {
  }

  /** An edit of `first` that ends before `o` moves what both lists make of it. */
  lemma ComposedStep(first: seq<Adjustment>, second: seq<Adjustment>, total: int, o: int)
    requires first != [] && first[0].originalOffset < o && first[0].End() <= o
    ensures Composed(first, second, total, o)
            == Moved(Composed(first[1..], second, total + first[0].Shrink(), o), -first[0].Shrink())
  {
    var y := Adjusted(first[1..], o);
    assert Adjusted(first, o) == Moved(y, -first[0].Shrink());
    hide Adjusted;
  }

  /** Swallowing an edit changes nothing for the offsets behind it. */
  lemma PassSwallowed(first: seq<Adjustment>, s: Adjustment, rest: seq<Adjustment>, shift: int, collapsing: nat, o: int)
    requires MergeableAt(first, s, rest, shift, collapsing)
    requires Swallows(first, s, shift, collapsing) && first[0].End() <= o
    ensures var c := first[0].Shrink();
            && c > 0 && MergeableAt(first[1..], s, rest, shift, collapsing + c)
            && MergedAt(first, s, rest, shift, collapsing, o) == MergedAt(first[1..], s, rest, shift, collapsing + c, o)
            && WantedAt(first, s, rest, shift, collapsing, o) == WantedAt(first[1..], s, rest, shift, collapsing + c, o)
  {
    hide Merged, Mergeable, Adjusted, Composed;
    SwallowStep(first, s, rest, shift, collapsing);
    ComposedStep(first, [s] + rest, shift + collapsing, o);
  }

  /** Inside a swallowed edit, and between it and the previous one, there is nothing left to point at. */
  function Swallowed(s: Adjustment, shift: int, o: int): Offset {
    if o <= s.originalOffset + shift then At(o) else Npos
  }

  lemma SwallowerDecides(
    first: seq<Adjustment>, s: Adjustment, rest: seq<Adjustment>, low: int, shift: int, collapsing: nat, o: int)
    requires Mergeable(first, [s] + rest, shift, collapsing)
    requires SortedFrom(first, low) && s.originalOffset + shift < low && o < s.End() + shift
    ensures Adjusted(Merged(first, [s] + rest, shift, collapsing), o) == Swallowed(s, shift, o)
  {
    SwallowerComesFirst(first, s, rest, low, shift, collapsing);
  }

  lemma InsideSwallowedMerged(
    first: seq<Adjustment>, s: Adjustment, rest: seq<Adjustment>, low: int, shift: int, collapsing: nat, o: int)
    requires MergeableAt(first, s, rest, shift, collapsing) && SortedFrom(first, low)
    requires MidSwallow(s, low, shift, collapsing)
    requires Swallows(first, s, shift, collapsing) && !Clash(first[0], s, shift + collapsing)
    requires o < first[0].End()
    ensures MergedAt(first, s, rest, shift, collapsing, o) == Swallowed(s, shift, o)
  {
    hide Merged, Mergeable, Adjusted, Clash;
    var f := first[0];
    SwallowStep(first, s, rest, shift, collapsing);
    SwallowKeepsMid(first, s, low, shift, collapsing);
    SwallowerDecides(first[1..], Lengthened(s, collapsing + f.Shrink()), rest, f.End(), shift,
                     collapsing + f.Shrink(), o);
  }

  lemma InsideSwallowedWanted(
    first: seq<Adjustment>, s: Adjustment, rest: seq<Adjustment>, low: int, shift: int, collapsing: nat, o: int)
    requires SortedFrom(first, low) && MidSwallow(s, low, shift, collapsing)
    requires Swallows(first, s, shift, collapsing)
    requires (collapsing > 0 ==> low <= o) && o < first[0].End()
    ensures WantedAt(first, s, rest, shift, collapsing, o) == Swallowed(s, shift, o)
  {
  }

  /** An edit of `first` that starts before `s` is copied. */
  lemma PassCopied(first: seq<Adjustment>, s: Adjustment, rest: seq<Adjustment>, shift: int, o: int)
    requires MergeableAt(first, s, rest, shift, 0) && Copies(first, s, shift)
    ensures MergeableAt(first[1..], s, rest, shift + first[0].Shrink(), 0)
    ensures first[0].originalOffset < o && first[0].End() <= o ==>
              && MergedAt(first, s, rest, shift, 0, o)
                 == Moved(MergedAt(first[1..], s, rest, shift + first[0].Shrink(), 0, o), -first[0].Shrink())
              && WantedAt(first, s, rest, shift, 0, o)
                 == Moved(WantedAt(first[1..], s, rest, shift + first[0].Shrink(), 0, o), -first[0].Shrink())
    ensures !(first[0].originalOffset < o && first[0].End() <= o) ==>
              MergedAt(first, s, rest, shift, 0, o) == WantedAt(first, s, rest, shift, 0, o)
  {
    hide Merged, Mergeable;
    assert Lengthened(s, 0) == s;
    MergedCopyStep(first, s, rest, shift, 0);
    AdjustedStep(first[0], Merged(first[1..], [s] + rest, shift + first[0].Shrink(), 0), o);
  }

  // --------------------------------------------------------------- the theorem

  lemma {:induction false} CompatibleWithRest(first: seq<Adjustment>, s: Adjustment, rest: seq<Adjustment>, shift: int)
    requires Compatible(first, [s] + rest, shift)
    ensures Compatible(first, rest, shift)
  {
    if first != [] {
      CompatibleWithRest(first[1..], s, rest, shift + first[0].Shrink());
    }
  }

  lemma {:induction false} CompatibleWithHead(first: seq<Adjustment>, s: Adjustment, rest: seq<Adjustment>, shift: int)
    requires Compatible(first, [s] + rest, shift)
    ensures Compatible(first, [s], shift)
  {
    if first != [] {
      CompatibleWithHead(first[1..], s, rest, shift + first[0].Shrink());
    }
  }

  lemma UnclashedPass(
    first: seq<Adjustment>, s: Adjustment, rest: seq<Adjustment>, low: int, total: int, o: int)
    requires SortedFrom(first, low) && HeadComesFirst(first, s, total) && Compatible(first, [s] + rest, total)
    ensures s.originalOffset + total < o && s.End() + total <= o ==> StaysPastHead(first, s, total, o)
  {
    hide Compatible, StaysPastHead;
    CompatibleWithHead(first, s, rest, total);
    if s.originalOffset + total < o && s.End() + total <= o {
      UnclashedStayPast(first, s, low, total, o);
    }
  }

  lemma {:induction false} MergeComposesFrom(
    first: seq<Adjustment>, s: Adjustment, rest: seq<Adjustment>, low: int, shift: int, collapsing: nat, o: int)
    requires MergeableAt(first, s, rest, shift, collapsing) && SortedFrom(first, low) && SortedFrom(rest, s.End())
    requires Compatible(first, [s] + rest, shift + collapsing)
    requires MidSwallow(s, low, shift, collapsing) && (collapsing > 0 ==> low <= o)
    ensures MergedAt(first, s, rest, shift, collapsing, o) == WantedAt(first, s, rest, shift, collapsing, o)
    decreases |first| + |rest|, 1
  {
    hide Merged, Mergeable, MergeableAt, Adjusted, Composed, MergedAt, WantedAt, Compatible, StaysPastHead, Clash;
    if HeadComesFirst(first, s, shift + collapsing) {
      UnclashedPass(first, s, rest, low, shift + collapsing, o);
      PassHead(first, s, rest, shift, collapsing, o);
      CompatibleWithRest(first, s, rest, shift + collapsing);
      MergeComposes(first, rest, low, s.End(), shift + collapsing, o);
    } else if first[0].originalOffset < o && first[0].End() <= o {
      MergeComposesAfter(first, s, rest, low, shift, collapsing, o);
    } else if Swallows(first, s, shift, collapsing) {
      CompatibleStep(first, [s] + rest, shift + collapsing);
      assert s in [s] + rest;
      SwallowShrinks(first, s, rest, shift, collapsing);
      InsideSwallowedMerged(first, s, rest, low, shift, collapsing, o);
      InsideSwallowedWanted(first, s, rest, low, shift, collapsing, o);
    } else {
      PassCopied(first, s, rest, shift, o);
    }
  }

  lemma SwallowShrinks(first: seq<Adjustment>, s: Adjustment, rest: seq<Adjustment>, shift: int, collapsing: nat)
    requires MergeableAt(first, s, rest, shift, collapsing) && Swallows(first, s, shift, collapsing)
    ensures first[0].Shrink() > 0
  {
    hide Merged, Mergeable;
    SwallowStep(first, s, rest, shift, collapsing);
  }

  lemma {:induction false} MergeComposesAfter(
    first: seq<Adjustment>, s: Adjustment, rest: seq<Adjustment>, low: int, shift: int, collapsing: nat, o: int)
    requires MergeableAt(first, s, rest, shift, collapsing) && SortedFrom(first, low) && SortedFrom(rest, s.End())
    requires Compatible(first, [s] + rest, shift + collapsing)
    requires MidSwallow(s, low, shift, collapsing) && !HeadComesFirst(first, s, shift + collapsing)
    requires first[0].originalOffset < o && first[0].End() <= o
    ensures MergedAt(first, s, rest, shift, collapsing, o) == WantedAt(first, s, rest, shift, collapsing, o)
    decreases |first| + |rest|, 0
  {
    hide Merged, Mergeable, MergeableAt, Adjusted, Composed, MergedAt, WantedAt, Compatible, Clash;
    CompatibleStep(first, [s] + rest, shift + collapsing);
    assert s in [s] + rest;
    var f := first[0];
    if Swallows(first, s, shift, collapsing) {
      PassSwallowed(first, s, rest, shift, collapsing, o);
      SwallowKeepsMid(first, s, low, shift, collapsing);
      MergeComposesFrom(first[1..], s, rest, f.End(), shift, collapsing + f.Shrink(), o);
    } else {
      PassCopied(first, s, rest, shift, o);
      MergeComposesFrom(first[1..], s, rest, f.End(), shift + f.Shrink(), 0, o);
    }
  }

  lemma {:induction false} MergeComposes(
    first: seq<Adjustment>, second: seq<Adjustment>, low: int, start: int, shift: int, o: int)
    requires Mergeable(first, second, shift, 0) && SortedFrom(first, low) && SortedFrom(second, start)
    requires Compatible(first, second, shift)
    ensures Adjusted(Merged(first, second, shift, 0), o) == Composed(first, second, shift, o)
    decreases |first| + |second|, 0
  {
    if second != [] {
      assert [Lengthened(second[0], 0)] + second[1..] == second == [second[0]] + second[1..];
      MergeComposesFrom(first, second[0], second[1..], low, shift, 0, o);
    }
  }
}
