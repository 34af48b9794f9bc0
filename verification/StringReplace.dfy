/**
 `DoReplaceSubstringsAfterOffset`: replacing every occurrence of a pattern in place, with a
 different strategy for equally long, shorter and longer replacements.
 */
module StringReplace {
  import opened Prelude

  // ------------------------------------------------- the string primitives

  predicate OccursAt<T(==)>(s: seq<T>, find: seq<T>, i: int) {
    0 <= i <= i + |find| <= |s| && forall k :: 0 <= k < |find| ==> s[i + k] == find[k]
  }

  /** `std::string::find`: the first occurrence at or after `from`. */
  function Find<T(==)>(s: seq<T>, find: seq<T>, from: nat): (r: Option<nat>)
    ensures r.Some? ==> from <= r.value && OccursAt(s, find, r.value)
    decreases |s| - from
  {
    if from + |find| > |s| then None
    else if OccursAt(s, find, from) then Some(from)
    else Find(s, find, from + 1)
  }

  /** `std::string::rfind`: the last occurrence at or before `from`. */
  function RFind<T(==)>(s: seq<T>, find: seq<T>, from: nat): (r: Option<nat>)
    ensures r.Some? ==> r.value <= from && OccursAt(s, find, r.value)
  {
    if OccursAt(s, find, from) then Some(from)
    else if from == 0 then None
    else RFind(s, find, from - 1)
  }

  /** There is no earlier occurrence than the one `Find` returns. */
  lemma {:induction false} FindIsFirst<T>(s: seq<T>, find: seq<T>, from: nat, i: nat)
    requires from <= i && (Find(s, find, from).Some? ==> i < Find(s, find, from).value)
    ensures !OccursAt(s, find, i)
    decreases |s| - from
  {
    if from + |find| <= |s| && from < i {
      FindIsFirst(s, find, from + 1, i);
    }
  }

  /** There is no later occurrence than the one `RFind` returns. */
  lemma {:induction false} RFindIsLast<T>(s: seq<T>, find: seq<T>, from: nat, i: nat)
    requires i <= from && (RFind(s, find, from).Some? ==> RFind(s, find, from).value < i)
    ensures !OccursAt(s, find, i)
  {
    if i < from {
      RFindIsLast(s, find, from - 1, i);
    }
  }

  /** `std::string::replace`: `data` in place of `len` characters from `pos`. */
  function Spliced<T>(s: seq<T>, pos: nat, len: nat, data: seq<T>): seq<T>
    requires pos + len <= |s|
  {
    s[..pos] + data + s[pos + len..]
  }

  /** `memmove` inside one string. */
  function MovedWithin<T>(s: seq<T>, to: nat, from: nat, len: nat): (r: seq<T>)
    requires to + len <= |s| && from + len <= |s|
    ensures |r| == |s|
  {
    s[..to] + s[from..from + len] + s[to + len..]
  }

  // ------------------------------------------------------- the specification

  /** The next match, or the end of the string. */
  function NextStop<T(==)>(s: seq<T>, find: seq<T>, from: nat): (next: nat)
    requires from <= |s|
    ensures from <= next <= |s|
    ensures next < |s| && find != [] ==> OccursAt(s, find, next)
  {
    var r := Find(s, find, from);
    if r.Some? then r.value else |s|
  }

  /** The rest of `s` from `from` on, with every occurrence replaced from left to right. */
  function ReplacedTail<T(==)>(s: seq<T>, from: nat, find: seq<T>, replacement: seq<T>): seq<T>
    requires find != [] && from <= |s|
    decreases |s| - from
  {
    match Find(s, find, from)
    case None => s[from..]
    case Some(m) => s[from..m] + replacement + ReplacedTail(s, m + |find|, find, replacement)
  }

  function ReplacedAll<T(==)>(s: seq<T>, offset: nat, find: seq<T>, replacement: seq<T>): seq<T>
    requires find != []
  {
    if offset > |s| then s else s[..offset] + ReplacedTail(s, offset, find, replacement)
  }

  function ReplacedFirst<T(==)>(s: seq<T>, offset: nat, find: seq<T>, replacement: seq<T>): seq<T> {
    match Find(s, find, offset)
    case None => s
    case Some(m) => s[..m] + replacement + s[m + |find|..]
  }

  /** The occurrences that a left-to-right scan from `from` finds. */
  function Matches<T(==)>(s: seq<T>, find: seq<T>, from: nat): seq<nat>
    requires find != []
    decreases |s| - from
  {
    match Find(s, find, from)
    case None => []
    case Some(m) => [m] + Matches(s, find, m + |find|)
  }

  // ------------------------------------------ the growing strategy, as it is

  /** How far back one turn of the backward loop moves the write offset. */
  function TurnLength<T>(find: seq<T>, replacement: seq<T>, current: nat, prev: nat): int {
    prev - (current + |find|) + |replacement|
  }

  /** One turn: the text after the match is moved, and the replacement written in front of it. */
  function Turn<T>(str: seq<T>, find: seq<T>, replacement: seq<T>, current: nat, prev: nat, write: nat): (r: seq<T>)
    requires current + |find| <= prev <= |str| && TurnLength(find, replacement, current, prev) <= write <= |str|
    ensures |r| == |str|
  {
    var read := current + |find|;
    var length := prev - read;
    Spliced(MovedWithin(str, write - length, read, length), write - length - |replacement|, |replacement|, replacement)
  }

  /**
   The backward pass. It scans with `rfind` for matches that the forward scan has counted;
   None stands for a `size_t` that wraps around, after which the program writes out of bounds.
   */
  function BackwardPass<T(==)>(
    str: seq<T>, find: seq<T>, replacement: seq<T>, first: nat, current: nat, prev: nat, write: nat): Option<seq<T>>
    requires find != [] && replacement != [] && prev <= |str| && write <= |str|
    decreases write
  {
    if prev < current + |find| || write < TurnLength(find, replacement, current, prev) then None
    else
      var next := Turn(str, find, replacement, current, prev, write);
      if current == first then Some(next)
      else
        match RFind(next, find, if current == 0 then |next| else current - 1)
        case None => None
        case Some(m) =>
          BackwardPass(next, find, replacement, first, m, current, write - TurnLength(find, replacement, current, prev))
  }

  /** What `count` matches add to the length. */
  function Growth(count: nat, expansion: nat): nat {
    if count == 0 then 0 else expansion + Growth(count - 1, expansion)
  }

  /** `std::string::resize` to a greater length. */
  function Resized<T>(s: seq<T>, length: nat, fill: T): seq<T>
    requires |s| <= length
  {
    s + seq(length - |s|, _ => fill)
  }

  /** The whole growing branch; `fill` is what `resize` pads the string with. */
  function Grown<T(==)>(s: seq<T>, offset: nat, find: seq<T>, replacement: seq<T>, fill: T): Option<seq<T>>
    requires 0 < |find| < |replacement|
  {
    var ms := Matches(s, find, offset);
    if ms == [] then Some(s)
    else
      var finalLength := |s| + Growth(|ms|, |replacement| - |find|);
      BackwardPass(Resized(s, finalLength, fill), find, replacement, ms[0], ms[|ms| - 1], |s|, finalLength)
  }

  // ------------------------------------------------------------ single steps

  lemma FindAtMatch<T>(s: seq<T>, find: seq<T>, m: nat)
    requires OccursAt(s, find, m)
    ensures Find(s, find, m) == Some(m)
  {
  }

  lemma TailAtMatch<T>(s: seq<T>, m: nat, find: seq<T>, replacement: seq<T>)
    requires find != [] && OccursAt(s, find, m)
    ensures ReplacedTail(s, m, find, replacement) == replacement + ReplacedTail(s, m + |find|, find, replacement)
  {
    assert s[m..m] == [];
  }

  lemma TailWithoutMatch<T>(s: seq<T>, from: nat, find: seq<T>, replacement: seq<T>)
    requires find != [] && from <= |s| && Find(s, find, from).None?
    ensures ReplacedTail(s, from, find, replacement) == s[from..|s|] + ReplacedTail(s, |s|, find, replacement)
  {
    assert Find(s, find, |s|).None?;
    hide Find;
  }

  lemma TailWithMatch<T>(s: seq<T>, from: nat, find: seq<T>, replacement: seq<T>)
    requires find != [] && from <= |s| && Find(s, find, from).Some?
    ensures
      var m := Find(s, find, from).value;
      ReplacedTail(s, from, find, replacement)
      == s[from..m] + replacement + ReplacedTail(s, m + |find|, find, replacement)
  {
    hide Find, OccursAt;
  }

  /** Up to the next match, or the end of the string, the text is copied. */
  lemma TailToMatch<T>(s: seq<T>, from: nat, next: nat, find: seq<T>, replacement: seq<T>)
    requires find != [] && from <= |s| && next == NextStop(s, find, from)
    ensures ReplacedTail(s, from, find, replacement) == s[from..next] + ReplacedTail(s, next, find, replacement)
  {
    hide Find, ReplacedTail;
    if Find(s, find, from).None? {
      TailWithoutMatch(s, from, find, replacement);
    } else {
      TailWithMatch(s, from, find, replacement);
      TailAtMatch(s, next, find, replacement);
      Associative(s[from..next], replacement, ReplacedTail(s, next + |find|, find, replacement));
    }
  }

  lemma {:induction false} SameSuffixSameFind<T>(a: seq<T>, b: seq<T>, find: seq<T>, from: nat)
    requires |a| == |b| && from <= |a| && a[from..] == b[from..]
    ensures Find(a, find, from) == Find(b, find, from)
    decreases |a| - from
  {
    if from + |find| <= |a| {
      SameSuffixSameOccurrence(a, b, find, from);
      if from < |a| {
        assert a[from + 1..] == a[from..][1..];
        assert b[from + 1..] == b[from..][1..];
        SameSuffixSameFind(a, b, find, from + 1);
      }
    }
  }

  lemma SameSuffixSameOccurrence<T>(a: seq<T>, b: seq<T>, find: seq<T>, from: nat)
    requires |a| == |b| && from <= |a| && a[from..] == b[from..]
    ensures OccursAt(a, find, from) == OccursAt(b, find, from)
  {
    SameSlices(a, b, from, from, |a|);
    assert forall k :: 0 <= k < |a| - from ==> a[from + k] == a[from..][k] && b[from + k] == b[from..][k];
  }

  lemma NothingToReplace<T>(s: seq<T>, offset: nat, find: seq<T>, replacement: seq<T>)
    requires find != [] && Find(s, find, offset).None?
    ensures ReplacedAll(s, offset, find, replacement) == s
  {
    if offset <= |s| {
      assert s[..offset] + s[offset..] == s;
    }
  }

  /** Everything before the first match is left alone. */
  lemma SkipToMatch<T>(s: seq<T>, offset: nat, find: seq<T>, replacement: seq<T>)
    requires find != [] && Find(s, find, offset).Some?
    ensures var m := Find(s, find, offset).value;
            ReplacedAll(s, offset, find, replacement) == s[..m] + ReplacedTail(s, m, find, replacement)
  {
    var m := Find(s, find, offset).value;
    TailToMatch(s, offset, m, find, replacement);
    Rejoin(s, offset, m, ReplacedTail(s, m, find, replacement));
  }

  lemma Rejoin<T>(s: seq<T>, i: nat, j: nat, tail: seq<T>)
    requires i <= j <= |s|
    ensures s[..i] + (s[i..j] + tail) == s[..j] + tail
  {
  }

  /** One replacement, followed by the text up to the next match. */
  lemma OneReplacement<T>(s: seq<T>, head: seq<T>, m: nat, next: nat, find: seq<T>, replacement: seq<T>)
    requires find != [] && OccursAt(s, find, m) && next == NextStop(s, find, m + |find|)
    ensures head + ReplacedTail(s, m, find, replacement)
         == (head + replacement + s[m + |find|..next]) + ReplacedTail(s, next, find, replacement)
  {
    hide ReplacedTail, Find;
    TailAtMatch(s, m, find, replacement);
    TailToMatch(s, m + |find|, next, find, replacement);
    Regroup(head, replacement, s[m + |find|..next], ReplacedTail(s, next, find, replacement));
  }

  lemma Regroup<T>(a: seq<T>, b: seq<T>, c: seq<T>, d: seq<T>)
    ensures a + (b + (c + d)) == (a + b + c) + d
  {
  }

  lemma MatchesFromMatch<T>(s: seq<T>, find: seq<T>, from: nat)
    requires find != []
    ensures var r := Find(s, find, from);
            && Matches(s, find, from) == (if r.Some? then Matches(s, find, r.value) else [])
            && (r.Some? ==> Matches(s, find, r.value) == [r.value] + Matches(s, find, r.value + |find|))
  {
  }

  /** A replacement shorter than its match does not reach the text behind the match. */
  lemma ReplacesBehind<T>(a: seq<T>, s: seq<T>, write: nat, offset: nat, read: nat, replacement: seq<T>)
    requires |a| == |s| && write <= offset && offset + |replacement| <= read <= |a| && a[offset..] == s[offset..]
    ensures var r := if |replacement| > 0 then Spliced(a, write, |replacement|, replacement) else a;
            && |r| == |a| && r[..write + |replacement|] == a[..write] + replacement
            && r[read..] == s[read..]
  {
    assert s[read..] == s[offset..][read - offset..];
    assert a[read..] == a[offset..][read - offset..];
  }

  /** Text moved towards the front leaves everything behind its old place alone. */
  lemma SlidesDown<T>(a: seq<T>, s: seq<T>, to: nat, from: nat, len: nat)
    requires |a| == |s| && to <= from && from + len <= |a| && a[from..] == s[from..]
    ensures MovedWithin(a, to, from, len)[..to + len] == a[..to] + s[from..from + len]
    ensures MovedWithin(a, to, from, len)[from + len..] == s[from + len..]
  {
    assert a[from..from + len] == a[from..][..len];
    assert s[from + len..] == s[from..][len..];
  }

  /** One turn of the shrinking loop: the replacement, then the text between two matches. */
  function ShrinkingTurn<T>(a: seq<T>, write: nat, read: nat, next: nat, replacement: seq<T>): (r: seq<T>)
    requires write + |replacement| <= read <= next <= |a|
    ensures |r| == |a|
  {
    var b := if |replacement| > 0 then Spliced(a, write, |replacement|, replacement) else a;
    if next > read then MovedWithin(b, write + |replacement|, read, next - read) else b
  }

  lemma ShrinkingTurnCopies<T>(a: seq<T>, s: seq<T>, write: nat, offset: nat, read: nat, next: nat, replacement: seq<T>)
    requires |a| == |s| && write <= offset && offset + |replacement| <= read <= next <= |a|
    requires a[offset..] == s[offset..]
    ensures var r := ShrinkingTurn(a, write, read, next, replacement);
            && r[..write + |replacement| + next - read] == a[..write] + replacement + s[read..next]
            && r[next..] == s[next..]
  {
    hide Spliced, MovedWithin;
    ReplacesBehind(a, s, write, offset, read, replacement);
    if next > read {
      var b := if |replacement| > 0 then Spliced(a, write, |replacement|, replacement) else a;
      SlidesDown(b, s, write + |replacement|, read, next - read);
    }
  }

  /** One turn of the shrinking loop brings the string one match closer to the specification. */
  lemma ShrinkingTurnReplaces<T>(
    a: seq<T>, s: seq<T>, write: nat, offset: nat, next: nat, find: seq<T>, replacement: seq<T>)
    requires |a| == |s| && write <= offset && OccursAt(s, find, offset) && |replacement| < |find|
    requires a[offset..] == s[offset..]
    requires next == NextStop(s, find, offset + |find|)
    ensures a[..write] + ReplacedTail(s, offset, find, replacement)
         == ShrinkingTurn(a, write, offset + |find|, next, replacement)[
              ..write + |replacement| + next - (offset + |find|)]
            + ReplacedTail(s, next, find, replacement)
  {
    hide ReplacedTail, Find, OccursAt, ShrinkingTurn;
    OneReplacement(s, a[..write], offset, next, find, replacement);
    ShrinkingTurnCopies(a, s, write, offset, offset + |find|, next, replacement);
  }

  /** Once the end of the string is reached, nothing is left to copy. */
  lemma NothingBehindEnd<T>(s: seq<T>, head: seq<T>, find: seq<T>, replacement: seq<T>)
    requires find != []
    ensures head + ReplacedTail(s, |s|, find, replacement) == head
  {
    assert ReplacedTail(s, |s|, find, replacement) == s[|s|..] == [];
  }

  lemma SameSlices<T>(a: seq<T>, s: seq<T>, from: nat, i: nat, j: nat)
    requires |a| == |s| && from <= i <= j <= |a| && a[from..] == s[from..]
    ensures a[i..j] == s[i..j] && a[j..] == s[j..]
  {
    forall k | from <= k < |a|
      ensures a[k] == s[k]
    {
      assert a[k] == a[from..][k - from] && s[k] == s[from..][k - from];
    }
  }

  /** A replacement as long as its match leaves everything behind the match alone. */
  lemma SplicingCopies<T>(a: seq<T>, s: seq<T>, offset: nat, next: nat, len: nat, replacement: seq<T>)
    requires |a| == |s| && |replacement| == len && offset + len <= next <= |a| && a[offset..] == s[offset..]
    ensures Spliced(a, offset, len, replacement)[next..] == s[next..]
    ensures Spliced(a, offset, len, replacement)[..next] == a[..offset] + replacement + s[offset + len..next]
  {
    SameSlices(a, s, offset, offset + len, next);
  }

  /** The same for the loop that replaces in place. */
  lemma SplicingReplaces<T>(a: seq<T>, s: seq<T>, offset: nat, next: nat, find: seq<T>, replacement: seq<T>)
    requires |a| == |s| && find != [] && OccursAt(s, find, offset) && |replacement| == |find|
    requires a[offset..] == s[offset..]
    requires next == NextStop(s, find, offset + |find|)
    ensures a[..offset] + ReplacedTail(s, offset, find, replacement)
         == Spliced(a, offset, |find|, replacement)[..next] + ReplacedTail(s, next, find, replacement)
  {
    hide ReplacedTail, Find;
    OneReplacement(s, a[..offset], offset, next, find, replacement);
    SplicingCopies(a, s, offset, next, |find|, replacement);
  }

  lemma CountOne<T>(s: seq<T>, find: seq<T>, counted: seq<nat>, m: nat)
    requires find != [] && OccursAt(s, find, m)
    ensures var r := Find(s, find, m + |find|);
            counted + Matches(s, find, m) == counted + [m] + if r.Some? then Matches(s, find, r.value) else []
  {
    hide Matches, Find, OccursAt;
    FindAtMatch(s, find, m);
    MatchesFromMatch(s, find, m);
    MatchesFromMatch(s, find, m + |find|);
  }

  // --------------------------------------------------------------- the method

  class StringBuffer<T(==)> {
    var text: seq<T>

    constructor (text: seq<T>)
      ensures this.text == text
    {
      this.text := text;
    }

    /** Returns false where the program's offsets would wrap around. */
    method ReplaceSubstringsAfterOffset(offset: nat, find: seq<T>, replacement: seq<T>, replaceAll: bool, fill: T)
      returns (ok: bool)
      requires find != []
      modifies this
      ensures !replaceAll ==> ok && text == ReplacedFirst(old(text), offset, find, replacement)
      ensures replaceAll && |replacement| <= |find| ==> ok && text == ReplacedAll(old(text), offset, find, replacement)
      ensures replaceAll && |replacement| > |find| ==>
                var grown := Grown(old(text), offset, find, replacement, fill);
                ok == grown.Some? && (ok ==> text == grown.value)
    {
      ok := true;
      var found := Find(text, find, offset);
      if found.None? {
        NothingToReplace(text, offset, find, replacement);
        return;
      }
      if !replaceAll {
        text := Spliced(text, found.value, |find|, replacement);
        return;
      }
      SkipToMatch(text, offset, find, replacement);
      if |find| == |replacement| {
        ReplaceSameLength(found.value, find, replacement);
      } else if |find| > |replacement| {
        ReplaceShrinking(found.value, find, replacement);
      } else {
        ok := ReplaceGrowing(offset, found.value, find, replacement, fill);
      }
    }

    method ReplaceSameLength(first: nat, find: seq<T>, replacement: seq<T>)
      requires find != [] && |replacement| == |find| && OccursAt(text, find, first)
      modifies this
      ensures text == old(text)[..first] + ReplacedTail(old(text), first, find, replacement)
    {
      ghost var s := text;
      ghost var want := s[..first] + ReplacedTail(s, first, find, replacement);
      var offset := first;
      while true
        invariant |text| == |s| && OccursAt(s, find, offset)
        invariant text[offset..] == s[offset..]
        invariant want == text[..offset] + ReplacedTail(s, offset, find, replacement)
        decreases |s| - offset
      {
        ghost var before, found := text, offset;
        offset := ReplaceInPlace(s, offset, find, replacement);
        SplicingReplaces(before, s, found, offset, find, replacement);
        SplicingCopies(before, s, found, offset, |find|, replacement);
        if offset == |text| {
          break;
        }
      }
      NothingBehindEnd(s, text[..offset], find, replacement);
      assert text == text[..offset];
    }

    /** One replacement in place; returns the next match, or the end of the string. */
    method ReplaceInPlace(ghost s: seq<T>, offset: nat, find: seq<T>, replacement: seq<T>) returns (next: nat)
      requires find != [] && |replacement| == |find| && |s| == |text| && OccursAt(s, find, offset)
      requires text[offset..] == s[offset..]
      modifies this
      ensures next == NextStop(s, find, offset + |find|)
      ensures text == Spliced(old(text), offset, |find|, replacement)
    {
      var readOffset := offset + |replacement|;
      SplicingCopies(text, s, offset, readOffset, |find|, replacement);
      text := Spliced(text, offset, |find|, replacement);
      SameSuffixSameFind(text, s, find, readOffset);
      next := NextStop(text, find, readOffset);
    }

    method ReplaceShrinking(first: nat, find: seq<T>, replacement: seq<T>)
      requires |replacement| < |find| && OccursAt(text, find, first)
      modifies this
      ensures text == old(text)[..first] + ReplacedTail(old(text), first, find, replacement)
    {
      ghost var s := text;
      ghost var want := s[..first] + ReplacedTail(s, first, find, replacement);
      var strLength := |text|;
      hide OccursAt, Find, ReplacedTail;
      var writeOffset: nat, offset := first, first;
      while true
        invariant |text| == |s| == strLength && writeOffset <= offset <= |s|
        invariant OccursAt(s, find, offset) && text[offset..] == s[offset..]
        invariant want == text[..writeOffset] + ReplacedTail(s, offset, find, replacement)
        decreases |s| - offset
      {
        writeOffset, offset := ReplaceAndSlide(s, writeOffset, offset, find, replacement);
        if !(offset < strLength) {
          break;
        }
      }
      NothingBehindEnd(s, text[..writeOffset], find, replacement);
      text := text[..writeOffset];
    }

    method ReplaceAndSlide(ghost s: seq<T>, writeOffset: nat, offset: nat, find: seq<T>, replacement: seq<T>)
      returns (newWrite: nat, next: nat)
      requires |replacement| < |find| && |s| == |text| && OccursAt(s, find, offset) && writeOffset <= offset
      requires text[offset..] == s[offset..]
      modifies this
      ensures next == NextStop(s, find, offset + |find|)
      ensures |text| == |s| && newWrite <= next && text[next..] == s[next..]
      ensures old(text)[..writeOffset] + ReplacedTail(s, offset, find, replacement)
           == text[..newWrite] + ReplacedTail(s, next, find, replacement)
    {
      hide Find, OccursAt, ReplacedTail, ShrinkingTurn;
      newWrite, next := MoveForward(s, writeOffset, offset, find, replacement);
      ShrinkingTurnReplaces(old(text), s, writeOffset, offset, next, find, replacement);
      ShrinkingTurnCopies(old(text), s, writeOffset, offset, offset + |find|, next, replacement);
    }

    /** One turn of the shrinking loop; returns the new write offset and the next match. */
    method MoveForward(ghost s: seq<T>, writeOffset: nat, offset: nat, find: seq<T>, replacement: seq<T>)
      returns (newWrite: nat, next: nat)
      requires |replacement| < |find| && |s| == |text| && OccursAt(s, find, offset) && writeOffset <= offset
      requires text[offset..] == s[offset..]
      modifies this
      ensures next == NextStop(s, find, offset + |find|)
      ensures text == ShrinkingTurn(old(text), writeOffset, offset + |find|, next, replacement)
      ensures newWrite == writeOffset + |replacement| + next - (offset + |find|)
    {
      hide Find, Spliced, MovedWithin;
      newWrite := writeOffset;
      var readOffset := offset + |find|;
      ReplacesBehind(text, s, writeOffset, offset, readOffset, replacement);
      if |replacement| > 0 {
        text := Spliced(text, newWrite, |replacement|, replacement);
        newWrite := newWrite + |replacement|;
      }
      SameSuffixSameFind(text, s, find, readOffset);
      next := NextStop(text, find, readOffset);
      var length := next - readOffset;
      if length > 0 {
        text := MovedWithin(text, newWrite, readOffset, length);
        newWrite := newWrite + length;
      }
    }

    /** Counts the matches, makes room for them, and moves everything into place from the back. */
    method ReplaceGrowing(offset: nat, first: nat, find: seq<T>, replacement: seq<T>, fill: T) returns (ok: bool)
      requires 0 < |find| < |replacement|
      requires Find(text, find, offset) == Some(first)
      modifies this
      ensures var grown := Grown(old(text), offset, find, replacement, fill);
              ok == grown.Some? && (ok ==> text == grown.value)
    {
      hide OccursAt, Find, RFind, Matches, Turn;
      ghost var grown := Grown(text, offset, find, replacement, fill);
      var strLength := |text|;
      var currentMatch: nat, finalLength: nat := MeasureGrowth(offset, first, find, replacement);
      text := Resized(text, finalLength, fill);
      var prevMatch: nat, writeOffset: nat := strLength, finalLength;
      while true
        invariant prevMatch <= |text| && writeOffset <= |text|
        invariant grown == BackwardPass(text, find, replacement, first, currentMatch, prevMatch, writeOffset)
        decreases writeOffset
      {
        if prevMatch < currentMatch + |find| || writeOffset < prevMatch - (currentMatch + |find|) + |replacement| {
          return false;
        }
        writeOffset := RewriteMatch(find, replacement, currentMatch, prevMatch, writeOffset);
        if currentMatch == first {
          return true;
        }
        prevMatch := currentMatch;
        var found := RFind(text, find, if currentMatch == 0 then |text| else currentMatch - 1);
        if found.None? {
          return false;
        }
        currentMatch := found.value;
      }
    }

    /** One turn of the backward loop; returns the new write offset. */
    method RewriteMatch(find: seq<T>, replacement: seq<T>, currentMatch: nat, prevMatch: nat, writeOffset: nat)
      returns (newOffset: nat)
      requires currentMatch + |find| <= prevMatch <= |text|
      requires TurnLength(find, replacement, currentMatch, prevMatch) <= writeOffset <= |text|
      modifies this
      ensures text == Turn(old(text), find, replacement, currentMatch, prevMatch, writeOffset)
      ensures newOffset == writeOffset - TurnLength(find, replacement, currentMatch, prevMatch)
    {
      newOffset := writeOffset;
      var readOffset := currentMatch + |find|;
      var length := prevMatch - readOffset;
      if length > 0 {
        newOffset := newOffset - length;
        text := MovedWithin(text, newOffset, readOffset, length);
      }
      assert text == MovedWithin(old(text), writeOffset - length, readOffset, length);
      newOffset := newOffset - |replacement|;
      text := Spliced(text, newOffset, |replacement|, replacement);
    }

    /** The last match, and the length the string is going to have. */
    method MeasureGrowth(ghost offset: nat, first: nat, find: seq<T>, replacement: seq<T>)
      returns (lastMatch: nat, finalLength: nat)
      requires 0 < |find| < |replacement|
      requires Find(text, find, offset) == Some(first)
      ensures var ms := Matches(text, find, offset);
              && ms != [] && ms[0] == first && lastMatch == ms[|ms| - 1]
              && finalLength == |text| + Growth(|ms|, |replacement| - |find|)
    {
      var expansion := |replacement| - |find|;
      hide Find, Matches;
      ghost var counted: seq<nat> := [];
      var next := Some(first);
      finalLength, lastMatch := |text|, first;
      MatchesFromMatch(text, find, offset);
      while next.Some?
        invariant Matches(text, find, offset)
               == counted + (if next.Some? then Matches(text, find, next.value) else [])
        invariant next.Some? ==> OccursAt(text, find, next.value)
        invariant counted != [] ==> lastMatch == counted[|counted| - 1]
        invariant next.None? ==> counted != []
        invariant finalLength == |text| + Growth(|counted|, expansion)
        decreases if next.Some? then 1 + |text| - next.value else 0
      {
        lastMatch := next.value;
        finalLength := finalLength + expansion;
        next := Find(text, find, lastMatch + |find|);
        CountOne(text, find, counted, lastMatch);
        counted := counted + [lastMatch];
      }
    }
  }
}
