/** What replacing means, by cutting the string at the matches. */
module ReplaceMeaning {
  import opened Prelude
  import opened StringReplace

  /** The pieces, with `separator` between them. */
  function Joined<T>(pieces: seq<seq<T>>, separator: seq<T>): seq<T>
    requires pieces != []
  {
    if |pieces| == 1 then pieces[0] else pieces[0] + separator + Joined(pieces[1..], separator)
  }

  /** `find` is a slice of `s` at `i`. */
  ghost predicate IsSliceAt<T>(s: seq<T>, find: seq<T>, i: nat) {
    i + |find| <= |s| && s[i..i + |find|] == find
  }

  ghost predicate HasNone<T>(s: seq<T>, find: seq<T>, end: nat) {
    forall i: nat :: i < end ==> !IsSliceAt(s, find, i)
  }

  /** Reading from the left, each piece ends where the first match is found, and the last has no match in it. */
  ghost predicate AreCutBy<T>(pieces: seq<seq<T>>, find: seq<T>)
    requires pieces != []
  {
    if |pieces| == 1 then HasNone(pieces[0], find, |pieces[0]| + 1)
    else HasNone(pieces[0] + find, find, |pieces[0]|) && AreCutBy(pieces[1..], find)
  }

  lemma OccursIsSlice<T>(s: seq<T>, find: seq<T>, i: nat)
    ensures OccursAt(s, find, i) <==> IsSliceAt(s, find, i)
  {
    if OccursAt(s, find, i) {
      assert s[i..i + |find|] == find;
    }
    if IsSliceAt(s, find, i) {
      forall k | 0 <= k < |find|
        ensures s[i + k] == find[k]
      {
        assert s[i + k] == s[i..i + |find|][k];
      }
    }
  }

  lemma OccursBehind<T>(before: seq<T>, s: seq<T>, find: seq<T>, i: nat)
    ensures OccursAt(before + s, find, |before| + i) <==> IsSliceAt(s, find, i)
  {
    hide OccursAt;
    OccursIsSlice(before + s, find, |before| + i);
    if i + |find| <= |s| {
      assert (before + s)[|before| + i..|before| + i + |find|] == s[i..i + |find|];
    }
  }

  lemma SliceInFront<T>(s: seq<T>, behind: seq<T>, find: seq<T>, i: nat)
    requires i + |find| <= |s|
    ensures IsSliceAt(s + behind, find, i) <==> IsSliceAt(s, find, i)
  {
    assert (s + behind)[i..i + |find|] == s[i..i + |find|];
  }

  lemma {:induction false} FindIs<T>(before: seq<T>, s: seq<T>, find: seq<T>, from: nat, n: nat)
    requires from <= n && IsSliceAt(s, find, n) && HasNone(s, find, n)
    ensures Find(before + s, find, |before| + from) == Some(|before| + n)
    decreases n - from
  {
    hide OccursAt, IsSliceAt;
    OccursBehind(before, s, find, from);
    assert n + |find| <= |s| by { SliceFits(s, find, n); }
    if from < n {
      FindIs(before, s, find, from + 1, n);
    }
  }

  lemma SliceFits<T>(s: seq<T>, find: seq<T>, n: nat)
    requires IsSliceAt(s, find, n)
    ensures n + |find| <= |s|
  {
  }

  lemma {:induction false} FindsNone<T>(before: seq<T>, s: seq<T>, find: seq<T>, from: nat)
    requires HasNone(s, find, |s| + 1)
    ensures Find(before + s, find, |before| + from) == None
    decreases |s| - from
  {
    hide OccursAt, IsSliceAt;
    if from + |find| <= |s| {
      OccursBehind(before, s, find, from);
      FindsNone(before, s, find, from + 1);
    }
  }

  lemma CutInFront<T>(s: seq<T>, rest: seq<T>, find: seq<T>, n: nat)
    requires HasNone(s, find, n) && IsSliceAt(s, find, n)
    ensures HasNone(s + rest, find, n) && IsSliceAt(s + rest, find, n)
  {
    SliceFits(s, find, n);
    SliceInFront(s, rest, find, n);
    hide IsSliceAt;
    forall i: nat | i < n
      ensures !IsSliceAt(s + rest, find, i)
    {
      SliceInFront(s, rest, find, i);
    }
  }

  /** The search stops at the first match. */
  lemma FindsIn<T>(before: seq<T>, s: seq<T>, find: seq<T>, rest: seq<T>, n: nat)
    requires HasNone(s, find, n) && IsSliceAt(s, find, n)
    ensures Find(before + (s + rest), find, |before|) == Some(|before| + n)
  {
    hide Find, IsSliceAt, HasNone, OccursAt;
    CutInFront(s, rest, find, n);
    FindIs(before, s + rest, find, 0, n);
  }

  lemma EndsWithIt<T>(piece: seq<T>, find: seq<T>)
    ensures IsSliceAt(piece + find, find, |piece|)
  {
  }

  lemma {:induction false} TailIsRejoined<T>(
      before: seq<T>, pieces: seq<seq<T>>, find: seq<T>, replacement: seq<T>)
    requires find != [] && pieces != [] && AreCutBy(pieces, find)
    ensures ReplacedTail(before + Joined(pieces, find), |before|, find, replacement) == Joined(pieces, replacement)
    decreases |pieces|
  {
    hide Find, HasNone, IsSliceAt, ReplacedTail;
    if |pieces| == 1 {
      LastIsKept(before, pieces[0], find, replacement);
    } else {
      var piece, rest := pieces[0], Joined(pieces[1..], find);
      TailIsRejoined(before + piece + find, pieces[1..], find, replacement);
      FirstIsReplaced(before, piece, find, rest, replacement);
    }
  }

  lemma LastIsKept<T>(before: seq<T>, piece: seq<T>, find: seq<T>, replacement: seq<T>)
    requires find != [] && HasNone(piece, find, |piece| + 1)
    ensures ReplacedTail(before + piece, |before|, find, replacement) == piece
  {
    hide Find, HasNone;
    FindsNone(before, piece, find, 0);
    assert (before + piece)[|before|..] == piece;
  }

  lemma FirstIsReplaced<T>(before: seq<T>, piece: seq<T>, find: seq<T>, rest: seq<T>, replacement: seq<T>)
    requires find != [] && HasNone(piece + find, find, |piece|)
    ensures
      var head := before + piece + find;
      ReplacedTail(before + (piece + find + rest), |before|, find, replacement)
      == piece + replacement + ReplacedTail(head + rest, |head|, find, replacement)
  {
    hide Find, HasNone, ReplacedTail, OccursAt, IsSliceAt;
    EndsWithIt(piece, find);
    FindsIn(before, piece + find, find, rest, |piece|);
    CutOpen(before, piece, find, rest);
    TailWithMatch(before + (piece + find + rest), |before|, find, replacement);
  }

  lemma CutOpen<T>(before: seq<T>, piece: seq<T>, find: seq<T>, rest: seq<T>)
    ensures
      var s := before + (piece + find + rest);
      s == before + piece + find + rest && s[|before|..|before| + |piece|] == piece
  {
  }

  /**
   Replacing every match behind the offset takes the string apart at the matches, found from left to
   right without overlap, and puts the pieces together with the replacement between them.
   */
  lemma ReplacingRejoins<T>(before: seq<T>, pieces: seq<seq<T>>, find: seq<T>, replacement: seq<T>)
    requires find != [] && pieces != [] && AreCutBy(pieces, find)
    ensures ReplacedAll(before + Joined(pieces, find), |before|, find, replacement)
         == before + Joined(pieces, replacement)
  {
    hide ReplacedTail;
    TailIsRejoined(before, pieces, find, replacement);
    assert (before + Joined(pieces, find))[..|before|] == before;
  }

  /** Replacing the first match replaces that match and nothing else. */
  lemma ReplacingFirst<T>(before: seq<T>, piece: seq<T>, find: seq<T>, rest: seq<T>, replacement: seq<T>)
    requires HasNone(piece + find, find, |piece|)
    ensures ReplacedFirst(before + (piece + find + rest), |before|, find, replacement)
         == before + (piece + replacement + rest)
  {
    hide Find, HasNone;
    var s, m := before + (piece + find + rest), |before| + |piece|;
    EndsWithIt(piece, find);
    FindsIn(before, piece + find, find, rest, |piece|);
    assert s[..m] == before + piece && s[m + |find|..] == rest;
  }

  /** Any string can be cut like that. */
  lemma {:induction false} EveryStringIsCut<T>(s: seq<T>, find: seq<T>) returns (pieces: seq<seq<T>>)
    requires find != []
    ensures pieces != [] && AreCutBy(pieces, find) && Joined(pieces, find) == s
    decreases |s|
  {
    if i: nat :| i <= |s| && IsSliceAt(s, find, i) {
      var m := FirstSlice(s, find, i);
      var piece, rest := s[..m], s[m + |find|..];
      assert s == piece + find + rest;
      forall k: nat | k < m
        ensures !IsSliceAt(piece + find, find, k)
      {
        if k + |find| <= |piece + find| {
          SliceInFront(piece + find, rest, find, k);
        }
      }
      var later := EveryStringIsCut(rest, find);
      pieces := [piece] + later;
      assert pieces[1..] == later;
    } else {
      pieces := [s];
    }
  }

  lemma {:induction false} FirstSlice<T>(s: seq<T>, find: seq<T>, i: nat) returns (m: nat)
    requires IsSliceAt(s, find, i)
    ensures m <= i && IsSliceAt(s, find, m) && HasNone(s, find, m)
    decreases i
  {
    if k: nat :| k < i && IsSliceAt(s, find, k) {
      m := FirstSlice(s, find, k);
    } else {
      m := i;
    }
  }
}
