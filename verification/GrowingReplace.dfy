/**
 When the growing strategy of `DoReplaceSubstringsAfterOffset` is a left-to-right replace-all:
 exactly for the patterns whose first character does not occur in them again.
 */
module GrowingReplace {
  import opened Prelude
  import opened StringReplace

  ghost predicate FirstRecurs<T>(find: seq<T>) {
    exists d :: 1 <= d < |find| && find[d] == find[0]
  }

  // --------------------------------------------------------- it works without

  lemma {:induction false} MatchFacts<T>(s: seq<T>, find: seq<T>, from: nat, j: nat)
    requires find != [] && j < |Matches(s, find, from)|
    ensures var ms := Matches(s, find, from);
            && OccursAt(s, find, ms[j]) && from <= ms[j]
            && NextStop(s, find, ms[j] + |find|) == (if j + 1 < |ms| then ms[j + 1] else |s|)
            && (j > 0 ==> ms[0] < ms[j])
    decreases j
  {
    hide Find, OccursAt;
    var m := Find(s, find, from).value;
    if j > 0 {
      MatchFacts(s, find, m + |find|, j - 1);
    }
  }

  /** What one turn leaves in front of the write offset, and what behind. */
  lemma TurnSplits<T>(str: seq<T>, find: seq<T>, replacement: seq<T>, current: nat, prev: nat, write: nat)
    requires current + |find| <= prev <= |str| && TurnLength(find, replacement, current, prev) <= write <= |str|
    ensures var at := write - TurnLength(find, replacement, current, prev);
            var t := Turn(str, find, replacement, current, prev, write);
            t[..at] == str[..at] && t[at..] == replacement + str[current + |find|..prev] + str[write..]
  {
    var read := current + |find|;
    var moved := MovedWithin(str, write - (prev - read), read, prev - read);
    var at := write - TurnLength(find, replacement, current, prev);
    assert moved[..at] == str[..at];
    assert moved[at + |replacement|..] == str[read..prev] + str[write..];
  }

  /** Between two forward matches the backward scan sees nothing either. */
  lemma NothingBetween<T>(s: seq<T>, t: seq<T>, find: seq<T>, m: nat, current: nat, p: nat)
    requires !FirstRecurs(find) && find != [] && OccursAt(s, find, m) && |s| <= |t|
    requires NextStop(s, find, m + |find|) == current < |s| && t[..current + 1] == s[..current + 1]
    requires m < p < current
    ensures !OccursAt(t, find, p)
  {
    assert forall k :: 0 <= k <= current ==> t[k] == t[..current + 1][k] == s[k];
    if p < m + |find| {
      assert s[m + (p - m)] == find[p - m];
      assert t[p + 0] != find[0];
    } else {
      FindIsFirst(s, find, m + |find|, p);
      if current < p + |find| {
        assert s[current + 0] == find[0] && find[current - p] != find[0];
        assert t[p + (current - p)] != find[current - p];
      }
    }
  }

  /** So `rfind` comes to the forward matches in reverse order. */
  lemma BackwardFindsForward<T>(s: seq<T>, t: seq<T>, find: seq<T>, m: nat, current: nat)
    requires !FirstRecurs(find) && find != [] && OccursAt(s, find, m) && |s| <= |t|
    requires NextStop(s, find, m + |find|) == current < |s| && t[..current + 1] == s[..current + 1]
    ensures RFind(t, find, current - 1) == Some(m)
  {
    var r := RFind(t, find, current - 1);
    assert forall k :: 0 <= k <= current ==> t[k] == t[..current + 1][k] == s[k];
    assert OccursAt(t, find, m);
    if r.None? || r.value < m {
      RFindIsLast(t, find, current - 1, m);
    } else if r.value > m {
      NothingBetween(s, t, find, m, current, r.value);
    }
  }

  /** The loop's state when it comes to the match number `j`: everything behind `prev` is done. */
  ghost predicate DoneBehind<T>(s: seq<T>, find: seq<T>, replacement: seq<T>, str: seq<T>, prev: nat, write: nat)
    requires find != []
  {
    && prev <= |s| <= |str| && prev <= write <= |str|
    && str[..prev] == s[..prev]
    && str[write..] == ReplacedTail(s, prev, find, replacement)
  }

  lemma TurnKeepsDone<T>(s: seq<T>, find: seq<T>, replacement: seq<T>, str: seq<T>, current: nat, prev: nat, write: nat)
    requires find != [] && DoneBehind(s, find, replacement, str, prev, write)
    requires OccursAt(s, find, current) && prev == NextStop(s, find, current + |find|)
    requires write >= TurnLength(find, replacement, current, prev) + current
    ensures var at := write - TurnLength(find, replacement, current, prev);
            DoneBehind(s, find, replacement, Turn(str, find, replacement, current, prev, write), current, at)
  {
    hide ReplacedTail, Find, Turn;
    var at := write - TurnLength(find, replacement, current, prev);
    TurnSplits(str, find, replacement, current, prev, write);
    TailAtMatch(s, current, find, replacement);
    TailToMatch(s, current + |find|, prev, find, replacement);
    SamePrefixSameSlices(str, s, current + |find|, prev, current);
    var t := Turn(str, find, replacement, current, prev, write);
    assert t[..current] == t[..at][..current] == str[..current];
  }

  lemma SamePrefixSameSlices<T>(a: seq<T>, b: seq<T>, i: nat, prev: nat, current: nat)
    requires current <= i <= prev <= |a| && prev <= |b| && a[..prev] == b[..prev]
    ensures a[i..prev] == b[i..prev] && a[..current] == b[..current]
  {
    assert a[i..prev] == a[..prev][i..] && b[i..prev] == b[..prev][i..];
    assert a[..current] == a[..prev][..current] && b[..current] == b[..prev][..current];
  }

  lemma TurnKeepsNextCharacter<T>(
    s: seq<T>, find: seq<T>, replacement: seq<T>, str: seq<T>, current: nat, prev: nat, write: nat)
    requires find != [] && DoneBehind(s, find, replacement, str, prev, write)
    requires OccursAt(s, find, current) && prev == NextStop(s, find, current + |find|)
    requires write > TurnLength(find, replacement, current, prev) + current
    ensures Turn(str, find, replacement, current, prev, write)[..current + 1] == s[..current + 1]
  {
    var at := write - TurnLength(find, replacement, current, prev);
    TurnSplits(str, find, replacement, current, prev, write);
    var t := Turn(str, find, replacement, current, prev, write);
    assert t[..current + 1] == t[..at][..current + 1] == str[..prev][..current + 1];
  }

  lemma LastTurn<T>(
    str: seq<T>, find: seq<T>, replacement: seq<T>, current: nat, prev: nat, write: nat, want: seq<T>)
    requires find != [] && replacement != [] && prev <= |str| && write <= |str|
    requires current + |find| <= prev && TurnLength(find, replacement, current, prev) <= write
    requires want == Turn(str, find, replacement, current, prev, write)
    ensures BackwardPass(str, find, replacement, current, current, prev, write) == Some(want)
  {
  }

  lemma InnerTurn<T>(
    str: seq<T>, find: seq<T>, replacement: seq<T>, first: nat, current: nat, prev: nat, write: nat, m: nat,
    want: Option<seq<T>>)
    requires find != [] && replacement != [] && prev <= |str| && write <= |str| && first != current && current > 0
    requires current + |find| <= prev && TurnLength(find, replacement, current, prev) <= write
    requires RFind(Turn(str, find, replacement, current, prev, write), find, current - 1) == Some(m)
    requires want == BackwardPass(Turn(str, find, replacement, current, prev, write), find, replacement, first, m,
                                  current, write - TurnLength(find, replacement, current, prev))
    ensures BackwardPass(str, find, replacement, first, current, prev, write) == want
  {
  }

  /** What the loop knows when it comes to the match number `j`. */
  ghost predicate PassInv<T>(
    s: seq<T>, ms: seq<nat>, find: seq<T>, replacement: seq<T>, str: seq<T>, j: nat, prev: nat, write: nat)
    requires 0 < |find| < |replacement|
  {
    && j < |ms|
    && prev == (if j + 1 < |ms| then ms[j + 1] else |s|)
    && write == prev + Growth(j + 1, |replacement| - |find|)
    && DoneBehind(s, find, replacement, str, prev, write)
  }

  lemma PassTurn<T>(
    s: seq<T>, ms: seq<nat>, offset: nat, find: seq<T>, replacement: seq<T>, str: seq<T>, j: nat, prev: nat, write: nat)
    returns (t: seq<T>, at: nat)
    requires 0 < |find| < |replacement| && ms == Matches(s, find, offset)
    requires PassInv(s, ms, find, replacement, str, j, prev, write)
    ensures ms[j] + |find| <= prev && TurnLength(find, replacement, ms[j], prev) <= write
    ensures t == Turn(str, find, replacement, ms[j], prev, write)
    ensures at == write - TurnLength(find, replacement, ms[j], prev) == ms[j] + Growth(j, |replacement| - |find|)
    ensures DoneBehind(s, find, replacement, t, ms[j], at)
    ensures j > 0 ==> t[..ms[j] + 1] == s[..ms[j] + 1]
  {
    hide Find, Matches, OccursAt, ReplacedTail, Turn;
    var current := ms[j];
    MatchFacts(s, find, offset, j);
    TurnKeepsDone(s, find, replacement, str, current, prev, write);
    t := Turn(str, find, replacement, current, prev, write);
    at := write - TurnLength(find, replacement, current, prev);
    if j > 0 {
      assert Growth(j, |replacement| - |find|) > 0;
      TurnKeepsNextCharacter(s, find, replacement, str, current, prev, write);
    }
  }

  lemma PassFinds<T>(s: seq<T>, ms: seq<nat>, offset: nat, find: seq<T>, t: seq<T>, j: nat)
    requires find != [] && !FirstRecurs(find) && ms == Matches(s, find, offset)
    requires 0 < j < |ms| && ms[j] < |s| <= |t| && t[..ms[j] + 1] == s[..ms[j] + 1]
    ensures ms[0] < ms[j] && RFind(t, find, ms[j] - 1) == Some(ms[j - 1])
  {
    hide Find, RFind, OccursAt, Matches, FirstRecurs;
    MatchFacts(s, find, offset, j);
    MatchFacts(s, find, offset, j - 1);
    BackwardFindsForward(s, t, find, ms[j - 1], ms[j]);
  }

  lemma FirstMatchIsDone<T>(s: seq<T>, find: seq<T>, replacement: seq<T>, t: seq<T>, first: nat)
    requires find != [] && DoneBehind(s, find, replacement, t, first, first)
    ensures t == s[..first] + ReplacedTail(s, first, find, replacement)
  {
    assert t == t[..first] + t[first..];
  }

  lemma {:induction false} BackwardPassReplaces<T>(
    s: seq<T>, ms: seq<nat>, offset: nat, find: seq<T>, replacement: seq<T>, str: seq<T>, j: nat, prev: nat, write: nat)
    requires 0 < |find| < |replacement| && !FirstRecurs(find) && ms == Matches(s, find, offset)
    requires PassInv(s, ms, find, replacement, str, j, prev, write)
    ensures ms[0] <= |s|
    ensures BackwardPass(str, find, replacement, ms[0], ms[j], prev, write)
         == Some(s[..ms[0]] + ReplacedTail(s, ms[0], find, replacement))
    decreases j
  {
    hide BackwardPass, ReplacedTail, RFind, Find, Matches, OccursAt;
    var t, at := PassTurn(s, ms, offset, find, replacement, str, j, prev, write);
    if j == 0 {
      FirstMatchIsDone(s, find, replacement, t, ms[0]);
      LastTurn(str, find, replacement, ms[0], prev, write, t);
    } else {
      PassFinds(s, ms, offset, find, t, j);
      BackwardPassReplaces(s, ms, offset, find, replacement, t, j - 1, ms[j], at);
      InnerTurn(str, find, replacement, ms[0], ms[j], prev, write, ms[j - 1],
                BackwardPass(t, find, replacement, ms[0], ms[j - 1], ms[j], at));
    }
  }

  lemma NothingDoneYet<T>(s: seq<T>, find: seq<T>, replacement: seq<T>, length: nat, fill: T)
    requires find != [] && |s| <= length
    ensures DoneBehind(s, find, replacement, Resized(s, length, fill), |s|, length)
  {
    var str := Resized(s, length, fill);
    assert str[..|s|] == s[..|s|];
    assert str[length..] == [] == ReplacedTail(s, |s|, find, replacement);
  }

  lemma GrowingReplacesAll<T>(s: seq<T>, offset: nat, find: seq<T>, replacement: seq<T>, fill: T)
    requires 0 < |find| < |replacement| && !FirstRecurs(find)
    ensures Grown(s, offset, find, replacement, fill) == Some(ReplacedAll(s, offset, find, replacement))
  {
    hide BackwardPass, ReplacedTail, RFind, Find, Matches, OccursAt;
    var ms := Matches(s, find, offset);
    MatchesFromMatch(s, find, offset);
    if ms == [] {
      NothingToReplace(s, offset, find, replacement);
    } else {
      var finalLength := |s| + Growth(|ms|, |replacement| - |find|);
      NothingDoneYet(s, find, replacement, finalLength, fill);
      SkipToMatch(s, offset, find, replacement);
      BackwardPassReplaces(s, ms, offset, find, replacement, Resized(s, finalLength, fill), |ms| - 1, |s|, finalLength);
    }
  }

  // ------------------------------------------------------------- it fails with

  lemma TwoMatches<T>(s: seq<T>, find: seq<T>, second: nat)
    requires find != [] && OccursAt(s, find, 0)
    requires NextStop(s, find, |find|) == second < |s| < second + 2 * |find|
    ensures Matches(s, find, 0) == [0, second]
  {
    TwoFinds(s, find, second);
    hide *;
    NextMatch(s, find, 0, 0);
    NextMatch(s, find, |find|, second);
    NoMoreMatches(s, find, second + |find|);
    TwoOf(Matches(s, find, 0), Matches(s, find, |find|), Matches(s, find, second + |find|), second);
  }

  lemma NextMatch<T>(s: seq<T>, find: seq<T>, from: nat, m: nat)
    requires find != [] && Find(s, find, from) == Some(m)
    ensures Matches(s, find, from) == [m] + Matches(s, find, m + |find|)
  {
    hide Find, OccursAt;
  }

  lemma NoMoreMatches<T>(s: seq<T>, find: seq<T>, from: nat)
    requires find != [] && Find(s, find, from).None?
    ensures Matches(s, find, from) == []
  {
  }

  lemma TwoOf(a: seq<nat>, b: seq<nat>, c: seq<nat>, second: nat)
    requires a == [0] + b && b == [second] + c && c == []
    ensures a == [0, second]
  {
  }

  lemma TwoFinds<T>(s: seq<T>, find: seq<T>, second: nat)
    requires find != [] && OccursAt(s, find, 0)
    requires NextStop(s, find, |find|) == second < |s| < second + 2 * |find|
    ensures Find(s, find, 0) == Some(0) && Find(s, find, |find|) == Some(second)
    ensures Find(s, find, second + |find|).None?
  {
  }

  /** Once the scan has stopped at a place that is no forward match, the offsets wrap. */
  lemma FalseMatchWraps<T>(t: seq<T>, find: seq<T>, replacement: seq<T>, r: nat, second: nat, write: nat)
    requires find != [] && replacement != [] && 0 < r < second <= |t| && write <= |t|
    requires r < |find| || second < r + |find|
    ensures BackwardPass(t, find, replacement, 0, r, second, write).None?
  {
  }

  /** The string after the first turn of the backward loop, when there are two matches. */
  function AfterFirstTurn<T>(s: seq<T>, find: seq<T>, replacement: seq<T>, fill: T, second: nat): seq<T>
    requires 0 < |find| < |replacement| && second + |find| <= |s|
  {
    var length := |s| + Growth(2, |replacement| - |find|);
    Turn(Resized(s, length, fill), find, replacement, second, |s|, length)
  }

  lemma GrowthOfTwo(e: nat)
    ensures Growth(2, e) == 2 * e
  {
    assert Growth(2, e) == e + Growth(1, e) == e + (e + Growth(0, e));
  }

  lemma FirstTurnSplits<T>(s: seq<T>, find: seq<T>, replacement: seq<T>, fill: T, second: nat)
    requires 0 < |find| < |replacement| && second + |find| <= |s|
    ensures var t := AfterFirstTurn(s, find, replacement, fill, second);
            var at := second + |replacement| - |find|;
            && |t| == |s| + Growth(2, |replacement| - |find|) && at + |replacement| <= |t|
            && (forall k :: 0 <= k < at && k < |s| ==> t[k] == s[k])
            && (forall k :: 0 <= k < |replacement| ==> t[at + k] == replacement[k])
  {
    var e := |replacement| - |find|;
    GrowthOfTwo(e);
    var length := |s| + Growth(2, e);
    var str := Resized(s, length, fill);
    TurnSplits(str, find, replacement, second, |s|, length);
    var t := AfterFirstTurn(s, find, replacement, fill, second);
    var at := second + e;
    assert forall k :: 0 <= k < at ==> t[k] == t[..at][k];
    assert forall k :: 0 <= k < |replacement| ==> t[at + k] == t[at..][k];
  }

  /** A false occurrence between the two matches, in the half-rewritten string, ruins the pass. */
  lemma FalseMatchFails<T>(s: seq<T>, find: seq<T>, replacement: seq<T>, fill: T, second: nat, p: nat)
    requires 0 < |find| < |replacement| && OccursAt(s, find, 0)
    requires NextStop(s, find, |find|) == second < |s| < second + 2 * |find|
    requires 0 < p < second <= p + |find| && (second < p + |find| || p < |find|)
    requires OccursAt(AfterFirstTurn(s, find, replacement, fill, second), find, p)
    ensures Grown(s, 0, find, replacement, fill).None?
  {
    hide BackwardPass, Find, RFind, Matches, Turn;
    var t := AfterFirstTurn(s, find, replacement, fill, second);
    var length := |s| + Growth(2, |replacement| - |find|);
    GrowthOfTwo(|replacement| - |find|);
    TwoMatches(s, find, second);
    FirstTurnSplits(s, find, replacement, fill, second);
    var r := RFind(t, find, second - 1);
    if r.None? || r.value < p {
      RFindIsLast(t, find, second - 1, p);
    }
    var at := second + |replacement| - |find|;
    FalseMatchWraps(t, find, replacement, r.value, second, at);
    InnerTurn(Resized(s, length, fill), find, replacement, 0, second, |s|, length, r.value, None);
  }

  lemma NextStopIs<T>(s: seq<T>, find: seq<T>, from: nat, second: nat)
    requires find != [] && from <= second < |s| && OccursAt(s, find, second)
    ensures from <= NextStop(s, find, from) <= second
    ensures (forall q :: from <= q < second ==> !OccursAt(s, find, q)) ==> NextStop(s, find, from) == second
  {
    var r := Find(s, find, from);
    if r.None? || second < r.value {
      FindIsFirst(s, find, from, second);
    }
  }

  /** What a pattern that can overlap itself looks like, twice in a row. */
  lemma OverlapMatches<T>(find: seq<T>, d: nat) returns (s: seq<T>, second: nat)
    requires 1 <= d < |find| && forall k :: d <= k < |find| ==> find[k] == find[k - d]
    ensures OccursAt(s, find, 0) && OccursAt(s, find, d)
    ensures |s| == d + 2 * |find| && |find| <= second <= d + |find| && second == NextStop(s, find, |find|)
  {
    s := find[..d] + find + find;
    assert OccursAt(s, find, 0);
    assert OccursAt(s, find, d);
    assert OccursAt(s, find, d + |find|);
    NextStopIs(s, find, |find|, d + |find|);
    second := NextStop(s, find, |find|);
  }

  /** A pattern that can overlap itself: a match that the forward scan skips is found going back. */
  lemma OverlapFails<T>(find: seq<T>, d: nat, fill: T) returns (s: seq<T>, replacement: seq<T>)
    requires 1 <= d < |find| && forall k :: d <= k < |find| ==> find[k] == find[k - d]
    ensures |replacement| > |find| && Grown(s, 0, find, replacement, fill).None?
  {
    hide Grown, NextStop, Turn;
    var second;
    s, second := OverlapMatches(find, d);
    replacement := find + find[..d];
    FirstTurnSplits(s, find, replacement, fill, second);
    var t := AfterFirstTurn(s, find, replacement, fill, second);
    forall k | 0 <= k < |find|
      ensures t[d + k] == find[k]
    {
      assert t[d + k] == s[d + k];
    }
    FalseMatchFails(s, find, replacement, fill, second, d);
  }

  /** The pattern, its first `d` characters, and the pattern again. */
  ghost predicate Sandwich<T>(s: seq<T>, find: seq<T>, d: nat) {
    && d <= |find| && |s| == 2 * |find| + d
    && (forall k :: 0 <= k < |find| ==> s[k] == find[k])
    && (forall k :: 0 <= k < d ==> s[|find| + k] == find[k])
    && (forall k :: 0 <= k < |find| ==> s[|find| + d + k] == find[k])
  }

  lemma SandwichOf<T>(find: seq<T>, d: nat)
    requires d <= |find|
    ensures Sandwich(find + find[..d] + find, find, d)
  {
  }

  /** Between the two there is no further occurrence, if `d` is where the first character recurs first. */
  lemma SandwichMatches<T>(s: seq<T>, find: seq<T>, d: nat)
    requires Sandwich(s, find, d) && 1 <= d < |find| && find[d] == find[0]
    requires forall t :: 1 <= t < d ==> find[t] != find[0]
    requires exists k :: d <= k < |find| && find[k] != find[k - d]
    ensures OccursAt(s, find, 0) && OccursAt(s, find, |find| + d)
    ensures forall q :: |find| <= q < |find| + d ==> !OccursAt(s, find, q)
  {
    var n := |find|;
    forall q | n <= q < n + d
      ensures !OccursAt(s, find, q)
    {
      if q == n {
        var k :| d <= k < n && find[k] != find[k - d];
        assert s[n + d + (k - d)] == find[k - d];
        assert s[q + k] != find[k];
      } else {
        assert s[n + (q - n)] == find[q - n];
        assert s[q + 0] != find[0];
      }
    }
  }

  /** The first turn leaves an occurrence one pattern behind the first match. */
  lemma CompletionOccurs<T>(s: seq<T>, find: seq<T>, replacement: seq<T>, t: seq<T>, d: nat)
    requires Sandwich(s, find, d) && 1 <= d < |find| && find[d] == find[0]
    requires |replacement| == |find| + 1 && replacement[..|find| - d - 1] == find[d + 1..]
    requires |find| + d + 1 + |replacement| <= |t|
    requires forall k :: 0 <= k <= |find| + d ==> t[k] == s[k]
    requires forall k :: 0 <= k < |replacement| ==> t[|find| + d + 1 + k] == replacement[k]
    ensures OccursAt(t, find, |find|)
  {
    var n := |find|;
    forall k | 0 <= k < n
      ensures t[n + k] == find[k]
    {
      if k < d {
        assert s[n + k] == find[k];
      } else if k == d {
        assert s[n + d + 0] == find[0];
      } else {
        var j := k - d - 1;
        assert replacement[j] == replacement[..n - d - 1][j] == find[d + 1..][j];
        assert t[n + d + 1 + j] == replacement[j];
      }
    }
  }

  /** Otherwise rewriting the second match can complete an occurrence that was not there. */
  lemma CompletionFails<T>(s: seq<T>, find: seq<T>, replacement: seq<T>, d: nat, fill: T)
    requires Sandwich(s, find, d) && 1 <= d < |find| && find[d] == find[0]
    requires forall t :: 1 <= t < d ==> find[t] != find[0]
    requires exists k :: d <= k < |find| && find[k] != find[k - d]
    requires |replacement| == |find| + 1 && replacement[..|find| - d - 1] == find[d + 1..]
    ensures Grown(s, 0, find, replacement, fill).None?
  {
    hide Grown, NextStop, Turn, OccursAt, AfterFirstTurn;
    SandwichMatches(s, find, d);
    var second := |find| + d;
    NextStopIs(s, find, |find|, second);
    FirstTurnSplits(s, find, replacement, fill, second);
    CompletionOccurs(s, find, replacement, AfterFirstTurn(s, find, replacement, fill, second), d);
    FalseMatchFails(s, find, replacement, fill, second, |find|);
  }

  lemma RecurringFirstFails<T>(find: seq<T>, fill: T) returns (s: seq<T>, replacement: seq<T>)
    requires FirstRecurs(find)
    ensures |replacement| > |find| && Grown(s, 0, find, replacement, fill).None?
  {
    var d := 1;
    while find[d] != find[0]
      invariant 1 <= d < |find| && forall t :: 1 <= t < d ==> find[t] != find[0]
      decreases |find| - d
    {
      d := d + 1;
    }
    if forall k :: d <= k < |find| ==> find[k] == find[k - d] {
      s, replacement := OverlapFails(find, d, fill);
    } else {
      s, replacement := find + find[..d] + find, find[d + 1..] + seq(d + 2, _ => find[0]);
      SandwichOf(find, d);
      CompletionFails(s, find, replacement, d, fill);
    }
  }

  /**
   The growing strategy replaces every occurrence from left to right, whatever the string, the
   offset and the longer replacement, exactly when the pattern's first character does not recur.
   */
  lemma GrowingIsExact<T(!new)>(find: seq<T>, fill: T)
    requires find != []
    ensures !FirstRecurs(find) <==>
            forall s: seq<T>, offset: nat, replacement: seq<T> :: |replacement| > |find| ==>
              Grown(s, offset, find, replacement, fill) == Some(ReplacedAll(s, offset, find, replacement))
  {
    if FirstRecurs(find) {
      var s, replacement := RecurringFirstFails(find, fill);
      assert Grown(s, 0, find, replacement, fill) != Some(ReplacedAll(s, 0, find, replacement));
    } else {
      forall s: seq<T>, offset: nat, replacement: seq<T> | |replacement| > |find|
        ensures Grown(s, offset, find, replacement, fill) == Some(ReplacedAll(s, offset, find, replacement))
      {
        GrowingReplacesAll(s, offset, find, replacement, fill);
      }
    }
  }
}
