/**
 Glob matching: `*` stands for any run of characters, `?` for one or none, and a backslash
 takes away the meaning of the character behind it. This is about characters; `PatternUnits` is
 about the code units that the matcher works on.
 */
module Pattern {

  const MAX_DEPTH: nat := 16

  predicate IsWildcard(c: char) {
    c == '*' || c == '?'
  }

  // ------------------------------------------------------------ the meaning

  /** What a pattern means. A backslash at its very end matches nothing. */
  ghost predicate Matches(pattern: string, s: string) {
    if pattern == [] then s == []
    else if pattern[0] == '*' then exists k :: 0 <= k <= |s| && Matches(pattern[1..], s[k..])
    else if pattern[0] == '?' then Matches(pattern[1..], s) || (s != [] && Matches(pattern[1..], s[1..]))
    else if pattern[0] == '\\' then
      |pattern| >= 2 && s != [] && s[0] == pattern[1] && Matches(pattern[2..], s[1..])
    else s != [] && s[0] == pattern[0] && Matches(pattern[1..], s[1..])
  }

  /** The unescaped wildcards of a pattern. */
  function Wildcards(pattern: string): nat {
    if pattern == [] then 0
    else if pattern[0] == '\\' then if |pattern| >= 2 then Wildcards(pattern[2..]) else 0
    else (if IsWildcard(pattern[0]) then 1 else 0) + Wildcards(pattern[1..])
  }

  /** The pattern without the wildcards it starts with. */
  function WithoutWildcards(pattern: string): (rest: string)
    ensures |rest| <= |pattern| && (pattern != [] && IsWildcard(pattern[0]) ==> |rest| < |pattern|)
    ensures rest != [] ==> !IsWildcard(rest[0])
    ensures Wildcards(rest) <= Wildcards(pattern)
  {
    if pattern != [] && IsWildcard(pattern[0]) then WithoutWildcards(pattern[1..]) else pattern
  }

  predicate IsLiteral(pattern: string) {
    pattern != [] && !IsWildcard(pattern[0]) && pattern != "\\"
  }

  /** The character a pattern asks for that starts with a literal, escaped or not, and what is behind it. */
  function LiteralChar(pattern: string): char
    requires IsLiteral(pattern)
  {
    if pattern[0] == '\\' then pattern[1] else pattern[0]
  }

  function AfterLiteral(pattern: string): (rest: string)
    requires IsLiteral(pattern)
    ensures |rest| < |pattern|
  {
    if pattern[0] == '\\' then pattern[2..] else pattern[1..]
  }

  lemma {:induction false} MatchesEmpty(pattern: string)
    ensures Matches(pattern, "") <==> WithoutWildcards(pattern) == []
  {
    if pattern != [] && IsWildcard(pattern[0]) {
      MatchesEmpty(pattern[1..]);
      assert ""[0..] == "";
    }
  }

  /** A star makes the wildcards right behind it redundant. */
  lemma {:induction false} StarAbsorbs(pattern: string, s: string)
    requires pattern != [] && pattern[0] == '*'
    ensures Matches(pattern, s) <==> exists k :: 0 <= k <= |s| && Matches(WithoutWildcards(pattern), s[k..])
  {
    var rest := WithoutWildcards(pattern[1..]);
    if Matches(pattern, s) {
      var k :| 0 <= k <= |s| && Matches(pattern[1..], s[k..]);
      SkipWildcards(pattern[1..], s, k);
    }
    if j :| 0 <= j <= |s| && Matches(rest, s[j..]) {
      AddWildcards(pattern[1..], s, j);
    }
  }

  lemma StarCounts(pattern: string)
    requires pattern != [] && pattern[0] == '*'
    ensures Wildcards(pattern) >= 1 + Wildcards(WithoutWildcards(pattern))
    ensures WithoutWildcards(pattern) == WithoutWildcards(pattern[1..])
    ensures WithoutWildcards(WithoutWildcards(pattern)) == WithoutWildcards(pattern)
  {
  }

  lemma {:induction false} SkipWildcards(pattern: string, s: string, k: nat)
    requires k <= |s| && Matches(pattern, s[k..])
    ensures exists j :: k <= j <= |s| && Matches(WithoutWildcards(pattern), s[j..])
  {
    if pattern != [] && pattern[0] == '*' {
      var i :| 0 <= i <= |s[k..]| && Matches(pattern[1..], s[k..][i..]);
      assert s[k..][i..] == s[k + i..];
      SkipWildcards(pattern[1..], s, k + i);
    } else if pattern != [] && pattern[0] == '?' {
      if Matches(pattern[1..], s[k..]) {
        SkipWildcards(pattern[1..], s, k);
      } else {
        assert s[k..][1..] == s[k + 1..];
        SkipWildcards(pattern[1..], s, k + 1);
      }
    }
  }

  lemma {:induction false} AddWildcards(pattern: string, s: string, j: nat)
    requires j <= |s| && Matches(WithoutWildcards(pattern), s[j..])
    ensures Matches(pattern, s[j..])
  {
    if pattern != [] && IsWildcard(pattern[0]) {
      AddWildcards(pattern[1..], s, j);
      assert s[j..][0..] == s[j..];
    }
  }

  // ------------------------------------------------------------ what the matcher accepts

  /** What the recursion of `MatchPatternT` comes to on characters. */
  ghost predicate Accepts(pattern: string, s: string, depth: nat)
    decreases |pattern|
  {
    && depth <= MAX_DEPTH
    && if pattern == [] then s == []
       else if s == [] then WithoutWildcards(pattern) == []
       else if pattern[0] == '?' then
         Accepts(pattern[1..], s, depth + 1) || Accepts(pattern[1..], s[1..], depth + 1)
       else if pattern[0] == '*' then
         var rest := WithoutWildcards(pattern);
         rest == [] || exists k :: 0 <= k < |s| && Accepts(rest, s[k..], depth + 1)
       else
         IsLiteral(pattern) && s[0] == LiteralChar(pattern) && Accepts(AfterLiteral(pattern), s[1..], depth)
  }

  /**
   How deep the matcher has to go: one level for a question mark, one for a star together with the
   wildcards right behind it, and none for a star that only wildcards follow.
   */
  function Levels(pattern: string): nat
    decreases |pattern|
  {
    if pattern == [] then 0
    else if pattern[0] == '?' then 1 + Levels(pattern[1..])
    else if pattern[0] == '*' then
      var rest := WithoutWildcards(pattern);
      if rest == [] then 0 else 1 + Levels(rest)
    else if IsLiteral(pattern) then Levels(AfterLiteral(pattern))
    else 0
  }

  lemma {:induction false} LevelsAreWildcards(pattern: string)
    ensures Levels(pattern) <= Wildcards(pattern)
    decreases |pattern|
  {
    if pattern != [] && pattern[0] == '?' {
      LevelsAreWildcards(pattern[1..]);
    } else if pattern != [] && pattern[0] == '*' {
      StarCounts(pattern);
      if WithoutWildcards(pattern) != [] {
        LevelsAreWildcards(WithoutWildcards(pattern));
      }
    } else if IsLiteral(pattern) {
      LevelsAreWildcards(AfterLiteral(pattern));
    }
  }

  lemma MatchesLiteral(pattern: string, s: string)
    requires IsLiteral(pattern)
    ensures Matches(pattern, s) <==>
            s != [] && s[0] == LiteralChar(pattern) && Matches(AfterLiteral(pattern), s[1..])
  {
  }

  /** Some proper suffix of `s`, or `s` itself, matches. */
  ghost predicate MatchesSuffix(pattern: string, s: string) {
    exists k :: 0 <= k < |s| && Matches(pattern, s[k..])
  }

  lemma SuffixOrEmpty(pattern: string, s: string)
    ensures (exists k :: 0 <= k <= |s| && Matches(pattern, s[k..]))
            <==> MatchesSuffix(pattern, s) || Matches(pattern, "")
  {
    hide Matches;
    assert s[|s|..] == "";
    if k :| 0 <= k <= |s| && Matches(pattern, s[k..]) {
      assert k < |s| || Matches(pattern, "");
    }
  }

  /** A star in front of a literal has to stop before the end of the string. */
  lemma StarStopsEarly(pattern: string, s: string)
    requires pattern != [] && pattern[0] == '*' && WithoutWildcards(pattern) != []
    ensures Matches(pattern, s) <==> MatchesSuffix(WithoutWildcards(pattern), s)
  {
    hide Matches, WithoutWildcards, Wildcards, MatchesSuffix;
    StarAbsorbs(pattern, s);
    StarCounts(pattern);
    MatchesEmpty(WithoutWildcards(pattern));
    SuffixOrEmpty(WithoutWildcards(pattern), s);
  }

  lemma StarAlone(pattern: string, s: string)
    requires pattern != [] && pattern[0] == '*' && WithoutWildcards(pattern) == []
    ensures Matches(pattern, s)
  {
    StarAbsorbs(pattern, s);
    assert s[|s|..] == "" && Matches("", "");
  }

  /** What the matcher accepts, at any depth, is a match. */
  lemma {:induction false} AcceptsIsSound(pattern: string, s: string, depth: nat)
    requires Accepts(pattern, s, depth)
    ensures Matches(pattern, s)
    decreases |pattern|
  {
    if s == [] {
      MatchesEmpty(pattern);
    } else if pattern != [] && pattern[0] == '?' {
      if Accepts(pattern[1..], s, depth + 1) {
        AcceptsIsSound(pattern[1..], s, depth + 1);
      } else {
        AcceptsIsSound(pattern[1..], s[1..], depth + 1);
      }
    } else if pattern != [] && pattern[0] == '*' {
      SoundStar(pattern, s, depth);
    } else if pattern != [] {
      MatchesLiteral(pattern, s);
      AcceptsIsSound(AfterLiteral(pattern), s[1..], depth);
    }
  }

  lemma {:induction false} SoundStar(pattern: string, s: string, depth: nat)
    requires Accepts(pattern, s, depth) && s != [] && pattern != [] && pattern[0] == '*'
    ensures Matches(pattern, s)
    decreases |pattern|, 0
  {
    hide Matches;
    var rest := WithoutWildcards(pattern);
    if rest == [] {
      StarAlone(pattern, s);
    } else {
      var k :| 0 <= k < |s| && Accepts(rest, s[k..], depth + 1);
      StarStopsEarly(pattern, s);
      AcceptsIsSound(rest, s[k..], depth + 1);
    }
  }

  /** Every match is accepted if the levels of the pattern fit. */
  lemma {:induction false} AcceptsIsComplete(pattern: string, s: string, depth: nat)
    requires Matches(pattern, s) && depth + Levels(pattern) <= MAX_DEPTH
    ensures Accepts(pattern, s, depth)
    decreases |pattern|
  {
    if s == [] {
      MatchesEmpty(pattern);
    } else if pattern[0] == '?' {
      if Matches(pattern[1..], s) {
        AcceptsIsComplete(pattern[1..], s, depth + 1);
      } else {
        AcceptsIsComplete(pattern[1..], s[1..], depth + 1);
      }
    } else if pattern[0] == '*' {
      CompleteStar(pattern, s, depth);
    } else {
      MatchesLiteral(pattern, s);
      AcceptsIsComplete(AfterLiteral(pattern), s[1..], depth);
    }
  }

  lemma {:induction false} CompleteStar(pattern: string, s: string, depth: nat)
    requires Matches(pattern, s) && depth + Levels(pattern) <= MAX_DEPTH
    requires s != [] && pattern != [] && pattern[0] == '*'
    ensures Accepts(pattern, s, depth)
    decreases |pattern|, 0
  {
    hide Matches;
    var rest := WithoutWildcards(pattern);
    if rest != [] {
      StarStopsEarly(pattern, s);
      var k :| 0 <= k < |s| && Matches(rest, s[k..]);
      AcceptsIsComplete(rest, s[k..], depth + 1);
    }
  }

  // ------------------------------------------------------------ the depth limit is exact

  /** A backslash at the end leaves the pattern without a match. */
  predicate EndsInEscape(pattern: string) {
    if pattern == [] then false
    else if IsWildcard(pattern[0]) then EndsInEscape(pattern[1..])
    else !IsLiteral(pattern) || EndsInEscape(AfterLiteral(pattern))
  }

  predicate HasLiteral(pattern: string) {
    if pattern == [] then false else if IsWildcard(pattern[0]) then HasLiteral(pattern[1..]) else true
  }

  function LastLiteral(pattern: string): char
    requires !EndsInEscape(pattern) && HasLiteral(pattern)
  {
    if IsWildcard(pattern[0]) then LastLiteral(pattern[1..])
    else if HasLiteral(AfterLiteral(pattern)) then LastLiteral(AfterLiteral(pattern))
    else LiteralChar(pattern)
  }

  /** The levels behind the last literal. */
  function TailLevels(pattern: string): nat
    requires !EndsInEscape(pattern) && HasLiteral(pattern)
  {
    if IsWildcard(pattern[0]) then TailLevels(pattern[1..])
    else if HasLiteral(AfterLiteral(pattern)) then TailLevels(AfterLiteral(pattern))
    else Levels(AfterLiteral(pattern))
  }

  lemma {:induction false} EscapeNeverMatches(pattern: string, s: string)
    requires EndsInEscape(pattern)
    ensures !Matches(pattern, s)
    decreases |pattern|
  {
    if IsWildcard(pattern[0]) {
      forall k | 0 <= k <= |s|
        ensures !Matches(pattern[1..], s[k..])
      {
        EscapeNeverMatches(pattern[1..], s[k..]);
      }
      EscapeNeverMatches(pattern[1..], s);
    } else if IsLiteral(pattern) && s != [] {
      MatchesLiteral(pattern, s);
      EscapeNeverMatches(AfterLiteral(pattern), s[1..]);
    }
  }

  lemma {:induction false} SkippingWildcards(pattern: string)
    requires !EndsInEscape(pattern)
    ensures var rest := WithoutWildcards(pattern);
            && !EndsInEscape(rest) && HasLiteral(rest) == HasLiteral(pattern) == (rest != [])
            && (HasLiteral(pattern) ==>
                  LastLiteral(rest) == LastLiteral(pattern) && TailLevels(rest) == TailLevels(pattern))
  {
    if pattern != [] && IsWildcard(pattern[0]) {
      SkippingWildcards(pattern[1..]);
    }
  }

  /**
   Whichever way the literals of `pattern` are found in `s`, enough of it is left behind the last of
   them to need a level for each question mark there.
   */
  ghost predicate LeavesWork(pattern: string, s: string)
    requires !EndsInEscape(pattern)
  {
    if HasLiteral(pattern) then
      forall i :: 0 <= i < |s| && s[i] == LastLiteral(pattern) ==> |s| - i - 1 >= TailLevels(pattern)
    else |s| >= Levels(pattern)
  }

  lemma SuffixLeavesWork(pattern: string, s: string, k: nat)
    requires !EndsInEscape(pattern) && HasLiteral(pattern) && LeavesWork(pattern, s) && k <= |s|
    ensures LeavesWork(pattern, s[k..])
  {
    forall i | 0 <= i < |s[k..]| && s[k..][i] == LastLiteral(pattern)
      ensures |s[k..]| - i - 1 >= TailLevels(pattern)
    {
      assert s[k + i] == s[k..][i];
    }
  }

  lemma LiteralLeavesWork(pattern: string, s: string)
    requires IsLiteral(pattern) && !EndsInEscape(pattern) && LeavesWork(pattern, s)
    requires s != [] && s[0] == LiteralChar(pattern)
    ensures LeavesWork(AfterLiteral(pattern), s[1..])
  {
    if HasLiteral(AfterLiteral(pattern)) {
      SuffixLeavesWork(pattern, s, 1);
    }
  }

  /** On such a string, accepting takes all the levels of the pattern. */
  lemma {:induction false} AcceptingTakesLevels(pattern: string, s: string, depth: nat)
    requires !EndsInEscape(pattern) && LeavesWork(pattern, s) && Accepts(pattern, s, depth)
    ensures depth + Levels(pattern) <= MAX_DEPTH
    decreases |pattern|
  {
    SkippingWildcards(pattern);
    if pattern == [] || s == [] {
    } else if IsLiteral(pattern) {
      LiteralLeavesWork(pattern, s);
      AcceptingTakesLevels(AfterLiteral(pattern), s[1..], depth);
    } else if pattern[0] == '*' {
      var rest := WithoutWildcards(pattern);
      if rest != [] {
        var k :| 0 <= k < |s| && Accepts(rest, s[k..], depth + 1);
        SuffixLeavesWork(pattern, s, k);
        AcceptingTakesLevels(rest, s[k..], depth + 1);
      }
    } else {
      QuestionTakesLevel(pattern, s, depth);
    }
  }

  lemma {:induction false} QuestionTakesLevel(pattern: string, s: string, depth: nat)
    requires pattern != [] && pattern[0] == '?' && s != []
    requires !EndsInEscape(pattern) && LeavesWork(pattern, s) && Accepts(pattern, s, depth)
    ensures depth + Levels(pattern) <= MAX_DEPTH
    decreases |pattern|, 0
  {
    if HasLiteral(pattern) {
      SuffixLeavesWork(pattern, s, 0);
      SuffixLeavesWork(pattern, s, 1);
      assert s[0..] == s;
    }
    if Accepts(pattern[1..], s, depth + 1) {
      AcceptingTakesLevels(pattern[1..], s, depth + 1);
    } else {
      AcceptingTakesLevels(pattern[1..], s[1..], depth + 1);
    }
  }

  /** A string for the pattern: its literals, `z` for each question mark and nothing for each star. */
  function Filled(pattern: string, z: char): string {
    if pattern == [] then []
    else if pattern[0] == '?' then [z] + Filled(pattern[1..], z)
    else if pattern[0] == '*' then Filled(pattern[1..], z)
    else if IsLiteral(pattern) then [LiteralChar(pattern)] + Filled(AfterLiteral(pattern), z)
    else []
  }

  lemma {:induction false} FilledMatches(pattern: string, z: char)
    requires !EndsInEscape(pattern)
    ensures Matches(pattern, Filled(pattern, z))
    decreases |pattern|
  {
    if pattern != [] && IsWildcard(pattern[0]) {
      FilledMatches(pattern[1..], z);
      var s := Filled(pattern[1..], z);
      assert s[0..] == s && ([z] + s)[1..] == s;
    } else if pattern != [] {
      FilledMatches(AfterLiteral(pattern), z);
      var s := Filled(AfterLiteral(pattern), z);
      assert ([LiteralChar(pattern)] + s)[1..] == s;
      MatchesLiteral(pattern, [LiteralChar(pattern)] + s);
    }
  }

  lemma {:induction false} FilledIsAll(pattern: string, z: char)
    requires !EndsInEscape(pattern) && !HasLiteral(pattern)
    ensures |Filled(pattern, z)| >= Levels(pattern)
    ensures forall i :: 0 <= i < |Filled(pattern, z)| ==> Filled(pattern, z)[i] == z
  {
    if pattern != [] {
      SkippingWildcards(pattern);
      FilledIsAll(pattern[1..], z);
    }
  }

  lemma {:induction false} FilledIsLong(pattern: string, z: char)
    requires !EndsInEscape(pattern) && HasLiteral(pattern)
    ensures |Filled(pattern, z)| >= TailLevels(pattern)
    decreases |pattern|
  {
    hide Levels;
    if IsWildcard(pattern[0]) {
      FilledIsLong(pattern[1..], z);
    } else if HasLiteral(AfterLiteral(pattern)) {
      FilledIsLong(AfterLiteral(pattern), z);
    } else {
      FilledIsAll(AfterLiteral(pattern), z);
    }
  }

  lemma {:induction false} FilledLeavesWork(pattern: string, z: char)
    requires !EndsInEscape(pattern) && (HasLiteral(pattern) ==> z != LastLiteral(pattern))
    ensures LeavesWork(pattern, Filled(pattern, z))
    decreases |pattern|
  {
    if !HasLiteral(pattern) {
      FilledIsAll(pattern, z);
    } else {
      var rest := if IsWildcard(pattern[0]) then pattern[1..] else AfterLiteral(pattern);
      if HasLiteral(rest) {
        FilledIsLong(rest, z);
        FilledLeavesWork(rest, z);
      } else {
        FilledIsAll(rest, z);
      }
      var front := if pattern[0] == '*' then [] else if pattern[0] == '?' then [z] else [LiteralChar(pattern)];
      assert Filled(pattern, z) == front + Filled(rest, z);
      PrefixedLeavesWork(pattern, rest, front, Filled(rest, z), z);
    }
  }

  lemma PrefixedLeavesWork(pattern: string, rest: string, front: string, s: string, z: char)
    requires !EndsInEscape(pattern) && HasLiteral(pattern) && !EndsInEscape(rest)
    requires |front| <= 1 && |s| >= TailLevels(pattern)
    requires HasLiteral(rest) ==>
               && LastLiteral(rest) == LastLiteral(pattern) && TailLevels(rest) == TailLevels(pattern)
               && LeavesWork(rest, s)
    requires !HasLiteral(rest) ==> forall i :: 0 <= i < |s| ==> s[i] != LastLiteral(pattern)
    ensures LeavesWork(pattern, front + s)
  {
    forall i | 0 <= i < |front + s| && (front + s)[i] == LastLiteral(pattern)
      ensures |front + s| - i - 1 >= TailLevels(pattern)
    {
      if i >= |front| {
        assert s[i - |front|] == LastLiteral(pattern);
      }
    }
  }

  /** A match that is not accepted, for every pattern with too many levels that can match at all. */
  lemma TooDeepFails(pattern: string) returns (s: string)
    requires Levels(pattern) > 16 && !EndsInEscape(pattern)
    ensures Matches(pattern, s) && !Accepts(pattern, s, 0)
  {
    var z := if HasLiteral(pattern) && LastLiteral(pattern) == 'a' then 'b' else 'a';
    s := Filled(pattern, z);
    FilledMatches(pattern, z);
    FilledLeavesWork(pattern, z);
    if Accepts(pattern, s, 0) {
      AcceptingTakesLevels(pattern, s, 0);
    }
  }

  /**
   The matcher is right about every string exactly for the patterns of at most sixteen levels, and
   for those that match nothing anyway.
   */
  lemma DepthLimitIsExact(pattern: string)
    ensures Levels(pattern) <= 16 || EndsInEscape(pattern) <==>
            forall s :: Accepts(pattern, s, 0) <==> Matches(pattern, s)
  {
    forall s | Accepts(pattern, s, 0)
      ensures Matches(pattern, s)
    {
      AcceptsIsSound(pattern, s, 0);
    }
    if EndsInEscape(pattern) {
      forall s
        ensures !Matches(pattern, s)
      {
        EscapeNeverMatches(pattern, s);
      }
    } else if Levels(pattern) <= 16 {
      forall s | Matches(pattern, s)
        ensures Accepts(pattern, s, 0)
      {
        AcceptsIsComplete(pattern, s, 0);
      }
    } else {
      var s := TooDeepFails(pattern);
    }
  }

  // ------------------------------------------------------------ the smallest failures

  function Repeated(piece: string, n: nat): string {
    if n == 0 then [] else piece + Repeated(piece, n - 1)
  }

  lemma StarLiteral(rest: string)
    ensures Levels("*a" + rest) == 1 + Levels(rest) && EndsInEscape("*a" + rest) == EndsInEscape(rest)
  {
    var a := "a" + rest;
    assert a[1..] == rest && AfterLiteral(a) == rest && WithoutWildcards(a) == a;
    assert ("*a" + rest)[0] == '*' && ("*a" + rest)[1..] == a;
    assert WithoutWildcards("*a" + rest) == a;
  }

  lemma {:induction false} LevelsOfRepeated(n: nat)
    ensures Levels(Repeated("?", n)) == Levels(Repeated("*a", n)) == n
    ensures !EndsInEscape(Repeated("?", n)) && !EndsInEscape(Repeated("*a", n))
  {
    if n > 0 {
      LevelsOfRepeated(n - 1);
      var marks := Repeated("?", n - 1);
      assert ("?" + marks)[1..] == marks;
      StarLiteral(Repeated("*a", n - 1));
    }
  }

  /** Sixteen question marks, or sixteen stars with a letter behind each, are understood; seventeen are not. */
  lemma SixteenAreUnderstood(n: nat)
    ensures n <= 16 <==> forall s :: Accepts(Repeated("?", n), s, 0) <==> Matches(Repeated("?", n), s)
    ensures n <= 16 <==> forall s :: Accepts(Repeated("*a", n), s, 0) <==> Matches(Repeated("*a", n), s)
  {
    hide Accepts, Matches, Levels, EndsInEscape, Repeated;
    LevelsOfRepeated(n);
    DepthLimitIsExact(Repeated("?", n));
    DepthLimitIsExact(Repeated("*a", n));
  }

  /** What follows from `Accepts`: the matcher is sound, and complete while the levels, or the wildcards, fit. */
  lemma AcceptsFits(pattern: string, s: string, depth: nat)
    ensures Accepts(pattern, s, depth) ==> Matches(pattern, s)
    ensures depth + Levels(pattern) <= MAX_DEPTH ==> (Accepts(pattern, s, depth) <==> Matches(pattern, s))
    ensures Levels(pattern) <= Wildcards(pattern)
  {
    hide Matches, Accepts, Levels, Wildcards;
    LevelsAreWildcards(pattern);
    if Accepts(pattern, s, depth) {
      AcceptsIsSound(pattern, s, depth);
    } else if Matches(pattern, s) && depth + Levels(pattern) <= MAX_DEPTH {
      AcceptsIsComplete(pattern, s, depth);
    }
  }
}
