/**
 The glob matcher on code units. The matcher reads characters with a decoder but lets a star end anywhere,
 inside a character too. On well-formed text it accepts what `Pattern` says of the characters.
 */
module PatternUnits {
  import opened Prelude
  import opened Pattern

  /** What a decoder finds at the front of a text, and how many units that is; -1 is `CBU_SENTINEL`. */
  datatype Read = Read(value: int, units: nat)

  type Decoder = seq<nat> -> Read
  type Encoder = char -> seq<nat>

  const SENTINEL: int := -1

  predicate IsSpecial(unit: nat) {
    unit == '*' as nat || unit == '?' as nat || unit == '\\' as nat
  }

  /** A decoder that gets on, but not past the end. */
  ghost predicate Advances(next: Decoder) {
    forall s :: s != [] ==> 1 <= next(s).units <= |s|
  }

  /** The decoder undoes the encoder, whatever follows. */
  ghost predicate Decodes(next: Decoder, encode: Encoder) {
    forall c, rest :: next(encode(c) + rest) == Read(c as int, |encode(c)|)
  }

  /** Read from its middle, a character gives no character. */
  ghost predicate Synchronises(next: Decoder, encode: Encoder) {
    forall c: char, i: nat, rest: seq<nat> ::
      0 < i < |encode(c)| ==> !IsCharacter(next(encode(c)[i..] + rest).value)
  }

  /** A Unicode scalar value. */
  predicate IsCharacter(value: int) {
    0 <= value < 0xD800 || 0xE000 <= value < 0x11_0000
  }

  /** The characters with a meaning are one unit each, and no other character starts with such a unit. */
  ghost predicate KeepsSpecials(encode: Encoder) {
    forall c :: encode(c) != [] && if IsSpecial(c as nat) then encode(c) == [c as nat] else !IsSpecial(encode(c)[0])
  }

  ghost predicate IsCoding(next: Decoder, encode: Encoder) {
    Advances(next) && Decodes(next, encode) && Synchronises(next, encode) && KeepsSpecials(encode)
  }

  function Encoded(encode: Encoder, s: string): seq<nat> {
    if s == [] then [] else encode(s[0]) + Encoded(encode, s[1..])
  }

  // --------------------------------------------------------------- the matcher

  /** The text behind the first character. */
  function Behind(next: Decoder, s: seq<nat>): (rest: seq<nat>)
    requires Advances(next) && s != []
    ensures |rest| < |s|
  {
    s[next(s).units..]
  }

  predicate IsWildcardUnit(unit: nat) {
    unit == '*' as nat || unit == '?' as nat
  }

  /** `EatWildcard`. */
  function WildcardsEaten(next: Decoder, pattern: seq<nat>): (rest: seq<nat>)
    requires Advances(next)
    ensures |rest| <= |pattern|
    decreases |pattern|
  {
    if pattern != [] && IsWildcardUnit(pattern[0]) then WildcardsEaten(next, Behind(next, pattern)) else pattern
  }

  /** The recursion of `MatchPatternT`, one character of the pattern at a time. */
  ghost predicate UnitsAccept(next: Decoder, pattern: seq<nat>, s: seq<nat>, depth: nat)
    requires Advances(next)
    decreases |pattern|
  {
    && depth <= MAX_DEPTH
    && if pattern == [] then s == []
       else if s == [] then WildcardsEaten(next, pattern) == []
       else if pattern[0] == '?' as nat then
         || UnitsAccept(next, Behind(next, pattern), s, depth + 1)
         || UnitsAccept(next, Behind(next, pattern), Behind(next, s), depth + 1)
       else if pattern[0] == '*' as nat then
         var rest := WildcardsEaten(next, Behind(next, pattern));
         rest == [] || exists k :: 0 <= k < |s| && UnitsAccept(next, rest, s[k..], depth + 1)
       else
         var literal := if pattern[0] == '\\' as nat then Behind(next, pattern) else pattern;
         && literal != []
         && next(literal).value == next(s).value != SENTINEL
         && UnitsAccept(next, Behind(next, literal), Behind(next, s), depth)
  }

  method EatWildcard(next: Decoder, pattern: seq<nat>) returns (rest: seq<nat>)
    requires Advances(next)
    ensures rest == WildcardsEaten(next, pattern)
  {
    rest := pattern;
    while rest != []
      invariant WildcardsEaten(next, rest) == WildcardsEaten(next, pattern)
      decreases |rest|
    {
      if !IsWildcardUnit(rest[0]) {
        return;
      }
      rest := Behind(next, rest);
    }
  }

  /**
   Moves both pointers past what the texts have in common; what they then point at is returned. Where
   it stops, one of the texts is used up, or a wildcard has to be dealt with, or there is no match.
   */
  method EatSameChars(next: Decoder, pattern: seq<nat>, s: seq<nat>, ghost depth: nat)
    returns (p: seq<nat>, e: seq<nat>)
    requires Advances(next) && depth <= MAX_DEPTH
    ensures |p| <= |pattern|
    ensures UnitsAccept(next, pattern, s, depth) <==> UnitsAccept(next, p, e, depth)
    ensures p != [] && e != [] && !IsWildcardUnit(p[0]) ==> !UnitsAccept(next, p, e, depth)
  {
    hide UnitsAccept;
    p, e := pattern, s;
    var escape: Option<seq<nat>> := None;
    while p != [] && e != []
      invariant |p| <= |pattern|
      invariant escape.Some? ==> e != [] && IsEscape(next, escape.value, p) && |escape.value| <= |pattern|
      invariant UnitsAccept(next, pattern, s, depth)
                <==> UnitsAccept(next, if escape.Some? then escape.value else p, e, depth)
      decreases |p|
    {
      if escape.None? && IsWildcardUnit(p[0]) {
        return;
      }
      if escape.None? && p[0] == '\\' as nat {
        escape := Some(p);
        p := Behind(next, p);
        continue;
      }
      LiteralStep(next, if escape.Some? then escape.value else p, p, e, depth);
      if next(p).value == next(e).value && next(p).value != SENTINEL {
        p, e := Behind(next, p), Behind(next, e);
      } else {
        if escape.Some? {
          p := escape.value;
        }
        return;
      }
      escape := None;
    }
    if escape.Some? {
      LoneBackslash(next, escape.value, e, depth);
    }
  }

  /** `p` is what an escapement character at `start` applies to. */
  predicate IsEscape(next: Decoder, start: seq<nat>, p: seq<nat>)
    requires Advances(next)
  {
    start != [] && start[0] == '\\' as nat && p == Behind(next, start)
  }

  /** How the recursion goes over one literal character, escaped or not. */
  lemma LiteralStep(next: Decoder, start: seq<nat>, p: seq<nat>, e: seq<nat>, depth: nat)
    requires Advances(next) && depth <= MAX_DEPTH && p != [] && e != []
    requires if start == p then !IsWildcardUnit(p[0]) && p[0] != '\\' as nat else IsEscape(next, start, p)
    ensures UnitsAccept(next, start, e, depth) <==>
            && next(p).value == next(e).value != SENTINEL
            && UnitsAccept(next, Behind(next, p), Behind(next, e), depth)
  {
  }

  lemma LoneBackslash(next: Decoder, start: seq<nat>, e: seq<nat>, depth: nat)
    requires Advances(next) && depth <= MAX_DEPTH && IsEscape(next, start, []) && e != []
    ensures !UnitsAccept(next, start, e, depth) && !UnitsAccept(next, [], e, depth)
  {
  }

  lemma EmptyTexts(next: Decoder, pattern: seq<nat>, s: seq<nat>, depth: nat)
    requires Advances(next)
    ensures depth > MAX_DEPTH ==> !UnitsAccept(next, pattern, s, depth)
    ensures depth <= MAX_DEPTH ==> (UnitsAccept(next, pattern, [], depth) <==> WildcardsEaten(next, pattern) == [])
    ensures s != [] ==> !UnitsAccept(next, [], s, depth)
  {
  }

  lemma QuestionStep(next: Decoder, pattern: seq<nat>, s: seq<nat>, depth: nat)
    requires Advances(next) && depth <= MAX_DEPTH && pattern != [] && s != [] && pattern[0] == '?' as nat
    ensures UnitsAccept(next, pattern, s, depth) <==>
            || UnitsAccept(next, Behind(next, pattern), s, depth + 1)
            || UnitsAccept(next, Behind(next, pattern), Behind(next, s), depth + 1)
  {
  }

  /** Some suffix of `s`, from its first `n` on, is accepted. */
  ghost predicate SomeSuffixAccepted(next: Decoder, pattern: seq<nat>, s: seq<nat>, n: nat, depth: nat)
    requires Advances(next) && n <= |s|
  {
    exists k :: n <= k < |s| && UnitsAccept(next, pattern, s[k..], depth)
  }

  lemma StarStep(next: Decoder, pattern: seq<nat>, s: seq<nat>, depth: nat)
    requires Advances(next) && depth <= MAX_DEPTH && pattern != [] && s != [] && pattern[0] == '*' as nat
    ensures var rest := WildcardsEaten(next, Behind(next, pattern));
            && rest == WildcardsEaten(next, pattern)
            && (UnitsAccept(next, pattern, s, depth) <==>
                 rest == [] || SomeSuffixAccepted(next, rest, s, 0, depth + 1))
            && (rest == [] ==> !SomeSuffixAccepted(next, rest, s, 0, depth + 1))
  {
  }

  lemma SuffixStep(next: Decoder, pattern: seq<nat>, s: seq<nat>, n: nat, depth: nat)
    requires Advances(next) && n <= |s|
    ensures n == |s| ==> !SomeSuffixAccepted(next, pattern, s, n, depth)
    ensures n < |s| ==>
              (SomeSuffixAccepted(next, pattern, s, n, depth) <==>
               UnitsAccept(next, pattern, s[n..], depth) || SomeSuffixAccepted(next, pattern, s, n + 1, depth))
  {
    hide UnitsAccept;
  }

  method MatchPatternT(next: Decoder, eval: seq<nat>, pattern: seq<nat>, depth: nat) returns (matched: bool)
    requires Advances(next)
    ensures matched <==> UnitsAccept(next, pattern, eval, depth)
    decreases |pattern|
  {
    hide UnitsAccept, WildcardsEaten, Advances, SomeSuffixAccepted;
    EmptyTexts(next, pattern, eval, depth);
    if depth > MAX_DEPTH {
      return false;
    }
    var p, e := EatSameChars(next, pattern, eval, depth);
    EmptyTexts(next, p, e, depth);
    if e == [] {
      var rest := EatWildcard(next, p);
      return rest == [];
    }
    if p == [] {
      return false;
    }
    var nextPattern := Behind(next, p);
    if p[0] == '?' as nat {
      QuestionStep(next, p, e, depth);
      matched := MatchPatternT(next, e, nextPattern, depth + 1);
      if !matched {
        matched := MatchPatternT(next, Behind(next, e), nextPattern, depth + 1);
      }
      return;
    }
    if p[0] == '*' as nat {
      StarStep(next, p, e, depth);
      nextPattern := EatWildcard(next, nextPattern);
      var k := 0;
      while k < |e|
        invariant k <= |e|
        invariant SomeSuffixAccepted(next, nextPattern, e, 0, depth + 1)
                  <==> SomeSuffixAccepted(next, nextPattern, e, k, depth + 1)
      {
        SuffixStep(next, nextPattern, e, k, depth + 1);
        matched := MatchPatternT(next, e[k..], nextPattern, depth + 1);
        if matched {
          return;
        }
        k := k + 1;
      }
      SuffixStep(next, nextPattern, e, k, depth + 1);
      var rest := EatWildcard(next, p);
      return rest == [];
    }
    return false;
  }

  // ------------------------------------------------------ what it reads of characters

  lemma ReadsCharacter(next: Decoder, encode: Encoder, c: char, rest: string)
    requires IsCoding(next, encode)
    ensures var s := Encoded(encode, [c] + rest);
            && s != [] && next(s) == Read(c as int, |encode(c)|) && Behind(next, s) == Encoded(encode, rest)
            && s[0] == encode(c)[0]
  {
    assert ([c] + rest)[1..] == rest;
    var s := Encoded(encode, [c] + rest);
    assert s == encode(c) + Encoded(encode, rest);
    assert s[|encode(c)|..] == Encoded(encode, rest);
  }

  /** What the front of an encoded text shows. */
  lemma Front(next: Decoder, encode: Encoder, s: string)
    requires IsCoding(next, encode)
    ensures s == [] <==> Encoded(encode, s) == []
    ensures s != [] ==>
              var t := Encoded(encode, s);
              && next(t) == Read(s[0] as int, |encode(s[0])|) && Behind(next, t) == Encoded(encode, s[1..])
              && (IsSpecial(t[0]) || IsSpecial(s[0] as nat) ==> t[0] == s[0] as nat)
  {
    if s != [] {
      assert [s[0]] + s[1..] == s;
      ReadsCharacter(next, encode, s[0], s[1..]);
    }
  }

  lemma {:induction false} WildcardsOfCharacters(next: Decoder, encode: Encoder, pattern: string)
    requires IsCoding(next, encode)
    ensures WildcardsEaten(next, Encoded(encode, pattern)) == Encoded(encode, WithoutWildcards(pattern))
  {
    hide IsCoding, Encoded;
    AdvancesOf(next, encode);
    Front(next, encode, pattern);
    if pattern != [] && IsWildcard(pattern[0]) {
      WildcardsOfCharacters(next, encode, pattern[1..]);
    }
  }

  lemma AdvancesOf(next: Decoder, encode: Encoder)
    requires IsCoding(next, encode)
    ensures Advances(next)
  {
  }

  lemma {:induction false} EncodedSuffix(encode: Encoder, s: string, j: nat)
    requires j <= |s|
    ensures |Encoded(encode, s[..j])| <= |Encoded(encode, s)|
    ensures Encoded(encode, s)[|Encoded(encode, s[..j])|..] == Encoded(encode, s[j..])
  {
    if j == 0 {
      assert s[..0] == "" && s[0..] == s;
    } else {
      EncodedSuffix(encode, s[1..], j - 1);
      assert s[..j][1..] == s[1..][..j - 1] && s[1..][j - 1..] == s[j..];
      DropMore(encode(s[0]), Encoded(encode, s[1..]), |Encoded(encode, s[1..][..j - 1])|);
    }
  }

  lemma DropMore<T>(a: seq<T>, b: seq<T>, k: nat)
    requires k <= |b|
    ensures (a + b)[|a| + k..] == b[k..]
  {
  }

  // -------------------------------------------------------------- the refinement

  /** A literal is not found in the middle of a character. */
  lemma MiddleRejects(
      next: Decoder, encode: Encoder, pattern: string, c: char, k: nat, rest: seq<nat>, depth: nat)
    requires IsCoding(next, encode) && pattern != [] && !IsWildcard(pattern[0]) && 0 < k < |encode(c)|
    ensures !UnitsAccept(next, Encoded(encode, pattern), encode(c)[k..] + rest, depth)
  {
    Front(next, encode, pattern);
    if pattern[0] == '\\' && |pattern| > 1 {
      Front(next, encode, pattern[1..]);
    }
    assert !IsCharacter(next(encode(c)[k..] + rest).value);
    hide Encoded, Decodes, KeepsSpecials, Synchronises;
    if pattern == "\\" {
      Front(next, encode, pattern[1..]);
    }
  }

  /** A suffix of units that is accepted starts where a character starts. */
  lemma {:induction false} SuffixIsAligned(
      next: Decoder, encode: Encoder, pattern: string, s: string, k: nat, depth: nat) returns (j: nat)
    requires IsCoding(next, encode) && pattern != [] && !IsWildcard(pattern[0]) && k < |Encoded(encode, s)|
    requires UnitsAccept(next, Encoded(encode, pattern), Encoded(encode, s)[k..], depth)
    ensures j < |s| && Encoded(encode, s)[k..] == Encoded(encode, s[j..])
    decreases |s|
  {
    hide UnitsAccept;
    var first, rest := encode(s[0]), Encoded(encode, s[1..]);
    if k == 0 {
      assert s[0..] == s;
      j := 0;
    } else if k < |first| {
      assert (first + rest)[k..] == first[k..] + rest;
      MiddleRejects(next, encode, pattern, s[0], k, rest, depth);
      assert false;
    } else {
      DropMore(first, rest, k - |first|);
      j := SuffixIsAligned(next, encode, pattern, s[1..], k - |first|, depth);
      assert s[1..][j..] == s[j + 1..];
      j := j + 1;
    }
  }

  /** A star in front of a literal finds the same places. */
  lemma {:induction false} StarFindsTheSame(
      next: Decoder, encode: Encoder, pattern: string, s: string, depth: nat)
    requires IsCoding(next, encode) && pattern != [] && !IsWildcard(pattern[0])
    requires forall j :: 0 <= j < |s| ==>
               (UnitsAccept(next, Encoded(encode, pattern), Encoded(encode, s[j..]), depth)
                <==> Accepts(pattern, s[j..], depth))
    ensures (exists k :: 0 <= k < |Encoded(encode, s)|
                         && UnitsAccept(next, Encoded(encode, pattern), Encoded(encode, s)[k..], depth))
            <==> exists j :: 0 <= j < |s| && Accepts(pattern, s[j..], depth)
  {
    hide UnitsAccept, Accepts;
    if k :| 0 <= k < |Encoded(encode, s)|
            && UnitsAccept(next, Encoded(encode, pattern), Encoded(encode, s)[k..], depth) {
      var j := SuffixIsAligned(next, encode, pattern, s, k, depth);
      assert Accepts(pattern, s[j..], depth);
    }
    if j :| 0 <= j < |s| && Accepts(pattern, s[j..], depth) {
      EncodedSuffix(encode, s, j);
      Front(next, encode, s[j..]);
      var k := |Encoded(encode, s[..j])|;
      assert UnitsAccept(next, Encoded(encode, pattern), Encoded(encode, s)[k..], depth);
    }
  }

  /** On encoded text, the matcher accepts what it accepts of the characters. */
  lemma {:induction false} UnitsAcceptCharacters(
      next: Decoder, encode: Encoder, pattern: string, s: string, depth: nat)
    requires IsCoding(next, encode)
    ensures UnitsAccept(next, Encoded(encode, pattern), Encoded(encode, s), depth) <==> Accepts(pattern, s, depth)
    decreases |pattern|
  {
    hide Encoded, Decodes, Synchronises, KeepsSpecials;
    Front(next, encode, pattern);
    Front(next, encode, s);
    WildcardsOfCharacters(next, encode, pattern);
    if pattern == [] || s == [] {
      Front(next, encode, WithoutWildcards(pattern));
    } else if pattern[0] == '?' {
      UnitsAcceptCharacters(next, encode, pattern[1..], s, depth + 1);
      UnitsAcceptCharacters(next, encode, pattern[1..], s[1..], depth + 1);
    } else if pattern[0] == '*' {
      var rest := WithoutWildcards(pattern);
      WildcardsOfCharacters(next, encode, pattern[1..]);
      Front(next, encode, rest);
      if rest != [] {
        forall j | 0 <= j < |s|
          ensures UnitsAccept(next, Encoded(encode, rest), Encoded(encode, s[j..]), depth + 1)
                  <==> Accepts(rest, s[j..], depth + 1)
        {
          UnitsAcceptCharacters(next, encode, rest, s[j..], depth + 1);
        }
        StarFindsTheSame(next, encode, rest, s, depth + 1);
      }
    } else {
      if pattern[0] == '\\' {
        Front(next, encode, pattern[1..]);
      }
      if IsLiteral(pattern) {
        UnitsAcceptCharacters(next, encode, AfterLiteral(pattern), s[1..], depth);
      }
    }
  }

  /**
   So on encoded text the matcher is right about every string exactly for the patterns of at most
   sixteen levels, and for those that match nothing anyway.
   */
  lemma UnitsMatchIsExact(next: Decoder, encode: Encoder, pattern: string)
    requires IsCoding(next, encode)
    ensures Levels(pattern) <= 16 || EndsInEscape(pattern) <==>
            forall s: string ::
              UnitsAccept(next, Encoded(encode, pattern), Encoded(encode, s), 0) <==> Matches(pattern, s)
  {
    hide IsCoding, Encoded, UnitsAccept, Accepts, Matches, Levels, EndsInEscape;
    AdvancesOf(next, encode);
    DepthLimitIsExact(pattern);
    forall s: string
      ensures UnitsAccept(next, Encoded(encode, pattern), Encoded(encode, s), 0) <==> Accepts(pattern, s, 0)
    {
      UnitsAcceptCharacters(next, encode, pattern, s, 0);
    }
  }

  /** What the caller of `MatchPattern` learns if both texts are well-formed. */
  ghost predicate AnswersFor(encode: Encoder, pattern: seq<nat>, eval: seq<nat>, matched: bool) {
    forall p: string, s: string :: pattern == Encoded(encode, p) && eval == Encoded(encode, s) ==>
      (matched ==> Matches(p, s)) && (Levels(p) <= 16 ==> (matched <==> Matches(p, s)))
  }

  lemma AcceptingAnswers(next: Decoder, encode: Encoder, pattern: seq<nat>, eval: seq<nat>)
    requires IsCoding(next, encode)
    ensures AnswersFor(encode, pattern, eval, UnitsAccept(next, pattern, eval, 0))
  {
    hide IsCoding, Encoded, UnitsAccept, Accepts, Matches, Levels;
    AdvancesOf(next, encode);
    forall p: string, s: string | pattern == Encoded(encode, p) && eval == Encoded(encode, s)
      ensures UnitsAccept(next, pattern, eval, 0) ==> Matches(p, s)
      ensures Levels(p) <= 16 ==> (UnitsAccept(next, pattern, eval, 0) <==> Matches(p, s))
    {
      UnitsAcceptCharacters(next, encode, p, s, 0);
      AcceptsFits(p, s, 0);
    }
  }
}
