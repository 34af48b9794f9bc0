/** What the text of a switch means, character by character: white space, prefix, name, value and letter case. */
module SwitchNames {
  import opened Prelude
  import opened CommandLines

  const UPPER_LETTERS: string := "ABCDEFGHIJKLMNOPQRSTUVWXYZ"
  const LOWER_LETTERS: string := "abcdefghijklmnopqrstuvwxyz"

  // -------------------------------------------------------------------- letter case

  /** `d` is `c` in lower case. */
  ghost predicate IsLowerOf(c: char, d: char) {
    if c in UPPER_LETTERS then exists k :: 0 <= k < 26 && c == UPPER_LETTERS[k] && d == LOWER_LETTERS[k] else d == c
  }

  /** `lower` is the all-lower-case spelling of `name`. */
  ghost predicate IsLowerSpelling(name: string, lower: string) {
    |name| == |lower| && forall i :: 0 <= i < |name| ==> IsLowerOf(name[i], lower[i])
  }

  lemma TablePlaces(k: nat)
    requires k < 26
    ensures UPPER_LETTERS[k] as int == 65 + k && LOWER_LETTERS[k] as int == 97 + k
  {
  }

  lemma LowerByTable(c: char, d: char)
    ensures IsLowerOf(c, d) <==> LowerChar(c) == d
    ensures c in UPPER_LETTERS <==> 'A' <= c <= 'Z'
  {
    hide UPPER_LETTERS, LOWER_LETTERS;
    TablesAreLetters();
    forall k | 0 <= k < 26
      ensures UPPER_LETTERS[k] as int == 65 + k && LOWER_LETTERS[k] as int == 97 + k
    {
      TablePlaces(k);
    }
    if 'A' <= c <= 'Z' {
      assert c == UPPER_LETTERS[c as int - 65];
    }
  }

  lemma TablesAreLetters()
    ensures |UPPER_LETTERS| == |LOWER_LETTERS| == 26
  {
  }

  lemma LowerSpelling(name: string, lower: string)
    ensures IsLowerSpelling(name, lower) <==> Lower(name) == lower
  {
    hide IsLowerOf, LowerChar;
    if |name| == |lower| {
      forall i | 0 <= i < |name|
        ensures IsLowerOf(name[i], lower[i]) <==> Lower(name)[i] == lower[i]
      {
        LowerByTable(name[i], lower[i]);
      }
    }
  }

  // -------------------------------------------------------------------- white space

  /** The code units of Unicode white space. */
  const SPACES: set<int> := {
    0x0009, 0x000A, 0x000B, 0x000C, 0x000D, 0x0020, 0x0085, 0x00A0, 0x1680, 0x2000, 0x2001, 0x2002, 0x2003,
    0x2004, 0x2005, 0x2006, 0x2007, 0x2008, 0x2009, 0x200A, 0x2028, 0x2029, 0x202F, 0x205F, 0x3000
  }

  lemma SpacesByTable(c: char)
    ensures IsWhitespace(c) <==> c as int in SPACES
  {
  }

  ghost predicate AllSpaces(s: string) {
    forall i :: 0 <= i < |s| ==> s[i] as int in SPACES
  }

  ghost predicate NoSpaceAtEnds(s: string) {
    s != [] ==> s[0] as int !in SPACES && s[|s| - 1] as int !in SPACES
  }

  lemma {:induction false} LeadingGo(left: string, rest: string)
    requires AllSpaces(left) && (rest != [] ==> rest[0] as int !in SPACES)
    ensures TrimLeading(left + rest) == rest
  {
    hide SPACES, IsWhitespace;
    if left == [] {
      assert left + rest == rest;
      if rest != [] {
        SpacesByTable(rest[0]);
      }
    } else {
      SpacesByTable(left[0]);
      assert (left + rest)[1..] == left[1..] + rest;
      LeadingGo(left[1..], rest);
    }
  }

  lemma {:induction false} TrailingGo(rest: string, right: string)
    requires AllSpaces(right) && (rest != [] ==> rest[|rest| - 1] as int !in SPACES)
    ensures TrimTrailing(rest + right) == rest
  {
    hide SPACES, IsWhitespace;
    if right == [] {
      assert rest + right == rest;
      if rest != [] {
        SpacesByTable(rest[|rest| - 1]);
      }
    } else {
      var n := |right| - 1;
      SpacesByTable(right[n]);
      assert (rest + right)[..|rest| + n] == rest + right[..n];
      TrailingGo(rest, right[..n]);
    }
  }

  /** Trimming takes the white space off both ends, all of it and nothing else. */
  lemma TrimMeans(left: string, text: string, right: string)
    requires AllSpaces(left) && AllSpaces(right) && NoSpaceAtEnds(text)
    ensures Trim(left + text + right) == text
  {
    hide SPACES, TrimLeading, TrimTrailing;
    if text == [] {
      assert left + text + right == (left + right) + [];
      LeadingGo(left + right, []);
      TrailingGo([], []);
    } else {
      Associative(left, text, right);
      LeadingGo(left, text + right);
      TrailingGo(text, right);
    }
  }

  // -------------------------------------------------------------------- the parts

  /** `prefix` is what marks a switch in front of `rest`: the longest that fits, or none. */
  predicate IsPrefixOf(prefix: string, rest: string, slash: bool) {
    || prefix == "--"
    || (prefix == "-" && !("-" <= rest))
    || (prefix == "/" && slash)
    || (prefix == "" && !("-" <= rest) && !(slash && "/" <= rest))
  }

  lemma PrefixMeans(prefix: string, rest: string, slash: bool)
    requires IsPrefixOf(prefix, rest, slash)
    ensures PrefixLength(prefix + rest, slash) == |prefix|
  {
    var s := prefix + rest;
    assert "--" <= s <==> |s| >= 2 && s[0] == '-' && s[1] == '-';
    assert "-" <= s <==> |s| >= 1 && s[0] == '-';
    assert "/" <= s <==> |s| >= 1 && s[0] == '/';
    assert "-" <= rest <==> |rest| >= 1 && rest[0] == '-';
    assert "/" <= rest <==> |rest| >= 1 && rest[0] == '/';
    assert prefix != [] ==> s[0] == prefix[0];
    assert |prefix| == 2 ==> s[1] == prefix[1];
    assert |prefix| == 1 && rest != [] ==> s[1] == rest[0];
    assert prefix == [] ==> s == rest;
  }

  /** The value behind the name, if there is an equals sign. */
  function ValueText(value: Option<string>): string {
    if value.None? then [] else "=" + value.value
  }

  function ValueOrNone(value: Option<string>): string {
    if value.None? then [] else value.value
  }

  lemma NameAndValue(name: string, value: Option<string>)
    requires '=' !in name
    ensures NameOf(name + ValueText(value)) == name && ValueOf(name + ValueText(value)) == ValueOrNone(value)
  {
    hide NameOf;
    if value.None? {
      FirstEquals(name, []);
      assert name + ValueText(value) == name;
    } else {
      FirstEquals(name, value.value);
      var s := name + "=" + value.value;
      assert name + ValueText(value) == s;
      assert s[|name| + 1..] == value.value;
    }
  }

  /** Text with a prefix and something behind it is a switch, and anything else is not. */
  lemma SwitchMeans(prefix: string, name: string, value: Option<string>, slash: bool)
    requires IsPrefixOf(prefix, name + ValueText(value), slash) && '=' !in name
    ensures IsSwitch(prefix + name + ValueText(value), slash) ==
            if prefix == [] || name + ValueText(value) == [] then None
            else Some(Switch(prefix + name, ValueOrNone(value)))
  {
    hide NameOf, ValueOf, PrefixLength;
    Associative(prefix, name, ValueText(value));
    PrefixMeans(prefix, name + ValueText(value), slash);
    NoEqualsInBoth(prefix, name);
    NameAndValue(prefix + name, value);
  }

  lemma NoEqualsInBoth(prefix: string, name: string)
    requires (prefix == "" || prefix == "-" || prefix == "--" || prefix == "/") && '=' !in name
    ensures '=' !in prefix + name
  {
  }

  /**
   A switch appended under any spelling of its name is filed under the lower-case name without prefix, and
   its text, in front of the arguments, has the prefix it came with, or two dashes if it came with none.
   */
  lemma FilingMeans(l: Line, name: string, prefix: string, key: string, value: string, slash: bool)
    requires IsLowerSpelling(name, prefix + key) && IsPrefixOf(prefix, key, slash)
    ensures
      var text := (if prefix == [] then "--" else prefix) + key + if value == [] then [] else "=" + value;
      WithSwitch(l, Switch(name, value), slash) == Line(l.front + [text], l.args, l.switches[key := value])
  {
    hide Lower, PrefixLength, IsLowerSpelling;
    LowerSpelling(name, prefix + key);
    PrefixMeans(prefix, key, slash);
    assert (prefix + key)[|prefix|..] == key;
    assert prefix == [] ==> prefix + key == key;
  }

  /** One item of a command line that is a switch, with white space around it: how it is filed and written. */
  lemma SwitchItemMeans(
      l: Line, left: string, right: string, written: string, name: string, value: Option<string>, prefix: string,
      key: string, rest: seq<string>, slash: bool)
    requires AllSpaces(left) && AllSpaces(right) && NoSpaceAtEnds(written + name + ValueText(value))
    requires IsPrefixOf(written, name + ValueText(value), slash) && '=' !in name
    requires written != [] && name + ValueText(value) != []
    requires IsLowerSpelling(written + name, prefix + key) && IsPrefixOf(prefix, key, slash)
    ensures
      var v := ValueOrNone(value);
      var text := (if prefix == [] then "--" else prefix) + key + if v == [] then [] else "=" + v;
      Absorbed(l, [left + (written + name + ValueText(value)) + right] + rest, true, slash)
      == Absorbed(Line(l.front + [text], l.args, l.switches[key := v]), rest, true, slash)
  {
    hide AllSpaces, NoSpaceAtEnds, IsPrefixOf, IsLowerSpelling, WithSwitch, IsSwitch, Trim;
    var item, text := left + (written + name + ValueText(value)) + right, written + name + ValueText(value);
    TrimMeans(left, text, right);
    SwitchMeans(written, name, value, slash);
    TerminatorIsNone(slash);
    FilingMeans(l, written + name, prefix, key, ValueOrNone(value), slash);
    assert ([item] + rest)[0] == item && ([item] + rest)[1..] == rest;
  }

  lemma TerminatorIsNone(slash: bool)
    ensures SWITCH_TERMINATOR == "--" && IsSwitch("--", slash).None?
  {
  }

  /** Any other item is an argument, and behind the terminator everything is. */
  lemma ArgumentItemMeans(
      l: Line, left: string, text: string, right: string, parseSwitches: bool, rest: seq<string>, slash: bool)
    requires AllSpaces(left) && AllSpaces(right) && NoSpaceAtEnds(text)
    requires parseSwitches ==> text == "-" || text == "--" || (slash && text == "/") || IsPrefixOf("", text, slash)
    ensures Absorbed(l, [left + text + right] + rest, parseSwitches, slash)
         == Absorbed(Line(l.front, l.args + [text], l.switches), rest, parseSwitches && text != "--", slash)
  {
    hide AllSpaces, NoSpaceAtEnds, Trim;
    TrimMeans(left, text, right);
    var item := left + text + right;
    assert ([item] + rest)[0] == item && ([item] + rest)[1..] == rest;
  }

  // -------------------------------------------------------------------- keys

  ghost predicate HasNoCapitals(s: string) {
    forall i :: 0 <= i < |s| ==> !('A' <= s[i] <= 'Z')
  }

  ghost predicate KeysHaveNoCapitals(l: Line) {
    forall key :: key in l.switches ==> HasNoCapitals(key)
  }

  lemma LoweredHasNoCapitals(name: string, slash: bool)
    ensures HasNoCapitals(Key(name, slash))
  {
  }

  /** So nothing is ever filed under a name with a capital letter in it. */
  lemma {:induction false} AbsorbedKeysHaveNoCapitals(
      l: Line, items: seq<string>, parseSwitches: bool, slash: bool)
    requires KeysHaveNoCapitals(l)
    ensures KeysHaveNoCapitals(Absorbed(l, items, parseSwitches, slash))
    decreases |items|
  {
    hide Trim, IsSwitch, Key, Text, HasNoCapitals;
    if items != [] {
      var arg := Trim(items[0]);
      var stillParse := parseSwitches && arg != SWITCH_TERMINATOR;
      var sw := if stillParse then IsSwitch(arg, slash) else None;
      if sw.Some? {
        LoweredHasNoCapitals(sw.value.name, slash);
        AbsorbedKeysHaveNoCapitals(WithSwitch(l, sw.value, slash), items[1..], stillParse, slash);
      } else {
        AbsorbedKeysHaveNoCapitals(WithArg(l, arg), items[1..], stillParse, slash);
      }
    }
  }

  lemma ParsedKeysHaveNoCapitals(argv: seq<string>, slash: bool)
    ensures KeysHaveNoCapitals(Parsed(argv, slash))
  {
    hide Absorbed, Trim;
    if argv != [] {
      AbsorbedKeysHaveNoCapitals(Line([Trim(argv[0])], [], map[]), argv[1..], true, slash);
    }
  }
}
