/**
 Command lines: switches sorted to the front of `argv_`, a map of their values, and a lookup
 map whose entries point into that map.
 */
module CommandLines {
  import opened Prelude
  import opened ArgumentQuoting

  const SWITCH_TERMINATOR: string := "--"

  // -------------------------------------------------------------- text

  /** The code units of `kWhitespaceUTF16`. */
  predicate IsWhitespace(c: char) {
    var n := c as int;
    || 0x09 <= n <= 0x0D || n == 0x20 || n == 0x85 || n == 0xA0 || n == 0x1680
    || 0x2000 <= n <= 0x200A || n == 0x2028 || n == 0x2029 || n == 0x202F || n == 0x205F || n == 0x3000
  }

  function TrimLeading(s: string): (r: string)
    ensures |r| <= |s| && (r == s || |r| < |s|)
    ensures r != [] ==> !IsWhitespace(r[0])
    ensures s != [] && !IsWhitespace(s[0]) ==> r == s
  {
    if s == [] || !IsWhitespace(s[0]) then s else TrimLeading(s[1..])
  }

  function TrimTrailing(s: string): (r: string)
    ensures |r| <= |s| && r == s[..|r|] && (r == s || |r| < |s|)
    ensures r != [] ==> !IsWhitespace(r[|r| - 1])
    ensures s != [] && !IsWhitespace(s[|s| - 1]) ==> r == s
  {
    if s == [] || !IsWhitespace(s[|s| - 1]) then s else TrimTrailing(s[..|s| - 1])
  }

  /** `TrimWhitespace` at both ends: the result keeps the text between the first and the last good character. */
  function Trim(s: string): (r: string)
    ensures |r| <= |s| && (r == s || |r| < |s|)
    ensures r == s <==> s == [] || (!IsWhitespace(s[0]) && !IsWhitespace(s[|s| - 1]))
    ensures r != [] ==> !IsWhitespace(r[0]) && !IsWhitespace(r[|r| - 1])
  {
    TrimTrailing(TrimLeading(s))
  }

  function LowerChar(c: char): (r: char)
    ensures IsWhitespace(r) == IsWhitespace(c)
    ensures r == '=' <==> c == '='
    ensures r == '-' <==> c == '-'
    ensures r == '/' <==> c == '/'
  {
    if 'A' <= c <= 'Z' then c - 'A' + 'a' else c
  }

  /** `ToLowerASCII`. */
  function Lower(s: string): (r: string)
    ensures |r| == |s|
    ensures forall i :: 0 <= i < |s| ==> r[i] == LowerChar(s[i])
  {
    seq(|s|, i requires 0 <= i < |s| => LowerChar(s[i]))
  }

  // -------------------------------------------------------------- switches

  /** `GetSwitchPrefixLength`; `slash` says whether '/' starts a switch. */
  function PrefixLength(s: string, slash: bool): (n: nat)
    ensures n <= |s|
  {
    if SWITCH_TERMINATOR <= s then 2
    else if "-" <= s || (slash && "/" <= s) then 1
    else 0
  }

  /** The text up to the first '='. */
  function NameOf(s: string): (r: string)
    ensures r <= s && '=' !in r
    ensures |r| < |s| ==> s[|r|] == '='
  {
    if s == [] || s[0] == '=' then [] else [s[0]] + NameOf(s[1..])
  }

  /** The text behind the first '=', if there is one. */
  function ValueOf(s: string): string {
    var n := |NameOf(s)|;
    if n == |s| then [] else s[n + 1..]
  }

  datatype Switch = Switch(name: string, value: string)

  function IsSwitch(s: string, slash: bool): Option<Switch> {
    var n := PrefixLength(s, slash);
    if n == 0 || n == |s| then None else Some(Switch(NameOf(s), ValueOf(s)))
  }

  /** The key a switch is filed under, and the text that stands for it in `argv_`. */
  function Key(name: string, slash: bool): string {
    Lower(name)[PrefixLength(Lower(name), slash)..]
  }

  function Text(sw: Switch, slash: bool): string {
    var name := Lower(sw.name);
    (if PrefixLength(name, slash) == 0 then "--" + name else name) + (if sw.value == [] then [] else "=" + sw.value)
  }

  // -------------------------------------------------------------- command lines as values

  /** `argv_` cut at `begin_args_`, and `switches_`. */
  datatype Line = Line(front: seq<string>, args: seq<string>, switches: map<string, string>)

  function WithSwitch(l: Line, sw: Switch, slash: bool): Line {
    Line(l.front + [Text(sw, slash)], l.args, l.switches[Key(sw.name, slash) := sw.value])
  }

  function WithArg(l: Line, arg: string): Line {
    l.(args := l.args + [arg])
  }

  /** `AppendSwitchesAndArguments`, on what is behind the program. */
  function Absorbed(l: Line, items: seq<string>, parseSwitches: bool, slash: bool): Line
    decreases |items|
  {
    if items == [] then l
    else
      var arg := Trim(items[0]);
      var stillParse := parseSwitches && arg != SWITCH_TERMINATOR;
      var sw := if stillParse then IsSwitch(arg, slash) else None;
      Absorbed(if sw.Some? then WithSwitch(l, sw.value, slash) else WithArg(l, arg), items[1..], stillParse, slash)
  }

  /** `InitFromArgv`. */
  function Parsed(argv: seq<string>, slash: bool): Line {
    if argv == [] then Line([[]], [], map[])
    else Absorbed(Line([Trim(argv[0])], [], map[]), argv[1..], true, slash)
  }

  function Argv(l: Line): seq<string> {
    l.front + l.args
  }

  // -------------------------------------------------------------- the class

  /** What `GetArgumentsStringInternal` writes for one item: of a switch only the value is quoted. */
  function ItemText(item: string, parseSwitches: bool, slash: bool, quotePlaceholders: bool): string {
    var sw := if parseSwitches then IsSwitch(item, slash) else None;
    if sw.None? then Quoted(item, quotePlaceholders)
    else sw.value.name + if sw.value.value == [] then [] else "=" + Quoted(sw.value.value, quotePlaceholders)
  }

  /** The texts of the items, one space between them. */
  function ItemsText(items: seq<string>, parseSwitches: bool, slash: bool, quotePlaceholders: bool): string
    decreases |items|, 0
  {
    if items == [] then []
    else
      var stillParse := parseSwitches && items[0] != SWITCH_TERMINATOR;
      ItemText(items[0], stillParse, slash, quotePlaceholders)
      + ItemsBehind(items[1..], stillParse, slash, quotePlaceholders)
  }

  function ItemsBehind(items: seq<string>, parseSwitches: bool, slash: bool, quotePlaceholders: bool): string
    decreases |items|, 1
  {
    if items == [] then [] else " " + ItemsText(items, parseSwitches, slash, quotePlaceholders)
  }

  /** A pointer to a value in a map: the object whose `switches` it points into, and the key of the node there. */
  datatype Pointer = Pointer(owner: CommandLine, key: string)

  class CommandLine {
    /** `switch_prefix_count`, which the process fixes before its first command line. */
    const slash: bool
    var argv: seq<string>
    var switches: map<string, string>
    /** StringPiece keys and pointers to the values. */
    var switchesByStringPiece: map<string, Pointer>
    var beginArgs: nat

    ghost predicate InBounds()
      reads this
    {
      1 <= beginArgs <= |argv|
    }

    /** The lookup map has an entry for each switch, and it points into this object's own `switches`. */
    ghost predicate Mirrors()
      reads this
    {
      && switchesByStringPiece.Keys == switches.Keys
      && forall key :: key in switchesByStringPiece ==> switchesByStringPiece[key] == Pointer(this, key)
    }

    ghost predicate Valid()
      reads this
    {
      InBounds() && Mirrors()
    }

    ghost function View(): Line
      requires InBounds()
      reads this
    {
      Line(argv[..beginArgs], argv[beginArgs..], switches)
    }

    constructor (argv: seq<string>, slash: bool)
      ensures Valid() && this.slash == slash
      ensures View() == Parsed(argv, slash) && this.argv == Argv(Parsed(argv, slash))
    {
      this.slash := slash;
      this.argv := [[]];
      this.switches := map[];
      this.switchesByStringPiece := map[];
      this.beginArgs := 1;
      new;
      InitFromArgv(argv);
    }

    /** The copy constructor. */
    constructor Copy(other: CommandLine)
      requires other.Valid()
      ensures Valid() && slash == other.slash && argv == other.argv && View() == other.View()
    {
      slash := other.slash;
      argv := other.argv;
      switches := other.switches;
      switchesByStringPiece := map[];
      beginArgs := other.beginArgs;
      new;
      ResetStringPieces();
    }

    /** The assignment operator. */
    method Assign(other: CommandLine)
      requires other.Valid()
      modifies this
      ensures Valid() && argv == old(other.argv) && View() == old(other.View())
    {
      argv := other.argv;
      switches := other.switches;
      beginArgs := other.beginArgs;
      ResetStringPieces();
    }

    method SetProgram(program: string)
      requires Valid()
      modifies this`argv
      ensures Valid() && argv == old(argv)[0 := Trim(program)]
    {
      argv := argv[0 := Trim(program)];
    }

    method InitFromArgv(newArgv: seq<string>)
      modifies this
      ensures Valid() && View() == Parsed(newArgv, slash) && argv == Argv(Parsed(newArgv, slash))
    {
      hide Absorbed, Trim;
      argv := [[]];
      switches := map[];
      switchesByStringPiece := map[];
      beginArgs := 1;
      SetProgram(if newArgv == [] then [] else newArgv[0]);
      assert argv[..1] == argv && argv[1..] == [] && |Trim([])| == 0;
      assert argv == [Trim(if newArgv == [] then [] else newArgv[0])];
      AppendSwitchesAndArguments(newArgv);
      assert argv == argv[..beginArgs] + argv[beginArgs..];
    }

    /** Appends switches and arguments, keeping switches before arguments. */
    method AppendSwitchesAndArguments(items: seq<string>)
      requires Valid()
      modifies this
      ensures Valid()
      ensures View() == old(if items == [] then View() else Absorbed(View(), items[1..], true, slash))
    {
      hide Trim, IsSwitch, WithSwitch, WithArg;
      var parseSwitches := true;
      var i := 1;
      while i < |items|
        invariant Valid() && 1 <= i && (items != [] ==> i <= |items|)
        invariant items == [] ==> View() == old(View())
        invariant items != [] ==>
                    Absorbed(View(), items[i..], parseSwitches, slash) == old(Absorbed(View(), items[1..], true, slash))
      {
        assert items[i..][1..] == items[i + 1..];
        var arg := Trim(items[i]);
        parseSwitches := parseSwitches && arg != SWITCH_TERMINATOR;
        var sw := if parseSwitches then IsSwitch(arg, slash) else None;
        if sw.Some? {
          AppendSwitchNative(sw.value.name, sw.value.value);
        } else {
          AppendArgNative(arg);
        }
        i := i + 1;
      }
    }

    method AppendSwitchNative(switchString: string, value: string)
      requires Valid()
      modifies this
      ensures Valid() && View() == WithSwitch(old(View()), Switch(switchString, value), slash)
    {
      hide Lower, PrefixLength;
      var switchKey := Lower(switchString);
      var combined := switchKey;
      var prefixLength := PrefixLength(combined, slash);
      var key := switchKey[prefixLength..];
      switches := switches[key := value];
      switchesByStringPiece := switchesByStringPiece[key := Pointer(this, key)];
      if prefixLength == 0 {
        combined := "--" + combined;
      }
      if value != [] {
        combined := combined + ("=" + value);
      }
      assert combined == Text(Switch(switchString, value), slash);
      argv := argv[..beginArgs] + [combined] + argv[beginArgs..];
      beginArgs := beginArgs + 1;
      assert argv[..beginArgs] == old(argv[..beginArgs]) + [combined];
      assert argv[beginArgs..] == old(argv[beginArgs..]);
    }

    method AppendArgNative(value: string)
      requires Valid()
      modifies this`argv
      ensures Valid() && View() == WithArg(old(View()), value)
    {
      argv := argv + [value];
    }

    method GetArgumentsStringInternal(quotePlaceholders: bool) returns (params: string)
      ensures params == if argv == [] then [] else ItemsText(argv[1..], true, slash, quotePlaceholders)
    {
      hide ItemText, ItemsText, ItemsBehind, IsSwitch, Quoted;
      params := [];
      var parseSwitches := true;
      var i := 1;
      ghost var all := if argv == [] then [] else ItemsText(argv[1..], true, slash, quotePlaceholders);
      NoItems(true, slash, quotePlaceholders);
      while i < |argv|
        invariant 1 <= i && (i == 1 || i <= |argv|)
        invariant i == 1 ==> params == [] && parseSwitches
        invariant i > 1 ==> all == params + ItemsBehind(argv[i..], parseSwitches, slash, quotePlaceholders)
      {
        var arg := argv[i];
        ghost var behind := ItemsBehind(argv[i..], parseSwitches, slash, quotePlaceholders);
        ItemsStep(argv, i, parseSwitches, slash, quotePlaceholders);
        parseSwitches := parseSwitches && arg != SWITCH_TERMINATOR;
        ghost var text := ItemText(arg, parseSwitches, slash, quotePlaceholders);
        ghost var rest := ItemsBehind(argv[i + 1..], parseSwitches, slash, quotePlaceholders);
        TextIsNext(all, params, text, rest, i == 1);
        if i > 1 {
          params := params + " ";
        }
        ItemTextIs(params, arg, parseSwitches, slash, quotePlaceholders);
        var sw := if parseSwitches then IsSwitch(arg, slash) else None;
        if sw.Some? {
          params := params + sw.value.name;
          var switchValue := sw.value.value;
          if switchValue != [] {
            switchValue := QuoteForCommandLineToArgvW(switchValue, quotePlaceholders);
            params := params + ("=" + switchValue);
          }
        } else {
          arg := QuoteForCommandLineToArgvW(arg, quotePlaceholders);
          params := params + arg;
        }
        i := i + 1;
      }
      assert argv != [] ==> argv[i..] == [];
      NoItems(parseSwitches, slash, quotePlaceholders);
    }

    /** Makes the lookup map a mirror of `switches` again. */
    method ResetStringPieces()
      modifies this`switchesByStringPiece
      ensures Mirrors()
    {
      switchesByStringPiece := map[];
      var rest := switches.Keys;
      while rest != {}
        invariant rest <= switches.Keys && switchesByStringPiece.Keys == switches.Keys - rest
        invariant forall key :: key in switchesByStringPiece ==> switchesByStringPiece[key] == Pointer(this, key)
        decreases |rest|
      {
        var key :| key in rest;
        switchesByStringPiece := switchesByStringPiece[key := Pointer(this, key)];
        rest := rest - {key};
      }
    }

    method GetSwitchValueNative(switchString: string) returns (value: string)
      requires Valid()
      ensures value == if switchString in switches then switches[switchString] else []
    {
      if switchString !in switchesByStringPiece {
        return [];
      }
      var pointer := switchesByStringPiece[switchString];
      return pointer.owner.switches[pointer.key];
    }
  }

  lemma NoItems(parseSwitches: bool, slash: bool, quotePlaceholders: bool)
    ensures ItemsText([], parseSwitches, slash, quotePlaceholders) == []
    ensures ItemsBehind([], parseSwitches, slash, quotePlaceholders) == []
  {
  }

  lemma ItemsStep(argv: seq<string>, i: nat, parseSwitches: bool, slash: bool, quotePlaceholders: bool)
    requires i < |argv|
    ensures var stillParse := parseSwitches && argv[i] != SWITCH_TERMINATOR;
            var whole := ItemsText(argv[i..], parseSwitches, slash, quotePlaceholders);
            && whole == ItemText(argv[i], stillParse, slash, quotePlaceholders)
                        + ItemsBehind(argv[i + 1..], stillParse, slash, quotePlaceholders)
            && ItemsBehind(argv[i..], parseSwitches, slash, quotePlaceholders) == " " + whole
  {
    hide ItemText;
    assert argv[i..][1..] == argv[i + 1..];
  }

  /** Where the loop writes the next text, behind a space unless it is the first. */
  lemma TextIsNext(all: string, before: string, text: string, rest: string, isFirst: bool)
    requires if isFirst then before == [] && all == text + rest else all == before + (" " + (text + rest))
    ensures all == (if isFirst then before else before + " ") + text + rest
  {
    if isFirst {
      assert [] + text == text;
    } else {
      Associative(before, " ", text + rest);
      Associative(before + " ", text, rest);
    }
  }

  lemma ItemTextIs(before: string, item: string, parseSwitches: bool, slash: bool, quotePlaceholders: bool)
    ensures var sw := if parseSwitches then IsSwitch(item, slash) else None;
            before + ItemText(item, parseSwitches, slash, quotePlaceholders) ==
              if sw.None? then before + Quoted(item, quotePlaceholders)
              else if sw.value.value == [] then before + sw.value.name
              else before + sw.value.name + ("=" + Quoted(sw.value.value, quotePlaceholders))
  {
    hide IsSwitch, Quoted;
  }

  /** An object that took over the lookup map of another would look up switches in the wrong place. */
  lemma TakenOverIsNoMirror(l: CommandLine, other: CommandLine)
    requires other.Mirrors() && l.switchesByStringPiece == other.switchesByStringPiece
    ensures l.Mirrors() <==> l == other || l.switches == other.switches == map[]
  {
    if l.Mirrors() && l.switches != map[] {
      var key :| key in l.switches;
      assert l.switchesByStringPiece[key] == Pointer(l, key) == Pointer(other, key);
    }
    if l.switches == map[] {
      assert l.switches.Keys == {};
    }
    if l.switches == map[] == other.switches {
      assert other.switches.Keys == {};
    }
  }

  // -------------------------------------------------------------- the index

  /** What the switch texts say, the later ones overriding the earlier ones. */
  function Indexed(texts: seq<string>, slash: bool): map<string, string> {
    if texts == [] then map[]
    else
      var last := texts[|texts| - 1];
      Indexed(texts[..|texts| - 1], slash)[KeyOf(last, slash) := ValueOf(last)]
  }

  function KeyOf(text: string, slash: bool): string {
    NameOf(text)[PrefixLength(NameOf(text), slash)..]
  }

  ghost predicate IndexInv(l: Line, slash: bool) {
    |l.front| >= 1 && l.switches == Indexed(l.front[1..], slash)
  }

  /** The index has the keys of the texts and no others. */
  lemma {:induction false} IndexHasTheKeys(texts: seq<string>, key: string, slash: bool)
    ensures key in Indexed(texts, slash) <==> exists i :: 0 <= i < |texts| && KeyOf(texts[i], slash) == key
  {
    if texts != [] {
      hide KeyOf, ValueOf;
      var n := |texts| - 1;
      IndexHasTheKeys(texts[..n], key, slash);
      if i :| 0 <= i < n && KeyOf(texts[i], slash) == key {
        assert texts[..n][i] == texts[i];
      }
    }
  }

  /** The index gives the value of the last occurrence. */
  lemma {:induction false} LastOccurrenceWins(texts: seq<string>, i: nat, slash: bool)
    requires i < |texts|
    requires forall j :: i < j < |texts| ==> KeyOf(texts[j], slash) != KeyOf(texts[i], slash)
    ensures KeyOf(texts[i], slash) in Indexed(texts, slash)
    ensures Indexed(texts, slash)[KeyOf(texts[i], slash)] == ValueOf(texts[i])
  {
    hide KeyOf, ValueOf;
    var n := |texts| - 1;
    if i < n {
      assert texts[..n][i] == texts[i];
      LastOccurrenceWins(texts[..n], i, slash);
    }
  }

  lemma {:induction false} FirstEquals(name: string, behind: string)
    requires '=' !in name
    ensures NameOf(name) == name && NameOf(name + "=" + behind) == name
  {
    if name != [] {
      FirstEquals(name[1..], behind);
      assert (name + "=" + behind)[1..] == name[1..] + "=" + behind;
    }
  }

  lemma LowerKeepsPrefix(name: string, slash: bool)
    ensures PrefixLength(Lower(name), slash) == PrefixLength(name, slash)
    ensures '=' in Lower(name) <==> '=' in name
  {
    if i :| 0 <= i < |name| && name[i] == '=' {
      assert Lower(name)[i] == '=';
    }
  }

  /** The name as it stands in the text of a switch, prefix included. */
  function FullName(name: string, slash: bool): string {
    if PrefixLength(Lower(name), slash) == 0 then "--" + Lower(name) else Lower(name)
  }

  lemma FullNameIs(name: string, slash: bool)
    requires '=' !in name
    ensures '=' !in FullName(name, slash)
    ensures FullName(name, slash)[PrefixLength(FullName(name, slash), slash)..] == Key(name, slash)
  {
    LowerKeepsPrefix(name, slash);
  }

  /** A switch text reads as its key and its value, provided the name has no '=' of its own. */
  lemma TextReadsBack(sw: Switch, slash: bool)
    requires '=' !in sw.name
    ensures KeyOf(Text(sw, slash), slash) == Key(sw.name, slash) && ValueOf(Text(sw, slash)) == sw.value
  {
    var full := FullName(sw.name, slash);
    assert Text(sw, slash) == if sw.value == [] then full else full + "=" + sw.value;
    FullNameIs(sw.name, slash);
    hide FullName, Lower, Key, Text, PrefixLength;
    FirstEquals(full, sw.value);
    assert (full + "=" + sw.value)[|full| + 1..] == sw.value;
  }

  lemma {:induction false} KeysHaveNoEquals(texts: seq<string>, key: string, slash: bool)
    requires key in Indexed(texts, slash)
    ensures '=' !in key
  {
    if key != KeyOf(texts[|texts| - 1], slash) {
      KeysHaveNoEquals(texts[..|texts| - 1], key, slash);
    }
  }

  /** Appending a switch keeps `switches_` and `argv_` in step exactly when its name has no '='. */
  lemma AppendKeepsIndex(l: Line, sw: Switch, slash: bool)
    requires IndexInv(l, slash)
    ensures IndexInv(WithSwitch(l, sw, slash), slash) <==> '=' !in sw.name
  {
    hide Text, Key, KeyOf, ValueOf;
    var texts, text := l.front[1..], Text(sw, slash);
    assert WithSwitch(l, sw, slash).front[1..] == texts + [text];
    IndexedSnoc(texts, text, slash);
    if '=' !in sw.name {
      TextReadsBack(sw, slash);
    } else if IndexInv(WithSwitch(l, sw, slash), slash) {
      EqualsStaysInKey(sw.name, slash);
      KeysHaveNoEquals(texts + [text], Key(sw.name, slash), slash);
      assert false;
    }
  }

  lemma IndexedSnoc(texts: seq<string>, text: string, slash: bool)
    ensures Indexed(texts + [text], slash) == Indexed(texts, slash)[KeyOf(text, slash) := ValueOf(text)]
  {
    hide KeyOf, ValueOf;
    assert (texts + [text])[..|texts|] == texts;
  }

  lemma EqualsStaysInKey(name: string, slash: bool)
    requires '=' in name
    ensures '=' in Key(name, slash)
  {
    LowerKeepsPrefix(name, slash);
    var i :| 0 <= i < |name| && name[i] == '=';
    var n := PrefixLength(Lower(name), slash);
    assert n <= i && Key(name, slash)[i - n] == '=';
  }

  lemma {:induction false} AbsorbingKeepsIndex(l: Line, items: seq<string>, parseSwitches: bool, slash: bool)
    requires IndexInv(l, slash)
    ensures IndexInv(Absorbed(l, items, parseSwitches, slash), slash)
    decreases |items|
  {
    if items != [] {
      var arg := Trim(items[0]);
      var stillParse := parseSwitches && arg != SWITCH_TERMINATOR;
      if stillParse && IsSwitch(arg, slash).Some? {
        var sw := IsSwitch(arg, slash).value;
        AppendKeepsIndex(l, sw, slash);
        AbsorbingKeepsIndex(WithSwitch(l, sw, slash), items[1..], stillParse, slash);
      } else {
        assert IndexInv(WithArg(l, arg), slash);
        AbsorbingKeepsIndex(WithArg(l, arg), items[1..], stillParse, slash);
      }
    }
  }

  /** Each switch maps to the value of its last occurrence among the switches of `argv_`. */
  lemma ParsedIsIndexed(argv: seq<string>, slash: bool)
    ensures IndexInv(Parsed(argv, slash), slash)
  {
    if argv != [] {
      AbsorbingKeepsIndex(Line([Trim(argv[0])], [], map[]), argv[1..], true, slash);
    }
  }
}
