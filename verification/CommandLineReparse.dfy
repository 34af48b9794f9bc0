/**
 Parsing the `argv_` of a parsed command line again: what comes out, and when it is the same.
 */
module CommandLineReparse {
  import opened Prelude
  import opened CommandLines

  // -------------------------------------------------------------- parsing in one piece

  /** The switch an item is parsed as, if any, and whether the items behind it are looked at. */
  function Reading(item: string, parseSwitches: bool, slash: bool): (Option<Switch>, bool) {
    var still := parseSwitches && Trim(item) != SWITCH_TERMINATOR;
    (if still then IsSwitch(Trim(item), slash) else None, still)
  }

  function SwitchesOf(items: seq<string>, parseSwitches: bool, slash: bool): seq<Switch> {
    if items == [] then []
    else
      var (sw, still) := Reading(items[0], parseSwitches, slash);
      (if sw.Some? then [sw.value] else []) + SwitchesOf(items[1..], still, slash)
  }

  function ArgsOf(items: seq<string>, parseSwitches: bool, slash: bool): seq<string> {
    if items == [] then []
    else
      var (sw, still) := Reading(items[0], parseSwitches, slash);
      (if sw.Some? then [] else [Trim(items[0])]) + ArgsOf(items[1..], still, slash)
  }

  function Texts(switches: seq<Switch>, slash: bool): seq<string> {
    if switches == [] then [] else [Text(switches[0], slash)] + Texts(switches[1..], slash)
  }

  function Filed(m: map<string, string>, switches: seq<Switch>, slash: bool): map<string, string>
    decreases |switches|
  {
    if switches == [] then m
    else Filed(m[Key(switches[0].name, slash) := switches[0].value], switches[1..], slash)
  }

  lemma SwitchesStep(first: string, later: seq<string>, parseSwitches: bool, slash: bool)
    ensures SwitchesOf([first] + later, parseSwitches, slash) ==
            var (sw, still) := Reading(first, parseSwitches, slash);
            (if sw.Some? then [sw.value] else []) + SwitchesOf(later, still, slash)
  {
    hide Reading;
    assert ([first] + later)[1..] == later;
  }

  lemma ArgsStep(first: string, later: seq<string>, parseSwitches: bool, slash: bool)
    ensures ArgsOf([first] + later, parseSwitches, slash) ==
            var (sw, still) := Reading(first, parseSwitches, slash);
            (if sw.Some? then [] else [Trim(first)]) + ArgsOf(later, still, slash)
  {
    hide Reading, Trim;
    assert ([first] + later)[1..] == later;
  }

  /** One item of `AppendSwitchesAndArguments`. */
  function Step(l: Line, item: string, parseSwitches: bool, slash: bool): Line {
    var sw := Reading(item, parseSwitches, slash).0;
    if sw.Some? then WithSwitch(l, sw.value, slash) else WithArg(l, Trim(item))
  }

  lemma AbsorbedStep(l: Line, items: seq<string>, parseSwitches: bool, slash: bool)
    requires items != []
    ensures Absorbed(l, items, parseSwitches, slash) ==
            Absorbed(Step(l, items[0], parseSwitches, slash), items[1..],
                     Reading(items[0], parseSwitches, slash).1, slash)
  {
    hide IsSwitch, Trim, WithSwitch, WithArg;
  }

  function TextOf(sw: Option<Switch>, slash: bool): seq<string> {
    if sw.Some? then [Text(sw.value, slash)] else []
  }

  lemma StepShape(l: Line, item: string, parseSwitches: bool, slash: bool)
    ensures
      var (l', sw) := (Step(l, item, parseSwitches, slash), Reading(item, parseSwitches, slash).0);
      && l'.front == l.front + TextOf(sw, slash)
      && l'.args == l.args + (if sw.Some? then [] else [Trim(item)])
      && l'.switches == if sw.Some? then l.switches[Key(sw.value.name, slash) := sw.value.value] else l.switches
  {
    hide Reading, Trim, Text, Key;
  }

  /** What the items behind the first one contribute, and the first one before them. */
  lemma FirstItem(items: seq<string>, parseSwitches: bool, slash: bool)
    requires items != []
    ensures
      var (sw, still) := Reading(items[0], parseSwitches, slash);
      && Texts(SwitchesOf(items, parseSwitches, slash), slash)
         == TextOf(sw, slash) + Texts(SwitchesOf(items[1..], still, slash), slash)
      && ArgsOf(items, parseSwitches, slash)
         == (if sw.Some? then [] else [Trim(items[0])]) + ArgsOf(items[1..], still, slash)
  {
    hide Reading, Trim, Text;
    var (sw, still) := Reading(items[0], parseSwitches, slash);
    var later := SwitchesOf(items[1..], still, slash);
    if sw.Some? {
      TextsCons(sw.value, later, slash);
    } else {
      assert [] + later == later;
    }
  }

  lemma {:induction false} AbsorbedFront(l: Line, items: seq<string>, parseSwitches: bool, slash: bool)
    ensures Absorbed(l, items, parseSwitches, slash).front
            == l.front + Texts(SwitchesOf(items, parseSwitches, slash), slash)
    decreases |items|
  {
    hide Reading, Trim, Text, Key, Step, TextOf;
    if items != [] {
      var (sw, still) := Reading(items[0], parseSwitches, slash);
      AbsorbedStep(l, items, parseSwitches, slash);
      AbsorbedFront(Step(l, items[0], parseSwitches, slash), items[1..], still, slash);
      hide Absorbed, SwitchesOf, Texts;
      StepShape(l, items[0], parseSwitches, slash);
      FirstItem(items, parseSwitches, slash);
      Associative(l.front, TextOf(sw, slash), Texts(SwitchesOf(items[1..], still, slash), slash));
    }
  }

  lemma {:induction false} AbsorbedArgs(l: Line, items: seq<string>, parseSwitches: bool, slash: bool)
    ensures Absorbed(l, items, parseSwitches, slash).args == l.args + ArgsOf(items, parseSwitches, slash)
    decreases |items|
  {
    hide Reading, Trim, Text, Key, Step, TextOf;
    if items != [] {
      var (sw, still) := Reading(items[0], parseSwitches, slash);
      AbsorbedStep(l, items, parseSwitches, slash);
      AbsorbedArgs(Step(l, items[0], parseSwitches, slash), items[1..], still, slash);
      hide Absorbed, ArgsOf;
      StepShape(l, items[0], parseSwitches, slash);
      FirstItem(items, parseSwitches, slash);
      Associative(l.args, if sw.Some? then [] else [Trim(items[0])], ArgsOf(items[1..], still, slash));
    }
  }

  lemma FiledCons(m: map<string, string>, sw: Switch, later: seq<Switch>, slash: bool)
    ensures Filed(m, [sw] + later, slash) == Filed(m[Key(sw.name, slash) := sw.value], later, slash)
  {
    hide Key;
    assert ([sw] + later)[1..] == later;
  }

  lemma FiledFirst(m: map<string, string>, items: seq<string>, parseSwitches: bool, slash: bool)
    requires items != []
    ensures
      var (sw, still) := Reading(items[0], parseSwitches, slash);
      Filed(m, SwitchesOf(items, parseSwitches, slash), slash)
      == Filed(if sw.Some? then m[Key(sw.value.name, slash) := sw.value.value] else m,
               SwitchesOf(items[1..], still, slash), slash)
  {
    hide Reading, Key, Filed;
    var (sw, still) := Reading(items[0], parseSwitches, slash);
    var later := SwitchesOf(items[1..], still, slash);
    if sw.Some? {
      assert SwitchesOf(items, parseSwitches, slash) == [sw.value] + later;
      FiledCons(m, sw.value, later, slash);
    } else {
      assert SwitchesOf(items, parseSwitches, slash) == later;
    }
  }

  lemma {:induction false} AbsorbedSwitches(l: Line, items: seq<string>, parseSwitches: bool, slash: bool)
    ensures Absorbed(l, items, parseSwitches, slash).switches
            == Filed(l.switches, SwitchesOf(items, parseSwitches, slash), slash)
    decreases |items|
  {
    hide Reading, Trim, Text, Key, Step, TextOf;
    if items != [] {
      AbsorbedStep(l, items, parseSwitches, slash);
      AbsorbedSwitches(Step(l, items[0], parseSwitches, slash), items[1..],
                       Reading(items[0], parseSwitches, slash).1, slash);
      hide Absorbed, SwitchesOf, Filed;
      StepShape(l, items[0], parseSwitches, slash);
      FiledFirst(l.switches, items, parseSwitches, slash);
    }
  }

  // -------------------------------------------------------------- single switches

  /** The switch came from an item: it has a prefix, no '=' in its name, and its value ends in text. */
  ghost predicate FromItem(sw: Switch, slash: bool) {
    && PrefixLength(sw.name, slash) > 0 && '=' !in sw.name
    && (sw.value != [] ==> !IsWhitespace(sw.value[|sw.value| - 1]))
  }

  /**
   A switch whose '=' has nothing behind it loses that '='; it survives if its name goes on behind
   the prefix and does not end in whitespace, which is now the end of the item.
   */
  predicate Kept(sw: Switch, slash: bool) {
    sw.value != [] || (PrefixLength(sw.name, slash) < |sw.name| && !IsWhitespace(sw.name[|sw.name| - 1]))
  }

  function Lowered(sw: Switch): Switch {
    Switch(Lower(sw.name), sw.value)
  }

  lemma {:induction false} NameKeepsPrefix(s: string, slash: bool)
    ensures PrefixLength(NameOf(s), slash) == PrefixLength(s, slash)
  {
    if |s| >= 2 {
      assert s[1..][1..] == s[2..];
    }
  }

  lemma ItemGivesFromItem(s: string, slash: bool)
    requires Trim(s) == s && IsSwitch(s, slash).Some?
    ensures FromItem(IsSwitch(s, slash).value, slash)
  {
    NameKeepsPrefix(s, slash);
  }

  /** The text of a switch is its lower-case name and, where there is one, its value. */
  lemma TextOfItem(sw: Switch, slash: bool)
    requires FromItem(sw, slash)
    ensures Text(sw, slash) == Lower(sw.name) + (if sw.value == [] then [] else "=" + sw.value)
    ensures Text(Lowered(sw), slash) == Text(sw, slash) && Key(Lowered(sw).name, slash) == Key(sw.name, slash)
  {
    LowerKeepsPrefix(sw.name, slash);
    assert Lower(Lower(sw.name)) == Lower(sw.name);
  }

  /** The text is never longer than the item, and of the same length only if nothing is dropped. */
  lemma TextIsShort(s: string, slash: bool)
    requires Trim(s) == s && IsSwitch(s, slash).Some?
    ensures |Text(IsSwitch(s, slash).value, slash)| <= |s|
  {
    ItemGivesFromItem(s, slash);
    TextOfItem(IsSwitch(s, slash).value, slash);
  }

  lemma PartsOfText(sw: Switch, slash: bool)
    requires FromItem(sw, slash)
    ensures NameOf(Text(sw, slash)) == Lower(sw.name) && ValueOf(Text(sw, slash)) == sw.value
  {
    hide Text, Lower, LowerChar, PrefixLength, NameOf, IsWhitespace;
    LowerKeepsPrefix(sw.name, slash);
    TextOfItem(sw, slash);
    FirstEquals(Lower(sw.name), sw.value);
    EqualsBetween(Lower(sw.name), sw.value);
  }

  lemma EqualsBetween(name: string, value: string)
    ensures name + ("=" + value) == name + "=" + value && (name + "=" + value)[|name| + 1..] == value
    ensures name + [] == name
  {
  }

  lemma PrefixOfText(sw: Switch, slash: bool)
    requires FromItem(sw, slash)
    ensures PrefixLength(Text(sw, slash), slash) == PrefixLength(sw.name, slash)
  {
    hide Text, PrefixLength;
    PartsOfText(sw, slash);
    NameKeepsPrefix(Text(sw, slash), slash);
    LowerKeepsPrefix(sw.name, slash);
  }

  lemma EndsOfText(sw: Switch, slash: bool)
    requires FromItem(sw, slash)
    ensures Text(sw, slash) != [] && !IsWhitespace(Text(sw, slash)[0])
    ensures IsWhitespace(Text(sw, slash)[|Text(sw, slash)| - 1])
            <==> sw.value == [] && IsWhitespace(sw.name[|sw.name| - 1])
  {
    assert !IsWhitespace(sw.name[0]);
    hide Text, IsWhitespace, LowerChar, PrefixLength;
    TextOfItem(sw, slash);
  }

  /** The text of a switch is read as a switch again exactly if the switch is kept. */
  lemma TextReadsAsSwitch(sw: Switch, slash: bool)
    requires FromItem(sw, slash)
    ensures Kept(sw, slash) <==> Trim(Text(sw, slash)) == Text(sw, slash) && IsSwitch(Text(sw, slash), slash).Some?
  {
    hide Text, PrefixLength, Trim, IsWhitespace, Lower, NameOf, ValueOf;
    EndsOfText(sw, slash);
    PrefixOfText(sw, slash);
    LengthOfText(sw, slash);
  }

  lemma LengthOfText(sw: Switch, slash: bool)
    requires FromItem(sw, slash)
    ensures sw.value == [] ==> |Text(sw, slash)| == |sw.name|
    ensures sw.value != [] ==> |Text(sw, slash)| > |sw.name|
  {
    hide Text;
    TextOfItem(sw, slash);
  }

  /** And then it is read as that switch, in lower case. */
  lemma KeptReadsBack(sw: Switch, slash: bool)
    requires FromItem(sw, slash) && Kept(sw, slash)
    ensures Reading(Text(sw, slash), true, slash) == (Some(Lowered(sw)), true)
  {
    TextReadsAsSwitch(sw, slash);
    PartsOfText(sw, slash);
    hide Text, Trim;
    assert IsSwitch(SWITCH_TERMINATOR, slash) == None;
  }

  // -------------------------------------------------------------- whole command lines

  ghost predicate AllFromItems(switches: seq<Switch>, slash: bool) {
    forall i :: 0 <= i < |switches| ==> FromItem(switches[i], slash)
  }

  ghost predicate AllKept(switches: seq<Switch>, slash: bool) {
    forall i :: 0 <= i < |switches| ==> Kept(switches[i], slash)
  }

  lemma AllFromItemsCons(sw: Switch, rest: seq<Switch>, slash: bool)
    ensures AllFromItems([sw] + rest, slash) <==> FromItem(sw, slash) && AllFromItems(rest, slash)
  {
    hide FromItem;
    assert ([sw] + rest)[0] == sw;
    assert forall i :: 0 <= i < |rest| ==> rest[i] == ([sw] + rest)[i + 1];
  }

  lemma AllSplit(switches: seq<Switch>, slash: bool)
    requires switches != []
    ensures AllKept(switches, slash) <==> Kept(switches[0], slash) && AllKept(switches[1..], slash)
    ensures AllFromItems(switches, slash) ==> FromItem(switches[0], slash) && AllFromItems(switches[1..], slash)
  {
    hide Kept, FromItem;
    assert forall i :: 1 <= i < |switches| ==> switches[i] == switches[1..][i - 1];
  }

  function AllLowered(switches: seq<Switch>): seq<Switch> {
    if switches == [] then [] else [Lowered(switches[0])] + AllLowered(switches[1..])
  }

  lemma {:induction false} SwitchesComeFromItems(items: seq<string>, parseSwitches: bool, slash: bool)
    ensures AllFromItems(SwitchesOf(items, parseSwitches, slash), slash)
  {
    if items == [] {
    } else {
      hide IsSwitch, FromItem, AllFromItems;
      var (sw, still) := Reading(items[0], parseSwitches, slash);
      SwitchesComeFromItems(items[1..], still, slash);
      var rest := SwitchesOf(items[1..], still, slash);
      if sw.Some? {
        ItemGivesFromItem(Trim(items[0]), slash);
        AllFromItemsCons(sw.value, rest, slash);
      } else {
        assert [] + rest == rest;
      }
    }
  }

  /** Behind the terminator nothing is a switch, and every item is kept as it is after trimming. */
  lemma {:induction false} NoSwitchesUnparsed(items: seq<string>, slash: bool)
    ensures SwitchesOf(items, false, slash) == []
    ensures ArgsOf(ArgsOf(items, false, slash), false, slash) == ArgsOf(items, false, slash)
  {
    if items != [] {
      hide Trim;
      NoSwitchesUnparsed(items[1..], slash);
      var first, later := Trim(items[0]), ArgsOf(items[1..], false, slash);
      assert ([first] + later)[1..] == later;
      assert Trim(first) == first;
    }
  }

  lemma ReadingOfTrimmed(item: string, parseSwitches: bool, slash: bool)
    ensures Reading(Trim(item), parseSwitches, slash) == Reading(item, parseSwitches, slash)
  {
    hide IsSwitch;
  }

  /** The arguments, parsed again, are the arguments: no switch was left among them. */
  lemma {:induction false} ArgsAreStable(items: seq<string>, parseSwitches: bool, slash: bool)
    ensures SwitchesOf(ArgsOf(items, parseSwitches, slash), parseSwitches, slash) == []
    ensures ArgsOf(ArgsOf(items, parseSwitches, slash), parseSwitches, slash) == ArgsOf(items, parseSwitches, slash)
  {
    hide Trim, IsSwitch, SwitchesOf;
    if items == [] {
      assert SwitchesOf([], parseSwitches, slash) == [] by { NoMoreItems(parseSwitches, slash); }
    } else {
      var (sw, still) := Reading(items[0], parseSwitches, slash);
      var first, later := Trim(items[0]), ArgsOf(items[1..], still, slash);
      ArgsAreStable(items[1..], still, slash);
      assert items == [items[0]] + items[1..];
      ArgsStep(items[0], items[1..], parseSwitches, slash);
      if sw.None? {
        ReadingOfTrimmed(items[0], parseSwitches, slash);
        SwitchesStep(first, later, parseSwitches, slash);
        ArgsStep(first, later, parseSwitches, slash);
        assert Trim(first) == first;
      } else {
        assert still == parseSwitches;
        assert [] + later == later;
      }
    }
  }

  lemma NoMoreItems(parseSwitches: bool, slash: bool)
    ensures SwitchesOf([], parseSwitches, slash) == []
  {
  }

  lemma {:induction false} KeptSwitchesReadBack(switches: seq<Switch>, args: seq<string>, slash: bool)
    requires AllFromItems(switches, slash) && AllKept(switches, slash)
    requires SwitchesOf(args, true, slash) == []
    ensures SwitchesOf(Texts(switches, slash) + args, true, slash) == AllLowered(switches)
    ensures ArgsOf(Texts(switches, slash) + args, true, slash) == ArgsOf(args, true, slash)
  {
    hide FromItem, Kept, Text, Reading, AllFromItems, AllKept, SwitchesOf, ArgsOf, Lowered, Texts;
    if switches == [] {
      TextsHaveLength(switches, slash);
      assert Texts(switches, slash) + args == args;
    } else {
      var later := Texts(switches[1..], slash) + args;
      TextsStep(switches, args, slash);
      AllSplit(switches, slash);
      KeptReadsBack(switches[0], slash);
      SwitchesStep(Text(switches[0], slash), later, true, slash);
      ArgsStep(Text(switches[0], slash), later, true, slash);
      KeptSwitchesReadBack(switches[1..], args, slash);
    }
  }

  lemma {:induction false} LoweredMakesNoDifference(m: map<string, string>, switches: seq<Switch>, slash: bool)
    requires AllFromItems(switches, slash)
    ensures Texts(AllLowered(switches), slash) == Texts(switches, slash)
    ensures Filed(m, AllLowered(switches), slash) == Filed(m, switches, slash)
    decreases |switches|
  {
    if switches != [] {
      hide FromItem, Text, Key;
      TextOfItem(switches[0], slash);
      assert AllLowered(switches)[1..] == AllLowered(switches[1..]);
      LoweredMakesNoDifference(m[Key(switches[0].name, slash) := switches[0].value], switches[1..], slash);
    }
  }

  /** The items of a command line with at least one switch, taken apart. */
  lemma TextsStep(switches: seq<Switch>, args: seq<string>, slash: bool)
    requires switches != []
    ensures Texts(switches, slash) == [Text(switches[0], slash)] + Texts(switches[1..], slash)
    ensures Texts(switches, slash) + args == [Text(switches[0], slash)] + (Texts(switches[1..], slash) + args)
  {
    hide Text;
    ConsAppend(Text(switches[0], slash), Texts(switches[1..], slash), args);
  }

  lemma ConsAppend(x: string, s: seq<string>, t: seq<string>)
    ensures ([x] + s) + t == [x] + (s + t)
  {
  }

  lemma {:induction false} NoMoreSwitches(switches: seq<Switch>, args: seq<string>, parseSwitches: bool, slash: bool)
    requires SwitchesOf(args, true, slash) == []
    ensures |SwitchesOf(Texts(switches, slash) + args, parseSwitches, slash)| <= |switches|
  {
    hide Text, Reading, SwitchesOf, Texts;
    if !parseSwitches {
      NoSwitchesUnparsed(Texts(switches, slash) + args, slash);
    } else if switches == [] {
      TextsHaveLength(switches, slash);
      assert Texts(switches, slash) + args == args;
    } else {
      var first, later := Text(switches[0], slash), Texts(switches[1..], slash) + args;
      TextsStep(switches, args, slash);
      SwitchesStep(first, later, parseSwitches, slash);
      NoMoreSwitches(switches[1..], args, Reading(first, true, slash).1, slash);
    }
  }

  /** If the texts read back as texts, then each switch was kept. */
  lemma {:induction false} ReadingBackMeansKept(switches: seq<Switch>, args: seq<string>, slash: bool)
    requires AllFromItems(switches, slash) && SwitchesOf(args, true, slash) == []
    requires Texts(SwitchesOf(Texts(switches, slash) + args, true, slash), slash) == Texts(switches, slash)
    ensures AllKept(switches, slash)
  {
    if switches != [] {
      hide FromItem, Kept, SwitchesOf, Text, Texts, AllFromItems, AllKept, Reading;
      AllSplit(switches, slash);
      FirstReadsBack(switches, args, slash);
      SameTextMeansKept(switches[0], slash);
      ReadingBackMeansKept(switches[1..], args, slash);
    }
  }

  lemma FirstIsASwitch(switches: seq<Switch>, args: seq<string>, slash: bool)
    requires switches != [] && SwitchesOf(args, true, slash) == []
    requires Texts(SwitchesOf(Texts(switches, slash) + args, true, slash), slash) == Texts(switches, slash)
    ensures Reading(Text(switches[0], slash), true, slash).0.Some?
  {
    hide Text, Reading, SwitchesOf, Texts;
    var first, later := Text(switches[0], slash), Texts(switches[1..], slash) + args;
    TextsStep(switches, args, slash);
    SwitchesStep(first, later, true, slash);
    TextsHaveLength(switches, slash);
    TextsHaveLength(SwitchesOf([first] + later, true, slash), slash);
    NoMoreSwitches(switches[1..], args, Reading(first, true, slash).1, slash);
  }

  lemma FirstReadsBack(switches: seq<Switch>, args: seq<string>, slash: bool)
    requires switches != [] && SwitchesOf(args, true, slash) == []
    requires Texts(SwitchesOf(Texts(switches, slash) + args, true, slash), slash) == Texts(switches, slash)
    ensures Reading(Text(switches[0], slash), true, slash).0.Some?
    ensures Text(Reading(Text(switches[0], slash), true, slash).0.value, slash) == Text(switches[0], slash)
    ensures Texts(SwitchesOf(Texts(switches[1..], slash) + args, true, slash), slash) == Texts(switches[1..], slash)
  {
    hide Text, Reading, SwitchesOf, Texts;
    var first, later := Text(switches[0], slash), Texts(switches[1..], slash) + args;
    FirstIsASwitch(switches, args, slash);
    StillParsing(first, slash);
    var sw := Reading(first, true, slash).0.value;
    TextsStep(switches, args, slash);
    SwitchesStep(first, later, true, slash);
    TextsCons(sw, SwitchesOf(later, true, slash), slash);
    SameFirst(first, Texts(switches[1..], slash), Text(sw, slash), Texts(SwitchesOf(later, true, slash), slash));
  }

  lemma StillParsing(item: string, slash: bool)
    requires Reading(item, true, slash).0.Some?
    ensures Reading(item, true, slash).1
  {
    hide IsSwitch, Trim;
  }

  lemma SameFirst(a: string, s: seq<string>, b: string, t: seq<string>)
    requires [a] + s == [b] + t
    ensures a == b && s == t
  {
    assert ([a] + s)[0] == a && ([a] + s)[1..] == s && ([b] + t)[0] == b && ([b] + t)[1..] == t;
  }

  lemma TextsCons(sw: Switch, rest: seq<Switch>, slash: bool)
    ensures Texts([sw] + rest, slash) == [Text(sw, slash)] + Texts(rest, slash)
  {
    hide Text;
    assert ([sw] + rest)[1..] == rest;
  }

  lemma {:induction false} TextsHaveLength(switches: seq<Switch>, slash: bool)
    ensures |Texts(switches, slash)| == |switches|
  {
    if switches != [] {
      TextsHaveLength(switches[1..], slash);
    }
  }

  lemma SameTextMeansKept(sw: Switch, slash: bool)
    requires FromItem(sw, slash)
    requires Reading(Text(sw, slash), true, slash).0.Some?
    requires Text(Reading(Text(sw, slash), true, slash).0.value, slash) == Text(sw, slash)
    ensures Kept(sw, slash)
  {
    TextReadsAsSwitch(sw, slash);
    hide Text, Kept;
    TextIsShort(Trim(Text(sw, slash)), slash);
  }

  // -------------------------------------------------------------- the theorem

  /** The switches `InitFromArgv` finds in `argv`. */
  function SwitchesIn(argv: seq<string>, slash: bool): seq<Switch> {
    if argv == [] then [] else SwitchesOf(argv[1..], true, slash)
  }

  function Program(argv: seq<string>): string {
    if argv == [] then [] else argv[0]
  }

  lemma ParsedShape(argv: seq<string>, slash: bool)
    ensures Parsed(argv, slash).front
            == [Trim(Program(argv))] + Texts(SwitchesIn(argv, slash), slash)
    ensures Parsed(argv, slash).args == if argv == [] then [] else ArgsOf(argv[1..], true, slash)
    ensures Parsed(argv, slash).switches == Filed(map[], SwitchesIn(argv, slash), slash)
  {
    hide Absorbed, Trim;
    if argv == [] {
      assert |Trim([])| == 0;
    } else {
      var start := Line([Trim(argv[0])], [], map[]);
      AbsorbedFront(start, argv[1..], true, slash);
      AbsorbedArgs(start, argv[1..], true, slash);
      AbsorbedSwitches(start, argv[1..], true, slash);
    }
  }

  /**
   Normalising is idempotent exactly if every switch is kept: parsing the `argv_` of a command line
   gives its `argv_`, its `begin_args_` and its `switches_`.
   */
  lemma ReparsingIsExact(argv: seq<string>, slash: bool)
    ensures Parsed(Argv(Parsed(argv, slash)), slash) == Parsed(argv, slash) <==> AllKept(SwitchesIn(argv, slash), slash)
  {
    hide Parsed, AllKept, AllFromItems, SwitchesOf, ArgsOf, SwitchesIn, Texts, Filed;
    ReparsedShape(argv, slash);
    FoundSwitches(argv, slash);
    ParsedShape(argv, slash);
    assert Trim(Trim(Program(argv))) == Trim(Program(argv));
    hide Trim, Program;
    var l, switches := Parsed(argv, slash), SwitchesIn(argv, slash);
    if AllKept(switches, slash) {
      KeptSwitchesReadBack(switches, l.args, slash);
      LoweredMakesNoDifference(map[], switches, slash);
    }
    if Parsed(Argv(l), slash) == l {
      var found := SwitchesOf(Texts(switches, slash) + l.args, true, slash);
      SameFirst(Trim(Program(argv)), Texts(found, slash), Trim(Program(argv)), Texts(switches, slash));
      ReadingBackMeansKept(switches, l.args, slash);
    }
  }

  /** What the second parse finds, by what it finds behind the program. */
  lemma ReparsedShape(argv: seq<string>, slash: bool)
    ensures
      var l := Parsed(argv, slash);
      var items := Texts(SwitchesIn(argv, slash), slash) + l.args;
      && Parsed(Argv(l), slash).front == [Trim(Trim(Program(argv)))] + Texts(SwitchesOf(items, true, slash), slash)
      && Parsed(Argv(l), slash).args == ArgsOf(items, true, slash)
      && Parsed(Argv(l), slash).switches == Filed(map[], SwitchesOf(items, true, slash), slash)
  {
    hide Parsed, Trim, SwitchesOf, ArgsOf, Texts, Filed;
    var l := Parsed(argv, slash);
    ParsedShape(argv, slash);
    ParsedShape(Argv(l), slash);
    ArgvSplits(l);
  }

  lemma ArgvSplits(l: Line)
    requires |l.front| >= 1
    ensures Argv(l) != [] && Argv(l)[0] == l.front[0] && Argv(l)[1..] == l.front[1..] + l.args
  {
  }

  lemma FoundSwitches(argv: seq<string>, slash: bool)
    ensures AllFromItems(SwitchesIn(argv, slash), slash)
    ensures SwitchesOf(Parsed(argv, slash).args, true, slash) == []
    ensures ArgsOf(Parsed(argv, slash).args, true, slash) == Parsed(argv, slash).args
  {
    ParsedShape(argv, slash);
    if argv != [] {
      SwitchesComeFromItems(argv[1..], true, slash);
      ArgsAreStable(argv[1..], true, slash);
    }
  }
}
