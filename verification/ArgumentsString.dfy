/**
 The arguments as one string, and when that string splits into the arguments again: the value of a
 switch is quoted, its name is not.
 */
module ArgumentsString {
  import opened Prelude
  import opened ArgumentQuoting
  import opened CommandLines

  // ------------------------------------------------------------- how text splits

  predicate IsSpace(c: char) {
    c == ' ' || c == '\t'
  }

  /** Outside quotes, this neither ends an argument nor opens quotes. */
  predicate Plain(s: string) {
    forall i :: 0 <= i < |s| ==> !IsSpace(s[i]) && s[i] != '\"'
  }

  /** What is in the current argument stays at its front. */
  lemma {:induction false} CurrentIsKept(s: string, inQuotes: bool, current: string)
    ensures var tokens := Split(s, inQuotes, current, true);
            tokens != [] && current <= tokens[0]
    decreases |s|
  {
    hide Run, Backslashes;
    if s == [] {
    } else if s[0] == '\\' {
      var n := Run(s);
      if n < |s| && s[n] == '\"' {
        if n % 2 == 0 {
          CurrentIsKept(s[n + 1..], !inQuotes, current + Backslashes(n / 2));
        } else {
          CurrentIsKept(s[n + 1..], inQuotes, current + Backslashes(n / 2) + "\"");
        }
      } else {
        BackslashFirst(s);
        CurrentIsKept(s[n..], inQuotes, current + Backslashes(n));
      }
    } else if s[0] == '\"' {
      CurrentIsKept(s[1..], !inQuotes, current);
    } else if inQuotes || !IsSpace(s[0]) {
      CurrentIsKept(s[1..], inQuotes, current + [s[0]]);
    }
  }

  lemma BackslashFirst(s: string)
    requires s != [] && s[0] == '\\'
    ensures Run(s) > 0
  {
  }

  /** Nothing there joins a run of backslashes: the end, or another character. */
  predicate EndsRun(tail: string) {
    tail == [] || (tail[0] != '\\' && tail[0] != '\"')
  }

  lemma SplitRunBefore(m: nat, tail: string, inQuotes: bool, current: string, started: bool)
    requires m > 0 && EndsRun(tail)
    ensures Split(Backslashes(m) + tail, inQuotes, current, started)
            == Split(tail, inQuotes, current + Backslashes(m), true)
  {
    var s := Backslashes(m) + tail;
    assert m < |s| ==> s[m] == tail[0];
    RunIs(s, m);
    assert s[m..] == tail;
  }

  /** Plain text outside quotes goes into the current argument as it is. */
  lemma {:induction false} SplitPlainText(text: string, tail: string, current: string, started: bool)
    requires Plain(text) && (started || text != [])
    requires text == [] || text[|text| - 1] != '\\' || EndsRun(tail)
    ensures Split(text + tail, false, current, started) == Split(tail, false, current + text, true)
    decreases |text|
  {
    hide Split, Run, Backslashes;
    if text == [] {
      assert text + tail == tail && current + text == current;
    } else if text[0] == '\\' {
      var n := Run(text);
      BackslashFirst(text);
      RunSplits(text);
      var rest := text[n..];
      assert text + tail == Backslashes(n) + (rest + tail);
      SplitRunBefore(n, rest + tail, false, current, started);
      SplitPlainText(rest, tail, current + Backslashes(n), true);
      Associative(current, Backslashes(n), rest);
    } else {
      assert text + tail == [text[0]] + (text[1..] + tail);
      SplitPlain(text[0], text[1..] + tail, false, current, started);
      SplitPlainText(text[1..], tail, current + [text[0]], true);
      assert current + [text[0]] + text[1..] == current + text;
    }
  }

  /** Plain text up to a space or the end is an argument. */
  lemma PlainToken(text: string, tail: string)
    requires Plain(text) && text != [] && (tail == [] || IsSpace(tail[0]))
    ensures var tokens := SplitArguments(text + tail);
            tokens != [] && tokens[0] == text
  {
    SplitPlainText(text, tail, [], false);
    assert [] + text == text;
  }

  lemma SkipSpace(c: char, tail: string)
    requires IsSpace(c)
    ensures SplitArguments([c] + tail) == SplitArguments(tail)
  {
    assert ([c] + tail)[1..] == tail;
  }

  // ------------------------------------------------------- quotes in a name

  predicate InRun(c: char) {
    c == '\\' || c == '\"'
  }

  predicate AllInRun(s: string) {
    forall i :: 0 <= i < |s| ==> InRun(s[i])
  }

  /** What `n` backslashes and a quote come out as. */
  function Halved(n: nat): (s: string)
    ensures |s| <= n
  {
    if n % 2 == 0 then Backslashes(n / 2) else Backslashes(n / 2) + "\""
  }

  lemma SplitHalved(n: nat, tail: string, inQuotes: bool, current: string)
    ensures Split(Backslashes(n) + "\"" + tail, inQuotes, current, true)
         == Split(tail, (n % 2 == 0) != inQuotes, current + Halved(n), true)
  {
    hide Split, Backslashes;
    SplitRunAndQuote(n, tail, inQuotes, current);
    Associative(current, Backslashes(n / 2), "\"");
  }

  lemma RunThenQuote(run: string, n: nat, tail: string)
    requires n < |run| && run[n] == '\"' && run == Backslashes(n) + run[n..]
    ensures run + tail == Backslashes(n) + "\"" + (run[n + 1..] + tail)
    ensures '\"' in run
  {
    hide Backslashes;
    var rest := run[n + 1..];
    assert run[n..] == "\"" + rest;
    Associative(Backslashes(n), "\"", rest);
    Associative(Backslashes(n) + "\"", rest, tail);
  }

  /** Backslashes and quotes come out as fewer characters, if there is a quote among them. */
  lemma {:induction false} RunsShrink(run: string, tail: string, inQuotes: bool, current: string)
    returns (out: string, q: bool)
    requires AllInRun(run) && EndsRun(tail)
    ensures Split(run + tail, inQuotes, current, true) == Split(tail, q, current + out, true)
    ensures |out| <= |run| && ('\"' in run ==> |out| < |run|)
    decreases |run|
  {
    hide Split, Run, Backslashes, Halved, AllInRun, EndsRun;
    if run == [] {
      assert run + tail == tail && current + [] == current;
      return [], inQuotes;
    }
    var n := Run(run);
    RunSplits(run);
    if n < |run| {
      var rest := run[n + 1..];
      QuoteEndsRun(run, n);
      RunThenQuote(run, n, tail);
      out, q := RunsShrink(rest, tail, (n % 2 == 0) != inQuotes, current + Halved(n));
      SplitHalved(n, rest + tail, inQuotes, current);
      Associative(current, Halved(n), out);
      out := Halved(n) + out;
    } else {
      assert run[n..] == [] && run == Backslashes(n);
      SplitRunBefore(n, tail, inQuotes, current, true);
      return run, inQuotes;
    }
  }

  lemma QuoteEndsRun(run: string, n: nat)
    requires AllInRun(run) && n == Run(run) < |run|
    ensures run[n] == '\"' && AllInRun(run[n + 1..])
  {
  }

  /** What follows such a run: the argument ends, or goes on with another kind of character. */
  lemma AfterRun(tail: string, q: bool, current: string)
    requires EndsRun(tail)
    ensures var tokens := Split(tail, q, current, true);
            tokens != [] && (tokens[0] == current || (|tokens[0]| > |current| && !InRun(tokens[0][|current|])))
  {
    if tail != [] && (q || !IsSpace(tail[0])) {
      CurrentIsKept(tail[1..], q, current + [tail[0]]);
    }
  }

  /** Text with a quote in a run of backslashes and quotes does not come out unchanged. */
  lemma QuoteIsLost(stem: string, run: string, tail: string, item: string)
    requires Plain(stem) && stem != [] && stem[|stem| - 1] != '\\'
    requires AllInRun(run) && '\"' in run && EndsRun(tail) && stem + run <= item
    ensures var tokens := SplitArguments(stem + run + tail);
            tokens == [] || tokens[0] != item
  {
    hide Split;
    assert stem + run + tail == stem + (run + tail);
    SplitPlainText(stem, run + tail, [], false);
    assert [] + stem == stem;
    var out, q := RunsShrink(run, tail, false, stem);
    AfterRun(tail, q, stem + out);
    assert item[|stem + out|] == (stem + run)[|stem + out|] == run[|out|];
  }

  // ------------------------------------------------------ taking a name apart

  /** How much of `s` is plain. */
  function PlainEnd(s: string): (n: nat)
    ensures n <= |s| && Plain(s[..n])
    ensures n < |s| ==> IsSpace(s[n]) || s[n] == '\"'
  {
    if s == [] || IsSpace(s[0]) || s[0] == '\"' then 0
    else
      var n := PlainEnd(s[1..]);
      assert s[..n + 1] == [s[0]] + s[1..][..n];
      n + 1
  }

  /** Where the backslashes at the end of `s` start. */
  function StemEnd(s: string): (n: nat)
    ensures n <= |s| && (n > 0 ==> s[n - 1] != '\\')
    ensures forall i :: n <= i < |s| ==> s[i] == '\\'
  {
    if s == [] || s[|s| - 1] != '\\' then |s| else StemEnd(s[..|s| - 1])
  }

  /** How many backslashes and quotes `s` starts with. */
  function RunLength(s: string): (n: nat)
    ensures n <= |s| && (forall i :: 0 <= i < n ==> InRun(s[i])) && EndsRun(s[n..])
  {
    if s == [] || !InRun(s[0]) then 0 else 1 + RunLength(s[1..])
  }

  /** A name in front of a value or the next item. */
  predicate EndsName(tail: string) {
    tail == [] || tail[0] == '=' || IsSpace(tail[0])
  }

  /** The run of backslashes and quotes at the front of `s`, with the quote at `n` in it. */
  lemma RunInFront(s: string, n: nat) returns (run: string, rest: string)
    requires n < |s| && s[n] == '\"' && forall i :: 0 <= i < n ==> s[i] == '\\'
    ensures s == run + rest && AllInRun(run) && '\"' in run && EndsRun(rest)
  {
    RunReaches(s, n);
    var k := RunLength(s);
    run, rest := s[..k], s[k..];
    hide RunLength;
    assert run[n] == '\"';
  }

  lemma RunAround(name: string, n: nat, m: nat) returns (run: string, rest: string)
    requires m <= n < |name| && name[n] == '\"' && forall i :: m <= i < n ==> name[i] == '\\'
    ensures name == name[..m] + run + rest
    ensures AllInRun(run) && '\"' in run && EndsRun(rest)
  {
    hide AllInRun, EndsRun;
    run, rest := RunInFront(name[m..], n - m);
    Associative(name[..m], run, rest);
  }

  lemma PrefixIsKept(n: nat, m: nat, name: string)
    requires m <= n <= |name| && Plain(name[..n])
    ensures Plain(name[..m])
  {
    forall i | 0 <= i < m
      ensures !IsSpace(name[i]) && name[i] != '\"'
    {
      assert name[..n][i] == name[i];
    }
  }

  lemma QuotedNameIsLost(name: string, n: nat, tail: string, item: string)
    requires n < |name| && Plain(name[..n]) && name[n] == '\"' && InnerStart(name)
    requires name <= item && EndsName(tail)
    ensures var tokens := SplitArguments(name + tail);
            tokens == [] || tokens[0] != item
  {
    var m := StemEnd(name[..n]);
    assert n > 0 && name[..n][0] == name[0];
    assert forall i :: m <= i < n ==> name[i] == name[..n][i];
    assert name[m - 1] == name[..n][m - 1];
    hide Split, StemEnd;
    PrefixIsKept(n, m, name);
    var run, rest := RunAround(name, n, m);
    Associative(name[..m] + run, rest, tail);
    assert name[..m] + run <= name;
    assert EndsRun(rest + tail);
    QuoteIsLost(name[..m], run, rest + tail, item);
  }

  /** The first character stands for itself. */
  predicate InnerStart(name: string) {
    name != [] && !InRun(name[0]) && !IsSpace(name[0])
  }

  /** A name with a space or a quote in it is not read as it stands. */
  lemma NameIsLost(name: string, tail: string, item: string)
    requires !Plain(name) && InnerStart(name) && name <= item && EndsName(tail)
    ensures var tokens := SplitArguments(name + tail);
            tokens == [] || tokens[0] != item
  {
    hide Split;
    assert name[..|name|] == name;
    var n := PlainEnd(name);
    if IsSpace(name[n]) {
      assert name + tail == name[..n] + (name[n..] + tail);
      PlainToken(name[..n], name[n..] + tail);
    } else {
      QuotedNameIsLost(name, n, tail, item);
    }
  }

  lemma {:induction false} RunReaches(s: string, i: nat)
    requires i < |s| && forall j :: 0 <= j <= i ==> InRun(s[j])
    ensures RunLength(s) > i
  {
    if i > 0 {
      RunReaches(s[1..], i - 1);
    }
  }

  // ------------------------------------------------------------------ the items

  /** The item, taken alone, reads back: quoted as an argument is, or as a switch whose value is quoted. */
  predicate ReadsAlone(item: string, parseSwitches: bool, slash: bool, quotePlaceholders: bool) {
    var sw := if parseSwitches then IsSwitch(item, slash) else None;
    if sw.None? then Good(item, quotePlaceholders)
    else Plain(sw.value.name) && if sw.value.value == [] then '=' !in item else Good(sw.value.value, quotePlaceholders)
  }

  /** A name, its value, and the item they come from. */
  lemma SwitchParts(item: string, slash: bool)
    requires IsSwitch(item, slash).Some?
    ensures var sw := IsSwitch(item, slash).value;
            && InnerStart(sw.name) && sw.name <= item && '=' !in sw.name
            && (sw.value == [] ==> item == sw.name + if '=' in item then "=" else [])
            && (sw.value != [] ==> item == sw.name + "=" + sw.value)
  {
    var name := NameOf(item);
    assert item[0] == '-' || item[0] == '/';
    assert name == item[..|name|];
    if |name| < |item| {
      assert item[|name|] == '=';
      assert item == name + "=" + item[|name| + 1..];
    }
  }

  /** Behind an item comes the end or a space. */
  predicate EndsItem(tail: string) {
    tail == [] || tail[0] == ' '
  }

  lemma ItemReads(item: string, parseSwitches: bool, slash: bool, quotePlaceholders: bool, tail: string)
    requires ReadsAlone(item, parseSwitches, slash, quotePlaceholders) && EndsItem(tail)
    ensures Split(ItemText(item, parseSwitches, slash, quotePlaceholders) + tail, false, [], false)
         == Split(tail, false, item, true)
  {
    hide Split, Good, IsSwitch, Quoted;
    var sw := if parseSwitches then IsSwitch(item, slash) else None;
    if sw.None? {
      GoodReadsBack(item, tail, quotePlaceholders);
    } else {
      SwitchParts(item, slash);
      SwitchReads(sw.value.name, sw.value.value, item, quotePlaceholders, tail);
    }
  }

  lemma SwitchReads(name: string, value: string, item: string, quotePlaceholders: bool, tail: string)
    requires Plain(name) && name != [] && EndsItem(tail)
    requires value == [] ==> item == name
    requires value != [] ==> item == name + "=" + value && Good(value, quotePlaceholders)
    ensures Split(name + (if value == [] then [] else "=" + Quoted(value, quotePlaceholders)) + tail, false, [], false)
         == Split(tail, false, item, true)
  {
    hide Split, Good, Quoted;
    assert [] + name == name;
    if value == [] {
      assert name + [] + tail == name + tail;
      SplitPlainText(name, tail, [], false);
    } else {
      var text := Quoted(value, quotePlaceholders);
      assert name + ("=" + text) + tail == name + ("=" + (text + tail));
      SplitPlainText(name, "=" + (text + tail), [], false);
      SplitPlain('=', text + tail, false, name, true);
      QuotedValueReads(value, tail, quotePlaceholders, name + "=");
    }
  }

  lemma QuotedValueReads(value: string, tail: string, quotePlaceholders: bool, current: string)
    requires Good(value, quotePlaceholders)
    ensures Split(Quoted(value, quotePlaceholders) + tail, false, current, true)
         == Split(tail, false, current + value, true)
  {
    hide Split, Escaped;
    if NeedsQuotes(value, quotePlaceholders) {
      assert Quoted(value, quotePlaceholders) + tail == Backslashes(0) + "\"" + (Escaped(value) + "\"" + tail);
      SplitRunAndQuote(0, Escaped(value) + "\"" + tail, false, current);
      assert current + Backslashes(0) == current;
      SplitEscaped(value, tail, current);
    } else {
      assert forall i :: 0 <= i < |value| ==> !IsQuotable(value[i], quotePlaceholders);
      SplitUnquoted(value, tail, current, true);
    }
  }

  // ---------------------------------------------------------- what does not read

  lemma Unquotable(s: string, quotePlaceholders: bool)
    requires !NeedsQuotes(s, quotePlaceholders)
    ensures forall i :: 0 <= i < |s| ==> s[i] != ' ' && s[i] != '\\' && s[i] != '\"'
  {
    assert forall i :: 0 <= i < |s| ==> !IsQuotable(s[i], quotePlaceholders);
  }

  /** A token that shows more than tabs. */
  predicate Shows(token: string) {
    exists i :: 0 <= i < |token| && token[i] != '\t'
  }

  predicate NothingOrShows(tokens: seq<string>) {
    tokens == [] || Shows(tokens[0])
  }

  /** Unquoted text either shows something in the first token, or there is nothing of it to be seen. */
  lemma {:induction false} TabsVanish(text: string, tail: string)
    requires forall i :: 0 <= i < |text| ==> text[i] != ' ' && text[i] != '\\' && text[i] != '\"'
    requires EndsItem(tail) && NothingOrShows(SplitArguments(tail))
    ensures NothingOrShows(SplitArguments(text + tail))
    decreases |text|
  {
    hide Split;
    if text == [] {
      assert text + tail == tail;
    } else {
      assert text + tail == [text[0]] + (text[1..] + tail);
      if text[0] == '\t' {
        SkipSpace(text[0], text[1..] + tail);
        TabsVanish(text[1..], tail);
      } else {
        FirstCharacterShows(text[0], text[1..] + tail);
      }
    }
  }

  lemma FirstCharacterShows(c: char, tail: string)
    requires !IsSpace(c) && !InRun(c)
    ensures NothingOrShows(SplitArguments([c] + tail))
  {
    hide Split;
    SplitPlain(c, tail, false, [], false);
    assert [] + [c] == [c];
    CurrentIsKept(tail, false, [c]);
    assert SplitArguments([c] + tail)[0][0] == c;
  }

  lemma QuotedShows(item: string, tail: string, quotePlaceholders: bool)
    requires NeedsQuotes(item, quotePlaceholders)
    ensures NothingOrShows(SplitArguments(Quoted(item, quotePlaceholders) + tail))
  {
    QuotedReadsBack(item, tail, quotePlaceholders);
    hide Split;
    CurrentIsKept(tail, false, item);
    var i :| 0 <= i < |item| && IsQuotable(item[i], quotePlaceholders);
    assert SplitArguments(Quoted(item, quotePlaceholders) + tail)[0][i] == item[i];
  }

  lemma ItemShows(item: string, parseSwitches: bool, slash: bool, quotePlaceholders: bool, tail: string)
    requires EndsItem(tail) && NothingOrShows(SplitArguments(tail))
    ensures NothingOrShows(SplitArguments(ItemText(item, parseSwitches, slash, quotePlaceholders) + tail))
  {
    hide NothingOrShows, SplitArguments, IsSwitch;
    var text := ItemText(item, parseSwitches, slash, quotePlaceholders);
    if parseSwitches && IsSwitch(item, slash).Some? {
      SwitchParts(item, slash);
      assert text + tail == [text[0]] + (text[1..] + tail);
      FirstCharacterShows(text[0], text[1..] + tail);
    } else if NeedsQuotes(item, quotePlaceholders) {
      QuotedShows(item, tail, quotePlaceholders);
    } else {
      Unquotable(item, quotePlaceholders);
      TabsVanish(item, tail);
    }
  }

  /** The first token of any items shows something. */
  lemma {:induction false} FirstTokenShows(
      items: seq<string>, parseSwitches: bool, slash: bool, quotePlaceholders: bool)
    ensures NothingOrShows(SplitArguments(ItemsText(items, parseSwitches, slash, quotePlaceholders)))
    ensures NothingOrShows(SplitArguments(ItemsBehind(items, parseSwitches, slash, quotePlaceholders)))
    decreases |items|
  {
    hide ItemText;
    if items != [] {
      var stillParse := parseSwitches && items[0] != SWITCH_TERMINATOR;
      FirstTokenShows(items[1..], stillParse, slash, quotePlaceholders);
      ItemShows(items[0], stillParse, slash, quotePlaceholders,
                ItemsBehind(items[1..], stillParse, slash, quotePlaceholders));
      SkipSpace(' ', ItemsText(items, parseSwitches, slash, quotePlaceholders));
    }
  }

  /** A tab that is not quoted ends the first token, or is skipped. */
  lemma {:induction false} FirstTokenHasNoTab(text: string, tail: string)
    requires forall i :: 0 <= i < |text| ==> text[i] != ' ' && text[i] != '\\' && text[i] != '\"'
    requires EndsItem(tail) && Shows(text)
    ensures var tokens := SplitArguments(text + tail);
            tokens != [] && '\t' !in tokens[0]
    decreases |text|
  {
    hide Split;
    if text[0] == '\t' {
      assert text + tail == [text[0]] + (text[1..] + tail);
      SkipSpace(text[0], text[1..] + tail);
      var i :| 0 <= i < |text| && text[i] != '\t';
      assert text[1..][i - 1] != '\t';
      FirstTokenHasNoTab(text[1..], tail);
    } else {
      var n := PlainEnd(text);
      assert text + tail == text[..n] + (text[n..] + tail);
      PlainToken(text[..n], text[n..] + tail);
    }
  }

  lemma ArgumentIsLost(item: string, quotePlaceholders: bool, tail: string)
    requires !Good(item, quotePlaceholders) && EndsItem(tail) && NothingOrShows(SplitArguments(tail))
    ensures var tokens := SplitArguments(Quoted(item, quotePlaceholders) + tail);
            tokens == [] || tokens[0] != item
  {
    hide SplitArguments, NeedsQuotes;
    assert item == "" ==> !NeedsQuotes(item, quotePlaceholders) by { NothingToQuote(quotePlaceholders); }
    Unquotable(item, quotePlaceholders);
    if Shows(item) {
      FirstTokenHasNoTab(item, tail);
    } else {
      TabsVanish(item, tail);
    }
  }

  lemma NothingToQuote(quotePlaceholders: bool)
    ensures !NeedsQuotes("", quotePlaceholders)
  {
  }

  lemma ValueIsLost(name: string, value: string, quotePlaceholders: bool, tail: string)
    requires Plain(name) && InnerStart(name) && EndsItem(tail)
    requires value != [] && !Good(value, quotePlaceholders)
    ensures var tokens := SplitArguments(name + ("=" + Quoted(value, quotePlaceholders)) + tail);
            tokens == [] || tokens[0] != name + "=" + value
  {
    hide SplitArguments, NeedsQuotes;
    Unquotable(value, quotePlaceholders);
    assert value[..|value|] == value;
    var n := PlainEnd(value);
    hide Good, PlainEnd, Plain;
    AllPlain(name, value[..n]);
    Pieces(name, value, n, tail);
    PlainToken(name + "=" + value[..n], value[n..] + tail);
  }

  lemma AllPlain(name: string, part: string)
    requires Plain(name) && Plain(part)
    ensures Plain(name + "=" + part)
  {
  }

  lemma Pieces(name: string, value: string, n: nat, tail: string)
    requires n <= |value|
    ensures name + ("=" + value) + tail == name + "=" + value[..n] + (value[n..] + tail)
  {
    var part, rest := value[..n], value[n..];
    assert value == part + rest;
    Associative("=", part, rest);
    Associative(name, "=" + part, rest);
    Associative(name, "=", part);
    Associative(name + "=" + part, rest, tail);
  }

  lemma SwitchIsLost(item: string, slash: bool, quotePlaceholders: bool, tail: string)
    requires IsSwitch(item, slash).Some? && !ReadsAlone(item, true, slash, quotePlaceholders) && EndsItem(tail)
    ensures var tokens := SplitArguments(ItemText(item, true, slash, quotePlaceholders) + tail);
            tokens == [] || tokens[0] != item
  {
    hide SplitArguments, Quoted, Good, IsSwitch;
    SwitchParts(item, slash);
    var sw := IsSwitch(item, slash).value;
    var suffix := if sw.value == [] then [] else "=" + Quoted(sw.value, quotePlaceholders);
    if !Plain(sw.name) {
      assert sw.name + suffix + tail == sw.name + (suffix + tail);
      NameIsLost(sw.name, suffix + tail, item);
    } else if sw.value == [] {
      assert sw.name + suffix + tail == sw.name + tail;
      PlainToken(sw.name, tail);
    } else {
      ValueIsLost(sw.name, sw.value, quotePlaceholders, tail);
    }
  }

  lemma ItemIsLost(item: string, parseSwitches: bool, slash: bool, quotePlaceholders: bool, tail: string)
    requires !ReadsAlone(item, parseSwitches, slash, quotePlaceholders)
    requires EndsItem(tail) && NothingOrShows(SplitArguments(tail))
    ensures var tokens := SplitArguments(ItemText(item, parseSwitches, slash, quotePlaceholders) + tail);
            tokens == [] || tokens[0] != item
  {
    hide SplitArguments, Quoted, Good, IsSwitch;
    if parseSwitches && IsSwitch(item, slash).Some? {
      SwitchIsLost(item, slash, quotePlaceholders, tail);
    } else {
      ArgumentIsLost(item, quotePlaceholders, tail);
    }
  }

  // -------------------------------------------------------------- the theorem

  /** Each item reads back alone; only those before the terminator can be switches. */
  predicate AllReadAlone(items: seq<string>, parseSwitches: bool, slash: bool, quotePlaceholders: bool) {
    forall i :: 0 <= i < |items| ==>
      ReadsAlone(items[i], parseSwitches && SWITCH_TERMINATOR !in items[..i + 1], slash, quotePlaceholders)
  }

  lemma AllReadAloneStep(items: seq<string>, parseSwitches: bool, slash: bool, quotePlaceholders: bool)
    requires items != []
    ensures var stillParse := parseSwitches && items[0] != SWITCH_TERMINATOR;
            AllReadAlone(items, parseSwitches, slash, quotePlaceholders) <==>
              && ReadsAlone(items[0], stillParse, slash, quotePlaceholders)
              && AllReadAlone(items[1..], stillParse, slash, quotePlaceholders)
  {
    hide ReadsAlone;
    var stillParse := parseSwitches && items[0] != SWITCH_TERMINATOR;
    assert items[..1] == [items[0]];
    if AllReadAlone(items, parseSwitches, slash, quotePlaceholders) {
      forall i | 0 <= i < |items[1..]|
        ensures ReadsAlone(items[1..][i], stillParse && SWITCH_TERMINATOR !in items[1..][..i + 1], slash,
                           quotePlaceholders)
      {
        assert items[1..][i] == items[i + 1];
        assert items[..i + 2] == [items[0]] + items[1..][..i + 1];
      }
    }
    if ReadsAlone(items[0], stillParse, slash, quotePlaceholders)
       && AllReadAlone(items[1..], stillParse, slash, quotePlaceholders) {
      forall i | 0 <= i < |items|
        ensures ReadsAlone(items[i], parseSwitches && SWITCH_TERMINATOR !in items[..i + 1], slash, quotePlaceholders)
      {
        if i > 0 {
          assert items[1..][i - 1] == items[i];
          assert items[..i + 1] == [items[0]] + items[1..][..i];
        }
      }
    }
  }

  lemma BehindReads(items: seq<string>, parseSwitches: bool, slash: bool, quotePlaceholders: bool, current: string)
    ensures Split(ItemsBehind(items, parseSwitches, slash, quotePlaceholders), false, current, true)
         == [current] + SplitArguments(ItemsText(items, parseSwitches, slash, quotePlaceholders))
  {
    if items != [] {
      SplitAtSpace(ItemsText(items, parseSwitches, slash, quotePlaceholders), current);
    }
  }

  lemma {:induction false} ItemsReadBack(
      items: seq<string>, parseSwitches: bool, slash: bool, quotePlaceholders: bool)
    ensures SplitArguments(ItemsText(items, parseSwitches, slash, quotePlaceholders)) == items
            <==> AllReadAlone(items, parseSwitches, slash, quotePlaceholders)
    decreases |items|
  {
    if items != [] {
      hide Split, ItemText, ReadsAlone, AllReadAlone;
      var stillParse := parseSwitches && items[0] != SWITCH_TERMINATOR;
      var behind := ItemsBehind(items[1..], stillParse, slash, quotePlaceholders);
      AllReadAloneStep(items, parseSwitches, slash, quotePlaceholders);
      ItemsReadBack(items[1..], stillParse, slash, quotePlaceholders);
      if ReadsAlone(items[0], stillParse, slash, quotePlaceholders) {
        ItemReads(items[0], stillParse, slash, quotePlaceholders, behind);
        BehindReads(items[1..], stillParse, slash, quotePlaceholders, items[0]);
        SameHead(items, SplitArguments(ItemsText(items[1..], stillParse, slash, quotePlaceholders)));
      } else {
        FirstTokenShows(items[1..], stillParse, slash, quotePlaceholders);
        ItemIsLost(items[0], stillParse, slash, quotePlaceholders, behind);
      }
    }
  }

  lemma SameHead(items: seq<string>, rest: seq<string>)
    requires items != []
    ensures [items[0]] + rest == items <==> rest == items[1..]
  {
    assert items == [items[0]] + items[1..];
    assert ([items[0]] + rest)[1..] == rest;
  }

  /**
   Splitting the arguments string of a command line gives back its items behind the program exactly
   when each reads back alone: an argument is not empty and has its tabs quoted; a switch has no space,
   tab or quote in its name, and either a value that would do as an argument or no '=' at all.
   */
  lemma ArgumentsReadBack(argv: seq<string>, slash: bool, quotePlaceholders: bool)
    requires argv != []
    ensures SplitArguments(ItemsText(argv[1..], true, slash, quotePlaceholders)) == argv[1..]
            <==> AllReadAlone(argv[1..], true, slash, quotePlaceholders)
  {
    ItemsReadBack(argv[1..], true, slash, quotePlaceholders);
  }
}
