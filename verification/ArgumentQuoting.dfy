/**
 Quoting arguments for `CommandLineToArgvW`, and the documented rules by which that function
 takes a command line apart again.
 */
module ArgumentQuoting {
  import opened Prelude

  predicate IsQuotable(c: char, quotePlaceholders: bool) {
    c == ' ' || c == '\\' || c == '\"' || (quotePlaceholders && c == '%')
  }

  predicate NeedsQuotes(arg: string, quotePlaceholders: bool) {
    exists i :: 0 <= i < |arg| && IsQuotable(arg[i], quotePlaceholders)
  }

  /** How many backslashes `s` starts with. */
  function Run(s: string): (n: nat)
    ensures n <= |s|
    ensures forall i :: 0 <= i < n ==> s[i] == '\\'
    ensures n < |s| ==> s[n] != '\\'
  {
    if s != [] && s[0] == '\\' then 1 + Run(s[1..]) else 0
  }

  function Backslashes(n: nat): (s: string)
    ensures |s| == n
  {
    seq(n, _ => '\\')
  }

  // -------------------------------------------------------------- quoting

  /** Backslashes count double where a quote follows them, be it one of `arg` or the closing one. */
  function Escaped(arg: string): string {
    if arg == [] then []
    else if arg[0] == '\\' then
      var n := Run(arg);
      var rest := arg[n..];
      Backslashes(if rest == [] || rest[0] == '\"' then 2 * n else n) + Escaped(rest)
    else if arg[0] == '\"' then "\\\"" + Escaped(arg[1..])
    else [arg[0]] + Escaped(arg[1..])
  }

  function Quoted(arg: string, quotePlaceholders: bool): string {
    if NeedsQuotes(arg, quotePlaceholders) then "\"" + Escaped(arg) + "\"" else arg
  }

  method PushBackslashes(text: string, count: nat) returns (out: string)
    ensures out == text + Backslashes(count)
  {
    out := text;
    for j := 0 to count
      invariant out == text + Backslashes(j)
    {
      out := out + "\\";
    }
  }

  method QuoteForCommandLineToArgvW(arg: string, quotePlaceholders: bool) returns (out: string)
    ensures out == Quoted(arg, quotePlaceholders)
  {
    hide Run, Backslashes, Escaped;
    if !NeedsQuotes(arg, quotePlaceholders) {
      return arg;
    }
    out := "\"";
    var i := 0;
    assert arg[0..] == arg;
    while i < |arg|
      invariant i <= |arg|
      invariant "\"" + Escaped(arg) == out + Escaped(arg[i..])
    {
      ghost var was, tail := out, arg[i..];
      if arg[i] == '\\' {
        var start, end := i, i + 1;
        while end < |arg| && arg[end] == '\\'
          invariant start < end <= |arg| && forall k :: start <= k < end ==> arg[k] == '\\'
        {
          end := end + 1;
        }
        RunIs(tail, end - start);
        EscapedStep(tail);
        assert tail[end - start..] == arg[end..];
        var backslashCount: nat := end - start;
        if end == |arg| || arg[end] == '\"' {
          backslashCount := backslashCount * 2;
        }
        out := PushBackslashes(out, backslashCount);
        i := end;
        Associative(was, Backslashes(backslashCount), Escaped(arg[i..]));
      } else {
        EscapedStep(tail);
        assert tail[1..] == arg[i + 1..];
        if arg[i] == '\"' {
          out := out + "\\\"";
          Associative(was, "\\\"", Escaped(arg[i + 1..]));
        } else {
          out := out + [arg[i]];
          Associative(was, [arg[i]], Escaped(arg[i + 1..]));
        }
        i := i + 1;
      }
    }
    EscapedStep(arg[i..]);
    out := out + "\"";
  }

  lemma EscapedStep(s: string)
    ensures s == [] ==> Escaped(s) == []
    ensures s != [] && s[0] == '\"' ==> Escaped(s) == "\\\"" + Escaped(s[1..])
    ensures s != [] && s[0] != '\"' && s[0] != '\\' ==> Escaped(s) == [s[0]] + Escaped(s[1..])
    ensures s != [] && s[0] == '\\' ==>
              var n := Run(s);
              Escaped(s) == Backslashes(if n == |s| || s[n] == '\"' then 2 * n else n) + Escaped(s[n..])
  {
    hide Run, Backslashes;
  }

  lemma {:induction false} RunIs(s: string, n: nat)
    requires n <= |s| && (forall i :: 0 <= i < n ==> s[i] == '\\') && (n < |s| ==> s[n] != '\\')
    ensures Run(s) == n
  {
    if n > 0 {
      RunIs(s[1..], n - 1);
    }
  }

  // -------------------------------------------------------------- splitting

  /**
   The documented rules: outside quotes, spaces and tabs end an argument; a run of backslashes
   is literal unless a quote follows, and then halves; the quote is literal if the run was odd.
   */
  function Split(s: string, inQuotes: bool, current: string, started: bool): seq<string>
    decreases |s|
  {
    if s == [] then if started then [current] else []
    else if s[0] == '\\' then
      var n := Run(s);
      if n < |s| && s[n] == '\"' then
        if n % 2 == 0 then Split(s[n + 1..], !inQuotes, current + Backslashes(n / 2), true)
        else Split(s[n + 1..], inQuotes, current + Backslashes(n / 2) + "\"", true)
      else Split(s[n..], inQuotes, current + Backslashes(n), true)
    else if s[0] == '\"' then Split(s[1..], !inQuotes, current, true)
    else if !inQuotes && (s[0] == ' ' || s[0] == '\t') then
      (if started then [current] else []) + Split(s[1..], false, [], false)
    else Split(s[1..], inQuotes, current + [s[0]], true)
  }

  function SplitArguments(commandLine: string): seq<string> {
    Split(commandLine, false, [], false)
  }

  /** The quoted arguments, one space between them. */
  function Joined(args: seq<string>, quotePlaceholders: bool): string {
    if args == [] then []
    else if |args| == 1 then Quoted(args[0], quotePlaceholders)
    else Quoted(args[0], quotePlaceholders) + " " + Joined(args[1..], quotePlaceholders)
  }

  // -------------------------------------------------------------- the round trip

  /** A run of `m` backslashes, then a quote: half the run, and the quote by itself or as a character. */
  lemma SplitRunAndQuote(m: nat, tail: string, inQuotes: bool, current: string)
    ensures Split(Backslashes(m) + "\"" + tail, inQuotes, current, true) ==
            if m % 2 == 0 then Split(tail, !inQuotes, current + Backslashes(m / 2), true)
            else Split(tail, inQuotes, current + Backslashes(m / 2) + "\"", true)
  {
    var s := Backslashes(m) + "\"" + tail;
    assert s[m] == '\"';
    RunIs(s, m);
    assert s[m + 1..] == tail;
    if m == 0 {
      assert current + Backslashes(0) == current;
    }
  }

  /** A run of backslashes with something else behind it. */
  lemma SplitRun(m: nat, tail: string, inQuotes: bool, current: string)
    requires m > 0 && tail != [] && tail[0] != '\\' && tail[0] != '\"'
    ensures Split(Backslashes(m) + tail, inQuotes, current, true)
            == Split(tail, inQuotes, current + Backslashes(m), true)
  {
    var s := Backslashes(m) + tail;
    assert s[m] == tail[0];
    RunIs(s, m);
    assert s[m..] == tail;
  }

  lemma SplitPlain(c: char, tail: string, inQuotes: bool, current: string, started: bool)
    requires c != '\\' && c != '\"' && (inQuotes || (c != ' ' && c != '\t'))
    ensures Split([c] + tail, inQuotes, current, started) == Split(tail, inQuotes, current + [c], true)
  {
    assert ([c] + tail)[1..] == tail;
  }

  lemma RunSplits(arg: string)
    ensures arg == Backslashes(Run(arg)) + arg[Run(arg)..]
  {
  }

  lemma EscapedRunAtEnd(arg: string)
    requires arg != [] && arg[0] == '\\' && Run(arg) == |arg|
    ensures Escaped(arg) == Backslashes(2 * |arg|)
  {
    hide Run, Backslashes;
    assert Escaped(arg[|arg|..]) == [];
  }

  lemma OneMore(m: nat, rest: string, behind: string)
    requires rest == "\\\"" + behind
    ensures Backslashes(m) + rest == Backslashes(m + 1) + "\"" + behind
  {
  }

  lemma EscapedRun(arg: string)
    requires 0 < Run(arg) < |arg| && arg[Run(arg)] == '\"'
    ensures Escaped(arg) == Backslashes(2 * Run(arg)) + Escaped(arg[Run(arg)..])
  {
    EscapedStep(arg);
  }

  lemma EscapedQuote(arg: string)
    requires arg != [] && arg[0] == '\"'
    ensures Escaped(arg) == "\\\"" + Escaped(arg[1..])
  {
  }

  lemma EscapedRunAndQuote(arg: string, n: nat)
    requires n == Run(arg) && 0 < n < |arg| && arg[n] == '\"'
    ensures Escaped(arg) == Backslashes(2 * n + 1) + "\"" + Escaped(arg[n + 1..])
  {
    hide Run, Backslashes, Escaped;
    EscapedRun(arg);
    QuoteJoinsRun(arg, n, Escaped(arg));
  }

  lemma QuoteJoinsRun(arg: string, n: nat, whole: string)
    requires n < |arg| && arg[n] == '\"' && whole == Backslashes(2 * n) + Escaped(arg[n..])
    ensures whole == Backslashes(2 * n + 1) + "\"" + Escaped(arg[n + 1..])
  {
    hide Run, Backslashes, Escaped;
    EscapedQuoteAt(arg, n);
    OneMore(2 * n, Escaped(arg[n..]), Escaped(arg[n + 1..]));
  }

  lemma EscapedQuoteAt(arg: string, n: nat)
    requires n < |arg| && arg[n] == '\"'
    ensures Escaped(arg[n..]) == "\\\"" + Escaped(arg[n + 1..])
  {
    hide Escaped;
    EscapedQuote(arg[n..]);
    DropOneMore(arg, n);
  }

  lemma DropOneMore(s: string, n: nat)
    requires n < |s|
    ensures s[n..][1..] == s[n + 1..]
  {
  }

  lemma Regroup(a: string, b: string, c: string)
    ensures (a + b) + "\"" + c == a + (b + "\"" + c)
    ensures (a + b) + c == a + (b + c)
  {
  }

  /** What `SplitEscaped` says of `arg`. */
  ghost predicate ReadsBack(arg: string, tail: string, current: string) {
    Split(Escaped(arg) + "\"" + tail, true, current, true) == Split(tail, false, current + arg, true)
  }

  lemma RunAtEndReadsBack(arg: string, tail: string, current: string)
    requires arg != [] && arg[0] == '\\' && Run(arg) == |arg|
    ensures ReadsBack(arg, tail, current)
  {
    hide Split, Escaped, Run, Backslashes;
    EscapedRunAtEnd(arg);
    SplitRunAndQuote(2 * |arg|, tail, true, current);
    assert arg == Backslashes(|arg|) by { RunSplits(arg); }
  }

  lemma RunAndQuoteReadsBack(arg: string, tail: string, current: string)
    requires 0 < Run(arg) < |arg| && arg[Run(arg)] == '\"'
    requires ReadsBack(arg[Run(arg) + 1..], tail, current + Backslashes(Run(arg)) + "\"")
    ensures ReadsBack(arg, tail, current)
  {
    hide Split, Escaped, Run, Backslashes;
    var n := Run(arg);
    var later := arg[n + 1..];
    EscapedRunAndQuote(arg, n);
    Regroup(Backslashes(2 * n + 1) + "\"", Escaped(later), tail);
    SplitRunAndQuote(2 * n + 1, Escaped(later) + "\"" + tail, true, current);
    RunAndQuoteSplit(arg, current);
  }

  lemma RunAndQuoteSplit(arg: string, current: string)
    requires Run(arg) < |arg| && arg[Run(arg)] == '\"'
    ensures current + Backslashes(Run(arg)) + "\"" + arg[Run(arg) + 1..] == current + arg
  {
    hide Run, Backslashes;
    RunSplits(arg);
    QuoteSplit(arg, Backslashes(Run(arg)), arg[Run(arg)..]);
    assert arg[Run(arg)..][1..] == arg[Run(arg) + 1..];
    RegroupMore(current, Backslashes(Run(arg)), arg[Run(arg) + 1..]);
  }

  lemma QuoteSplit(arg: string, run: string, rest: string)
    requires arg == run + rest && rest != [] && rest[0] == '\"'
    ensures run + "\"" + rest[1..] == arg
  {
    assert rest == "\"" + rest[1..];
  }

  lemma RegroupMore(a: string, b: string, c: string)
    ensures a + b + "\"" + c == a + (b + "\"" + c)
  {
  }

  lemma RunInsideReadsBack(arg: string, tail: string, current: string)
    requires 0 < Run(arg) < |arg| && arg[Run(arg)] != '\"'
    requires ReadsBack(arg[Run(arg)..], tail, current + Backslashes(Run(arg)))
    ensures ReadsBack(arg, tail, current)
  {
    var n := Run(arg);
    var rest := arg[n..];
    assert Escaped(arg) == Backslashes(n) + Escaped(rest);
    assert Escaped(rest)[0] == rest[0];
    hide Split, Escaped;
    Regroup(Backslashes(n), Escaped(rest), tail);
    SplitRun(n, Escaped(rest) + "\"" + tail, true, current);
    RunSplits(arg);
    Regroup(current, Backslashes(n), rest);
  }

  lemma QuoteReadsBack(arg: string, tail: string, current: string)
    requires arg != [] && arg[0] == '\"'
    requires ReadsBack(arg[1..], tail, current + "\"")
    ensures ReadsBack(arg, tail, current)
  {
    var behind := Escaped(arg[1..]);
    assert Escaped(arg) == "\\\"" + behind;
    hide Split, Escaped;
    assert "\\\"" == Backslashes(1) + "\"";
    Regroup(Backslashes(1) + "\"", behind, tail);
    SplitRunAndQuote(1, behind + "\"" + tail, true, current);
    assert current + Backslashes(0) + "\"" == current + "\"";
    assert "\"" + arg[1..] == arg;
    Regroup(current, "\"", arg[1..]);
  }

  lemma PlainReadsBack(arg: string, tail: string, current: string)
    requires arg != [] && arg[0] != '\"' && arg[0] != '\\'
    requires ReadsBack(arg[1..], tail, current + [arg[0]])
    ensures ReadsBack(arg, tail, current)
  {
    var behind := Escaped(arg[1..]);
    assert Escaped(arg) == [arg[0]] + behind;
    hide Split, Escaped;
    Regroup([arg[0]], behind, tail);
    SplitPlain(arg[0], behind + "\"" + tail, true, current, true);
    assert [arg[0]] + arg[1..] == arg;
    Regroup(current, [arg[0]], arg[1..]);
  }

  /** Inside quotes, the escaped text reads as the argument, and the closing quote closes. */
  lemma {:induction false} SplitEscaped(arg: string, tail: string, current: string)
    ensures ReadsBack(arg, tail, current)
    decreases |arg|
  {
    if arg == [] {
      SplitRunAndQuote(0, tail, true, current);
      assert Backslashes(0) + "\"" + tail == "\"" + tail && current + Backslashes(0) == current + arg;
      assert Escaped(arg) + "\"" + tail == "\"" + tail;
    } else {
      hide ReadsBack, Split, Escaped;
      if arg[0] == '\"' {
        SplitEscaped(arg[1..], tail, current + "\"");
        QuoteReadsBack(arg, tail, current);
      } else if arg[0] != '\\' {
        SplitEscaped(arg[1..], tail, current + [arg[0]]);
        PlainReadsBack(arg, tail, current);
      } else {
        var n := Run(arg);
        if n == |arg| {
          RunAtEndReadsBack(arg, tail, current);
        } else if arg[n] == '\"' {
          SplitEscaped(arg[n + 1..], tail, current + Backslashes(n) + "\"");
          RunAndQuoteReadsBack(arg, tail, current);
        } else {
          SplitEscaped(arg[n..], tail, current + Backslashes(n));
          RunInsideReadsBack(arg, tail, current);
        }
      }
    }
  }

  /** An argument is put in quotes exactly if it has a space, backslash, quote or, where asked for, a per cent sign. */
  lemma QuotedWhereNeeded(arg: string, quotePlaceholders: bool)
    ensures
      if ' ' in arg || '\\' in arg || '\"' in arg || (quotePlaceholders && '%' in arg)
      then exists inside :: Quoted(arg, quotePlaceholders) == "\"" + inside + "\""
      else Quoted(arg, quotePlaceholders) == arg
  {
    hide Escaped;
    if NeedsQuotes(arg, quotePlaceholders) {
      assert Quoted(arg, quotePlaceholders) == "\"" + Escaped(arg) + "\"";
    }
    if c :| c in arg && IsQuotable(c, quotePlaceholders) {
      var i :| 0 <= i < |arg| && arg[i] == c;
      assert IsQuotable(arg[i], quotePlaceholders);
    }
  }

  /** A non-empty argument, tabs only where something else makes it be quoted. */
  predicate Good(arg: string, quotePlaceholders: bool) {
    arg != "" && ('\t' in arg ==> NeedsQuotes(arg, quotePlaceholders))
  }

  lemma {:induction false} SplitUnquoted(arg: string, tail: string, current: string, started: bool)
    requires forall i :: 0 <= i < |arg| ==> arg[i] != ' ' && arg[i] != '\t' && arg[i] != '\\' && arg[i] != '\"'
    requires started || arg != []
    ensures Split(arg + tail, false, current, started) == Split(tail, false, current + arg, true)
    decreases |arg|
  {
    if arg == [] {
      assert arg + tail == tail && current + arg == current;
    } else {
      hide Split;
      assert arg + tail == [arg[0]] + (arg[1..] + tail);
      SplitPlain(arg[0], arg[1..] + tail, false, current, started);
      SplitUnquoted(arg[1..], tail, current + [arg[0]], true);
      assert current + [arg[0]] + arg[1..] == current + arg;
    }
  }

  lemma SplitOpeningQuote(tail: string)
    ensures Split("\"" + tail, false, [], false) == Split(tail, true, [], true)
  {
    assert ("\"" + tail)[1..] == tail;
  }

  lemma QuotedReadsBack(arg: string, tail: string, quotePlaceholders: bool)
    requires NeedsQuotes(arg, quotePlaceholders)
    ensures Split(Quoted(arg, quotePlaceholders) + tail, false, [], false) == Split(tail, false, arg, true)
  {
    hide Split, Escaped, NeedsQuotes;
    assert Quoted(arg, quotePlaceholders) + tail == "\"" + (Escaped(arg) + "\"" + tail);
    SplitOpeningQuote(Escaped(arg) + "\"" + tail);
    SplitEscaped(arg, tail, []);
    assert [] + arg == arg;
  }

  lemma GoodReadsBack(arg: string, tail: string, quotePlaceholders: bool)
    requires Good(arg, quotePlaceholders)
    ensures Split(Quoted(arg, quotePlaceholders) + tail, false, [], false) == Split(tail, false, arg, true)
  {
    hide Split;
    if NeedsQuotes(arg, quotePlaceholders) {
      QuotedReadsBack(arg, tail, quotePlaceholders);
    } else {
      assert forall i :: 0 <= i < |arg| ==> !IsQuotable(arg[i], quotePlaceholders);
      SplitUnquoted(arg, tail, [], false);
      assert [] + arg == arg;
    }
  }

  lemma SplitAtSpace(tail: string, current: string)
    ensures Split(" " + tail, false, current, true) == [current] + SplitArguments(tail)
  {
    assert (" " + tail)[1..] == tail;
  }

  /** What is behind the first argument of a joined line. */
  function Remainder(args: seq<string>, quotePlaceholders: bool): string
    requires args != []
  {
    if |args| == 1 then [] else " " + Joined(args[1..], quotePlaceholders)
  }

  lemma JoinedFirst(args: seq<string>, quotePlaceholders: bool)
    requires args != []
    ensures Joined(args, quotePlaceholders) == Quoted(args[0], quotePlaceholders) + Remainder(args, quotePlaceholders)
  {
  }

  lemma {:induction false} GoodArgumentsReadBack(args: seq<string>, quotePlaceholders: bool)
    requires forall arg <- args :: Good(arg, quotePlaceholders)
    ensures SplitArguments(Joined(args, quotePlaceholders)) == args
    decreases |args|
  {
    if args != [] {
      assert args == [args[0]] + args[1..];
      GoodArgumentsReadBack(args[1..], quotePlaceholders);
      JoinedFirst(args, quotePlaceholders);
      GoodReadsBack(args[0], Remainder(args, quotePlaceholders), quotePlaceholders);
      if |args| > 1 {
        SplitAtSpace(Joined(args[1..], quotePlaceholders), args[0]);
      }
    }
  }

  /** What comes out of unquoted text, up to the space that ends it. */
  lemma {:induction false} UnquotedTokensAreGood(
      text: string, tail: string, current: string, started: bool, quotePlaceholders: bool, token: string)
    requires forall i :: 0 <= i < |text| ==> text[i] != ' ' && text[i] != '\\' && text[i] != '\"'
    requires tail == [] || tail[0] == ' '
    requires '\t' !in current && (started <==> current != [])
    requires token in Split(text + tail, false, current, started)
    ensures Good(token, quotePlaceholders) || (tail != [] && token in SplitArguments(tail[1..]))
    decreases |text|
  {
    if text == [] {
      assert text + tail == tail;
    } else {
      var rest := text[1..] + tail;
      assert text + tail == [text[0]] + rest;
      if text[0] == '\t' {
        assert ([text[0]] + rest)[1..] == rest;
        if token !in (if started then [current] else []) {
          UnquotedTokensAreGood(text[1..], tail, [], false, quotePlaceholders, token);
        }
      } else {
        SplitPlain(text[0], rest, false, current, started);
        UnquotedTokensAreGood(text[1..], tail, current + [text[0]], true, quotePlaceholders, token);
      }
    }
  }

  lemma {:induction false} TokensAreGood(args: seq<string>, quotePlaceholders: bool, token: string)
    requires token in SplitArguments(Joined(args, quotePlaceholders))
    ensures Good(token, quotePlaceholders)
    decreases |args|
  {
    if args != [] {
      var arg, tail := args[0], Remainder(args, quotePlaceholders);
      JoinedFirst(args, quotePlaceholders);
      if |args| > 1 {
        assert tail[1..] == Joined(args[1..], quotePlaceholders);
      }
      if NeedsQuotes(arg, quotePlaceholders) {
        QuotedReadsBack(arg, tail, quotePlaceholders);
        if token != arg {
          if |args| > 1 {
            SplitAtSpace(tail[1..], arg);
          }
          TokensAreGood(args[1..], quotePlaceholders, token);
        }
      } else {
        assert forall i :: 0 <= i < |arg| ==> !IsQuotable(arg[i], quotePlaceholders);
        if !Good(token, quotePlaceholders) {
          UnquotedTokensAreGood(arg, tail, [], false, quotePlaceholders, token);
          TokensAreGood(args[1..], quotePlaceholders, token);
        }
      }
    }
  }

  /**
   The round trip, and exactly when there is one: an empty argument disappears, and a tab by
   itself is not quoted although it separates arguments.
   */
  lemma SplitUndoesJoin(args: seq<string>, quotePlaceholders: bool)
    ensures SplitArguments(Joined(args, quotePlaceholders)) == args
            <==> forall arg <- args :: Good(arg, quotePlaceholders)
  {
    if forall arg <- args :: Good(arg, quotePlaceholders) {
      GoodArgumentsReadBack(args, quotePlaceholders);
    }
    if SplitArguments(Joined(args, quotePlaceholders)) == args {
      forall arg <- args ensures Good(arg, quotePlaceholders) {
        TokensAreGood(args, quotePlaceholders, arg);
      }
    }
  }
}
