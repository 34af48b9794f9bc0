/**
 A tokenizer with two inner loops: a quick one for plain delimiters, and a full one that knows
 about quotes and can return the delimiters.
 */
module StringTokenizer {

  /** The delimiters, the quote characters, and whether delimiters are returned. */
  datatype Config = Config(delims: string, quotes: string, returnDelims: bool)

  datatype AdvanceState = AdvanceState(inQuote: bool, inEscape: bool, quoteChar: char)

  const INITIAL := AdvanceState(false, false, '\0')

  /** `AdvanceOne`: the state behind `c`, and whether a delimiter was not hit. */
  function AdvanceOne(g: Config, state: AdvanceState, c: char): (AdvanceState, bool) {
    if state.inQuote then
      (if state.inEscape then state.(inEscape := false)
       else if c == '\\' then state.(inEscape := true)
       else if c == state.quoteChar then state.(inQuote := false)
       else state,
       true)
    else if c in g.delims then (state, false)
    else (state.(quoteChar := c, inQuote := c in g.quotes), true)
  }

  /** Where the token that goes on at `i` ends: at a delimiter, or with the text. */
  function QuickEnd(g: Config, text: string, i: nat): (end: nat)
    requires i <= |text|
    ensures i <= end <= |text|
    decreases |text| - i
  {
    if i == |text| || text[i] in g.delims then i else QuickEnd(g, text, i + 1)
  }

  function FullEnd(g: Config, text: string, i: nat, state: AdvanceState): (end: nat)
    requires i <= |text|
    ensures i <= end <= |text|
    decreases |text| - i
  {
    if i == |text| then i
    else
      var (next, more) := AdvanceOne(g, state, text[i]);
      if more then FullEnd(g, text, i + 1, next) else i
  }

  /** What one call finds: `begin == end` at the end of the text, and there only. */
  datatype Token = Token(begin: nat, end: nat, isDelim: bool)

  function QuickNext(g: Config, text: string, i: nat): (token: Token)
    requires i <= |text|
    ensures i <= token.begin <= token.end <= |text|
    ensures token.begin == token.end ==> token.begin == |text|
    decreases |text| - i
  {
    if i == |text| then Token(i, i, false)
    else if text[i] in g.delims then QuickNext(g, text, i + 1)
    else Token(i, QuickEnd(g, text, i + 1), false)
  }

  function FullNext(g: Config, text: string, i: nat): (token: Token)
    requires i <= |text|
    ensures i <= token.begin <= token.end <= |text|
    ensures token.begin == token.end ==> token.begin == |text|
    decreases |text| - i
  {
    if i == |text| then Token(i, i, false)
    else
      var (state, more) := AdvanceOne(g, INITIAL, text[i]);
      if more then Token(i, FullEnd(g, text, i + 1, state), false)
      else if g.returnDelims then Token(i, i + 1, true)
      else FullNext(g, text, i + 1)
  }

  /** `GetNext`. */
  function Next(g: Config, text: string, i: nat): (token: Token)
    requires i <= |text|
    ensures i <= token.begin <= token.end <= |text|
    ensures token.begin == token.end ==> token.begin == |text|
  {
    if g.quotes == "" && !g.returnDelims then QuickNext(g, text, i) else FullNext(g, text, i)
  }

  lemma QuickSteps(g: Config, text: string, i: nat)
    requires i < |text|
    ensures QuickNext(g, text, i)
            == if text[i] in g.delims then QuickNext(g, text, i + 1) else Token(i, QuickEnd(g, text, i + 1), false)
    ensures QuickEnd(g, text, i) == if text[i] in g.delims then i else QuickEnd(g, text, i + 1)
  {
  }

  lemma FullNextStep(g: Config, text: string, i: nat)
    requires i < |text|
    ensures
      var (next, more) := AdvanceOne(g, INITIAL, text[i]);
      && (!more ==> next == INITIAL)
      && FullNext(g, text, i)
         == if more then Token(i, FullEnd(g, text, i + 1, next), false)
            else if g.returnDelims then Token(i, i + 1, true)
            else FullNext(g, text, i + 1)
  {
    hide FullEnd;
  }

  lemma FullEndStep(g: Config, text: string, i: nat, state: AdvanceState)
    requires i < |text|
    ensures
      var (next, more) := AdvanceOne(g, state, text[i]);
      FullEnd(g, text, i, state) == if more then FullEnd(g, text, i + 1, next) else i
  {
    hide AdvanceOne;
  }

  lemma FullStops(g: Config, text: string, state: AdvanceState)
    ensures FullNext(g, text, |text|) == Token(|text|, |text|, false) && FullEnd(g, text, |text|, state) == |text|
  {
  }

  lemma QuickStops(g: Config, text: string)
    ensures QuickNext(g, text, |text|) == Token(|text|, |text|, false) && QuickEnd(g, text, |text|) == |text|
  {
  }

  class StringTokenizer {
    const text: string
    var config: Config
    var tokenBegin: nat
    var tokenEnd: nat
    var tokenIsDelim: bool

    ghost predicate Valid()
      reads this
    {
      tokenBegin <= tokenEnd <= |text|
    }

    constructor (text: string, delims: string)
      ensures Valid() && this.text == text && tokenEnd == 0 && config == Config(delims, "", false)
      ensures tokenBegin == 0 && !tokenIsDelim
    {
      this.text := text;
      config := Config(delims, "", false);
      tokenBegin := 0;
      tokenEnd := 0;
      tokenIsDelim := false;
    }

    method QuickGetNext() returns (found: bool)
      requires Valid()
      modifies this`tokenBegin, this`tokenEnd, this`tokenIsDelim
      ensures Valid() && Token(tokenBegin, tokenEnd, tokenIsDelim) == old(QuickNext(config, text, tokenEnd))
      ensures found <==> tokenBegin < tokenEnd
    {
      hide QuickNext, QuickEnd;
      QuickStops(config, text);
      tokenIsDelim := false;
      while true
        invariant tokenEnd <= |text| && !tokenIsDelim
        invariant QuickNext(config, text, tokenEnd) == old(QuickNext(config, text, tokenEnd))
        decreases |text| - tokenEnd
      {
        tokenBegin := tokenEnd;
        if tokenEnd == |text| {
          return false;
        }
        QuickSteps(config, text, tokenEnd);
        tokenEnd := tokenEnd + 1;
        if text[tokenBegin] !in config.delims {
          break;
        }
      }
      while tokenEnd != |text| && text[tokenEnd] !in config.delims
        invariant tokenBegin < tokenEnd <= |text| && !tokenIsDelim
        invariant Token(tokenBegin, QuickEnd(config, text, tokenEnd), false) == old(QuickNext(config, text, tokenEnd))
        decreases |text| - tokenEnd
      {
        QuickSteps(config, text, tokenEnd);
        tokenEnd := tokenEnd + 1;
      }
      if tokenEnd < |text| {
        QuickSteps(config, text, tokenEnd);
      }
      return true;
    }

    method FullGetNext() returns (found: bool)
      requires Valid()
      modifies this`tokenBegin, this`tokenEnd, this`tokenIsDelim
      ensures Valid() && Token(tokenBegin, tokenEnd, tokenIsDelim) == old(FullNext(config, text, tokenEnd))
      ensures found <==> tokenBegin < tokenEnd
    {
      hide FullNext, FullEnd, AdvanceOne;
      FullStops(config, text, INITIAL);
      ghost var want := FullNext(config, text, tokenEnd);
      var state := INITIAL;
      tokenIsDelim := false;
      while true
        invariant tokenEnd <= |text| && !tokenIsDelim && state == INITIAL
        invariant FullNext(config, text, tokenEnd) == want
        decreases |text| - tokenEnd
      {
        tokenBegin := tokenEnd;
        if tokenEnd == |text| {
          return false;
        }
        FullNextStep(config, text, tokenEnd);
        tokenEnd := tokenEnd + 1;
        var (next, more) := AdvanceOne(config, state, text[tokenBegin]);
        state := next;
        if more {
          break;
        }
        if config.returnDelims {
          tokenIsDelim := true;
          return true;
        }
      }
      while tokenEnd != |text|
        invariant tokenBegin < tokenEnd <= |text| && !tokenIsDelim
        invariant Token(tokenBegin, FullEnd(config, text, tokenEnd, state), false) == want
        decreases |text| - tokenEnd
      {
        FullEndStep(config, text, tokenEnd, state);
        var (next, more) := AdvanceOne(config, state, text[tokenEnd]);
        state := next;
        if !more {
          return true;
        }
        tokenEnd := tokenEnd + 1;
      }
      FullStops(config, text, state);
      return true;
    }

    method GetNext() returns (found: bool)
      requires Valid()
      modifies this`tokenBegin, this`tokenEnd, this`tokenIsDelim
      ensures Valid() && Token(tokenBegin, tokenEnd, tokenIsDelim) == old(Next(config, text, tokenEnd))
      ensures found <==> tokenBegin < tokenEnd
    {
      if config.quotes == "" && !config.returnDelims {
        found := QuickGetNext();
      } else {
        found := FullGetNext();
      }
    }
  }

  // -------------------------------------------------------------- the quick form is the full form

  lemma {:induction false} QuickEndIsFullEnd(g: Config, text: string, i: nat, state: AdvanceState)
    requires g.quotes == "" && i <= |text| && !state.inQuote
    ensures QuickEnd(g, text, i) == FullEnd(g, text, i, state)
    decreases |text| - i
  {
    if i < |text| {
      QuickEndIsFullEnd(g, text, i + 1, AdvanceOne(g, state, text[i]).0);
    }
  }

  /** Without quote characters and options the two forms agree on every call. */
  lemma {:induction false} QuickIsFull(g: Config, text: string, i: nat)
    requires g.quotes == "" && !g.returnDelims && i <= |text|
    ensures QuickNext(g, text, i) == FullNext(g, text, i)
    decreases |text| - i
  {
    if i < |text| {
      if text[i] in g.delims {
        QuickIsFull(g, text, i + 1);
      } else {
        QuickEndIsFullEnd(g, text, i + 1, AdvanceOne(g, INITIAL, text[i]).0);
      }
    }
  }

  ghost predicate Within(text: string, tokens: seq<Token>) {
    forall k :: 0 <= k < |tokens| ==> tokens[k].begin < tokens[k].end <= |text|
  }

  /** Everything `GetNext` returns, call after call. */
  function Tokens(g: Config, text: string, i: nat): (tokens: seq<Token>)
    requires i <= |text|
    ensures Within(text, tokens)
    decreases |text| - i
  {
    var token := Next(g, text, i);
    if token.begin == token.end then [] else [token] + Tokens(g, text, token.end)
  }

  function FullTokens(g: Config, text: string, i: nat): seq<Token>
    requires i <= |text|
    decreases |text| - i
  {
    var token := FullNext(g, text, i);
    if token.begin == token.end then [] else [token] + FullTokens(g, text, token.end)
  }

  /** So the shortcut in `GetNext` is never seen, whatever the configuration. */
  lemma {:induction false} TokensAreFullTokens(g: Config, text: string, i: nat)
    requires i <= |text|
    ensures Tokens(g, text, i) == FullTokens(g, text, i)
    decreases |text| - i
  {
    if g.quotes == "" && !g.returnDelims {
      QuickIsFull(g, text, i);
    }
    var token := FullNext(g, text, i);
    if token.begin < token.end {
      TokensAreFullTokens(g, text, token.end);
    }
  }

  // -------------------------------------------------------------- no text is lost

  /** What the tokens cover, put together. */
  function Concatenation(text: string, tokens: seq<Token>): string
    requires Within(text, tokens)
  {
    if tokens == [] then [] else text[tokens[0].begin..tokens[0].end] + Concatenation(text, tokens[1..])
  }

  lemma ConcatenationOfTokens(g: Config, text: string, i: nat)
    requires i <= |text|
    ensures Concatenation(text, Tokens(g, text, i)) ==
            var token := Next(g, text, i);
            if token.begin == token.end then []
            else text[token.begin..token.end] + Concatenation(text, Tokens(g, text, token.end))
  {
    hide Next;
    var token := Next(g, text, i);
    if token.begin < token.end {
      assert Tokens(g, text, i)[1..] == Tokens(g, text, token.end);
    }
  }

  /** With RETURN_DELIMS a token starts where the one before it ended. */
  lemma NothingSkipped(g: Config, text: string, i: nat)
    requires g.returnDelims && i <= |text|
    ensures Next(g, text, i).begin == i
  {
  }

  /** With RETURN_DELIMS and any quote characters, the tokens together are the text. */
  lemma {:induction false} DelimsReturnedLosesNothing(g: Config, text: string, i: nat)
    requires g.returnDelims && i <= |text|
    ensures Concatenation(text, Tokens(g, text, i)) == text[i..]
    decreases |text| - i
  {
    hide Next, Tokens, Concatenation;
    NothingSkipped(g, text, i);
    ConcatenationOfTokens(g, text, i);
    var end := Next(g, text, i).end;
    if i < end {
      DelimsReturnedLosesNothing(g, text, end);
      assert text[i..end] + text[end..] == text[i..];
    }
  }

  /** And the tokens marked as delimiters are just those: one character, and a delimiter. */
  lemma {:induction false} MarkedTokensAreDelims(g: Config, text: string, i: nat)
    requires i <= |text|
    ensures
      var token := Next(g, text, i);
      token.begin < token.end ==>
        (token.isDelim <==> g.returnDelims && text[token.begin] in g.delims)
        && (token.isDelim ==> token.end == token.begin + 1)
    decreases |text| - i
  {
    if i < |text| {
      if text[i] in g.delims && !g.returnDelims {
        MarkedTokensAreDelims(g, text, i + 1);
      }
    }
  }

  /** The characters of `s` that are not delimiters. */
  function Undelimited(g: Config, s: string): string {
    if s == [] then []
    else (if s[0] in g.delims then [] else [s[0]]) + Undelimited(g, s[1..])
  }

  lemma {:induction false} UndelimitedToEnd(g: Config, text: string, i: nat)
    requires i <= |text|
    ensures Undelimited(g, text[i..]) == text[i..QuickEnd(g, text, i)] + Undelimited(g, text[QuickEnd(g, text, i)..])
    decreases |text| - i
  {
    if i < |text| && text[i] !in g.delims {
      QuickSteps(g, text, i);
      UndelimitedStep(g, text, i);
      hide QuickEnd, Undelimited;
      UndelimitedToEnd(g, text, i + 1);
      var end := QuickEnd(g, text, i + 1);
      Prepend(text, i, end, Undelimited(g, text[end..]));
    } else {
      assert text[i..i] == [];
    }
  }

  lemma UndelimitedStep(g: Config, text: string, i: nat)
    requires i < |text| && text[i] !in g.delims
    ensures Undelimited(g, text[i..]) == [text[i]] + Undelimited(g, text[i + 1..])
  {
    assert text[i..][1..] == text[i + 1..];
  }

  lemma Prepend(text: string, i: nat, end: nat, rest: string)
    requires i < end <= |text|
    ensures [text[i]] + (text[i + 1..end] + rest) == text[i..end] + rest
  {
  }

  lemma {:induction false} UndelimitedSkips(g: Config, text: string, i: nat)
    requires i <= |text|
    ensures Undelimited(g, text[i..]) == Undelimited(g, text[QuickNext(g, text, i).begin..])
    decreases |text| - i
  {
    if i < |text| && text[i] in g.delims {
      assert text[i..][1..] == text[i + 1..];
      UndelimitedSkips(g, text, i + 1);
    }
  }

  lemma {:induction false} QuickEndOfToken(g: Config, text: string, i: nat)
    requires i <= |text|
    ensures QuickNext(g, text, i).end == QuickEnd(g, text, QuickNext(g, text, i).begin)
    decreases |text| - i
  {
    if i < |text| && text[i] in g.delims {
      QuickEndOfToken(g, text, i + 1);
    }
  }

  /** Without options, the tokens together are the text without its delimiters. */
  lemma {:induction false} OnlyDelimsAreLost(g: Config, text: string, i: nat)
    requires g.quotes == "" && !g.returnDelims && i <= |text|
    ensures Concatenation(text, Tokens(g, text, i)) == Undelimited(g, text[i..])
    decreases |text| - i
  {
    hide QuickNext, QuickEnd, Undelimited, Tokens, Concatenation;
    ConcatenationOfTokens(g, text, i);
    var token := QuickNext(g, text, i);
    UndelimitedSkips(g, text, i);
    QuickEndOfToken(g, text, i);
    UndelimitedToEnd(g, text, token.begin);
    if token.begin < token.end {
      OnlyDelimsAreLost(g, text, token.end);
    } else {
      NothingUndelimited(g, text);
    }
  }

  lemma NothingUndelimited(g: Config, text: string)
    ensures Undelimited(g, text[|text|..]) == []
  {
  }

  /** And each is a maximal run: no delimiter in it, nothing but delimiters skipped, and one behind it or the end. */
  lemma {:induction false} TokensAreMaximal(g: Config, text: string, i: nat)
    requires g.quotes == "" && !g.returnDelims && i <= |text|
    ensures
      var token := Next(g, text, i);
      && (forall k :: token.begin <= k < token.end ==> text[k] !in g.delims)
      && (forall k :: i <= k < token.begin ==> text[k] in g.delims)
      && (token.end < |text| ==> text[token.end] in g.delims)
    decreases |text| - i
  {
    if i < |text| {
      if text[i] in g.delims {
        TokensAreMaximal(g, text, i + 1);
      } else {
        RunIsMaximal(g, text, i + 1);
      }
    }
  }

  lemma {:induction false} RunIsMaximal(g: Config, text: string, i: nat)
    requires i <= |text|
    ensures forall k :: i <= k < QuickEnd(g, text, i) ==> text[k] !in g.delims
    ensures QuickEnd(g, text, i) < |text| ==> text[QuickEnd(g, text, i)] in g.delims
    decreases |text| - i
  {
    if i < |text| && text[i] !in g.delims {
      RunIsMaximal(g, text, i + 1);
    }
  }
}
