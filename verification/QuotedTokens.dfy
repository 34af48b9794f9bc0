/** What the tokenizer makes of quotes: which text is one token, said without its states. */
module QuotedTokens {
  import opened Prelude
  import opened StringTokenizer

  /**
   Text inside quotes that does not close them: characters other than the quote, and pairs of a
   backslash and any character.
   */
  predicate IsInside(s: string, q: char) {
    s == [] || if s[0] == '\\' then |s| >= 2 && IsInside(s[2..], q) else s[0] != q && IsInside(s[1..], q)
  }

  /** A piece of a token: a character by itself, or a section in quotes. */
  datatype Piece = Plain(c: char) | Quoted(q: char, inside: string) {
    predicate Fits(g: Config) {
      match this
      case Plain(c) => c !in g.delims && c !in g.quotes
      case Quoted(q, inside) => Opens(g, q) && q != '\\' && IsInside(inside, q)
    }

    /** The character the tokenizer remembers behind the piece. */
    function Mark(): char {
      match this
      case Plain(c) => c
      case Quoted(q, _) => q
    }

    function Text(): (s: string)
      ensures s != []
    {
      match this
      case Plain(c) => [c]
      case Quoted(q, inside) => [q] + inside + [q]
    }
  }

  predicate Opens(g: Config, q: char) {
    q in g.quotes && q !in g.delims
  }

  ghost predicate AllFit(g: Config, pieces: seq<Piece>) {
    forall i :: 0 <= i < |pieces| ==> pieces[i].Fits(g)
  }

  function TextOf(pieces: seq<Piece>): (s: string)
    ensures pieces != [] ==> s != []
  {
    if pieces == [] then [] else pieces[0].Text() + TextOf(pieces[1..])
  }

  /** A quoted section ended by the end of the text: at most the last backslash has nothing to escape. */
  predicate IsUnclosed(q: char, inside: string) {
    || q == '\\' || IsInside(inside, q)
    || (inside != [] && inside[|inside| - 1] == '\\' && IsInside(inside[..|inside| - 1], q))
  }

  function InQuote(q: char): AdvanceState {
    AdvanceState(true, false, q)
  }

  lemma {:induction false} InsideIsRead(g: Config, text: string, i: nat, j: nat, q: char)
    requires i <= j <= |text| && q != '\\' && IsInside(text[i..j], q)
    ensures FullEnd(g, text, i, InQuote(q)) == FullEnd(g, text, j, InQuote(q))
    decreases j - i
  {
    if i < j {
      hide FullEnd;
      var s := text[i..j];
      assert s[0] == text[i];
      FullEndStep(g, text, i, InQuote(q));
      if s[0] == '\\' {
        assert s[2..] == text[i + 2..j];
        FullEndStep(g, text, i + 1, AdvanceState(true, true, q));
        InsideIsRead(g, text, i + 2, j, q);
      } else {
        assert s[1..] == text[i + 1..j];
        InsideIsRead(g, text, i + 1, j, q);
      }
    }
  }

  function Outside(mark: char): AdvanceState {
    AdvanceState(false, false, mark)
  }

  lemma SectionIsRead(g: Config, text: string, i: nat, q: char, inside: string)
    requires q != '\\' && IsInside(inside, q) && i + |inside| < |text|
    requires text[i..i + |inside|] == inside && text[i + |inside|] == q
    ensures FullEnd(g, text, i, InQuote(q)) == FullEnd(g, text, i + |inside| + 1, Outside(q))
  {
    hide FullEnd, IsInside;
    InsideIsRead(g, text, i, i + |inside|, q);
    FullEndStep(g, text, i + |inside|, InQuote(q));
  }

  lemma SectionParts(text: string, i: nat, q: char, inside: string)
    requires i <= |text| && [q] + inside + [q] <= text[i..]
    ensures i + 1 + |inside| < |text| && text[i] == q && text[i + 1..i + 1 + |inside|] == inside
    ensures text[i + 1 + |inside|] == q
  {
    var section, s := [q] + inside + [q], text[i..];
    assert forall k :: 0 <= k < |section| ==> text[i + k] == s[k] == section[k];
    assert forall k :: 0 <= k < |inside| ==> section[k + 1] == inside[k];
    assert section[|inside| + 1] == q;
  }

  lemma StateOutside(g: Config, mark: char, c: char)
    ensures Opens(g, c) ==> AdvanceOne(g, Outside(mark), c) == (InQuote(c), true)
    ensures c !in g.delims && c !in g.quotes ==> AdvanceOne(g, Outside(mark), c) == (Outside(c), true)
  {
  }

  /** One piece, from outside quotes to outside quotes. */
  lemma PieceIsRead(g: Config, text: string, i: nat, piece: Piece, mark: char)
    requires piece.Fits(g) && i <= |text| && piece.Text() <= text[i..]
    ensures i + |piece.Text()| <= |text|
    ensures FullEnd(g, text, i, Outside(mark)) == FullEnd(g, text, i + |piece.Text()|, Outside(piece.Mark()))
  {
    hide FullEnd, IsInside, AdvanceOne, Outside;
    assert text[i] == text[i..][0] == piece.Text()[0];
    StateOutside(g, mark, text[i]);
    FullEndStep(g, text, i, Outside(mark));
    match piece
    case Plain(_) =>
    case Quoted(q, inside) =>
      SectionParts(text, i, q, inside);
      SectionIsRead(g, text, i + 1, q, inside);
  }

  function LastMark(pieces: seq<Piece>, mark: char): char {
    if pieces == [] then mark else pieces[|pieces| - 1].Mark()
  }

  lemma TextStep(pieces: seq<Piece>, tail: string)
    requires pieces != []
    ensures TextOf(pieces) + tail == pieces[0].Text() + (TextOf(pieces[1..]) + tail)
    ensures |TextOf(pieces)| == |pieces[0].Text()| + |TextOf(pieces[1..])|
  {
    TextOfFirst(pieces);
    hide TextOf, Piece.Text;
    Associative(pieces[0].Text(), TextOf(pieces[1..]), tail);
  }

  lemma TextOfFirst(pieces: seq<Piece>)
    requires pieces != []
    ensures TextOf(pieces) == pieces[0].Text() + TextOf(pieces[1..])
  {
    hide Piece.Text;
  }

  /** What is read of `pieces`: all of them, if nothing ends the token before. */
  lemma {:induction false} PiecesAreRead(
      g: Config, text: string, i: nat, pieces: seq<Piece>, mark: char, tail: string)
    requires AllFit(g, pieces) && i <= |text| && text[i..] == TextOf(pieces) + tail
    ensures i + |TextOf(pieces)| <= |text|
    ensures FullEnd(g, text, i, Outside(mark))
         == FullEnd(g, text, i + |TextOf(pieces)|, Outside(LastMark(pieces, mark)))
    decreases |pieces|
  {
    hide FullEnd, AdvanceOne, Outside, TextOf, Piece.Text, Piece.Fits;
    if pieces == [] {
      NoText();
    } else {
      FirstFits(g, pieces);
      hide AllFit;
      TextStep(pieces, tail);
      var first, rest := pieces[0].Text(), pieces[1..];
      FrontOf(text, i, first, TextOf(rest) + tail);
      PieceIsRead(g, text, i, pieces[0], mark);
      PiecesAreRead(g, text, i + |first|, rest, pieces[0].Mark(), tail);
      MarkOfRest(pieces, mark);
    }
  }

  lemma FirstFits(g: Config, pieces: seq<Piece>)
    requires AllFit(g, pieces) && pieces != []
    ensures pieces[0].Fits(g) && AllFit(g, pieces[1..])
  {
  }

  lemma MarkOfRest(pieces: seq<Piece>, mark: char)
    requires pieces != []
    ensures LastMark(pieces[1..], pieces[0].Mark()) == LastMark(pieces, mark)
  {
  }

  lemma FrontOf(text: string, i: nat, first: string, rest: string)
    requires i <= |text| && text[i..] == first + rest
    ensures i + |first| <= |text| && first <= text[i..] && text[i + |first|..] == rest
  {
    assert |text| - i == |first| + |rest|;
    assert text[i + |first|..] == text[i..][|first|..];
  }

  /** The end of the text, or a delimiter, ends a token outside quotes. */
  predicate EndsToken(g: Config, tail: string) {
    tail == [] || tail[0] in g.delims
  }

  lemma EndIsRead(g: Config, text: string, i: nat, mark: char)
    requires i <= |text| && EndsToken(g, text[i..])
    ensures FullEnd(g, text, i, Outside(mark)) == i
  {
  }

  /** From an opening quote that is never closed, the token runs to the end of the text. */
  lemma {:induction false} UnclosedIsRead(g: Config, text: string, i: nat, q: char)
    requires i <= |text| && IsUnclosed(q, text[i..])
    ensures FullEnd(g, text, i, InQuote(q)) == |text|
  {
    if q == '\\' {
      BackslashNeverCloses(g, text, i, false);
    } else if IsInside(text[i..], q) {
      assert text[i..|text|] == text[i..];
      InsideIsRead(g, text, i, |text|, q);
    } else {
      var n := |text| - 1;
      assert text[i..][..|text[i..]| - 1] == text[i..n];
      InsideIsRead(g, text, i, n, q);
      FullEndStep(g, text, n, InQuote(q));
    }
  }

  lemma {:induction false} BackslashNeverCloses(g: Config, text: string, i: nat, inEscape: bool)
    requires i <= |text|
    ensures FullEnd(g, text, i, AdvanceState(true, inEscape, '\\')) == |text|
    decreases |text| - i
  {
    if i < |text| {
      BackslashNeverCloses(g, text, i + 1, !inEscape && text[i] == '\\');
    }
  }

  // ---------------------------------------------------------------- the theorem

  /** `GetNext` finds what the full form finds. */
  lemma NextIsFullNext(g: Config, text: string, i: nat)
    requires i <= |text|
    ensures Next(g, text, i) == FullNext(g, text, i)
  {
    if g.quotes == "" && !g.returnDelims {
      QuickIsFull(g, text, i);
    }
  }

  lemma {:induction false} DelimsAreSkipped(g: Config, text: string, i: nat, j: nat)
    requires i <= j <= |text| && !g.returnDelims && forall k :: i <= k < j ==> text[k] in g.delims
    ensures FullNext(g, text, i) == FullNext(g, text, j)
    decreases j - i
  {
    if i < j {
      DelimsAreSkipped(g, text, i + 1, j);
    }
  }

  lemma PiecesAreToken(g: Config, text: string, i: nat, pieces: seq<Piece>, tail: string)
    requires AllFit(g, pieces) && pieces != [] && EndsToken(g, tail)
    requires i <= |text| && text[i..] == TextOf(pieces) + tail
    ensures FullNext(g, text, i) == Token(i, i + |TextOf(pieces)|, false)
  {
    hide FullEnd, AdvanceOne, FullNext, TextOf;
    var j := i + |TextOf(pieces)|;
    FrontOf(text, i, TextOf(pieces), tail);
    FirstPieceOpens(g, text, i, pieces, tail);
    PiecesAreRead(g, text, i, pieces, INITIAL.quoteChar, tail);
    EndIsRead(g, text, j, LastMark(pieces, INITIAL.quoteChar));
    FullEndStep(g, text, i, INITIAL);
    FullNextStep(g, text, i);
  }

  lemma FirstPieceOpens(g: Config, text: string, i: nat, pieces: seq<Piece>, tail: string)
    requires AllFit(g, pieces) && pieces != [] && i <= |text| && text[i..] == TextOf(pieces) + tail
    ensures i < |text| && AdvanceOne(g, INITIAL, text[i]).1
  {
    var first := pieces[0];
    assert text[i] == text[i..][0] == first.Text()[0];
    assert first.Fits(g);
  }

  /**
   The next token, for any quotes, delimiters and options: the delimiters in front are skipped unless they
   are to be returned; then plain characters and quoted sections, whatever the sections hold, are one
   token, up to a delimiter outside quotes or the end.
   */
  lemma QuotedSectionsAreOneToken(
      g: Config, before: string, skipped: string, pieces: seq<Piece>, tail: string)
    requires AllFit(g, pieces) && pieces != [] && EndsToken(g, tail)
    requires (forall k :: 0 <= k < |skipped| ==> skipped[k] in g.delims) && (g.returnDelims ==> skipped == [])
    ensures
      var begin := |before| + |skipped|;
      Next(g, before + skipped + TextOf(pieces) + tail, |before|) == Token(begin, begin + |TextOf(pieces)|, false)
  {
    hide FullNext, Next, TextOf;
    var text, begin := before + skipped + TextOf(pieces) + tail, |before| + |skipped|;
    assert text[begin..] == TextOf(pieces) + tail;
    assert forall k :: |before| <= k < begin ==> text[k] == skipped[k - |before|];
    NextIsFullNext(g, text, |before|);
    if !g.returnDelims {
      DelimsAreSkipped(g, text, |before|, begin);
    }
    PiecesAreToken(g, text, begin, pieces, tail);
  }

  /** A quoted section that is never closed takes all the rest of the text into the token. */
  lemma UnclosedQuoteRunsToTheEnd(
      g: Config, before: string, pieces: seq<Piece>, q: char, inside: string)
    requires AllFit(g, pieces) && Opens(g, q) && IsUnclosed(q, inside)
    ensures
      var text := before + TextOf(pieces) + [q] + inside;
      Next(g, text, |before|) == Token(|before|, |text|, false)
  {
    hide FullEnd, AdvanceOne, FullNext, Next, TextOf, IsUnclosed;
    var text, i, j := before + TextOf(pieces) + [q] + inside, |before|, |before| + |TextOf(pieces)|;
    assert text[i..] == TextOf(pieces) + ([q] + inside) && text[j] == q && text[j + 1..] == inside;
    NextIsFullNext(g, text, i);
    if pieces == [] {
      assert i == j by { NoText(); }
    } else {
      FirstPieceOpens(g, text, i, pieces, [q] + inside);
    }
    PiecesAreRead(g, text, i, pieces, INITIAL.quoteChar, [q] + inside);
    StateOutside(g, LastMark(pieces, INITIAL.quoteChar), q);
    StateOutside(g, INITIAL.quoteChar, q);
    FullEndStep(g, text, j, Outside(LastMark(pieces, INITIAL.quoteChar)));
    UnclosedIsRead(g, text, j + 1, q);
    FullEndStep(g, text, i, INITIAL);
    FullNextStep(g, text, i);
  }

  lemma NoText()
    ensures TextOf([]) == []
  {
  }
}
