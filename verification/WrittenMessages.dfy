/** Messages written field by field, and where the reader takes them. */
module WrittenMessages {
  import opened Prelude
  import opened ChannelReader
  import opened Chunking

  /** The fields of a message; the header holds them as 32-bit words, behind the length of the body. */
  datatype Fields = Fields(routing: nat, kind: nat, flags: nat, body: seq<byte>) {
    predicate AreWords() {
      && routing < 0x1_0000_0000 && kind < 0x1_0000_0000 && flags < 0x1_0000_0000
      && |body| <= 0xFFFF_FFFF - 16
    }

    /** The first message on a channel: no routing (-2), and the hello type. */
    predicate IsHello() {
      routing == 0xFFFF_FFFE && kind == 0xFFFF
    }
  }

  function Written(f: Fields): (m: Message)
    requires f.AreWords()
    ensures |m| == 16 + |f.body|
  {
    WordOf(|f.body|) + WordOf(f.routing) + WordOf(f.kind) + WordOf(f.flags) + f.body
  }

  lemma WordBehind(front: seq<byte>, n: nat, rest: seq<byte>)
    requires n < 0x1_0000_0000
    ensures Word(front + WordOf(n) + rest, |front|) == n
  {
    var s, w := front + WordOf(n) + rest, WordOf(n) + rest;
    WordOfWord(n, rest);
    assert forall i :: 0 <= i < 4 ==> s[|front| + i] == w[i];
  }

  lemma WordsOfWritten(f: Fields, rest: seq<byte>)
    requires f.AreWords()
    ensures var s := Written(f) + rest;
            Word(s, 0) == |f.body| && Word(s, 4) == f.routing && Word(s, 8) == f.kind && Word(s, 12) == f.flags
  {
    var a, b, c, d := WordOf(|f.body|), WordOf(f.routing), WordOf(f.kind), WordOf(f.flags);
    var s := Written(f) + rest;
    hide WordOf, Word;
    assert s == [] + a + (b + c + d + f.body + rest);
    WordBehind([], |f.body|, b + c + d + f.body + rest);
    assert s == a + b + (c + d + f.body + rest);
    WordBehind(a, f.routing, c + d + f.body + rest);
    assert s == (a + b) + c + (d + f.body + rest);
    WordBehind(a + b, f.kind, d + f.body + rest);
    assert s == (a + b + c) + d + (f.body + rest);
    WordBehind(a + b + c, f.flags, f.body + rest);
  }

  /** A written message is found at the front of a stream, whole. */
  lemma WrittenIsFound(f: Fields, rest: seq<byte>)
    requires f.AreWords()
    ensures FindNext(Written(f) + rest) == NextMessageInfo(true, 16 + |f.body|)
    ensures (Written(f) + rest)[..16 + |f.body|] == Written(f) && (Written(f) + rest)[16 + |f.body|..] == rest
  {
    WordsOfWritten(f, rest);
    hide Word, Written;
  }

  lemma WrittenIsInternal(f: Fields)
    requires f.AreWords()
    ensures Internal([Written(f)]) == (if f.IsHello() then [Written(f)] else [])
    ensures External([Written(f)]) == if f.IsHello() then [] else [Written(f)]
  {
    WordsOfWritten(f, []);
    assert Written(f) + [] == Written(f);
    hide Word, Written;
    assert [Written(f)][1..] == [];
  }

  ghost predicate AllAreWords(fs: seq<Fields>) {
    forall i :: 0 <= i < |fs| ==> fs[i].AreWords()
  }

  function WrittenAll(fs: seq<Fields>): (ms: seq<Message>)
    requires AllAreWords(fs)
  {
    if fs == [] then [] else [Written(fs[0])] + WrittenAll(fs[1..])
  }

  function Hellos(fs: seq<Fields>): (hellos: seq<Fields>)
    requires AllAreWords(fs)
    ensures AllAreWords(hellos)
  {
    if fs == [] then [] else (if fs[0].IsHello() then [fs[0]] else []) + Hellos(fs[1..])
  }

  function Others(fs: seq<Fields>): (others: seq<Fields>)
    requires AllAreWords(fs)
    ensures AllAreWords(others)
  {
    if fs == [] then [] else (if fs[0].IsHello() then [] else [fs[0]]) + Others(fs[1..])
  }

  /** Parsing undoes writing: a stream of written messages is cut into just those. */
  lemma {:induction false} ParsingUndoesWriting(fs: seq<Fields>)
    requires AllAreWords(fs)
    ensures Messages(Flattened(WrittenAll(fs))) == WrittenAll(fs) && Unparsed(Flattened(WrittenAll(fs))) == []
  {
    hide Messages, Unparsed, FindNext, Written;
    ParseStep([]);
    if fs != [] {
      var first, rest := Written(fs[0]), WrittenAll(fs[1..]);
      assert ([first] + rest)[1..] == rest;
      ParsingUndoesWriting(fs[1..]);
      WrittenIsFound(fs[0], Flattened(rest));
      ParseStep(first + Flattened(rest));
    }
  }

  /** The hellos among them are for the internal handler, all others for the listener, in order. */
  lemma {:induction false} WrittenAreSorted(fs: seq<Fields>)
    requires AllAreWords(fs)
    ensures Internal(WrittenAll(fs)) == WrittenAll(Hellos(fs)) && External(WrittenAll(fs)) == WrittenAll(Others(fs))
  {
    hide IsInternalMessage, Written, External, Internal;
    NothingInNothing();
    if fs != [] {
      var first, rest := [Written(fs[0])], WrittenAll(fs[1..]);
      WrittenAreSorted(fs[1..]);
      WrittenIsInternal(fs[0]);
      InternalConcat(first, rest);
      OneMore(fs[0], Hellos(fs[1..]));
      OneMore(fs[0], Others(fs[1..]));
      assert [] + Hellos(fs[1..]) == Hellos(fs[1..]) && [] + Others(fs[1..]) == Others(fs[1..]);
    }
  }

  lemma OneMore(f: Fields, fs: seq<Fields>)
    requires f.AreWords() && AllAreWords(fs)
    ensures WrittenAll([f] + fs) == [Written(f)] + WrittenAll(fs)
  {
    assert ([f] + fs)[1..] == fs;
  }

  /**
   However a stream of written messages is cut into reads, if no size check fails, the listener gets
   exactly the messages that are not hellos, the internal handler the hellos, both in order.
   */
  lemma WrittenMessagesArrive(fs: seq<Fields>, chunks: seq<seq<byte>>)
    requires AllAreWords(fs) && Flattened(chunks) == Flattened(WrittenAll(fs)) && Feed([], chunks).Some?
    ensures External(BeforeFailure([], chunks)) == WrittenAll(Others(fs))
    ensures Internal(BeforeFailure([], chunks)) == WrittenAll(Hellos(fs))
    ensures Feed([], chunks).value.1 == []
  {
    hide Messages, Unparsed, FindNext, Written, Feed, BeforeFailure, AtFailure, External, Internal;
    DispatchedIsTheStream(chunks);
    ParsingUndoesWriting(fs);
    WrittenAreSorted(fs);
    ParseStep([]);
    ChunkingDoesNotMatter([], chunks);
    assert [] + Flattened(chunks) == Flattened(chunks);
  }

  /** A whole message in one read is always handled, whatever its size, and goes where its header says. */
  lemma WholeMessageIsHandled(f: Fields)
    requires f.AreWords()
    ensures PassesSizeChecks([], Written(f)) && Handled([], Written(f)) == [Written(f)]
    ensures External(Handled([], Written(f))) == if f.IsHello() then [] else [Written(f)]
    ensures Internal(Handled([], Written(f))) == if f.IsHello() then [Written(f)] else []
  {
    hide Written, Messages, Unparsed;
    var m := Written(f);
    assert m + [] == m && [] + m == m;
    WrittenIsFound(f, []);
    ParseStep(m);
    ParseStep([]);
    assert [m] + [] == [m];
    WrittenIsInternal(f);
  }

  /** The size a header announces: 16 more than the word in front, or the largest 32-bit number. */
  lemma AnnouncedSize(payload: nat, rest: seq<byte>)
    requires payload < 0x1_0000_0000
    ensures PeekNext(WordOf(payload) + rest) ==
            if |rest| < 12 then None
            else Some(if payload + 16 <= 0xFFFF_FFFF then payload + 16 else 0xFFFF_FFFF)
  {
    WordOfWord(payload, rest);
  }

  /** A read behind an unfinished message: more than 128 MB in all is turned away, and nothing of it handled. */
  lemma TooMuchIsTurnedAway(overflow: seq<byte>, data: seq<byte>)
    requires overflow != [] && |overflow| + |data| > 128 * 1024 * 1024
    ensures !PassesSizeChecks(overflow, data) && Handled(overflow, data) == []
  {
  }

  /** Otherwise all that the data completes is handled, whether or not the header behind it is accepted. */
  lemma TheRestIsHandled(overflow: seq<byte>, data: seq<byte>)
    requires overflow == [] || |overflow| + |data| <= 128 * 1024 * 1024
    ensures Handled(overflow, data) == Messages(overflow + data)
    ensures PassesSizeChecks(overflow, data) <==> FindNext(Unparsed(overflow + data)).messageSize <= 128 * 1024 * 1024
  {
  }

  /** The hello message as it is on the wire, each word with its lowest byte in front. */
  lemma HelloBytes(flags: byte)
    ensures Written(Fields(0xFFFF_FFFE, 0xFFFF, flags as nat, [])) ==
            [0, 0, 0, 0, 0xFE, 0xFF, 0xFF, 0xFF, 0xFF, 0xFF, 0, 0, flags, 0, 0, 0]
  {
  }

  /** The front of a message is kept exactly if its header announces at most 128 MB. */
  lemma HeaderIsChecked(f: Fields, n: nat)
    requires f.AreWords() && 16 <= n < 16 + |f.body|
    ensures PassesSizeChecks([], Written(f)[..n]) <==> 16 + |f.body| <= 128 * 1024 * 1024
    ensures Handled([], Written(f)[..n]) == []
  {
    var front, s := Written(f)[..n], Written(f) + [];
    WordsOfWritten(f, []);
    assert forall i :: 0 <= i < 16 ==> front[i] == s[i];
    hide Written;
    assert FindNext(front) == NextMessageInfo(false, 16 + |f.body|);
    assert [] + front == front;
    ParseStep(front);
  }
}
