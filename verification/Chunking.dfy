/** The messages a reader delivers do not depend on how the stream was cut into reads. */
module Chunking {
  import opened Prelude
  import opened ChannelReader

  function Flattened(chunks: seq<seq<byte>>): seq<byte> {
    if chunks == [] then [] else chunks[0] + Flattened(chunks[1..])
  }

  /** More bytes behind a message do not change where it ends. */
  lemma FindNextExtends(a: seq<byte>, b: seq<byte>)
    requires FindNext(a).messageFound
    ensures FindNext(a + b) == FindNext(a)
  {
  }

  /** Parsing may stop anywhere and go on with what was left. */
  lemma {:induction false} ParseConcat(a: seq<byte>, b: seq<byte>)
    ensures Messages(a + b) == Messages(a) + Messages(Unparsed(a) + b)
    ensures Unparsed(a + b) == Unparsed(Unparsed(a) + b)
    decreases |a|
  {
    hide FindNext, Messages, Unparsed;
    ParseStep(a);
    var next := FindNext(a);
    if next.messageFound {
      ParseStep(a + b);
      FindNextExtends(a, b);
      var rest := a[next.messageSize..];
      assert (a + b)[..next.messageSize] == a[..next.messageSize];
      assert (a + b)[next.messageSize..] == rest + b;
      ParseConcat(rest, b);
      assert [a[..next.messageSize]] + (Messages(rest) + Messages(Unparsed(rest) + b))
          == [a[..next.messageSize]] + Messages(rest) + Messages(Unparsed(rest) + b);
    }
  }

  /** Nothing more can be cut off what a parse leaves. */
  lemma {:induction false} UnparsedIsFinal(a: seq<byte>)
    ensures !FindNext(Unparsed(a)).messageFound
    ensures Messages(Unparsed(a)) == [] && Unparsed(Unparsed(a)) == Unparsed(a)
    decreases |a|
  {
    hide FindNext, Messages, Unparsed;
    ParseStep(a);
    if FindNext(a).messageFound {
      UnparsedIsFinal(a[FindNext(a).messageSize..]);
    }
  }

  /**
   If no size check fails, the reads deliver exactly the messages of the whole stream, in
   order, and the overflow buffer holds exactly what is left of it.
   */
  lemma {:induction false} ChunkingDoesNotMatter(overflow: seq<byte>, chunks: seq<seq<byte>>)
    requires Feed(overflow, chunks).Some? && Unparsed(overflow) == overflow && Messages(overflow) == []
    ensures Feed(overflow, chunks).value
         == (Messages(overflow + Flattened(chunks)), Unparsed(overflow + Flattened(chunks)))
    decreases |chunks|
  {
    hide FindNext, Messages, Unparsed, PassesSizeChecks;
    if chunks == [] {
      assert overflow + [] == overflow;
    } else {
      var stream := overflow + chunks[0];
      UnparsedIsFinal(stream);
      ChunkingDoesNotMatter(Unparsed(stream), chunks[1..]);
      ParseConcat(stream, Flattened(chunks[1..]));
      assert overflow + (chunks[0] + Flattened(chunks[1..])) == stream + Flattened(chunks[1..]);
    }
  }

  /** Two ways of cutting the same stream deliver the same, if neither runs into a size check. */
  lemma SameStreamSameMessages(chunks: seq<seq<byte>>, others: seq<seq<byte>>)
    requires Flattened(chunks) == Flattened(others) && Feed([], chunks).Some? && Feed([], others).Some?
    ensures Feed([], chunks) == Feed([], others)
  {
    ParseStep([]);
    ChunkingDoesNotMatter([], chunks);
    ChunkingDoesNotMatter([], others);
  }

  /** What the reader hands on is the parse of the whole stream, if no size check fails. */
  lemma DispatchedIsTheStream(chunks: seq<seq<byte>>)
    requires Feed([], chunks).Some?
    ensures BeforeFailure([], chunks) == Messages(Flattened(chunks)) && AtFailure([], chunks) == []
    ensures External(BeforeFailure([], chunks)) == External(Messages(Flattened(chunks)))
    ensures Internal(BeforeFailure([], chunks)) == Internal(Messages(Flattened(chunks)))
  {
    hide FindNext, Messages, Unparsed, PassesSizeChecks, Feed, BeforeFailure, AtFailure, External, Internal;
    ParseStep([]);
    ChunkingDoesNotMatter([], chunks);
    NoFailure([], chunks);
    assert [] + Flattened(chunks) == Flattened(chunks);
  }

  lemma HandledIsPrefix(overflow: seq<byte>, data: seq<byte>, rest: seq<byte>)
    ensures Handled(overflow, data) <= Messages(overflow + data + rest)
  {
    hide FindNext, Messages, Unparsed;
    ParseConcat(overflow + data, rest);
  }

  lemma PrefixesBehind<T>(a: seq<T>, b: seq<T>, c: seq<T>, d: seq<T>)
    requires b + c <= d
    ensures a + b + c <= a + d
  {
    assert (a + d)[..|a + b + c|] == a + d[..|b + c|];
  }

  /**
   Even if a size check fails, what was handled by then, in the reads before and in the
   failing one, are the first messages of the stream: none is skipped, repeated or out of order.
   */
  lemma {:induction false} HandledAreFirstMessages(overflow: seq<byte>, chunks: seq<seq<byte>>)
    requires Unparsed(overflow) == overflow && Messages(overflow) == []
    ensures BeforeFailure(overflow, chunks) + AtFailure(overflow, chunks)
         <= Messages(overflow + Flattened(chunks))
    decreases |chunks|
  {
    hide FindNext, Messages, Unparsed, PassesSizeChecks, Handled, External, Internal;
    if chunks != [] {
      var stream, rest := overflow + chunks[0], Flattened(chunks[1..]);
      assert overflow + (chunks[0] + rest) == stream + rest;
      BeforeFailureFirst(overflow, chunks, []);
      HandledIsPrefix(overflow, chunks[0], rest);
      if PassesSizeChecks(overflow, chunks[0]) {
        UnparsedIsFinal(stream);
        HandledAreFirstMessages(Unparsed(stream), chunks[1..]);
        ParseConcat(stream, rest);
        PrefixesBehind(Messages(stream), BeforeFailure(Unparsed(stream), chunks[1..]),
          AtFailure(overflow, chunks), Messages(Unparsed(stream) + rest));
      }
    }
  }

  lemma PartsOfPrefix(a: seq<Message>, b: seq<Message>, whole: seq<Message>)
    requires a + b <= whole
    ensures External(a) + External(b) <= External(whole) && Internal(a) + Internal(b) <= Internal(whole)
  {
    hide External, Internal;
    InternalConcat(a, b);
    InternalConcat(a + b, whole[|a + b|..]);
    assert whole == a + b + whole[|a + b|..];
  }

  /** So neither listener gets a message out of order or twice, whatever the reads and their sizes. */
  lemma FailuresKeepOrder(chunks: seq<seq<byte>>)
    ensures var before, failing, all := BeforeFailure([], chunks), AtFailure([], chunks), Messages(Flattened(chunks));
            && External(before) + External(failing) <= External(all)
            && Internal(before) + Internal(failing) <= Internal(all)
  {
    hide FindNext, Messages, Unparsed, PassesSizeChecks, BeforeFailure, AtFailure, External, Internal;
    ParseStep([]);
    HandledAreFirstMessages([], chunks);
    assert [] + Flattened(chunks) == Flattened(chunks);
    PartsOfPrefix(BeforeFailure([], chunks), AtFailure([], chunks), Messages(Flattened(chunks)));
  }

  // ---------------------------------------------- when the size checks pass

  /** No header in the stream announces more than `limit` bytes. */
  ghost predicate SizesAtMost(stream: seq<byte>, limit: nat) {
    var next := FindNext(stream);
    next.messageSize <= limit && (next.messageFound ==> SizesAtMost(stream[next.messageSize..], limit))
  }

  lemma SizesStep(stream: seq<byte>, limit: nat)
    ensures var next := FindNext(stream);
            SizesAtMost(stream, limit) <==>
              next.messageSize <= limit && (next.messageFound ==> SizesAtMost(stream[next.messageSize..], limit))
  {
  }

  /** A header seen in a prefix of the stream is a header of the stream. */
  lemma AnnouncedEarly(a: seq<byte>, b: seq<byte>)
    ensures FindNext(a).messageSize > 0 ==> FindNext(a + b).messageSize == FindNext(a).messageSize
  {
  }

  /** What is left over is shorter than the message it belongs to, or than a header. */
  lemma UnfinishedIsShort(a: seq<byte>)
    requires !FindNext(a).messageFound
    ensures |a| < HEADER_SIZE || |a| < FindNext(a).messageSize
  {
  }

  lemma {:induction false} SizesOfPrefix(a: seq<byte>, b: seq<byte>, limit: nat)
    requires SizesAtMost(a + b, limit)
    ensures SizesAtMost(Unparsed(a) + b, limit) && FindNext(Unparsed(a)).messageSize <= limit
    decreases |a|
  {
    hide FindNext, Messages, Unparsed, SizesAtMost;
    ParseStep(a);
    SizesStep(a + b, limit);
    AnnouncedEarly(a, b);
    var next := FindNext(a);
    if next.messageFound {
      FindNextExtends(a, b);
      assert (a + b)[next.messageSize..] == a[next.messageSize..] + b;
      SizesOfPrefix(a[next.messageSize..], b, limit);
    }
  }

  ghost predicate ChunksAtMost(chunks: seq<seq<byte>>, size: nat) {
    forall i :: 0 <= i < |chunks| ==> |chunks[i]| <= size
  }

  lemma {:induction false} SmallMessagesPass(overflow: seq<byte>, chunks: seq<seq<byte>>, limit: nat, size: nat)
    requires HEADER_SIZE <= limit <= MAXIMUM_MESSAGE_SIZE && limit - 1 + size <= MAXIMUM_MESSAGE_SIZE
    requires ChunksAtMost(chunks, size) && SizesAtMost(overflow + Flattened(chunks), limit)
    requires !FindNext(overflow).messageFound
    ensures Feed(overflow, chunks).Some?
    decreases |chunks|
  {
    hide FindNext, Messages, Unparsed, SizesAtMost;
    if chunks != [] {
      var stream, rest := overflow + chunks[0], Flattened(chunks[1..]);
      assert overflow + (chunks[0] + rest) == stream + rest;
      UnfinishedIsShort(overflow);
      AnnouncedEarly(overflow, chunks[0] + rest);
      SizesStep(overflow + (chunks[0] + rest), limit);
      SizesOfPrefix(stream, rest, limit);
      UnparsedIsFinal(stream);
      SmallMessagesPass(Unparsed(stream), chunks[1..], limit, size);
    }
  }

  // ----------------------------------------------- when they may not pass

  function WordOf(n: nat): seq<byte>
    requires n < 0x1_0000_0000
  {
    [(n % 0x100) as byte, (n / 0x100 % 0x100) as byte, (n / 0x1_0000 % 0x100) as byte, (n / 0x100_0000) as byte]
  }

  function Zeros(n: nat): seq<byte> {
    seq(n, _ => 0 as byte)
  }

  /** A message of `size` bytes, all zero but for the announced size. */
  function MessageOf(size: nat): Message
    requires HEADER_SIZE <= size <= MAXIMUM_MESSAGE_SIZE
  {
    WordOf(size - HEADER_SIZE) + Zeros(size - 4)
  }

  lemma BytesOfNumber(n: nat)
    ensures n % 0x100 + 0x100 * (n / 0x100 % 0x100)
            + 0x1_0000 * (n / 0x1_0000 % 0x100) + 0x100_0000 * (n / 0x100_0000) == n
  {
    var a, b := n / 0x100, n / 0x1_0000;
    assert b == a / 0x100 && n / 0x100_0000 == b / 0x100;
  }

  lemma WordOfWord(n: nat, rest: seq<byte>)
    requires n < 0x1_0000_0000
    ensures Word(WordOf(n) + rest, 0) == n
  {
    BytesOfNumber(n);
    var s := WordOf(n) + rest;
    assert s[0] == WordOf(n)[0] && s[1] == WordOf(n)[1] && s[2] == WordOf(n)[2] && s[3] == WordOf(n)[3];
  }

  /** Any prefix of the message that holds its header announces its size. */
  lemma MessageAnnounces(size: nat, n: nat, rest: seq<byte>)
    requires HEADER_SIZE <= size <= MAXIMUM_MESSAGE_SIZE && n <= size
    ensures var a := MessageOf(size)[..n] + if n == size then rest else [];
            FindNext(a) == NextMessageInfo(n == size, if n < HEADER_SIZE then 0 else size)
  {
    var a := MessageOf(size)[..n] + if n == size then rest else [];
    if n >= HEADER_SIZE {
      assert a == WordOf(size - HEADER_SIZE) + a[4..];
      WordOfWord(size - HEADER_SIZE, a[4..]);
    }
  }

  lemma {:induction false} ZerosAreSmall(n: nat)
    ensures SizesAtMost(Zeros(n), HEADER_SIZE)
  {
    if n >= HEADER_SIZE {
      assert Zeros(n)[HEADER_SIZE..] == Zeros(n - HEADER_SIZE);
      ZerosAreSmall(n - HEADER_SIZE);
    }
  }

  lemma {:induction false} SizesGrow(stream: seq<byte>, small: nat, large: nat)
    requires SizesAtMost(stream, small) && small <= large
    ensures SizesAtMost(stream, large)
    decreases |stream|
  {
    var next := FindNext(stream);
    if next.messageFound {
      SizesGrow(stream[next.messageSize..], small, large);
    }
  }

  /** A string, one character per read. */
  function Singles(s: seq<byte>): seq<seq<byte>> {
    if s == [] then [] else [[s[0]]] + Singles(s[1..])
  }

  lemma {:induction false} SinglesFlatten(s: seq<byte>)
    ensures Flattened(Singles(s)) == s && ChunksAtMost(Singles(s), 1)
  {
    if s != [] {
      SinglesFlatten(s[1..]);
      assert s == [s[0]] + s[1..];
    }
  }

  lemma {:induction false} FlattenedSnoc(chunks: seq<seq<byte>>, last: seq<byte>)
    ensures Flattened(chunks + [last]) == Flattened(chunks) + last
  {
    if chunks == [] {
      assert Flattened([last]) == last + Flattened([]);
    } else {
      assert (chunks + [last])[1..] == chunks[1..] + [last];
      FlattenedSnoc(chunks[1..], last);
    }
  }

  /** A message that trickles in, followed by a read of `size` bytes that ends it. */
  lemma {:induction false} TrickleOverflows(limit: nat, n: nat, last: seq<byte>)
    requires HEADER_SIZE <= limit <= MAXIMUM_MESSAGE_SIZE && n < limit
    requires limit - 1 + |last| > MAXIMUM_MESSAGE_SIZE
    ensures Feed(MessageOf(limit)[..n], Singles(MessageOf(limit)[n..limit - 1]) + [last]).None?
    decreases limit - n
  {
    var m := MessageOf(limit);
    var chunks := Singles(m[n..limit - 1]) + [last];
    if n == limit - 1 {
      assert chunks[0] == last;
    } else {
      assert m[n..limit - 1][1..] == m[n + 1..limit - 1];
      assert chunks[0] == [m[n]] && chunks[1..] == Singles(m[n + 1..limit - 1]) + [last];
      assert m[..n] + [m[n]] == m[..n + 1];
      MessageAnnounces(limit, n + 1, []);
      assert m[..n + 1] + [] == m[..n + 1];
      ParseStep(m[..n + 1]);
      TrickleOverflows(limit, n + 1, last);
    }
  }

  /** The stream that overflows when it trickles in keeps to the announced limit. */
  lemma TrickleIsSmall(limit: nat, size: nat) returns (chunks: seq<seq<byte>>)
    requires HEADER_SIZE <= limit <= MAXIMUM_MESSAGE_SIZE && size >= 1
    requires limit - 1 + size > MAXIMUM_MESSAGE_SIZE
    ensures ChunksAtMost(chunks, size) && SizesAtMost(Flattened(chunks), limit)
    ensures Feed([], chunks).None?
  {
    hide FindNext, SizesAtMost, Feed;
    var m := MessageOf(limit);
    var last := [m[limit - 1]] + Zeros(size - 1);
    chunks := Singles(m[0..limit - 1]) + [last];
    SinglesFlatten(m[0..limit - 1]);
    FlattenedSnoc(Singles(m[0..limit - 1]), last);
    var stream := m + Zeros(size - 1);
    assert Flattened(chunks) == stream;
    MessageAnnounces(limit, limit, Zeros(size - 1));
    assert m[..limit] == m;
    ZerosAreSmall(size - 1);
    SizesGrow(Zeros(size - 1), HEADER_SIZE, limit);
    assert stream[limit..] == Zeros(size - 1);
    SizesStep(stream, limit);
    TrickleOverflows(limit, 0, last);
    assert m[..0] == [];
  }

  /**
   Reads of at most `size` bytes of a stream whose messages have at most `limit` bytes never
   fail a size check, however the stream is cut, exactly when an unfinished message and one
   more read always fit.
   */
  lemma SizeLimitIsExact(limit: nat, size: nat)
    requires HEADER_SIZE <= limit <= MAXIMUM_MESSAGE_SIZE && size >= 1
    ensures limit - 1 + size <= MAXIMUM_MESSAGE_SIZE <==>
            forall chunks :: ChunksAtMost(chunks, size) && SizesAtMost(Flattened(chunks), limit) ==>
              Feed([], chunks).Some?
  {
    if limit - 1 + size <= MAXIMUM_MESSAGE_SIZE {
      forall chunks | ChunksAtMost(chunks, size) && SizesAtMost(Flattened(chunks), limit)
        ensures Feed([], chunks).Some?
      {
        assert [] + Flattened(chunks) == Flattened(chunks);
        SmallMessagesPass([], chunks, limit, size);
      }
    } else {
      var chunks := TrickleIsSmall(limit, size);
    }
  }

  /** Read byte by byte, a stream of messages within the maximum always passes. */
  lemma SinglesPass(stream: seq<byte>, limit: nat)
    requires HEADER_SIZE <= limit <= MAXIMUM_MESSAGE_SIZE && SizesAtMost(stream, limit)
    ensures Feed([], Singles(stream)).Some?
  {
    hide FindNext, SizesAtMost, Feed;
    SinglesFlatten(stream);
    assert [] + stream == stream;
    ParseStep([]);
    SmallMessagesPass([], Singles(stream), limit, 1);
  }

  /** Whether some size check fails depends on the cut of the stream, unless they all fit. */
  lemma CutsAgreeExactly(limit: nat, size: nat)
    requires HEADER_SIZE <= limit <= MAXIMUM_MESSAGE_SIZE && size >= 1
    ensures limit - 1 + size <= MAXIMUM_MESSAGE_SIZE <==>
            forall chunks, others ::
              ChunksAtMost(chunks, size) && ChunksAtMost(others, size)
              && Flattened(chunks) == Flattened(others) && SizesAtMost(Flattened(chunks), limit) ==>
                (Feed([], chunks).Some? <==> Feed([], others).Some?)
  {
    hide FindNext, SizesAtMost, Feed;
    SizeLimitIsExact(limit, size);
    if limit - 1 + size > MAXIMUM_MESSAGE_SIZE {
      var chunks := TrickleIsSmall(limit, size);
      var others := Singles(Flattened(chunks));
      SinglesFlatten(Flattened(chunks));
      SinglesPass(Flattened(chunks), limit);
      assert Feed([], chunks).None? && Feed([], others).Some?;
    }
  }

  /** With the buffer the reader uses, messages may fill all but a read, less one byte, of the maximum. */
  lemma ReadBufferIsSafe(limit: nat)
    requires 16 <= limit <= 128 * 1024 * 1024
    ensures limit <= 128 * 1024 * 1024 - 4096 + 1 <==>
            forall chunks :: ChunksAtMost(chunks, 4096) && SizesAtMost(Flattened(chunks), limit) ==>
              Feed([], chunks).Some?
  {
    SizeLimitIsExact(limit, READ_BUFFER_SIZE);
  }
}
