/**
 The receiving end of an IPC channel: cutting a byte stream into messages, with an overflow
 buffer that carries an unfinished message from one read to the next.
 */
module ChannelReader {
  import opened Prelude

  /** A message is its bytes: a header of four 32-bit words, then the payload. */
  type Message = seq<byte>

  const HEADER_SIZE: nat := 16
  const SIZE_MAX: nat := 0xFFFF_FFFF
  const MAXIMUM_MESSAGE_SIZE: nat := 128 * 1024 * 1024
  const READ_BUFFER_SIZE: nat := 4 * 1024
  /** MSG_ROUTING_NONE, -2, as the word it is stored in. */
  const ROUTING_NONE: nat := 0xFFFF_FFFE
  const HELLO_MESSAGE_TYPE: nat := 0xFFFF

  /** The little-endian 32-bit word at `i`. */
  function Word(s: seq<byte>, i: nat): nat
    requires i + 4 <= |s|
  {
    s[i] as int + 0x100 * s[i + 1] as int + 0x1_0000 * s[i + 2] as int + 0x100_0000 * s[i + 3] as int
  }

  /** `Pickle::PeekNext`: the size the header announces. */
  function PeekNext(range: seq<byte>): Option<nat> {
    if |range| < HEADER_SIZE then None
    else if Word(range, 0) > SIZE_MAX - HEADER_SIZE then Some(SIZE_MAX)
    else Some(HEADER_SIZE + Word(range, 0))
  }

  datatype NextMessageInfo = NextMessageInfo(messageFound: bool, messageSize: nat)

  /** `Message::FindNext`. */
  function FindNext(range: seq<byte>): NextMessageInfo {
    match PeekNext(range)
    case None => NextMessageInfo(false, 0)
    case Some(size) => NextMessageInfo(|range| >= size, size)
  }

  predicate IsInternalMessage(m: Message) {
    |m| >= HEADER_SIZE && Word(m, 4) == ROUTING_NONE && Word(m, 8) == HELLO_MESSAGE_TYPE
  }

  // ------------------------------------------------------- the specification

  /** All complete messages at the front of the stream. */
  function Messages(stream: seq<byte>): seq<Message> {
    var next := FindNext(stream);
    if !next.messageFound then []
    else [stream[..next.messageSize]] + Messages(stream[next.messageSize..])
  }

  /** What is left of the stream behind them. */
  function Unparsed(stream: seq<byte>): seq<byte> {
    var next := FindNext(stream);
    if !next.messageFound then stream else Unparsed(stream[next.messageSize..])
  }

  /** One step of the parse. */
  lemma ParseStep(stream: seq<byte>)
    ensures var next := FindNext(stream);
            if next.messageFound
            then && HEADER_SIZE <= next.messageSize <= |stream|
                 && Messages(stream) == [stream[..next.messageSize]] + Messages(stream[next.messageSize..])
                 && Unparsed(stream) == Unparsed(stream[next.messageSize..])
            else Messages(stream) == [] && Unparsed(stream) == stream
    ensures stream == [] ==> FindNext(stream) == NextMessageInfo(false, 0)
  {
  }

  function Internal(ms: seq<Message>): seq<Message> {
    if ms == [] then []
    else if IsInternalMessage(ms[0]) then [ms[0]] + Internal(ms[1..])
    else Internal(ms[1..])
  }

  function External(ms: seq<Message>): seq<Message> {
    if ms == [] then []
    else if IsInternalMessage(ms[0]) then External(ms[1..])
    else [ms[0]] + External(ms[1..])
  }

  /** The size checks one read has to pass, given what the buffer holds already. */
  predicate PassesSizeChecks(overflow: seq<byte>, data: seq<byte>) {
    && (overflow == [] || |overflow| + |data| <= MAXIMUM_MESSAGE_SIZE)
    && FindNext(Unparsed(overflow + data)).messageSize <= MAXIMUM_MESSAGE_SIZE
  }

  /** The messages one read handles although it may fail: none if the data does not even fit the buffer. */
  function Handled(overflow: seq<byte>, data: seq<byte>): seq<Message> {
    if overflow != [] && |overflow| + |data| > MAXIMUM_MESSAGE_SIZE then [] else Messages(overflow + data)
  }

  lemma {:induction false} InternalConcat(a: seq<Message>, b: seq<Message>)
    ensures Internal(a + b) == Internal(a) + Internal(b)
    ensures External(a + b) == External(a) + External(b)
  {
    hide IsInternalMessage;
    if a == [] {
      assert a + b == b;
    } else {
      assert (a + b)[1..] == a[1..] + b;
      InternalConcat(a[1..], b);
    }
  }

  /** The messages and the buffer after reading the chunks one by one; None if a size check fails. */
  function Feed(overflow: seq<byte>, chunks: seq<seq<byte>>): Option<(seq<Message>, seq<byte>)>
    decreases |chunks|
  {
    if chunks == [] then Some(([], overflow))
    else if !PassesSizeChecks(overflow, chunks[0]) then None
    else
      var stream := overflow + chunks[0];
      Prepended(Messages(stream), Feed(Unparsed(stream), chunks[1..]))
  }

  /** The messages of the reads before the first one that fails a size check. */
  function BeforeFailure(overflow: seq<byte>, chunks: seq<seq<byte>>): seq<Message>
    decreases |chunks|
  {
    if chunks == [] || !PassesSizeChecks(overflow, chunks[0]) then []
    else
      var stream := overflow + chunks[0];
      Messages(stream) + BeforeFailure(Unparsed(stream), chunks[1..])
  }

  /** The messages that the failing read handled; they stay in the queue. */
  function AtFailure(overflow: seq<byte>, chunks: seq<seq<byte>>): seq<Message>
    decreases |chunks|
  {
    if chunks == [] then []
    else if !PassesSizeChecks(overflow, chunks[0]) then Handled(overflow, chunks[0])
    else AtFailure(Unparsed(overflow + chunks[0]), chunks[1..])
  }

  predicate FirstPasses(overflow: seq<byte>, chunks: seq<seq<byte>>) {
    chunks != [] && PassesSizeChecks(overflow, chunks[0])
  }

  /** If no read fails, all messages come before the failure, so to speak. */
  lemma {:induction false} NoFailure(overflow: seq<byte>, chunks: seq<seq<byte>>)
    requires Feed(overflow, chunks).Some?
    ensures Feed(overflow, chunks).value.0 == BeforeFailure(overflow, chunks) && AtFailure(overflow, chunks) == []
    decreases |chunks|
  {
    hide PassesSizeChecks, Unparsed, Messages, Handled;
    if chunks != [] {
      NoFailure(Unparsed(overflow + chunks[0]), chunks[1..]);
    }
  }

  lemma BeforeFailureFirst(overflow: seq<byte>, chunks: seq<seq<byte>>, done: seq<Message>)
    requires chunks != []
    ensures PassesSizeChecks(overflow, chunks[0]) ==>
              var stream := overflow + chunks[0];
              && done + BeforeFailure(overflow, chunks)
                 == done + Messages(stream) + BeforeFailure(Unparsed(stream), chunks[1..])
              && AtFailure(overflow, chunks) == AtFailure(Unparsed(stream), chunks[1..])
    ensures !PassesSizeChecks(overflow, chunks[0]) ==>
              BeforeFailure(overflow, chunks) == [] && AtFailure(overflow, chunks) == Handled(overflow, chunks[0])
  {
    hide PassesSizeChecks, Unparsed, Messages, Handled;
  }

  lemma HandledIfPassing(overflow: seq<byte>, data: seq<byte>)
    ensures PassesSizeChecks(overflow, data) ==> Handled(overflow, data) == Messages(overflow + data)
  {
  }

  lemma NothingLeft(overflow: seq<byte>, done: seq<Message>)
    ensures Prepended(done, Feed(overflow, [])) == Some((done, overflow))
    ensures done + BeforeFailure(overflow, []) == done && AtFailure(overflow, []) == []
  {
    assert done + [] == done;
  }

  function Prepended(ms: seq<Message>, fed: Option<(seq<Message>, seq<byte>)>): Option<(seq<Message>, seq<byte>)> {
    if fed.None? then None else Some((ms + fed.value.0, fed.value.1))
  }

  lemma FeedFirst(overflow: seq<byte>, chunks: seq<seq<byte>>, done: seq<Message>)
    requires chunks != []
    ensures Prepended(done, Feed(overflow, chunks)) ==
            if PassesSizeChecks(overflow, chunks[0])
            then var stream := overflow + chunks[0];
                 Prepended(done + Messages(stream), Feed(Unparsed(stream), chunks[1..]))
            else None
  {
    hide PassesSizeChecks, Unparsed, Messages;
    var stream := overflow + chunks[0];
    var rest := Feed(Unparsed(stream), chunks[1..]);
    if PassesSizeChecks(overflow, chunks[0]) && rest.Some? {
      assert done + (Messages(stream) + rest.value.0) == done + Messages(stream) + rest.value.0;
    }
  }

  lemma PrependNothing(fed: Option<(seq<Message>, seq<byte>)>)
    ensures Prepended([], fed) == fed
  {
    if fed.Some? {
      assert [] + fed.value.0 == fed.value.0;
    }
  }

  lemma NothingInNothing()
    ensures Internal([]) == External([]) == []
  {
  }

  // --------------------------------------------------------------- the class

  datatype DispatchState = DispatchFinished | DispatchError
  datatype ReadState = ReadSucceeded | ReadFailed | ReadPending

  /** `dispatched` records the listener's calls, `internals` those of `HandleInternalMessage`. */
  class ChannelReader {
    var inputOverflowBuf: seq<byte>
    var queuedMessages: seq<Message>
    var dispatched: seq<Message>
    var internals: seq<Message>

    constructor ()
      ensures inputOverflowBuf == [] && queuedMessages == dispatched == internals == []
    {
      inputOverflowBuf, queuedMessages, dispatched, internals := [], [], [], [];
    }

    method CheckMessageSize(size: nat) returns (ok: bool)
      modifies this`inputOverflowBuf
      ensures ok == (size <= MAXIMUM_MESSAGE_SIZE)
      ensures inputOverflowBuf == if ok then old(inputOverflowBuf) else []
    {
      if size <= MAXIMUM_MESSAGE_SIZE {
        return true;
      }
      inputOverflowBuf := [];
      return false;
    }

    method HandleTranslatedMessage(m: Message)
      modifies this`queuedMessages, this`internals
      ensures internals == old(internals) + Internal([m])
      ensures queuedMessages == old(queuedMessages) + External([m])
    {
      if IsInternalMessage(m) {
        internals := internals + [m];
      } else {
        queuedMessages := queuedMessages + [m];
      }
    }

    /** Hands on every complete message at the front of `buffer`; returns where it stopped. */
    method TranslateMessages(buffer: seq<byte>) returns (p: nat, nextMessageSize: nat)
      modifies this`queuedMessages, this`internals
      ensures p <= |buffer| && buffer[p..] == Unparsed(buffer)
      ensures nextMessageSize == FindNext(Unparsed(buffer)).messageSize
      ensures internals == old(internals) + Internal(Messages(buffer))
      ensures queuedMessages == old(queuedMessages) + External(Messages(buffer))
    {
      hide Internal, External, FindNext, Messages, Unparsed;
      p, nextMessageSize := 0, 0;
      ghost var done: seq<Message> := [];
      NothingInNothing();
      assert buffer[0..] == buffer;
      while p < |buffer|
        invariant p <= |buffer| && nextMessageSize == 0
        invariant Messages(buffer) == done + Messages(buffer[p..]) && Unparsed(buffer) == Unparsed(buffer[p..])
        invariant internals == old(internals) + Internal(done)
        invariant queuedMessages == old(queuedMessages) + External(done)
      {
        var info := FindNext(buffer[p..]);
        ParseStep(buffer[p..]);
        if !info.messageFound {
          nextMessageSize := info.messageSize;
          break;
        }
        var m := buffer[p..][..info.messageSize];
        assert buffer[p..][info.messageSize..] == buffer[p + info.messageSize..];
        HandleTranslatedMessage(m);
        InternalConcat(done, [m]);
        assert done + ([m] + Messages(buffer[p + info.messageSize..]))
            == done + [m] + Messages(buffer[p + info.messageSize..]);
        done := done + [m];
        p := p + info.messageSize;
      }
      ParseStep(buffer[p..]);
      assert done + [] == done;
    }

    method TranslateInputData(inputData: seq<byte>) returns (ok: bool)
      modifies this`inputOverflowBuf, this`queuedMessages, this`internals
      ensures ok == PassesSizeChecks(old(inputOverflowBuf), inputData)
      ensures inputOverflowBuf == if ok then Unparsed(old(inputOverflowBuf) + inputData) else []
      ensures internals == old(internals) + Internal(Handled(old(inputOverflowBuf), inputData))
      ensures queuedMessages == old(queuedMessages) + External(Handled(old(inputOverflowBuf), inputData))
    {
      NothingInNothing();
      hide Messages, Unparsed, Internal, External;
      var buffer := inputData;
      assert [] + inputData == inputData;
      if inputOverflowBuf != [] {
        ok := CheckMessageSize(|inputOverflowBuf| + |inputData|);
        if !ok {
          return;
        }
        inputOverflowBuf := inputOverflowBuf + inputData;
        buffer := inputOverflowBuf;
      }
      var p, nextMessageSize := TranslateMessages(buffer);
      ok := CheckMessageSize(nextMessageSize);
      if !ok {
        return;
      }
      inputOverflowBuf := buffer[p..];
    }

    method DispatchMessages()
      modifies this`queuedMessages, this`dispatched
      ensures queuedMessages == [] && dispatched == old(dispatched) + old(queuedMessages)
    {
      while queuedMessages != []
        invariant dispatched + queuedMessages == old(dispatched) + old(queuedMessages)
        decreases |queuedMessages|
      {
        dispatched := dispatched + [queuedMessages[0]];
        queuedMessages := queuedMessages[1..];
      }
    }

    method AsyncReadComplete(data: seq<byte>) returns (state: DispatchState)
      modifies this
      ensures state.DispatchFinished? <==> PassesSizeChecks(old(inputOverflowBuf), data)
      ensures internals == old(internals) + Internal(Handled(old(inputOverflowBuf), data))
      ensures state.DispatchFinished? ==>
                && inputOverflowBuf == Unparsed(old(inputOverflowBuf) + data) && queuedMessages == []
                && dispatched
                   == old(dispatched) + (old(queuedMessages) + External(Handled(old(inputOverflowBuf), data)))
      ensures state.DispatchError? ==>
                && inputOverflowBuf == [] && dispatched == old(dispatched)
                && queuedMessages == old(queuedMessages) + External(Handled(old(inputOverflowBuf), data))
    {
      var ok := TranslateInputData(data);
      if !ok {
        return DispatchError;
      }
      DispatchMessages();
      return DispatchFinished;
    }

    /**
     Works off the reads that succeed, `chunks`, up to the one that does not, which answers `last`.
     What is queued at the start goes out with the first read that passes its size checks.
     */
    method ProcessIncomingMessages(chunks: seq<seq<byte>>, last: ReadState) returns (state: DispatchState)
      requires last != ReadSucceeded
      modifies this
      ensures var fed := Feed(old(inputOverflowBuf), chunks);
              && (state.DispatchFinished? <==> fed.Some? && last == ReadPending)
              && inputOverflowBuf == if fed.Some? then fed.value.1 else []
      ensures FirstPasses(old(inputOverflowBuf), chunks) ==>
                && dispatched == old(dispatched) + old(queuedMessages)
                                 + External(BeforeFailure(old(inputOverflowBuf), chunks))
                && queuedMessages == External(AtFailure(old(inputOverflowBuf), chunks))
      ensures !FirstPasses(old(inputOverflowBuf), chunks) ==>
                && dispatched == old(dispatched)
                && queuedMessages == old(queuedMessages) + External(AtFailure(old(inputOverflowBuf), chunks))
      ensures internals == old(internals) + Internal(BeforeFailure(old(inputOverflowBuf), chunks))
                                          + Internal(AtFailure(old(inputOverflowBuf), chunks))
    {
      hide PassesSizeChecks, Unparsed, Messages, Internal, External, Feed, BeforeFailure, AtFailure, Handled;
      ghost var fed, before := Feed(inputOverflowBuf, chunks), BeforeFailure(inputOverflowBuf, chunks);
      ghost var failing := AtFailure(inputOverflowBuf, chunks);
      ghost var done: seq<Message> := [];
      NothingInNothing();
      assert chunks[0..] == chunks;
      PrependNothing(fed);
      for i := 0 to |chunks|
        invariant fed == Prepended(done, Feed(inputOverflowBuf, chunks[i..]))
        invariant before == done + BeforeFailure(inputOverflowBuf, chunks[i..])
        invariant failing == AtFailure(inputOverflowBuf, chunks[i..])
        invariant i == 0 ==> inputOverflowBuf == old(inputOverflowBuf) && done == []
        invariant i == 0 ==> queuedMessages == old(queuedMessages) && dispatched == old(dispatched)
        invariant i > 0 ==> FirstPasses(old(inputOverflowBuf), chunks) && queuedMessages == []
        invariant i > 0 ==> dispatched == old(dispatched) + old(queuedMessages) + External(done)
        invariant internals == old(internals) + Internal(done)
      {
        ghost var stream, kept := inputOverflowBuf + chunks[i], queuedMessages;
        FeedFirst(inputOverflowBuf, chunks[i..], done);
        BeforeFailureFirst(inputOverflowBuf, chunks[i..], done);
        assert chunks[i..][1..] == chunks[i + 1..];
        InternalConcat(done, Messages(stream));
        HandledIfPassing(inputOverflowBuf, chunks[i]);
        var step := AsyncReadComplete(chunks[i]);
        if step.DispatchError? {
          assert done + [] == done;
          return DispatchError;
        }
        DispatchedInOrder(old(dispatched), old(queuedMessages), External(done), External(Messages(stream)));
        done := done + Messages(stream);
      }
      assert chunks[|chunks|..] == [];
      NothingLeft(inputOverflowBuf, done);
      assert internals + [] == internals && queuedMessages + [] == queuedMessages;
      return if last == ReadPending then DispatchFinished else DispatchError;
    }
  }

  lemma DispatchedInOrder<T>(a: seq<T>, b: seq<T>, c: seq<T>, d: seq<T>)
    ensures (a + b + c) + ([] + d) == a + b + (c + d)
    ensures c == [] ==> a + (b + d) == a + b + (c + d)
  {
  }
}
