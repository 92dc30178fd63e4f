/**
 Messages of the serialization session: eight characters of hexadecimal length, then the
 serialized data. The archive that serializes a message is not part of this model; a
 message is the string that it produced.
 */
module MessageFraming {
  import opened HexFormat
  import opened Options

  const HEADER_LENGTH := 8

  /** The header has its fixed length exactly for sizes below 16 to the power of 8. */
  lemma HeaderFits(n: nat)
    ensures |Formatted(n, HEADER_LENGTH)| == 8 <==> n < 0x1_0000_0000
    ensures HEADER_LENGTH == 8 && Pow16(HEADER_LENGTH) == 0x1_0000_0000
  {
    HexTextLength(n, HEADER_LENGTH);
    Powers();
    hide Pow16;
  }

  // ----- messages on a stream -----

  function Framed(data: string): string
  {
    Formatted(|data|, HEADER_LENGTH) + data
  }

  function Stream(messages: seq<string>): string
  {
    if messages == [] then "" else Framed(messages[0]) + Stream(messages[1..])
  }

  /** One header step and one data step, each reading as much as it asks for. */
  function ReadOne(stream: string): (r: Option<(string, string)>)
    ensures r.Some? ==> |r.value.1| < |stream|
  {
    if |stream| < HEADER_LENGTH then None
    else
      match Extracted(stream[..HEADER_LENGTH])
      case None => None
      case Some(size) =>
        if |stream| - HEADER_LENGTH < size then None
        else Some((stream[HEADER_LENGTH..HEADER_LENGTH + size], stream[HEADER_LENGTH + size..]))
  }

  function ReadAll(stream: string): (r: (seq<string>, string))
    decreases |stream|
  {
    match ReadOne(stream)
    case None => ([], stream)
    case Some((data, rest)) => var more := ReadAll(rest); ([data] + more.0, more.1)
  }

  lemma ShortIsStorable()
    ensures Pow16(HEADER_LENGTH) <= SIZE_LIMIT
  {
    assert Pow16(8) > 0 && Pow16(9) == 16 * Pow16(8) && Pow16(10) == 16 * Pow16(9);
    assert Pow16(11) == 16 * Pow16(10) && Pow16(12) == 16 * Pow16(11) && Pow16(13) == 16 * Pow16(12);
    assert Pow16(14) == 16 * Pow16(13) && Pow16(15) == 16 * Pow16(14) && Pow16(16) == 16 * Pow16(15);
  }

  lemma ReadsFramed(data: string, rest: string)
    requires |data| < Pow16(HEADER_LENGTH)
    ensures ReadOne(Framed(data) + rest) == Some((data, rest))
  {
    hide Formatted, Extracted, Pow16;
    HeaderFits(|data|);
    ShortIsStorable();
    FormattedRoundTrip(|data|, HEADER_LENGTH);
    var s := Framed(data) + rest;
    assert s[..HEADER_LENGTH] == Formatted(|data|, HEADER_LENGTH);
    assert s[HEADER_LENGTH..HEADER_LENGTH + |data|] == data;
    assert s[HEADER_LENGTH + |data|..] == rest;
  }

  /** Any sequence of messages that can be framed is read back as the same sequence. */
  lemma {:induction false} StreamRoundTrip(messages: seq<string>)
    requires forall m | m in messages :: |m| < Pow16(HEADER_LENGTH)
    ensures ReadAll(Stream(messages)) == (messages, "")
    decreases |messages|
  {
    hide Framed, ReadOne, Pow16;
    if messages == [] {
      NothingToRead();
    } else {
      assert messages == [messages[0]] + messages[1..];
      ReadsFramed(messages[0], Stream(messages[1..]));
      StreamRoundTrip(messages[1..]);
    }
  }

  lemma NothingToRead()
    ensures ReadOne("") == None
  {
  }

  lemma {:induction false} StreamAppend(messages: seq<string>, data: string)
    ensures Stream(messages + [data]) == Stream(messages) + Framed(data)
    decreases |messages|
  {
    hide Framed;
    if messages == [] {
      assert [] + [data] == [data] && [data][1..] == [];
      assert Stream([data]) == Framed(data) + "";
    } else {
      assert (messages + [data])[1..] == messages[1..] + [data];
      StreamAppend(messages[1..], data);
    }
  }

  // ----- the session -----

  /** What one header step and one data step come to. */
  datatype Reading = Message(data: string) | InvalidHeader | ReadFailed

  /**
   One end of a connection: whether its socket is open, what it has written, what is yet to arrive,
   the messages handed to `on_read`, and the errors of type invalid_argument.
   */
  datatype End = End(open: bool, outgoing: string, incoming: string, received: seq<string>, invalidArguments: nat)

  predicate TooLong(data: string)
  {
    |data| >= Pow16(HEADER_LENGTH)
  }

  /** async_write: a message that is too long is an error, and every error closes the socket. */
  function AfterWrite(e: End, data: string): End
  {
    if TooLong(data) then e.(open := false, invalidArguments := e.invalidArguments + 1)
    else if e.open then e.(outgoing := e.outgoing + Framed(data))
    else e
  }

  /** async_read, on_read_header and on_read_data: a failed read and an invalid header close the socket, too. */
  function ReadingOf(e: End): Reading
  {
    if !e.open || |e.incoming| < HEADER_LENGTH then ReadFailed
    else if Extracted(e.incoming[..HEADER_LENGTH]).None? then InvalidHeader
    else
      match ReadOne(e.incoming)
      case None => ReadFailed
      case Some((data, _)) => Message(data)
  }

  function AfterRead(e: End): End
  {
    match ReadingOf(e)
    case Message(data) => e.(incoming := ReadOne(e.incoming).value.1, received := e.received + [data])
    case InvalidHeader =>
      e.(open := false, incoming := e.incoming[HEADER_LENGTH..], invalidArguments := e.invalidArguments + 1)
    case ReadFailed =>
      if e.open && |e.incoming| >= HEADER_LENGTH then e.(open := false, incoming := e.incoming[HEADER_LENGTH..])
      else e.(open := false)
  }

  class SerializationSession {
    var open: bool
    var outgoing: string
    var incoming: string
    var received: seq<string>
    var invalidArguments: nat

    ghost function View(): End
      reads this
    {
      End(open, outgoing, incoming, received, invalidArguments)
    }

    constructor (incoming: string)
      ensures View() == End(true, "", incoming, [], 0)
    {
      open, outgoing, this.incoming, received, invalidArguments := true, "", incoming, [], 0;
    }

    /** A message is written as a whole, or refused exactly if its size needs a ninth digit. */
    method AsyncWrite(outboundData: string)
      modifies this
      ensures View() == AfterWrite(old(View()), outboundData)
    {
      var outboundHeader := Formatted(|outboundData|, HEADER_LENGTH);
      HeaderFits(|outboundData|);
      if |outboundHeader| != HEADER_LENGTH {
        invalidArguments := invalidArguments + 1;
        OnErrorCode();
        return;
      }
      if open {
        outgoing := outgoing + (outboundHeader + outboundData);
      } else {
        OnErrorCode();
      }
    }

    /** on_error_code ends in shutdown(). */
    method OnErrorCode()
      modifies this`open
      ensures !open
    {
      open := false;
    }

    /**
     async_read, on_read_header and on_read_data. A read delivers all it was asked for, as the
     source asserts, or fails: a message comes out exactly if one is there in full.
     */
    method AsyncRead() returns (reading: Reading)
      modifies this
      ensures reading == ReadingOf(old(View())) && View() == AfterRead(old(View()))
      ensures reading.Message? <==> old(open) && ReadOne(old(incoming)).Some?
      ensures open <==> reading.Message?
      ensures reading.Message? ==> ReadOne(old(incoming)).value == (reading.data, incoming)
    {
      reading := ReadFailed;
      if !open || |incoming| < HEADER_LENGTH {
        OnErrorCode();
        return;
      }
      var inboundHeader := incoming[..HEADER_LENGTH];
      incoming := incoming[HEADER_LENGTH..];
      var inboundDataSize := Extracted(inboundHeader);
      if inboundDataSize.None? {
        invalidArguments := invalidArguments + 1;
        OnErrorCode();
        return InvalidHeader;
      }
      if |incoming| < inboundDataSize.value {
        OnErrorCode();
        return;
      }
      var inboundData := incoming[..inboundDataSize.value];
      assert inboundData == old(incoming)[HEADER_LENGTH..HEADER_LENGTH + inboundDataSize.value];
      incoming := incoming[inboundDataSize.value..];
      received := received + [inboundData];
      reading := Message(inboundData);
    }
  }

  // ----- whole conversations -----

  datatype Call = Write(data: string) | Read

  function AfterCall(e: End, call: Call): End
  {
    match call
    case Write(data) => AfterWrite(e, data)
    case Read => AfterRead(e)
  }

  function AfterCalls(e: End, calls: seq<Call>): End
  {
    if calls == [] then e else AfterCall(AfterCalls(e, calls[..|calls| - 1]), calls[|calls| - 1])
  }

  /** The messages that were written while the socket was open, and were not refused. */
  function Sent(e: End, calls: seq<Call>): seq<string>
  {
    if calls == [] then []
    else
      var front, call := calls[..|calls| - 1], calls[|calls| - 1];
      Sent(e, front)
      + if call.Write? && AfterCalls(e, front).open && !TooLong(call.data) then [call.data] else []
  }

  /** A new end of a connection on which `incoming` is going to arrive. */
  function NewEnd(incoming: string): End
  {
    End(true, "", incoming, [], 0)
  }

  /** After the first error nothing is sent, nothing arrives and nothing is handed on. */
  lemma {:induction false} NothingAfterError(e: End, calls: seq<Call>)
    requires !e.open
    ensures var last := AfterCalls(e, calls);
            && !last.open
            && last.outgoing == e.outgoing && last.incoming == e.incoming && last.received == e.received
            && Sent(e, calls) == []
  {
    if calls != [] {
      NothingAfterError(e, calls[..|calls| - 1]);
    }
  }

  /** A read that hands on no message leaves the socket closed, and one that does leaves it open. */
  lemma ReadOrClose(e: End, calls: seq<Call>)
    ensures var before, last := AfterCalls(e, calls), AfterCalls(e, calls + [Read]);
            && (last.open <==> |last.received| == |before.received| + 1)
            && (!last.open <==> last.received == before.received)
  {
    CallsNext(e, calls, Read);
    OneRead(AfterCalls(e, calls));
    hide AfterCalls, AfterRead;
  }

  lemma OneRead(e: End)
    ensures var r := AfterRead(e);
            && (r.open <==> |r.received| == |e.received| + 1)
            && (!r.open <==> r.received == e.received)
  {
    hide ReadOne, Extracted;
  }

  lemma {:induction false} OutgoingIsStream(incoming: string, calls: seq<Call>)
    ensures AfterCalls(NewEnd(incoming), calls).outgoing == Stream(Sent(NewEnd(incoming), calls))
    ensures forall m | m in Sent(NewEnd(incoming), calls) :: !TooLong(m)
  {
    hide Framed, ReadOne, Extracted, Pow16;
    if calls != [] {
      var front, call := calls[..|calls| - 1], calls[|calls| - 1];
      OutgoingIsStream(incoming, front);
      var sent := Sent(NewEnd(incoming), front);
      assert sent + [] == sent;
      if call.Write? {
        StreamAppend(sent, call.data);
      }
    }
  }

  /** Whatever is called in whatever order, the peer reads exactly the messages that were sent. */
  lemma SentIsRead(incoming: string, calls: seq<Call>)
    ensures ReadAll(AfterCalls(NewEnd(incoming), calls).outgoing) == (Sent(NewEnd(incoming), calls), "")
  {
    hide AfterCalls, Sent;
    OutgoingIsStream(incoming, calls);
    StreamRoundTrip(Sent(NewEnd(incoming), calls));
  }

  function Writes(messages: seq<string>): (calls: seq<Call>)
    ensures |calls| == |messages|
  {
    seq(|messages|, i requires 0 <= i < |messages| => Write(messages[i]))
  }

  /** The number of messages before the first that is too long. */
  function Admissible(messages: seq<string>): (n: nat)
    ensures n <= |messages|
    ensures forall i | 0 <= i < n :: !TooLong(messages[i])
    ensures n < |messages| ==> TooLong(messages[n])
  {
    if messages == [] then 0
    else
      var front := messages[..|messages| - 1];
      var n := Admissible(front);
      if n == |front| && !TooLong(messages[n]) then n + 1 else n
  }

  lemma CallsNext(e: End, calls: seq<Call>, call: Call)
    ensures AfterCalls(e, calls + [call]) == AfterCall(AfterCalls(e, calls), call)
    ensures Sent(e, calls + [call]) == Sent(e, calls) +
              if call.Write? && AfterCalls(e, calls).open && !TooLong(call.data) then [call.data] else []
  {
    assert (calls + [call])[..|calls|] == calls;
  }

  lemma OneMoreWrite(front: seq<string>, last: string)
    ensures Writes(front + [last]) == Writes(front) + [Write(last)]
  {
  }

  lemma OneMoreMessage(front: seq<string>, last: string)
    ensures Admissible(front + [last]) ==
            if Admissible(front) == |front| && !TooLong(last) then |front| + 1 else Admissible(front)
  {
    hide TooLong;
    var all := front + [last];
    assert all[..|all| - 1] == front && all[|front|] == last;
  }

  /** A refusal ends the conversation: of all messages written, those before the first refused one are sent. */
  lemma {:induction false} RefusalEndsSending(incoming: string, messages: seq<string>)
    ensures var n := Admissible(messages);
            && Sent(NewEnd(incoming), Writes(messages)) == messages[..n]
            && (AfterCalls(NewEnd(incoming), Writes(messages)).open <==> n == |messages|)
  {
    hide Framed, TooLong, AfterCalls, Sent, Admissible;
    if messages == [] {
      NothingWritten(incoming);
    } else {
      var front, last := messages[..|messages| - 1], messages[|messages| - 1];
      RefusalEndsSending(incoming, front);
      OneMoreWrite(front, last);
      OneMoreMessage(front, last);
      CallsNext(NewEnd(incoming), Writes(front), Write(last));
      assert messages == front + [last];
    }
  }

  lemma NothingWritten(incoming: string)
    ensures Writes([]) == [] && Admissible([]) == 0
    ensures Sent(NewEnd(incoming), []) == [] && AfterCalls(NewEnd(incoming), []).open
  {
  }

  function Reads(n: nat): (calls: seq<Call>)
    ensures |calls| == n
  {
    seq(n, _ => Read)
  }

  /** Reading on: the messages sent by the peer come out in order, and the read after the last one fails. */
  lemma {:induction false} ReadsDeliver(messages: seq<string>, n: nat)
    requires forall m | m in messages :: !TooLong(m)
    ensures var e := AfterCalls(NewEnd(Stream(messages)), Reads(n));
            && e.received == messages[..if n < |messages| then n else |messages|]
            && (e.open <==> n <= |messages|)
            && (n <= |messages| ==> e.incoming == Stream(messages[n..]))
  {
    hide Framed, ReadOne, Extracted, TooLong, AfterCalls, AfterRead;
    if n == 0 {
      assert AfterCalls(NewEnd(Stream(messages)), Reads(0)) == NewEnd(Stream(messages)) by { NoCalls(NewEnd(Stream(messages))); }
      assert messages[0..] == messages;
    } else {
      ReadsDeliver(messages, n - 1);
      assert Reads(n) == Reads(n - 1) + [Read];
      var e := AfterCalls(NewEnd(Stream(messages)), Reads(n - 1));
      CallsNext(NewEnd(Stream(messages)), Reads(n - 1), Read);
      if n <= |messages| {
        StreamNext(messages, n - 1);
        assert messages[n - 1] in messages;
        ReadDelivers(e, messages[n - 1], Stream(messages[n..]));
        assert messages[..n] == messages[..n - 1] + [messages[n - 1]];
      } else if n == |messages| + 1 {
        assert messages[|messages|..] == [];
        ReadFails(e);
      } else {
        ReadFails(e);
      }
    }
  }

  lemma NoCalls(e: End)
    ensures AfterCalls(e, []) == e && Reads(0) == []
  {
  }

  lemma StreamNext(messages: seq<string>, i: nat)
    requires i < |messages|
    ensures Stream(messages[i..]) == Framed(messages[i]) + Stream(messages[i + 1..])
  {
    assert messages[i..][0] == messages[i] && messages[i..][1..] == messages[i + 1..];
  }

  lemma ReadDelivers(e: End, data: string, rest: string)
    requires e.open && !TooLong(data) && e.incoming == Framed(data) + rest
    ensures AfterRead(e) == e.(incoming := rest, received := e.received + [data])
  {
    hide Framed, Extracted, ReadOne, TooLong;
    ReadsFramedMessage(data, rest);
  }

  lemma ReadFails(e: End)
    requires !e.open || e.incoming == ""
    ensures AfterRead(e) == e.(open := false)
  {
  }

  lemma ReadsFramedMessage(data: string, rest: string)
    requires !TooLong(data)
    ensures var s := Framed(data) + rest;
            |s| >= HEADER_LENGTH && Extracted(s[..HEADER_LENGTH]).Some? && ReadOne(s) == Some((data, rest))
  {
    ReadsFramed(data, rest);
  }
}
