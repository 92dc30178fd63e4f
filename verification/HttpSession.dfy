/**
 `http_session`: a request that may take any number of reads, parsed by one parser into one
 request that both live as long as the session.
 */
module HttpSessions {
  import opened Buffers
  import opened ParseLoop
  import opened RequestParsing
  import opened RequestGrammar
  import opened RequestTheorems
  import opened Negotiation
  import opened TcpSessions

  /** std::string::find: is `part` somewhere in `s`? */
  method Find(s: string, part: string) returns (found: bool)
    ensures found <==> Contains(s, part)
  {
    var i := 0;
    while i + |part| <= |s|
      invariant forall k: nat | k < i :: !OccursAt(s, part, k)
    {
      if s[i..i + |part|] == part {
        assert OccursAt(s, part, i);
        return true;
      }
      i := i + 1;
    }
    found := false;
  }

  /** Complete: a request was read. Hopeless: there can never be one. ReadOn: another read is needed. Broken: the read failed. */
  datatype Progress = Complete | Hopeless | ReadOn | Broken

  class HttpSession {
    const parser: RequestParser
    const request: RequestObject
    ghost var received: seq<string>
    ghost var initial: Request

    /** Everything read so far was one unfinished request, held by parser and request. */
    ghost predicate Valid()
      reads this, parser, request
    {
      && parser.Safe(request)
      && Empty(initial)
      && var o := RunChunks(Step, Start(initial), received);
         o.verdict == Indeterminate && o.state == parser.View(request)
    }

    constructor (major: VersionNumber, minor: VersionNumber)
      ensures Valid() && received == []
      ensures fresh(parser) && fresh(request)
    {
      parser := new RequestParser();
      request := new RequestObject(major, minor);
      received := [];
      initial := Request("", "", major, minor, []);
    }

    /** One read is parsed on top of the earlier ones; the outcome is about all of them together. */
    method ParseRead(data: string) returns (progress: Progress)
      requires Valid()
      modifies this, parser, request
      ensures received == old(received) + [data]
      ensures progress == Complete <==> StartsWithRequest(Concat(received))
      ensures progress == Hopeless <==> forall more :: !StartsWithRequest(Concat(received) + more)
      ensures progress == ReadOn ==> Valid()
      ensures progress != Broken
    {
      var result, _ := parser.Parse(request, data, 0);
      assert data[0..] == data;
      received := received + [data];
      assert received[..|received| - 1] == old(received);
      ChunkedRequest(received, initial);
      progress := match result case True => Complete case False => Hopeless case Indeterminate => ReadOn;
    }

    /** The first read; a request with a WebSocket key is left to the WebSocket sessions. */
    method OnFirstRead(data: string) returns (progress: Progress)
      requires Valid() && received == []
      modifies this, parser, request
      ensures Contains(data, KEY_FIELD) ==> progress == Hopeless
      ensures !Contains(data, KEY_FIELD) ==>
        && (progress == Complete <==> StartsWithRequest(data))
        && (progress == Hopeless <==> forall more :: !StartsWithRequest(data + more))
      ensures progress == ReadOn ==> Valid() && received == [data]
      ensures progress != Broken
    {
      var key := Find(data, KEY_FIELD);
      if key {
        return Hopeless;
      }
      progress := ParseRead(data);
      assert Concat([data]) == data by { ConcatAppend([], data); assert [] + [data] == [data]; }
    }

    /**
     Any later read; what can never become a request is answered with a bad request reply. After a
     read that failed, unless it was aborted, the socket is closed directly.
     */
    method HandleRead(read: Read<char>, aborted: bool, tcp: TcpSession) returns (progress: Progress)
      requires Valid()
      modifies this, parser, request, tcp
      ensures progress == Broken <==> read.Failed?
      ensures received == old(received) + if read.Bytes? then [read.data] else []
      ensures read.Bytes? ==>
        && (progress == Complete <==> StartsWithRequest(Concat(received)))
        && (progress == Hopeless <==> forall more :: !StartsWithRequest(Concat(received) + more))
      ensures progress == ReadOn ==> Valid()
      ensures tcp.View() == if read.Failed? && !aborted then ClosedDirectly(old(tcp.View())) else old(tcp.View())
    {
      match read {
        case Bytes(data) =>
          progress := ParseRead(data);
        case Failed =>
          progress := Broken;
          if !aborted {
            tcp.CloseSocket();
          }
      }
    }
  }
}
