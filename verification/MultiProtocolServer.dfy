/**
 The multi-protocol server at work: the handshakes of `ws_handshake`, `http_session` and
 `tcp_session`, driven by `on_accept`, `on_handshake_fail` and `do_next_handshake`. Every
 method is proved against the chain of module `Negotiation`; the socket moves from
 session to session on the way.
 */
module MultiProtocolServers {
  import opened Octets
  import opened Options
  import ParseLoop
  import opened Frames
  import FrameLayout
  import FrameParsing
  import FrameTheorems
  import opened RequestParsing
  import RequestGrammar
  import RequestTheorems
  import opened AcceptKeys
  import opened Negotiation
  import opened HttpSessions
  import opened TcpSessions

  // ----- what the parsers find, in terms of the grammar and of the frame layout -----

  lemma UpgradeIsParsed(data: string, req: Request)
    requires RequestTheorems.Empty(req)
    ensures var o := RequestTheorems.ParseRequest(data, req);
            Upgrades(data) <==> o.verdict == ParseLoop.True && HasKey(o.state.req.headers)
  {
    hide RequestParsing.Step, RequestGrammar.Valid, RequestGrammar.Unparse, RequestGrammar.Headers, HasKey;
    RequestTheorems.AcceptsExactlyTheGrammar(data, req);
    var o := RequestTheorems.ParseRequest(data, req);
    if Upgrades(data) {
      var a :| RequestGrammar.Valid(a) && RequestGrammar.Unparse(a) <= data && HasKey(RequestGrammar.Headers(a.lines));
      RequestTheorems.SentenceDecides(data, req, a);
    } else if o.verdict == ParseLoop.True {
      var a :| RequestGrammar.Valid(a) && RequestGrammar.Unparse(a) == data[..o.consumed]
               && o.state.req == RequestGrammar.Meaning(a);
    }
  }

  lemma FirstFrameIsParsed(bytes: seq<byte>, key: Key)
    ensures var o := FrameTheorems.ParseFrame(bytes, key);
            && o.verdict != ParseLoop.False
            && (o.verdict == ParseLoop.True <==> FrameTheorems.StartsWithFrame(bytes))
            && (o.verdict == ParseLoop.True ==> FrameLayout.Said(o.state.frame) == FrameLayout.Meaning(FirstFrame(bytes), key))
            && |o.state.frame.payload| <= |bytes|
  {
    hide FrameParsing.Step, FrameLayout.IsFrame, FrameLayout.Meaning, FrameLayout.Describes;
    FrameTheorems.ParserRecognisesFrames(bytes, key);
    FrameTheorems.BytesAreAccountedFor(bytes, key);
    var o := FrameTheorems.ParseFrame(bytes, key);
    if o.verdict == ParseLoop.True {
      var w := FirstFrame(bytes);
      assert w == bytes[..|w|];
      if |w| <= o.consumed {
        FrameTheorems.FrameEndIsUnique(bytes, |w|, o.consumed);
      } else {
        FrameTheorems.FrameEndIsUnique(bytes, o.consumed, |w|);
      }
    }
  }

  // ----- handshakes -----

  method TryHandshake(p: Protocol, incoming: Incoming) returns (stage: Stage)
    requires p != HttpServer
    ensures stage == CustomHandshake(p, incoming)
  {
    var guid := GuidOf(p);
    if |guid| == |incoming.data| && guid == incoming.data {
      stage := Settle(Accepted(p));
    } else {
      stage := Refuse(incoming);
    }
  }

  /** std::copy of the payload into a new buffer of the fixed size. */
  method CopyToBuffer(payload: seq<byte>) returns (buffer: array<char>)
    requires |payload| <= BUFFER_SIZE
    ensures fresh(buffer) && buffer.Length == 8192
    ensures buffer[..|payload|] == Characters(payload)
  {
    buffer := new char[BUFFER_SIZE](_ => '\0');
    var i := 0;
    while i < |payload|
      invariant 0 <= i <= |payload|
      invariant forall k | 0 <= k < i :: buffer[k] == ToChar(payload[k])
    {
      buffer[i] := ToChar(payload[i]);
      i := i + 1;
    }
  }

  /** The payload always fits the buffer, because it came out of one read into a buffer of that size. */
  method HandleGuidRead(p: Protocol, read: Read<byte>, key: Key) returns (stage: Stage)
    requires p != HttpServer
    requires read.Bytes? ==> |read.data| <= BUFFER_SIZE
    ensures stage == OnGuidRead(p, read, key)
  {
    if read.Failed? {
      return Settle(Closed);
    }
    var bytes := read.data;
    var parser := new FrameParsing.FrameParser();
    var memory := new byte[4](i requires 0 <= i < 4 => key[i]);
    assert memory[..] == key;
    var frame := new DataFrame([], memory);
    var result, _ := parser.Parse(frame, bytes, 0);
    assert bytes[0..] == bytes;
    FirstFrameIsParsed(bytes, key);
    match result {
      case False =>
        stage := Settle(Closed);
      case Indeterminate =>
        stage := Settle(Dropped);
      case True =>
        if frame.opcode == TextFrame {
          var size := |frame.payload|;
          var buffer := CopyToBuffer(frame.payload);
          stage := TryHandshake(p, Incoming(buffer[..size], WsGuid));
        } else {
          stage := Settle(Closed);
        }
    }
  }

  /** first_write, and on_second_read with guid_read once the reply is written. */
  method HandleFirstWrite(p: Protocol, incoming: Incoming, peer: Peer, key: Key, sha1: string -> Digest) returns (stage: Stage)
    requires p != HttpServer && Negotiation.Fits(peer)
    ensures stage == FirstWrite(p, incoming, peer, key)
  {
    var parser := new RequestParser();
    var request := new RequestObject(Known(0), Known(0));
    var result, _ := parser.Parse(request, incoming.data, 0);
    assert incoming.data[0..] == incoming.data;
    UpgradeIsParsed(incoming.data, Request("", "", Known(0), Known(0), []));
    if result != ParseLoop.True {
      return Refuse(incoming);
    }
    var answer := HandleRequest(request, sha1);
    match answer {
      case BadRequest =>
        stage := Refuse(incoming);
      case SwitchingProtocols(_) =>
        if !peer.replyWritten {
          return Settle(Closed);
        }
        stage := HandleGuidRead(p, peer.guidRead, key);
    }
  }

  method HandleWsFirstRead(peer: Peer, key: Key, sha1: string -> Digest) returns (stage: Stage)
    requires Negotiation.Fits(peer)
    ensures stage == WsStage(peer, key)
  {
    if peer.firstRead.Failed? {
      return Settle(Closed);
    }
    var found := Find(peer.firstRead.data, KEY_FIELD);
    if !found {
      return Refuse(Incoming(peer.firstRead.data, Http));
    }
    stage := HandleFirstWrite(Ws, Incoming(peer.firstRead.data, NoTag), peer, key, sha1);
  }

  method HandleHttp(incoming: Incoming) returns (stage: Stage)
    ensures stage == HttpStage(incoming)
  {
    if incoming.tag != Http {
      return Refuse(incoming);
    }
    var session := new HttpSession(Known(0), Known(0));
    var progress := session.OnFirstRead(incoming.data);
    match progress {
      case Complete => stage := Settle(Served);
      case Hopeless => stage := Refuse(Incoming(incoming.data, Http));
      case _ => stage := Settle(Waiting);
    }
    assert RequestGrammar.StartsWithRequest(incoming.data) ==> MayBecomeRequest(incoming.data) by {
      assert incoming.data + "" == incoming.data;
    }
  }

  method HandleLog(incoming: Incoming, peer: Peer, key: Key, sha1: string -> Digest) returns (stage: Stage)
    requires Negotiation.Fits(peer)
    ensures stage == LogStage(incoming, peer, key)
  {
    match incoming.tag {
      case Http =>
        stage := HandleFirstWrite(Log, incoming, peer, key, sha1);
      case WsGuid =>
        stage := TryHandshake(Log, incoming);
      case _ =>
        stage := Refuse(incoming);
    }
  }

  // ----- the chain -----

  /** A connection goes on with its socket open, or the socket is shut down once and for all. */
  predicate StaysOpen(result: Result)
  {
    result.Accepted? || result.Served? || result.Waiting?
  }

  function Final(result: Result, id: SocketId): SessionState
  {
    if StaysOpen(result) then Holding(id) else SessionState(None, [id], [])
  }

  /**
   What the handlers of one connection leave behind: the result, the protocols tried, the sessions
   that failed and the session that ended it.
   */
  datatype Ending = Ending(result: Result, tried: seq<Protocol>, former: seq<TcpSession>, last: TcpSession)

  /** What the sessions hold, in the order of their construction. */
  ghost function Views(sessions: seq<TcpSession>): (w: seq<SessionState>)
    reads sessions
    ensures |w| == |sessions|
    ensures forall i | 0 <= i < |w| :: w[i] == sessions[i].View()
  {
    if sessions == [] then [] else Views(sessions[..|sessions| - 1]) + [sessions[|sessions| - 1].View()]
  }

  predicate AllDifferent(sessions: seq<TcpSession>)
  {
    forall i, j | 0 <= i < j < |sessions| :: sessions[i] != sessions[j]
  }

  /** All sessions that failed have lost the socket and never closed it. */
  ghost predicate AllIdle(sessions: seq<TcpSession>)
    reads sessions
  {
    forall i | 0 <= i < |sessions| :: sessions[i].View() == Idle()
  }

  /** Acts on the session once a handshake has settled; a dropped session is destroyed. */
  method Conclude(session: TcpSession, result: Result, ghost id: SocketId)
    requires session.View() == Holding(id) && result != Rejected
    modifies session
    ensures session.View() == Final(result, id)
  {
    match result {
      case Closed => session.OnError();
      case Dropped => session.Shutdown();
      case _ =>
    }
  }

  /**
   on_handshake_fail: without a protocol left the last session is destroyed and the connection
   rejected, otherwise the next protocol gets the socket.
   */
  method OnHandshakeFail(protocolIndex: nat, current: TcpSession, incoming: Incoming, peer: Peer, key: Key,
                         sha1: string -> Digest, ghost id: SocketId)
    returns (ending: Ending)
    requires protocolIndex < PROTOCOL_COUNT && Negotiation.Fits(peer)
    requires current.View() == Holding(id)
    modifies current
    ensures ending.last.View() == Final(ending.result, id)
    ensures protocolIndex == 0 ==> ending == Ending(Rejected, [], [], current)
    ensures protocolIndex > 0 ==>
      && (ending.result, ending.tried) == ChainFrom(protocolIndex - 1, incoming, peer, key)
      && current.View() == Idle()
      && fresh(ending.last)
      && fresh(ending.former)
      && AllIdle(ending.former)
      && |ending.former| + 1 == |ending.tried|
      && AllDifferent(ending.former + [ending.last])
    decreases protocolIndex, 0
  {
    if protocolIndex == 0 {
      current.Shutdown();
      return Ending(Rejected, [], [], current);
    }
    ending := DoNextHandshake(current, protocolIndex - 1, incoming, peer, key, sha1, id);
  }

  /** do_next_handshake; the highest index was served by construct_session. */
  method DoNextHandshake(previous: TcpSession, protocolIndex: nat, incoming: Incoming, peer: Peer, key: Key,
                         sha1: string -> Digest, ghost id: SocketId)
    returns (ending: Ending)
    requires protocolIndex < PROTOCOL_COUNT - 1 && Negotiation.Fits(peer)
    requires previous.View() == Holding(id)
    modifies previous
    ensures ending.last.View() == Final(ending.result, id)
    ensures (ending.result, ending.tried) == ChainFrom(protocolIndex, incoming, peer, key)
    ensures previous.View() == Idle()
    ensures fresh(ending.last) && fresh(ending.former)
    ensures AllIdle(ending.former) && |ending.former| + 1 == |ending.tried|
    ensures AllDifferent(ending.former + [ending.last])
    decreases protocolIndex, 2
  {
    hide WsStage, HttpStage, LogStage, CustomHandshake;
    var session := new TcpSession.FromSocket(previous);
    var stage: Stage;
    match protocolIndex {
      case 0 => stage := TryHandshake(Tcp, incoming);
      case 1 => stage := TryHandshake(Serialization, incoming);
      case 2 => stage := HandleLog(incoming, peer, key, sha1);
      case 3 => stage := HandleHttp(incoming);
      case _ => assert false;
    }
    previous.Shutdown();
    ending := Finish(session, stage, protocolIndex, incoming, peer, key, sha1, id);
  }

  /** What follows a handshake: its result, or the next protocol. */
  method Finish(session: TcpSession, stage: Stage, protocolIndex: nat, incoming: Incoming, peer: Peer, key: Key,
                sha1: string -> Digest, ghost id: SocketId)
    returns (ending: Ending)
    requires protocolIndex < PROTOCOL_COUNT && Negotiation.Fits(peer)
    requires stage == StageAt(protocolIndex, incoming, peer, key)
    requires session.View() == Holding(id)
    modifies session
    ensures ending.last.View() == Final(ending.result, id)
    ensures (ending.result, ending.tried) == ChainFrom(protocolIndex, incoming, peer, key)
    ensures AllIdle(ending.former) && |ending.former| + 1 == |ending.tried|
    ensures ending.last == session || (fresh(ending.last) && session.View() == Idle())
    ensures forall i | 0 <= i < |ending.former| :: ending.former[i] == session || fresh(ending.former[i])
    ensures AllDifferent(ending.former + [ending.last])
    decreases protocolIndex, 1
  {
    hide StageAt;
    StageSettles(protocolIndex, incoming, peer, key);
    match stage {
      case Settle(result) =>
        Conclude(session, result, id);
        ending := Ending(result, [ProtocolAt(protocolIndex)], [], session);
      case Refuse(next) =>
        var rest := OnHandshakeFail(protocolIndex, session, next, peer, key, sha1, id);
        if protocolIndex == 0 {
          ending := Ending(rest.result, [ProtocolAt(0)], [], rest.last);
        } else {
          ending := Ending(rest.result, [ProtocolAt(protocolIndex)] + rest.tried, [session] + rest.former, rest.last);
          assert [session] + rest.former + [rest.last] == [session] + (rest.former + [rest.last]);
          assert forall s | s in rest.former + [rest.last] :: s != session;
        }
    }
  }

  /**
   A connection from its acceptance to the end of the handshakes: the result is the one that
   `Route` names, the protocols were tried in order, one session for each of them, and the
   sessions are left as by a run in which the socket was accepted, handed over from each to the
   next, and shut down by the last one exactly if the client was turned away.
   */
  method OnAccept(session: TcpSession, peer: Peer, key: Key, sha1: string -> Digest, ghost id: SocketId)
    returns (ending: Ending)
    requires peer.firstRead.Bytes? ==> |peer.firstRead.data| <= 8192
    requires peer.guidRead.Bytes? ==> |peer.guidRead.data| <= 8192
    requires session.View() == Holding(id)
    modifies session
    ensures ending.result == Route(peer, key)
    ensures ending.tried <= ORDER && (ending.result == Rejected ==> ending.tried == ORDER)
    ensures ending.result.Accepted? ==> ending.tried != [] && ending.tried[|ending.tried| - 1] == ending.result.protocol
    ensures ending.result.Accepted? || ending.result.Served? || ending.result.Waiting? ==>
      ending.last.socket == Some(id) && ending.last.shutDown == [] && ending.last.closed == []
    ensures ending.result.Closed? || ending.result.Dropped? || ending.result.Rejected? ==>
      ending.last.socket == None && ending.last.shutDown == [id] && ending.last.closed == []
    ensures AllIdle(ending.former) && |ending.former| + 1 == |ending.tried|
    ensures AllDifferent(ending.former + [ending.last])
    ensures ending.last == session || session.View() == Idle()
    ensures
      var w := Views(ending.former + [ending.last]);
      && w == After([], HandshakeRun(id, |ending.former|, ending.result in {Closed, Dropped, Rejected}))
      && (Owners(w, id) == 1 <==> ending.result.Accepted? || ending.result.Served? || ending.result.Waiting?)
      && (Shutdowns(w, id) == 1 <==> ending.result in {Closed, Dropped, Rejected})
  {
    hide WsStage, Route, ChainFrom, After, HandshakeRun, Owners, Shutdowns, TcpSessions.Outcome, Views;
    var stage := HandleWsFirstRead(peer, key, sha1);
    var none := Incoming("", NoTag);
    var top := PROTOCOL_COUNT - 1;
    ending := Finish(session, stage, top, none, peer, key, sha1, id);
    ChainFollowsRoute(top, none, peer, key);
    TriedInOrder(top, none, peer, key);
    ghost var ended := ending.result in {Closed, Dropped, Rejected};
    HandshakeOutcome(id, |ending.former|, ended);
    ViewsAtTheEnd(ending, id, ended);
  }

  lemma ViewsAtTheEnd(ending: Ending, id: SocketId, ended: bool)
    requires AllIdle(ending.former)
    requires ending.last.View() == if ended then SessionState(None, [id], []) else SessionState(Some(id), [], [])
    ensures Views(ending.former + [ending.last]) == TcpSessions.Outcome(id, |ending.former|, ended)
  {
    assert forall i | 0 <= i < |ending.former| :: (ending.former + [ending.last])[i] == ending.former[i];
  }

  /**
   handle_write of the HTTP session that served a request, and its destructor: unless the operation
   was aborted the socket is closed directly, and the destructor finds nothing left to shut down.
   */
  method FinishServing(session: TcpSession, aborted: bool, ghost id: SocketId)
    requires session.View() == Final(Served, id)
    modifies session
    ensures session.View() == if aborted then SessionState(None, [id], []) else SessionState(None, [], [id])
  {
    if !aborted {
      session.CloseSocket();
    }
    session.Shutdown();
  }
}
