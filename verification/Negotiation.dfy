/**
 The chain of protocols that the multi-protocol server tries on a new connection, described
 by what the client sends. `Route` says directly, in terms of the request grammar, the frame
 layout and the four GUIDs, where a connection ends up; `ChainFrom` is the chain itself.
 */
module Negotiation {
  import opened Buffers
  import opened Octets
  import opened Frames
  import ParseLoop
  import FrameLayout
  import FrameTheorems
  import opened RequestParsing
  import opened RequestGrammar
  import opened RequestTheorems
  import opened AcceptKeys
  import opened Options

  // ----- what arrives -----

  /** Size of incoming_data_t. */
  const BUFFER_SIZE := 8192

  datatype Read<+T> = Failed | Bytes(data: seq<T>)

  /** The client and the network: the reads that the handshakes issue, and the fate of the reply. */
  datatype Peer = Peer(firstRead: Read<char>, replyWritten: bool, guidRead: Read<byte>)

  /** Every read fits the buffer it is given. */
  predicate Fits(peer: Peer)
  {
    && (peer.firstRead.Bytes? ==> |peer.firstRead.data| <= BUFFER_SIZE)
    && (peer.guidRead.Bytes? ==> |peer.guidRead.data| <= BUFFER_SIZE)
  }

  datatype Tag = Http | WebSocket | WsGuid | NoTag

  /** hand_shake_data_t */
  datatype Incoming = Incoming(data: string, tag: Tag)

  // ----- protocols -----

  datatype Protocol = Tcp | Serialization | Log | HttpServer | Ws

  /** Served: an HTTP reply is written. Waiting: the HTTP session reads on. Dropped: nothing refers to the session any more. */
  datatype Result = Accepted(protocol: Protocol) | Served | Waiting | Closed | Dropped | Rejected

  const PROTOCOL_COUNT: nat := 5

  /** The protocol tried at an index; the one with the highest index starts. */
  function ProtocolAt(index: nat): Protocol
    requires index < PROTOCOL_COUNT
  {
    match index
    case 0 => Tcp
    case 1 => Serialization
    case 2 => Log
    case 3 => HttpServer
    case 4 => Ws
  }

  const WS_GUID := "{FB3D4012-F196-4299-9531-0AEACBB3ED89}"
  const LOG_GUID := "{82F0D331-F6C1-4227-8015-C89276E1931B}"
  const SERIALIZATION_GUID := "{40CBD5AC-856A-4EA5-AE00-DFB199ABED64}"
  const TCP_GUID := "{21BB758F-BC6A-42C4-92B1-6B5332CEAEBF}"

  function GuidOf(p: Protocol): string
    requires p != HttpServer
  {
    match p
    case Tcp => TCP_GUID
    case Serialization => SERIALIZATION_GUID
    case Log => LOG_GUID
    case Ws => WS_GUID
  }

  const KEY_FIELD := "Sec-WebSocket-Key:"

  predicate OccursAt(s: string, part: string, i: nat)
  {
    i + |part| <= |s| && s[i..i + |part|] == part
  }

  /** s.find(part) != npos */
  ghost predicate Contains(s: string, part: string)
  {
    exists i: nat :: OccursAt(s, part, i)
  }

  // ----- what the data amounts to -----

  /** The data starts with a request that carries a key, so that it is answered with an upgrade. */
  ghost predicate Upgrades(data: string)
  {
    exists a :: Valid(a) && Unparse(a) <= data && HasKey(Headers(a.lines))
  }

  ghost predicate MayBecomeRequest(data: string)
  {
    exists more :: StartsWithRequest(data + more)
  }

  ghost function FirstFrame(bytes: seq<byte>): (w: seq<byte>)
    requires FrameTheorems.StartsWithFrame(bytes)
    ensures w <= bytes && FrameLayout.IsFrame(w)
  {
    var n :| 0 <= n <= |bytes| && FrameLayout.IsFrame(bytes[..n]);
    bytes[..n]
  }

  function Characters(bytes: seq<byte>): (s: string)
    ensures |s| == |bytes|
  {
    seq(|bytes|, i requires 0 <= i < |bytes| => ToChar(bytes[i]))
  }

  // ----- one handshake -----

  datatype Stage = Refuse(incoming: Incoming) | Settle(result: Result)

  ghost function CustomHandshake(p: Protocol, incoming: Incoming): Stage
    requires p != HttpServer
  {
    if incoming.data == GuidOf(p) then Settle(Accepted(p)) else Refuse(incoming)
  }

  /** `key` is what the frame object's masking key holds before the frame is read. */
  ghost function OnGuidRead(p: Protocol, read: Read<byte>, key: Key): Stage
    requires p != HttpServer
  {
    match read
    case Failed => Settle(Closed)
    case Bytes(bytes) =>
      if !FrameTheorems.StartsWithFrame(bytes) then Settle(Dropped)
      else
        var m := FrameLayout.Meaning(FirstFrame(bytes), key);
        if m.opcode == TextFrame then CustomHandshake(p, Incoming(Characters(m.payload), WsGuid))
        else Settle(Closed)
  }

  ghost function FirstWrite(p: Protocol, incoming: Incoming, peer: Peer, key: Key): Stage
    requires p != HttpServer
  {
    if !Upgrades(incoming.data) then Refuse(incoming)
    else if !peer.replyWritten then Settle(Closed)
    else OnGuidRead(p, peer.guidRead, key)
  }

  /** The handshake of the session that accepted the connection; it ignores `incoming`. */
  ghost function WsStage(peer: Peer, key: Key): Stage
  {
    match peer.firstRead
    case Failed => Settle(Closed)
    case Bytes(data) =>
      if !Contains(data, KEY_FIELD) then Refuse(Incoming(data, Http))
      else FirstWrite(Ws, Incoming(data, NoTag), peer, key)
  }

  ghost function HttpStage(incoming: Incoming): Stage
  {
    if incoming.tag != Http then Refuse(incoming)
    else if Contains(incoming.data, KEY_FIELD) then Refuse(incoming)
    else if StartsWithRequest(incoming.data) then Settle(Served)
    else if MayBecomeRequest(incoming.data) then Settle(Waiting)
    else Refuse(incoming)
  }

  ghost function LogStage(incoming: Incoming, peer: Peer, key: Key): Stage
  {
    match incoming.tag
    case Http => FirstWrite(Log, incoming, peer, key)
    case WsGuid => CustomHandshake(Log, incoming)
    case _ => Refuse(incoming)
  }

  ghost function StageAt(index: nat, incoming: Incoming, peer: Peer, key: Key): Stage
    requires index < PROTOCOL_COUNT
  {
    match ProtocolAt(index)
    case Ws => WsStage(peer, key)
    case HttpServer => HttpStage(incoming)
    case Log => LogStage(incoming, peer, key)
    case Serialization => CustomHandshake(Serialization, incoming)
    case Tcp => CustomHandshake(Tcp, incoming)
  }

  // ----- the chain -----

  /** The protocols from `index` down: how the connection ends, and which of them were tried. */
  ghost function ChainFrom(index: nat, incoming: Incoming, peer: Peer, key: Key): (Result, seq<Protocol>)
    requires index < PROTOCOL_COUNT
  {
    match StageAt(index, incoming, peer, key)
    case Settle(result) => (result, [ProtocolAt(index)])
    case Refuse(next) =>
      if index == 0 then (Rejected, [ProtocolAt(0)])
      else var rest := ChainFrom(index - 1, next, peer, key); (rest.0, [ProtocolAt(index)] + rest.1)
  }

  /** `n` protocols from `index` down. */
  function Countdown(index: nat, n: nat): (ps: seq<Protocol>)
    requires n <= index + 1 <= PROTOCOL_COUNT
    ensures |ps| == n
  {
    if n == 0 then [] else [ProtocolAt(index)] + if n == 1 then [] else Countdown(index - 1, n - 1)
  }

  const ORDER: seq<Protocol> := [Ws, HttpServer, Log, Serialization, Tcp]

  lemma {:induction false} CountdownIsTheOrder(index: nat, n: nat)
    requires n <= index + 1 <= PROTOCOL_COUNT
    ensures Countdown(index, n) == Countdown(index, index + 1)[..n]
  {
    if n > 1 {
      CountdownIsTheOrder(index - 1, n - 1);
    }
  }

  lemma WholeCountdown()
    ensures Countdown(4, 5) == ORDER
  {
    assert Countdown(1, 2) == [Serialization, Tcp];
    assert Countdown(3, 4) == [HttpServer, Log, Serialization, Tcp];
  }

  lemma {:induction false} TriedByCountdown(index: nat, incoming: Incoming, peer: Peer, key: Key)
    requires index < PROTOCOL_COUNT
    ensures var c := ChainFrom(index, incoming, peer, key);
            && 0 < |c.1| <= index + 1
            && c.1 == Countdown(index, |c.1|)
            && (c.0 == Rejected ==> |c.1| == index + 1)
            && (c.0.Accepted? ==> c.1[|c.1| - 1] == c.0.protocol)
  {
    hide StageAt, ProtocolAt;
    StageSettles(index, incoming, peer, key);
    match StageAt(index, incoming, peer, key) {
      case Settle(result) =>
      case Refuse(next) =>
        if index > 0 {
          TriedByCountdown(index - 1, next, peer, key);
        }
    }
  }

  /** The protocols are tried in their order, each at most once, up to the one that settles the matter. */
  lemma TriedInOrder(top: nat, incoming: Incoming, peer: Peer, key: Key)
    requires top == PROTOCOL_COUNT - 1
    ensures var c := ChainFrom(top, incoming, peer, key);
            && c.1 <= ORDER
            && (c.0 == Rejected ==> c.1 == ORDER)
            && (c.0.Accepted? ==> c.1 != [] && c.1[|c.1| - 1] == c.0.protocol)
  {
    hide ChainFrom, Countdown;
    WholeCountdown();
    TriedByCountdown(top, incoming, peer, key);
    CountdownIsTheOrder(top, |ChainFrom(top, incoming, peer, key).1|);
  }

  /** A handshake accepts for its own protocol only, and leaves rejection to the end of the chain. */
  lemma StageSettles(index: nat, incoming: Incoming, peer: Peer, key: Key)
    requires index < PROTOCOL_COUNT
    ensures var s := StageAt(index, incoming, peer, key);
            s.Settle? ==> s.result != Rejected && (s.result.Accepted? ==> s.result.protocol == ProtocolAt(index))
  {
    hide Contains, Upgrades, MayBecomeRequest, StartsWithRequest, FrameTheorems.StartsWithFrame, FirstFrame;
    hide FrameLayout.Meaning, Characters, GuidOf;
  }

  // ----- where a connection ends up -----

  /** The session that knows the GUID. */
  function ByGuid(guid: string, from: seq<Protocol>): Result
    requires HttpServer !in from
  {
    if from == [] then Rejected
    else if GuidOf(from[0]) == guid then Accepted(from[0])
    else ByGuid(guid, from[1..])
  }

  /** After an upgrade the GUID in the first text frame decides. */
  ghost function RouteUpgraded(peer: Peer, key: Key): Result
  {
    if !peer.replyWritten || peer.guidRead.Failed? then Closed
    else if !FrameTheorems.StartsWithFrame(peer.guidRead.data) then Dropped
    else
      var m := FrameLayout.Meaning(FirstFrame(peer.guidRead.data), key);
      if m.opcode != TextFrame then Closed
      else ByGuid(Characters(m.payload), [Ws, Log, Serialization, Tcp])
  }

  ghost function Route(peer: Peer, key: Key): Result
  {
    if peer.firstRead.Failed? then Closed
    else
      var data := peer.firstRead.data;
      if Contains(data, KEY_FIELD) then
        if Upgrades(data) then RouteUpgraded(peer, key) else Rejected
      else if StartsWithRequest(data) then Served
      else if MayBecomeRequest(data) then Waiting
      else ByGuid(data, [Serialization, Tcp])
  }

  lemma SerializationGuidHasNoS(i: nat)
    requires i < |SERIALIZATION_GUID|
    ensures SERIALIZATION_GUID[i] != 'S'
  {
  }

  lemma TcpGuidHasNoS(i: nat)
    requires i < |TCP_GUID|
    ensures TCP_GUID[i] != 'S'
  {
  }

  lemma UpgradeIsRequest(data: string)
    requires Upgrades(data)
    ensures StartsWithRequest(data)
  {
    hide Valid, Unparse, Headers;
    var a :| Valid(a) && Unparse(a) <= data && HasKey(Headers(a.lines));
  }

  lemma LastTwo(incoming: Incoming, peer: Peer, key: Key)
    ensures ChainFrom(1, incoming, peer, key).0 == ByGuid(incoming.data, [Serialization, Tcp])
  {
    assert [Serialization, Tcp][1..] == [Tcp] && [Tcp][1..] == [];
    assert ChainFrom(0, incoming, peer, key).0 == ByGuid(incoming.data, [Tcp]);
  }

  lemma AfterHttp(incoming: Incoming, peer: Peer, key: Key)
    requires incoming.tag == Http ==> !StartsWithRequest(incoming.data)
    ensures ChainFrom(2, incoming, peer, key).0 ==
            ByGuid(incoming.data, if incoming.tag == WsGuid then [Log, Serialization, Tcp] else [Serialization, Tcp])
  {
    hide Upgrades, StartsWithRequest;
    LastTwo(incoming, peer, key);
    if Upgrades(incoming.data) {
      UpgradeIsRequest(incoming.data);
    }
    assert [Log, Serialization, Tcp][1..] == [Serialization, Tcp];
  }

  lemma AfterWs(incoming: Incoming, peer: Peer, key: Key)
    requires incoming.tag != Http
    ensures ChainFrom(3, incoming, peer, key).0 ==
            ByGuid(incoming.data, if incoming.tag == WsGuid then [Log, Serialization, Tcp] else [Serialization, Tcp])
  {
    AfterHttp(incoming, peer, key);
  }

  lemma NoGuid(data: string)
    requires Contains(data, KEY_FIELD)
    ensures ByGuid(data, [Serialization, Tcp]) == Rejected
  {
    var i: nat :| OccursAt(data, KEY_FIELD, i);
    assert data[i] == data[i..i + |KEY_FIELD|][0] == 'S';
    if data == SERIALIZATION_GUID {
      SerializationGuidHasNoS(i);
    } else if data == TCP_GUID {
      TcpGuidHasNoS(i);
    }
    assert [Serialization, Tcp][1..] == [Tcp] && [Tcp][1..] == [];
    assert ByGuid(data, [Tcp]) == Rejected;
  }

  /**
   Trying the protocols one after the other leads where `Route` says: a plain first read is an
   HTTP request or the GUID of the serialization or raw session, an upgraded connection
   belongs to the session whose GUID its first frame carries.
   */
  lemma ChainFollowsRoute(top: nat, incoming: Incoming, peer: Peer, key: Key)
    requires top == PROTOCOL_COUNT - 1
    ensures ChainFrom(top, incoming, peer, key).0 == Route(peer, key)
  {
    hide Contains, Upgrades, MayBecomeRequest, StartsWithRequest, FrameTheorems.StartsWithFrame, FirstFrame;
    hide FrameLayout.Meaning, Characters, ByGuid;
    forall guid
      ensures ByGuid(guid, [Ws, Log, Serialization, Tcp]) ==
              if guid == WS_GUID then Accepted(Ws) else ByGuid(guid, [Log, Serialization, Tcp])
    {
      FirstInList(guid);
    }
    match WsStage(peer, key) {
      case Settle(result) =>
        assert ChainFrom(top, incoming, peer, key).0 == result == Route(peer, key);
      case Refuse(next) =>
        assert ChainFrom(top, incoming, peer, key).0 == ChainFrom(3, next, peer, key).0;
        if next.tag != Http {
          AfterWs(next, peer, key);
          if next.tag == NoTag {
            NoGuid(next.data);
            assert ChainFrom(top, incoming, peer, key).0 == Rejected == Route(peer, key);
          } else {
            assert next.tag == WsGuid;
            assert Route(peer, key) == RouteUpgraded(peer, key) == ByGuid(next.data, [Log, Serialization, Tcp]);
            assert ChainFrom(top, incoming, peer, key).0 == Route(peer, key);
          }
        } else if StartsWithRequest(next.data) || MayBecomeRequest(next.data) {
          assert ChainFrom(top, incoming, peer, key).0 == (if StartsWithRequest(next.data) then Served else Waiting) == Route(peer, key);
        } else {
          assert Route(peer, key) == ByGuid(next.data, [Serialization, Tcp]);
          assert ChainFrom(3, next, peer, key).0 == ChainFrom(2, next, peer, key).0;
          AfterHttp(next, peer, key);
          assert ChainFrom(top, incoming, peer, key).0 == Route(peer, key);
        }
    }
  }

  lemma FirstInList(guid: string)
    ensures ByGuid(guid, [Ws, Log, Serialization, Tcp]) ==
            if guid == WS_GUID then Accepted(Ws) else ByGuid(guid, [Log, Serialization, Tcp])
  {
    assert [Ws, Log, Serialization, Tcp][1..] == [Log, Serialization, Tcp];
  }

  /** The frame that an upgraded client sends first is a text. */
  ghost predicate SendsText(peer: Peer, key: Key)
  {
    && peer.guidRead.Bytes?
    && FrameTheorems.StartsWithFrame(peer.guidRead.data)
    && FrameLayout.Meaning(FirstFrame(peer.guidRead.data), key).opcode == TextFrame
  }

  /** Exactly when a connection ends without a session, other than by a rejection of all of them, or stays with HTTP. */
  lemma EveryOutcome(peer: Peer, key: Key)
    ensures Route(peer, key) == Served <==>
            peer.firstRead.Bytes? && !Contains(peer.firstRead.data, "Sec-WebSocket-Key:") && StartsWithRequest(peer.firstRead.data)
    ensures Route(peer, key) == Waiting <==>
            && peer.firstRead.Bytes? && !Contains(peer.firstRead.data, "Sec-WebSocket-Key:")
            && !StartsWithRequest(peer.firstRead.data)
            && exists more :: StartsWithRequest(peer.firstRead.data + more)
    ensures Route(peer, key) == Dropped <==>
            && peer.firstRead.Bytes? && Upgrades(peer.firstRead.data) && peer.replyWritten
            && peer.guidRead.Bytes? && !FrameTheorems.StartsWithFrame(peer.guidRead.data)
    ensures Route(peer, key) == Closed <==>
            || peer.firstRead.Failed?
            || (&& Upgrades(peer.firstRead.data)
                && (!peer.replyWritten || peer.guidRead.Failed?
                    || (FrameTheorems.StartsWithFrame(peer.guidRead.data) && !SendsText(peer, key))))
  {
    hide Contains, Upgrades, StartsWithRequest, FrameTheorems.StartsWithFrame, FirstFrame, FrameLayout.Meaning, Characters;
    if peer.firstRead.Bytes? {
      if Upgrades(peer.firstRead.data) {
        FilterIsSound(peer.firstRead.data);
      }
      ByGuidAccepts(peer.firstRead.data, [Serialization, Tcp]);
    }
    if SendsText(peer, key) {
      ByGuidAccepts(Characters(FrameLayout.Meaning(FirstFrame(peer.guidRead.data), key).payload), [Ws, Log, Serialization, Tcp]);
    }
    hide ByGuid;
  }

  lemma {:induction false} ByGuidAccepts(guid: string, from: seq<Protocol>)
    requires HttpServer !in from
    ensures ByGuid(guid, from) == Rejected || ByGuid(guid, from).Accepted?
    decreases |from|
  {
    if from != [] {
      ByGuidAccepts(guid, from[1..]);
    }
  }

  // ----- the search for the key field is a sound filter -----

  lemma OccursInside(a: string, part: string, b: string)
    ensures OccursAt(a + part + b, part, |a|)
  {
  }

  lemma {:induction false} KeyComesFromALine(ls: seq<Line>)
    requires ValidLines(ls) && HasKey(Headers(ls))
    ensures Contains(LinesText(ls), KEY_FIELD)
    decreases |ls|
  {
    assert ls != [];
    var front, last := ls[..|ls| - 1], ls[|ls| - 1];
    FrontIsValid(ls);
    hide *;
    if HasKey(Headers(front)) {
      KeyComesFromALine(front);
      ContainsMore([], LinesText(front), LineText(last), KEY_FIELD);
      NothingBefore(LinesText(front));
    } else {
      KeyIsNew(Headers(front), last);
      ContainsKeyLine(LinesText(front), last.value);
    }
  }

  lemma NothingBefore(s: string)
    ensures [] + s == s
  {
  }

  lemma FrontIsValid(ls: seq<Line>)
    requires ValidLines(ls) && ls != []
    ensures var front, last := ls[..|ls| - 1], ls[|ls| - 1];
            && ValidLines(front)
            && LinesText(ls) == LinesText(front) + LineText(last)
            && Headers(ls) == Apply(Headers(front), last)
  {
    var front := ls[..|ls| - 1];
    assert forall l | l in front :: l in ls;
  }

  lemma KeyIsNew(hs: seq<Header>, l: Line)
    requires !HasKey(hs) && HasKey(Apply(hs, l))
    ensures l.Field? && l.name == KEY_NAME
  {
    NamesAreKept(hs, l);
  }

  lemma NamesAreKept(hs: seq<Header>, l: Line)
    ensures var r := Apply(hs, l);
            && |r| == |hs| + (if l.Field? then 1 else 0)
            && (forall i | 0 <= i < |hs| :: r[i].name == hs[i].name)
            && (l.Field? ==> r[|hs|].name == l.name)
  {
  }

  lemma ContainsMore(a: string, s: string, b: string, part: string)
    requires Contains(s, part)
    ensures Contains(a + s + b, part)
  {
    var i: nat :| OccursAt(s, part, i);
    assert (a + s + b)[|a| + i..|a| + i + |part|] == s[i..i + |part|];
    assert OccursAt(a + s + b, part, |a| + i);
  }

  lemma ContainsKeyLine(before: string, value: string)
    ensures Contains(before + LineText(Field(KEY_NAME, value)), KEY_FIELD)
  {
    var rest := " " + value + CRLF;
    assert KEY_NAME + ": " + value + CRLF == KEY_FIELD + rest;
    OccursInside(before, KEY_FIELD, rest);
    assert before + LineText(Field(KEY_NAME, value)) == before + KEY_FIELD + rest;
  }

  /** A request that would be upgraded is never turned away by the search for the text of the key field. */
  lemma FilterIsSound(data: string)
    requires Upgrades(data)
    ensures Contains(data, "Sec-WebSocket-Key:")
  {
    hide Contains, RequestLine, LinesText, Headers;
    var a :| Valid(a) && Unparse(a) <= data && HasKey(Headers(a.lines));
    KeyComesFromALine(a.lines);
    var rest := CRLF + data[|Unparse(a)|..];
    ContainsMore(RequestLine(a), LinesText(a.lines), rest, KEY_FIELD);
    assert RequestLine(a) + LinesText(a.lines) + rest == data;
  }

  /** So data that the first stage passes on as HTTP is never upgraded by the log session either. */
  lemma LogNeverUpgradesPlainData(peer: Peer, key: Key)
    requires WsStage(peer, key).Refuse? && WsStage(peer, key).incoming.tag == Http
    ensures var next := WsStage(peer, key).incoming;
            LogStage(next, peer, key) == Refuse(next)
  {
    hide Contains, Upgrades;
    var next := WsStage(peer, key).incoming;
    if Upgrades(next.data) {
      FilterIsSound(next.data);
    }
  }

  // ----- upgrade requests in pieces -----

  lemma ProperPrefixIsNoRequest(a: Syntax, p: string)
    requires Valid(a) && p < Unparse(a)
    ensures !StartsWithRequest(p) && MayBecomeRequest(p)
  {
    hide Valid, Unparse, Meaning;
    var whole := Unparse(a);
    assert p + whole[|p|..] == whole;
    assert StartsWithRequest(p + whole[|p|..]);
    if StartsWithRequest(p) {
      var b :| Valid(b) && Unparse(b) <= p;
      SentenceIsUnique(whole, a, b);
    }
  }

  /**
   An upgrade request of which the first read holds only a part is never upgraded, whatever follows:
   the connection is rejected if the part holds the text of the key field, and else left to the HTTP
   session.
   */
  lemma UpgradeInOneRead(a: Syntax, p: string, peer: Peer, key: Key)
    requires Valid(a) && HasKey(Headers(a.lines)) && p <= Unparse(a)
    requires peer.firstRead == Bytes(p)
    ensures Route(peer, key) ==
            if p == Unparse(a) then RouteUpgraded(peer, key)
            else if Contains(p, "Sec-WebSocket-Key:") then Rejected
            else Waiting
  {
    hide Valid, Unparse, Headers, Contains, HasKey, RouteUpgraded;
    if p == Unparse(a) {
      assert Upgrades(p);
      FilterIsSound(p);
    } else {
      ProperPrefixIsNoRequest(a, p);
      if Upgrades(p) {
        UpgradeIsRequest(p);
      }
    }
  }

  /** What follows the upgrade request in the first read is lost: only the later read decides. */
  lemma RestOfFirstReadIsLost(a: Syntax, tail: string, peer: Peer, key: Key)
    requires Valid(a) && HasKey(Headers(a.lines)) && peer.firstRead == Bytes(Unparse(a) + tail)
    ensures Route(peer, key) == Route(peer.(firstRead := Bytes(Unparse(a))), key) == RouteUpgraded(peer, key)
  {
    hide Valid, Unparse, Headers, Contains, HasKey;
    assert Upgrades(Unparse(a) + tail) && Upgrades(Unparse(a));
    FilterIsSound(Unparse(a) + tail);
    FilterIsSound(Unparse(a));
  }

  // ----- GUIDs -----

  /** Text that starts with a brace can never become a request. */
  lemma BraceIsHopeless(data: string)
    requires data != "" && data[0] == '{'
    ensures !StartsWithRequest(data) && !MayBecomeRequest(data)
  {
    hide Valid, Unparse;
    var req := Request("", "", Known(0), Known(0), []);
    BraceIsRejected(data, req);
    RejectsExactlyTheHopeless(data, req);
    assert data + "" == data;
  }

  lemma BraceIsRejected(data: string, req: Request)
    requires data != "" && data[0] == '{'
    ensures ParseRequest(data, req).verdict == ParseLoop.False
  {
    assert IsTspecial('{') by { assert "()<>@,;:\\\"/[]?={} \t"[15] == '{'; }
  }

  lemma GuidsDiffer(p: Protocol, q: Protocol)
    requires p != HttpServer && q != HttpServer
    ensures GuidOf(p) == GuidOf(q) <==> p == q
    ensures GuidOf(p) != "" && GuidOf(p)[0] == '{'
  {
    assert WS_GUID[1] == 'F' && LOG_GUID[1] == '8' && SERIALIZATION_GUID[1] == '4' && TCP_GUID[1] == '2';
  }

  lemma {:induction false} GuidIsFound(p: Protocol, from: seq<Protocol>)
    requires p != HttpServer && HttpServer !in from
    ensures ByGuid(GuidOf(p), from) == if p in from then Accepted(p) else Rejected
    decreases |from|
  {
    hide GuidOf;
    if from != [] {
      assert from == [from[0]] + from[1..];
      GuidsDiffer(p, from[0]);
      GuidIsFound(p, from[1..]);
    }
  }

  /** A GUID as first read goes past the WebSocket, HTTP and log sessions to the session that knows it. */
  lemma PlainGuidIsRouted(p: Protocol, peer: Peer, key: Key)
    requires p != HttpServer && peer.firstRead == Bytes(GuidOf(p))
    ensures Route(peer, key) == if p in [Serialization, Tcp] then Accepted(p) else Rejected
  {
    hide Upgrades, StartsWithRequest, MayBecomeRequest, GuidOf;
    GuidsDiffer(p, p);
    BraceIsHopeless(GuidOf(p));
    GuidIsFound(p, [Serialization, Tcp]);
    if Upgrades(GuidOf(p)) {
      UpgradeIsRequest(GuidOf(p));
    }
    if Contains(GuidOf(p), KEY_FIELD) {
      NoGuid(GuidOf(p));
    }
  }

  /** The texts that a client sends as its first data, and the session that answers to each of them. */
  lemma PlainTextsAreRouted(peer: Peer, key: Key)
    ensures peer.firstRead == Bytes("{21BB758F-BC6A-42C4-92B1-6B5332CEAEBF}") ==> Route(peer, key) == Accepted(Tcp)
    ensures peer.firstRead == Bytes("{40CBD5AC-856A-4EA5-AE00-DFB199ABED64}") ==> Route(peer, key) == Accepted(Serialization)
    ensures peer.firstRead == Bytes("{82F0D331-F6C1-4227-8015-C89276E1931B}") ==> Route(peer, key) == Rejected
    ensures peer.firstRead == Bytes("{FB3D4012-F196-4299-9531-0AEACBB3ED89}") ==> Route(peer, key) == Rejected
  {
    hide Route;
    forall p | p != HttpServer && peer.firstRead == Bytes(GuidOf(p))
      ensures Route(peer, key) == if p in [Serialization, Tcp] then Accepted(p) else Rejected
    {
      PlainGuidIsRouted(p, peer, key);
    }
    assert GuidOf(Tcp) == "{21BB758F-BC6A-42C4-92B1-6B5332CEAEBF}";
    assert GuidOf(Serialization) == "{40CBD5AC-856A-4EA5-AE00-DFB199ABED64}";
    assert GuidOf(Log) == "{82F0D331-F6C1-4227-8015-C89276E1931B}";
    assert GuidOf(Ws) == "{FB3D4012-F196-4299-9531-0AEACBB3ED89}";
  }

  /** The session that answers to each text in a frame after an upgrade. */
  function SessionFor(text: string): Option<Protocol>
  {
    if text == "{FB3D4012-F196-4299-9531-0AEACBB3ED89}" then Some(Ws)
    else if text == "{82F0D331-F6C1-4227-8015-C89276E1931B}" then Some(Log)
    else if text == "{40CBD5AC-856A-4EA5-AE00-DFB199ABED64}" then Some(Serialization)
    else if text == "{21BB758F-BC6A-42C4-92B1-6B5332CEAEBF}" then Some(Tcp)
    else None
  }

  /** After an upgrade, a first text frame with any text, masked with any key, leads to the session for that text or to a rejection. */
  lemma FramedTextsAreRouted(peer: Peer, key: Key, m: Message, form: LengthForm, mask: Key, tail: seq<byte>)
    requires peer.firstRead.Bytes? && Upgrades(peer.firstRead.data) && peer.replyWritten
    requires m.opcode == TextFrame && |m.payload| > 0 && Frames.Fits(form, |m.payload|)
    requires peer.guidRead == Bytes(RfcFrame(m, form, MaskedBy(mask)) + tail)
    ensures Route(peer, key) ==
            match SessionFor(Characters(m.payload))
            case Some(p) => Accepted(p)
            case None => Rejected
  {
    hide Upgrades, Contains, Characters, RfcFrame;
    FirstFrameIsTold(peer, key, m, form, MaskedBy(mask), tail);
    ByGuidIsSessionFor(Characters(m.payload));
    hide ByGuid, SessionFor;
  }

  lemma ByGuidIsSessionFor(text: string)
    ensures ByGuid(text, [Ws, Log, Serialization, Tcp]) ==
            match SessionFor(text)
            case Some(p) => Accepted(p)
            case None => Rejected
  {
    FirstInList(text);
    assert [Log, Serialization, Tcp][1..] == [Serialization, Tcp] && [Serialization, Tcp][1..] == [Tcp] && [Tcp][1..] == [];
    assert ByGuid(text, [Tcp]) == if text == TCP_GUID then Accepted(Tcp) else Rejected;
  }

  /** What the first frame after an upgrade says decides. */
  lemma FirstFrameIsTold(peer: Peer, key: Key, m: Message, form: LengthForm, masking: Masking, tail: seq<byte>)
    requires peer.firstRead.Bytes? && Upgrades(peer.firstRead.data) && peer.replyWritten
    requires m.opcode == TextFrame && |m.payload| > 0 && Frames.Fits(form, |m.payload|)
    requires peer.guidRead == Bytes(RfcFrame(m, form, masking) + tail)
    ensures Route(peer, key) ==
            ByGuid(Characters(FrameTheorems.Told(m, masking, key).payload), [Ws, Log, Serialization, Tcp])
  {
    hide Upgrades, Contains, FrameLayout.IsFrame, FrameLayout.Meaning, Characters, RfcFrame, ApplyKey, ByGuid;
    FilterIsSound(peer.firstRead.data);
    var w, wire := RfcFrame(m, form, masking), peer.guidRead.data;
    FrameTheorems.LaidOutFrame(m, form, masking, key);
    assert wire[..|w|] == w;
    var v := FirstFrame(wire);
    assert wire[..|v|] == v;
    if |v| <= |w| {
      FrameTheorems.FrameEndIsUnique(wire, |v|, |w|);
    } else {
      FrameTheorems.FrameEndIsUnique(wire, |w|, |v|);
    }
  }

  lemma {:induction false} OnlyItsGuid(guid: string, p: Protocol, from: seq<Protocol>)
    requires p != HttpServer && HttpServer !in from
    requires ByGuid(guid, from) == Accepted(p)
    ensures guid == GuidOf(p)
    decreases |from|
  {
    hide GuidOf;
    if GuidOf(from[0]) != guid {
      OnlyItsGuid(guid, p, from[1..]);
    }
  }

  lemma CharactersTellBytes(a: seq<byte>, b: seq<byte>)
    ensures Characters(a) == Characters(b) <==> a == b
  {
    if Characters(a) == Characters(b) {
      forall i | 0 <= i < |a|
        ensures a[i] == b[i]
      {
        assert Characters(a)[i] == Characters(b)[i];
        assert (a[i] as int) as byte == a[i] && (b[i] as int) as byte == b[i];
      }
    }
  }

  /**
   After an upgrade, a GUID sent in a text frame reaches its own session exactly if the frame is
   masked or the key left in the frame object it is read into is zero.
   */
  lemma FramedGuidIsRouted(p: Protocol, peer: Peer, key: Key, m: Message, form: LengthForm, masking: Masking, tail: seq<byte>)
    requires p != HttpServer
    requires peer.firstRead.Bytes? && Upgrades(peer.firstRead.data) && peer.replyWritten
    requires m.opcode == TextFrame && Characters(m.payload) == GuidOf(p)
    requires Frames.Fits(form, |m.payload|)
    requires peer.guidRead == Bytes(RfcFrame(m, form, masking) + tail)
    ensures Route(peer, key) == Accepted(p) <==> masking.MaskedBy? || key == [0, 0, 0, 0]
  {
    hide Upgrades, Contains, GuidOf, Route, Characters, RfcFrame, ApplyKey, ByGuid;
    GuidLength(p);
    FirstFrameIsTold(peer, key, m, form, masking, tail);
    var told := FrameTheorems.Told(m, masking, key);
    GuidIsFound(p, [Ws, Log, Serialization, Tcp]);
    FrameTheorems.KeyCancels(key, m.payload);
    assert FrameTheorems.Harmless(key, |m.payload|) <==> key == [0, 0, 0, 0];
    CharactersTellBytes(told.payload, m.payload);
    if Route(peer, key) == Accepted(p) {
      OnlyItsGuid(Characters(told.payload), p, [Ws, Log, Serialization, Tcp]);
    }
  }

  lemma GuidLength(p: Protocol)
    requires p != HttpServer
    ensures |GuidOf(p)| == 38
  {
  }
}
