/**
 Who owns a connected socket: `tcp_session` takes a socket over from another session when it
 is constructed, and closes it at most once, whoever asks and however often. `http_session` also
 closes its socket directly, without `on_shutdown`.
 */
module TcpSessions {
  import opened Options

  type SocketId = nat

  /** What a session holds, the sockets for which its `on_shutdown` was called, and those it closed directly. */
  datatype SessionState = SessionState(socket: Option<SocketId>, shutDown: seq<SocketId>, closed: seq<SocketId>)

  function Idle(): SessionState
  {
    SessionState(None, [], [])
  }

  function Holding(id: SocketId): SessionState
  {
    SessionState(Some(id), [], [])
  }

  /** shutdown(), under the lock that makes test and close one step. */
  function Shut(s: SessionState): SessionState
  {
    match s.socket
    case None => s
    case Some(id) => s.(socket := None, shutDown := s.shutDown + [id])
  }

  /** get_socket().close() */
  function ClosedDirectly(s: SessionState): SessionState
  {
    match s.socket
    case None => s
    case Some(id) => s.(socket := None, closed := s.closed + [id])
  }

  class TcpSession {
    var socket: Option<SocketId>
    var shutDown: seq<SocketId>
    var closed: seq<SocketId>

    ghost function View(): SessionState
      reads this
    {
      SessionState(socket, shutDown, closed)
    }

    /** A session waiting for a connection, whose socket the acceptor has just opened. */
    constructor Accepted(id: SocketId)
      ensures View() == Holding(id)
    {
      socket, shutDown, closed := Some(id), [], [];
    }

    /** tcp_session(socket_t&): the socket is moved out of the other session. */
    constructor FromSocket(other: TcpSession)
      modifies other
      ensures View() == SessionState(old(other.socket), [], [])
      ensures other.View() == old(other.View()).(socket := None)
    {
      socket, shutDown, closed := other.socket, [], [];
      new;
      other.socket := None;
    }

    method Shutdown()
      modifies this
      ensures View() == Shut(old(View()))
    {
      if socket.None? {
        return;
      }
      var id := socket.value;
      socket := None;
      OnShutdown(id);
    }

    method OnShutdown(id: SocketId)
      modifies this`shutDown
      ensures shutDown == old(shutDown) + [id]
    {
      shutDown := shutDown + [id];
    }

    /** What `http_session` does when a reply is written or a read has failed. */
    method CloseSocket()
      modifies this
      ensures View() == ClosedDirectly(old(View()))
    {
      if socket.Some? {
        closed := closed + [socket.value];
        socket := None;
      }
    }

    /** ~tcp_session, on_error and on_error_code all end in shutdown(). */
    method OnError()
      modifies this
      ensures View() == Shut(old(View()))
    {
      Shutdown();
    }
  }

  // ----- all sessions of a server, under any sequence of events -----

  /** Events may name any session, also one that lost its socket long ago. */
  datatype Event = Accept(id: SocketId) | HandOver(from: nat) | ShutdownAt(session: nat) | CloseAt(session: nat)

  function Apply(w: seq<SessionState>, e: Event): seq<SessionState>
  {
    match e
    case Accept(id) => w + [Holding(id)]
    case HandOver(i) =>
      if i < |w| then w[i := w[i].(socket := None)] + [SessionState(w[i].socket, [], [])] else w
    case ShutdownAt(i) =>
      if i < |w| then w[i := Shut(w[i])] else w
    case CloseAt(i) =>
      if i < |w| then w[i := ClosedDirectly(w[i])] else w
  }

  function After(w: seq<SessionState>, events: seq<Event>): seq<SessionState>
  {
    if events == [] then w else Apply(After(w, events[..|events| - 1]), events[|events| - 1])
  }

  function Count<T(==)>(s: seq<T>, x: T): nat
  {
    if s == [] then 0 else Count(s[..|s| - 1], x) + if s[|s| - 1] == x then 1 else 0
  }

  /** Whether the session holds the socket, plus its calls of on_shutdown and its direct closes of it. */
  function Weight(s: SessionState, id: SocketId): nat
  {
    (if s.socket == Some(id) then 1 else 0) + Count(s.shutDown, id) + Count(s.closed, id)
  }

  function Total(w: seq<SessionState>, id: SocketId): nat
  {
    if w == [] then 0 else Total(w[..|w| - 1], id) + Weight(w[|w| - 1], id)
  }

  function Owners(w: seq<SessionState>, id: SocketId): nat
  {
    if w == [] then 0 else Owners(w[..|w| - 1], id) + if w[|w| - 1].socket == Some(id) then 1 else 0
  }

  function Shutdowns(w: seq<SessionState>, id: SocketId): nat
  {
    if w == [] then 0 else Shutdowns(w[..|w| - 1], id) + Count(w[|w| - 1].shutDown, id)
  }

  function Closes(w: seq<SessionState>, id: SocketId): nat
  {
    if w == [] then 0 else Closes(w[..|w| - 1], id) + Count(w[|w| - 1].closed, id)
  }

  lemma {:induction false} TotalSplits(w: seq<SessionState>, id: SocketId)
    ensures Total(w, id) == Owners(w, id) + Shutdowns(w, id) + Closes(w, id)
  {
    if w != [] {
      TotalSplits(w[..|w| - 1], id);
    }
  }

  lemma {:induction false} TotalUpdate(w: seq<SessionState>, i: nat, s: SessionState, id: SocketId)
    requires i < |w|
    ensures Total(w[i := s], id) == Total(w, id) - Weight(w[i], id) + Weight(s, id)
  {
    var n := |w| - 1;
    if i < n {
      TotalUpdate(w[..n], i, s, id);
      assert w[i := s][..n] == w[..n][i := s];
    } else {
      assert w[i := s][..n] == w[..n];
    }
  }

  lemma TotalAppend(w: seq<SessionState>, s: SessionState, id: SocketId)
    ensures Total(w + [s], id) == Total(w, id) + Weight(s, id)
  {
    assert (w + [s])[..|w|] == w;
  }

  lemma CountAppend<T>(s: seq<T>, x: T, y: T)
    ensures Count(s + [y], x) == Count(s, x) + if y == x then 1 else 0
  {
    assert (s + [y])[..|s|] == s;
  }

  lemma ClosingKeepsWeight(s: SessionState, id: SocketId)
    ensures Weight(Shut(s), id) == Weight(s, id)
    ensures Weight(ClosedDirectly(s), id) == Weight(s, id)
  {
    hide Count;
    if s.socket.Some? {
      CountAppend(s.shutDown, id, s.socket.value);
      CountAppend(s.closed, id, s.socket.value);
    }
  }

  /** Every event but the acceptance of the socket itself conserves owners plus shutdowns plus direct closes. */
  lemma EventConserves(w: seq<SessionState>, e: Event, id: SocketId)
    ensures Total(Apply(w, e), id) == Total(w, id) + if e == Accept(id) then 1 else 0
  {
    match e {
      case Accept(other) =>
        TotalAppend(w, Holding(other), id);
      case HandOver(i) =>
        if i < |w| {
          TotalUpdate(w, i, w[i].(socket := None), id);
          TotalAppend(w[i := w[i].(socket := None)], SessionState(w[i].socket, [], []), id);
        }
      case ShutdownAt(i) =>
        if i < |w| {
          TotalUpdate(w, i, Shut(w[i]), id);
          ClosingKeepsWeight(w[i], id);
        }
      case CloseAt(i) =>
        if i < |w| {
          TotalUpdate(w, i, ClosedDirectly(w[i]), id);
          ClosingKeepsWeight(w[i], id);
        }
    }
  }

  /** Along every run, owners, shutdowns and direct closes of a socket add up to the number of times it was accepted. */
  lemma {:induction false} SocketConservation(events: seq<Event>, id: SocketId)
    ensures var w := After([], events);
            Owners(w, id) + Shutdowns(w, id) + Closes(w, id) == Count(events, Accept(id))
  {
    var w := After([], events);
    TotalSplits(w, id);
    if events != [] {
      var front := events[..|events| - 1];
      SocketConservation(front, id);
      TotalSplits(After([], front), id);
      EventConserves(After([], front), events[|events| - 1], id);
    }
  }

  /** Event number `k` is a direct close by the session that holds the socket. */
  predicate ClosesSocket(events: seq<Event>, id: SocketId, k: nat)
    requires k < |events|
  {
    && events[k].CloseAt?
    && var w := After([], events[..k]);
       events[k].session < |w| && w[events[k].session].socket == Some(id)
  }

  lemma {:induction false} ClosesUpdate(w: seq<SessionState>, i: nat, s: SessionState, id: SocketId)
    requires i < |w|
    ensures Closes(w[i := s], id) == Closes(w, id) - Count(w[i].closed, id) + Count(s.closed, id)
  {
    var n := |w| - 1;
    if i < n {
      ClosesUpdate(w[..n], i, s, id);
      assert w[i := s][..n] == w[..n][i := s];
    } else {
      assert w[i := s][..n] == w[..n];
    }
  }

  lemma EventCloses(w: seq<SessionState>, e: Event, id: SocketId)
    ensures Closes(Apply(w, e), id) == Closes(w, id) +
              if e.CloseAt? && e.session < |w| && w[e.session].socket == Some(id) then 1 else 0
  {
    match e {
      case Accept(other) =>
        assert (w + [Holding(other)])[..|w|] == w;
      case HandOver(i) =>
        if i < |w| {
          var v := w[i := w[i].(socket := None)];
          ClosesUpdate(w, i, v[i], id);
          assert (v + [SessionState(w[i].socket, [], [])])[..|v|] == v;
        }
      case ShutdownAt(i) =>
        if i < |w| {
          ClosesUpdate(w, i, Shut(w[i]), id);
        }
      case CloseAt(i) =>
        if i < |w| {
          ClosesUpdate(w, i, ClosedDirectly(w[i]), id);
          CountAppend(w[i].closed, id, if w[i].socket.Some? then w[i].socket.value else 0);
        }
    }
  }

  lemma {:induction false} ClosesHaveAnEvent(events: seq<Event>, id: SocketId)
    ensures Closes(After([], events), id) == 0 <==> forall k: nat | k < |events| :: !ClosesSocket(events, id, k)
  {
    if events != [] {
      var n := |events| - 1;
      var front := events[..n];
      ClosesHaveAnEvent(front, id);
      EventCloses(After([], front), events[n], id);
      forall k: nat | k < n
        ensures ClosesSocket(front, id, k) <==> ClosesSocket(events, id, k)
      {
        assert front[..k] == events[..k];
      }
      hide After, Closes, Apply;
      var w, e := After([], front), events[n];
      assert ClosesSocket(events, id, n) <==> e.CloseAt? && e.session < |w| && w[e.session].socket == Some(id);
      assert (forall k: nat | k < |events| :: !ClosesSocket(events, id, k))
        <==> (forall k: nat | k < n :: !ClosesSocket(front, id, k)) && !ClosesSocket(events, id, n);
    }
  }

  /**
   A socket that was accepted once is never owned by two sessions, never shut down twice, and never
   owned after it was shut down. It has an owner or was shut down exactly if no session that held
   it closed it directly.
   */
  lemma OneOwnerOrOneShutdown(events: seq<Event>, id: SocketId)
    requires Count(events, Accept(id)) == 1
    ensures var w := After([], events);
            && Owners(w, id) + Shutdowns(w, id) <= 1
            && (Owners(w, id) + Shutdowns(w, id) == 1 <==> forall k: nat | k < |events| :: !ClosesSocket(events, id, k))
  {
    SocketConservation(events, id);
    ClosesHaveAnEvent(events, id);
  }

  // ----- the run of a handshake -----

  /** A socket is accepted and handed over `n` times, each time followed by a shutdown of the former owner. */
  function HandOvers(id: SocketId, n: nat): seq<Event>
  {
    if n == 0 then [Accept(id)] else HandOvers(id, n - 1) + [HandOver(n - 1)] + [ShutdownAt(n - 1)]
  }

  function HandshakeRun(id: SocketId, n: nat, ended: bool): seq<Event>
  {
    HandOvers(id, n) + if ended then [ShutdownAt(n)] else []
  }

  function Idles(n: nat): (w: seq<SessionState>)
    ensures |w| == n
  {
    seq(n, _ => Idle())
  }

  lemma {:induction false} HandOversLeave(id: SocketId, n: nat)
    ensures After([], HandOvers(id, n)) == Idles(n) + [Holding(id)]
  {
    if n == 0 {
      AfterNext([], Accept(id));
      assert [] + [Accept(id)] == [Accept(id)];
      assert Idles(0) == [];
    } else {
      var events := HandOvers(id, n - 1);
      HandOversLeave(id, n - 1);
      AfterNext(events, HandOver(n - 1));
      AfterNext(events + [HandOver(n - 1)], ShutdownAt(n - 1));
      HandOverNext(id, n);
      OneHandOver(id, n - 1);
      hide After, HandOvers, Apply;
    }
  }

  lemma OneHandOver(id: SocketId, k: nat)
    ensures Apply(Apply(Idles(k) + [Holding(id)], HandOver(k)), ShutdownAt(k)) == Idles(k + 1) + [Holding(id)]
  {
    var w := Idles(k) + [Holding(id)];
    var v := Apply(w, HandOver(k));
    assert v == Idles(k + 1) + [Holding(id)];
    assert v[k] == Idle() && v[k := v[k]] == v;
  }

  lemma HandOverNext(id: SocketId, n: nat)
    requires n > 0
    ensures HandOvers(id, n) == HandOvers(id, n - 1) + [HandOver(n - 1)] + [ShutdownAt(n - 1)]
  {
  }

  /** What a handshake leaves behind: the last session holds the socket, or has shut it down, and all others are idle. */
  function Outcome(id: SocketId, n: nat, ended: bool): seq<SessionState>
  {
    Idles(n) + [if ended then SessionState(None, [id], []) else SessionState(Some(id), [], [])]
  }

  lemma {:induction false} IdlesCountNothing(n: nat, id: SocketId)
    ensures Owners(Idles(n), id) == 0 && Shutdowns(Idles(n), id) == 0
  {
    if n > 0 {
      IdlesCountNothing(n - 1, id);
      assert Idles(n)[..n - 1] == Idles(n - 1);
    }
  }

  /** The run leads to that outcome: one owner and no shutdown, or no owner and one shutdown. */
  lemma HandshakeOutcome(id: SocketId, n: nat, ended: bool)
    ensures var w := After([], HandshakeRun(id, n, ended));
            && w == Outcome(id, n, ended)
            && Owners(w, id) == (if ended then 0 else 1)
            && Shutdowns(w, id) == (if ended then 1 else 0)
  {
    HandOversLeave(id, n);
    AfterNext(HandOvers(id, n), ShutdownAt(n));
    IdlesCountNothing(n, id);
    hide After, HandOvers;
    assert HandOvers(id, n) + [] == HandOvers(id, n);
    var w := Outcome(id, n, ended);
    assert [] + [id] == [id];
    assert After([], HandshakeRun(id, n, ended)) == w;
    assert w[..n] == Idles(n);
    assert Count([id], id) == 1 by { assert [id][..0] == []; }
  }

  /** An HTTP request that was served: the session closed the socket itself, and `on_shutdown` is never called. */
  lemma ServedRequestIsNotShutDown(id: SocketId)
    ensures var events := [Accept(id), HandOver(0), CloseAt(1), ShutdownAt(1), ShutdownAt(0)];
            var w := After([], events);
            Owners(w, id) == 0 && Shutdowns(w, id) == 0 && Closes(w, id) == 1
  {
    var w := [Idle(), SessionState(None, [], [id])];
    var e1 := [Accept(id)];
    var e2, e3 := e1 + [HandOver(0)], e1 + [HandOver(0)] + [CloseAt(1)];
    var e4 := e3 + [ShutdownAt(1)];
    AfterNext([], Accept(id));
    AfterNext(e1, HandOver(0));
    AfterNext(e2, CloseAt(1));
    AfterNext(e3, ShutdownAt(1));
    AfterNext(e4, ShutdownAt(0));
    hide After;
    assert After([], e1) == [Holding(id)] by { assert [] + [Accept(id)] == e1; }
    assert After([], e2) == [Idle(), Holding(id)];
    assert After([], e3) == w by { assert [] + [id] == [id]; }
    assert After([], e4) == w && After([], e4 + [ShutdownAt(0)]) == w;
    assert e4 + [ShutdownAt(0)] == [Accept(id), HandOver(0), CloseAt(1), ShutdownAt(1), ShutdownAt(0)];
    TallyOfTwo(Idle(), w[1], id);
  }

  lemma TallyOfTwo(a: SessionState, b: SessionState, id: SocketId)
    requires a == Idle() && b == SessionState(None, [], [id])
    ensures Owners([a, b], id) == 0 && Shutdowns([a, b], id) == 0 && Closes([a, b], id) == 1
  {
    assert [a, b][..1] == [a] && [a][..0] == [] && [id][..0] == [];
    assert Count([id], id) == 1;
    assert Closes([a], id) == 0 && Owners([a], id) == 0 && Shutdowns([a], id) == 0;
  }

  lemma AfterNext(events: seq<Event>, e: Event)
    ensures After([], events + [e]) == Apply(After([], events), e)
    ensures After([], []) == []
  {
    assert (events + [e])[..|events|] == events;
  }

  /** After handing its socket over, a session's shutdown has no effect on anything. */
  lemma FormerOwnerIsHarmless(w: seq<SessionState>, i: nat)
    requires i < |w|
    ensures var v := Apply(w, HandOver(i)); Apply(v, ShutdownAt(i)) == v
  {
    var v := Apply(w, HandOver(i));
    assert v[i].socket == None && v[i := v[i]] == v;
  }

  /** Shutting down again changes nothing. */
  lemma ShutdownIsIdempotent(w: seq<SessionState>, i: nat)
    ensures var v := Apply(w, ShutdownAt(i)); Apply(v, ShutdownAt(i)) == v
  {
    if i < |w| {
      var v := Apply(w, ShutdownAt(i));
      assert v[i].socket == None && v[i := v[i]] == v;
    }
  }
}
