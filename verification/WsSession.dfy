/**
 `ws_session` after the handshake: `on_read_dataframe` is called once for every read. The parser is
 carried over from one read to the next until it has completed a frame, but the frame it fills is
 a new one for every read, and what follows a frame in the same read is not looked at.
 */
module WsSessions {
  import opened Buffers
  import opened Octets
  import opened ByteOrder
  import opened Frames
  import opened FrameParsing
  import opened FrameLayout
  import opened FrameTheorems
  import opened ParseLoop

  /** The state of the parser in use, the texts handed to `on_read`, and whether the socket is open. */
  datatype Hearing = Hearing(state: State, delivered: seq<seq<byte>>, open: bool)

  /** on_read_data_frame: texts are delivered, pings and pongs ignored, anything else ends the session. */
  function OnFrame(h: Hearing, m: Message): Hearing
  {
    match m.opcode
    case TextFrame => h.(state := FinOpcode, delivered := h.delivered + [m.payload])
    case Ping | Pong => h.(state := FinOpcode)
    case _ => h.(state := FinOpcode, open := false)
  }

  /** One read; `key` is what the masking key of the new frame holds. */
  function Hear(h: Hearing, read: seq<byte>, key: Key): Hearing
  {
    var o := Run(Step, Config(h.state, EmptyFrame(key)), read);
    if !h.open then h
    else
      match o.verdict
      case False => h.(state := o.state.state, open := false)
      case Indeterminate => h.(state := o.state.state)
      case True => OnFrame(h, Said(o.state.frame))
  }

  /** Reads one after the other; `memory(k)` is the key found in the frame of read number `k`. */
  function HearAll(h: Hearing, pieces: seq<seq<byte>>, memory: nat -> Key, k: nat): Hearing
    decreases |pieces|
  {
    if pieces == [] then h else HearAll(Hear(h, pieces[0], memory(k)), pieces[1..], memory, k + 1)
  }

  class WsSession {
    var parser: FrameParser
    var delivered: seq<seq<byte>>
    var open: bool

    ghost function View(): Hearing
      reads this, parser
    {
      Hearing(parser.state, delivered, open)
    }

    constructor ()
      ensures View() == Hearing(FinOpcode, [], true) && fresh(parser)
    {
      parser := new FrameParser();
      delivered, open := [], true;
    }

    /** The completion of one read, or its failure; no read is issued any more once the socket is closed. */
    method OnReadDataframe(error: bool, read: seq<byte>, key: array<byte>)
      requires open && key.Length == 4
      modifies this, parser, key
      ensures View() == if error then old(View()).(open := false) else Hear(old(View()), read, old(key[..]))
    {
      if error {
        open := false;
        return;
      }
      var frame := new DataFrame([], key);
      var result, _ := parser.Parse(frame, read, 0);
      assert read[0..] == read;
      match result {
        case False => open := false;
        case Indeterminate =>
        case True => OnReadDataFrame(frame);
      }
    }

    method OnReadDataFrame(frame: DataFrame)
      modifies this
      ensures View() == OnFrame(old(View()), old(frame.Content()))
      ensures fresh(parser)
    {
      match frame.opcode {
        case TextFrame => delivered := delivered + [frame.payload];
        case Ping | Pong =>
        case _ => open := false;
      }
      parser := new FrameParser();
    }
  }

  // ----- what is lost -----

  /** Whatever arrives in one read after a whole frame is lost. */
  lemma RestOfReadIsLost(h: Hearing, w: seq<byte>, tail: seq<byte>, key: Key)
    requires IsFrame(w) && h.state == FinOpcode && h.open
    ensures Hear(h, w + tail, key) == OnFrame(h, Meaning(w, key))
  {
    hide Step, IsFrame, Meaning;
    WholeFrameIsParsed(w, tail, key);
  }

  /** The low half of a byte. */
  function LowHalf(b: byte): byte
  {
    b & 0x0F
  }

  lemma OpcodeInLowHalf(b: byte)
    ensures OpcodeOf(GetBits(b, 0, 4)) == TextFrame <==> LowHalf(b) == 1
    ensures OpcodeOf(GetBits(b, 0, 4)) == Ping <==> LowHalf(b) == 9
    ensures OpcodeOf(GetBits(b, 0, 4)) == Pong <==> LowHalf(b) == 10
  {
  }

  /**
   What a session makes of a whole frame at the start of a read, by the opcode in its first byte: 1
   is delivered, 9 and 10 are passed over, everything else closes the socket.
   */
  lemma HeardByOpcode(h: Hearing, w: seq<byte>, tail: seq<byte>, key: Key)
    requires IsFrame(w) && h.state == FinOpcode && h.open
    ensures var g := Hear(h, w + tail, key);
            && (LowHalf(w[0]) == 1 ==> g == h.(delivered := h.delivered + [Meaning(w, key).payload]))
            && (LowHalf(w[0]) in {9, 10} ==> g == h)
            && (LowHalf(w[0]) !in {1, 9, 10} ==> !g.open && g.delivered == h.delivered)
  {
    RestOfReadIsLost(h, w, tail, key);
    OpcodeInLowHalf(w[0]);
    hide Hear, IsFrame, LowHalf, OpcodeOf, GetBits;
  }

  /** The parser stands behind the second byte of a frame, while the new frame knows nothing of these bytes. */
  predicate Deaf(h: Hearing)
  {
    h.open && h.state !in {FinOpcode, MaskPayloadLen}
  }

  /** A configuration in which no declared length can ever be reached. */
  predicate Lost(c: Config)
  {
    c.state !in {FinOpcode, MaskPayloadLen} && c.frame.payloadLen == 0
  }

  lemma StaysLost(c: Config, b: byte)
    requires Lost(c)
    ensures Step(c, b).verdict == Indeterminate && Lost(Step(c, b).state)
  {
    hide Or64, Or16, Placed16, Placed, Ntoh64, Ntoh16, Xor, GetBits, Value64, Value16;
  }

  lemma {:induction false} RunStaysLost(c: Config, input: seq<byte>)
    requires Lost(c)
    ensures Run(Step, c, input).verdict == Indeterminate && Lost(Run(Step, c, input).state)
    decreases |input|
  {
    hide Step, Lost;
    if input != [] {
      StaysLost(c, input[0]);
      RunStaysLost(Step(c, input[0]).state, input[1..]);
    }
  }

  /** A session that once ended a read inside a frame never delivers anything again. */
  lemma {:induction false} DeafForever(h: Hearing, pieces: seq<seq<byte>>, memory: nat -> Key, k: nat)
    requires Deaf(h)
    ensures var last := HearAll(h, pieces, memory, k);
            Deaf(last) && last.delivered == h.delivered
    decreases |pieces|
  {
    hide Step;
    if pieces != [] {
      RunStaysLost(Config(h.state, EmptyFrame(memory(k))), pieces[0]);
      DeafForever(Hear(h, pieces[0], memory(k)), pieces[1..], memory, k + 1);
    }
  }

  // ----- any list of reads, described by their bytes -----

  /** What a session can make of the next read. */
  datatype Ear = Attentive | HalfAware | Deafened | Closed

  /** What a session amounts to for its client. */
  datatype Client = Client(ear: Ear, delivered: seq<seq<byte>>)

  function ClientOf(h: Hearing): Client
  {
    Client(
      if !h.open then Closed
      else if h.state == FinOpcode then Attentive
      else if h.state == MaskPayloadLen then HalfAware
      else Deafened,
      h.delivered)
  }

  /** The frame at the start of a read. */
  ghost function FirstOf(read: seq<byte>): (w: seq<byte>)
    requires StartsWithFrame(read)
    ensures IsFrame(w) && w <= read
  {
    var n :| 0 <= n <= |read| && IsFrame(read[..n]);
    read[..n]
  }

  /** A text is delivered, a ping or pong is not, anything else is the end. */
  function After(delivered: seq<seq<byte>>, m: Message): Client
  {
    if m.opcode == TextFrame then Client(Attentive, delivered + [m.payload])
    else if m.opcode == Ping || m.opcode == Pong then Client(Attentive, delivered)
    else Client(Closed, delivered)
  }

  /** Bytes from the start of a frame on. */
  ghost function FromFrameStart(delivered: seq<seq<byte>>, read: seq<byte>, key: Key): Client
  {
    if StartsWithFrame(read) then After(delivered, Meaning(FirstOf(read), key))
    else if read == [] then Client(Attentive, delivered)
    else if |read| == 1 then Client(HalfAware, delivered)
    else Client(Deafened, delivered)
  }

  /** One read: after a lone first byte it counts as the rest of a final text frame. */
  ghost function NextRead(c: Client, read: seq<byte>, key: Key): Client
  {
    match c.ear
    case Attentive => FromFrameStart(c.delivered, read, key)
    case HalfAware => if read == [] then c else FromFrameStart(c.delivered, [FINAL_TEXT] + read, key)
    case _ => c
  }

  ghost function AllReads(c: Client, pieces: seq<seq<byte>>, memory: nat -> Key, k: nat): Client
    decreases |pieces|
  {
    if pieces == [] then c else AllReads(NextRead(c, pieces[0], memory(k)), pieces[1..], memory, k + 1)
  }

  lemma AttentiveRead(h: Hearing, read: seq<byte>, key: Key)
    requires h.open && h.state == FinOpcode
    ensures ClientOf(Hear(h, read, key)) == FromFrameStart(h.delivered, read, key)
  {
    hide Step, IsFrame, Meaning, Describes;
    ParserRecognisesFrames(read, key);
    var o := ParseFrame(read, key);
    if o.verdict == True {
      var w := FirstOf(read);
      assert read[..|w|] == w;
      assert StartsWithFrame(read);
      FrameIsTheFirst(read, |w|, o.consumed);
    } else if |read| >= 2 {
      InsideFrame(o.state, read, key);
    } else if |read| == 1 {
      StepOverFirstByte(read[0], key);
      RunAppend(Step, Fresh(key), [], read[0]);
      assert [] + [read[0]] == read;
    }
  }

  lemma FrameIsTheFirst(read: seq<byte>, m: nat, n: nat)
    requires m <= |read| && n <= |read| && IsFrame(read[..m]) && IsFrame(read[..n])
    ensures m == n
  {
    hide IsFrame;
    if m <= n {
      FrameEndIsUnique(read, m, n);
    } else {
      FrameEndIsUnique(read, n, m);
    }
  }

  lemma HalfAwareRead(h: Hearing, read: seq<byte>, key: Key)
    requires h.open && h.state == MaskPayloadLen && read != []
    ensures ClientOf(Hear(h, read, key)) == FromFrameStart(h.delivered, [FINAL_TEXT] + read, key)
  {
    hide Step;
    var attentive := h.(state := FinOpcode);
    AttentiveRead(attentive, [FINAL_TEXT] + read, key);
    StartOfFinalText(key, read);
  }

  /** A parser that waits for the second byte, with a new frame, is one that has read the first byte of a final text frame. */
  lemma StartOfFinalText(key: Key, rest: seq<byte>)
    ensures var o := Run(Step, Config(MaskPayloadLen, EmptyFrame(key)), rest);
            Run(Step, Fresh(key), [FINAL_TEXT] + rest) == o.(consumed := 1 + o.consumed)
  {
    StepOverFirstByte(FINAL_TEXT, key);
    FinalText(key);
    hide Step;
    RunAppend(Step, Fresh(key), [], FINAL_TEXT);
    assert [] + [FINAL_TEXT] == [FINAL_TEXT];
    RunSplits(Step, Fresh(key), [FINAL_TEXT], rest);
  }

  lemma EveryRead(h: Hearing, read: seq<byte>, key: Key)
    ensures ClientOf(Hear(h, read, key)) == NextRead(ClientOf(h), read, key)
  {
    hide Step, FromFrameStart;
    if h.open {
      match h.state {
        case FinOpcode => AttentiveRead(h, read, key);
        case MaskPayloadLen =>
          if read != [] {
            HalfAwareRead(h, read, key);
          }
        case _ => RunStaysLost(Config(h.state, EmptyFrame(key)), read);
      }
    }
  }

  /**
   Any list of reads of any session: what is delivered and what becomes of the session is what the
   bytes of the reads say. A read that starts with a frame delivers that frame only, a lone first
   byte turns the next read into the rest of a final text frame, and any other read without a
   whole frame makes the session deaf.
   */
  lemma {:induction false} ReadsAsDescribed(h: Hearing, pieces: seq<seq<byte>>, memory: nat -> Key, k: nat)
    ensures ClientOf(HearAll(h, pieces, memory, k)) == AllReads(ClientOf(h), pieces, memory, k)
    decreases |pieces|
  {
    hide Hear, NextRead, ClientOf;
    if pieces != [] {
      EveryRead(h, pieces[0], memory(k));
      ReadsAsDescribed(Hear(h, pieces[0], memory(k)), pieces[1..], memory, k + 1);
    }
  }

  // ----- which splits of a frame get through -----

  lemma ProperPrefixIsUnfinished(w: seq<byte>, p: seq<byte>)
    requires IsFrame(w) && p < w
    ensures !StartsWithFrame(p)
  {
    hide IsFrame;
    if StartsWithFrame(p) {
      var n :| 0 <= n <= |p| && IsFrame(p[..n]);
      assert p[..n] == w[..n] && w[..|w|] == w;
      FrameEndIsUnique(w, n, |w|);
    }
  }

  lemma InsideFrame(c: Config, w: seq<byte>, initial: Key)
    requires Describes(c, w, initial) && |w| >= 2
    ensures c.state !in {FinOpcode, MaskPayloadLen}
  {
    hide GetBits, Value64, Value16, BigEndian, Gathered, Placed16;
  }

  /** A read that ends inside a frame, behind its second byte. */
  lemma CutInside(h: Hearing, w: seq<byte>, p: seq<byte>, key: Key)
    requires IsFrame(w) && p < w && |p| >= 2 && h.open && h.state == FinOpcode
    ensures Deaf(Hear(h, p, key)) && Hear(h, p, key).delivered == h.delivered
  {
    hide Step, IsFrame, Describes;
    ProperPrefixIsUnfinished(w, p);
    ParserRecognisesFrames(p, key);
    InsideFrame(ParseFrame(p, key).state, p, key);
  }

  const FINAL_TEXT: byte := 0x81

  /** After a read of one byte the next read is parsed as the rest of a final text frame. */
  lemma CutAfterOne(h: Hearing, b: byte, key: Key, rest: seq<byte>, next: Key)
    requires h.open && h.state == FinOpcode
    ensures Hear(Hear(h, [b], key), rest, next) == Hear(h, [FINAL_TEXT] + rest, next)
  {
    StepOverFirstByte(b, key);
    hide Step;
    RunAppend(Step, Fresh(key), [], b);
    assert [] + [b] == [b];
    StartOfFinalText(next, rest);
  }

  lemma StepOverFirstByte(b: byte, key: Key)
    ensures Step(Fresh(key), b)
         == More(MaskPayloadLen, EmptyFrame(key).(fin := GetBits(b, 7, 1) == 1, opcode := OpcodeOf(GetBits(b, 0, 4))))
  {
  }

  lemma FinalText(key: Key)
    ensures EmptyFrame(key).(fin := GetBits(FINAL_TEXT, 7, 1) == 1, opcode := OpcodeOf(GetBits(FINAL_TEXT, 0, 4))) == EmptyFrame(key)
  {
  }

  lemma FinalTextBits()
    ensures GetBits(FINAL_TEXT, 7, 1) == 1 && OpcodeOf(GetBits(FINAL_TEXT, 0, 4)) == TextFrame
  {
  }

  lemma BehindFirstByte(w: seq<byte>, b: byte, i: nat, j: nat)
    requires 1 <= i <= j <= |w|
    ensures ([b] + w[1..])[i..j] == w[i..j]
    ensures ([b] + w[1..])[i..] == w[i..]
  {
  }

  /** The first byte of a frame has no part in its shape. */
  lemma SameShape(w: seq<byte>, b: byte)
    requires |w| >= 2
    ensures var v := [b] + w[1..];
            && Len7(v) == Len7(w) && Masked(v) == Masked(w) && LengthBytes(v) == LengthBytes(w)
            && (|w| >= 2 + LengthBytes(w) ==> DeclaredLength(v) == DeclaredLength(w))
            && (|w| >= HeaderSize(w) ==> v[HeaderSize(w)..] == w[HeaderSize(w)..]
                                         && forall key :: KeyOf(v, key) == KeyOf(w, key))
  {
    hide GetBits, BigEndian;
    assert ([b] + w[1..])[1] == w[1];
    if |w| >= 2 + LengthBytes(w) {
      BehindFirstByte(w, b, 2, 2 + LengthBytes(w));
    }
    if |w| >= HeaderSize(w) {
      BehindFirstByte(w, b, 2 + LengthBytes(w), HeaderSize(w));
      BehindFirstByte(w, b, HeaderSize(w), |w|);
    }
  }

  lemma OtherFirstByte(w: seq<byte>, key: Key)
    requires IsFrame(w)
    ensures var v := [FINAL_TEXT] + w[1..];
            IsFrame(v) && Meaning(v, key) == Message(true, TextFrame, Meaning(w, key).payload)
  {
    hide GetBits, DeclaredLength, KeyOf, LengthBytes, Masked, Len7, ApplyKey;
    FinalTextBits();
    SameShape(w, FINAL_TEXT);
  }

  /** The reads into which a frame may be cut without the session going deaf. */
  predicate GetsThrough(pieces: seq<seq<byte>>)
  {
    |pieces| == 1 || (|pieces| == 2 && |pieces[0]| == 1)
  }

  /** What is made of a frame that gets through: a cut after its first byte loses this byte. */
  ghost function HeardAs(w: seq<byte>, pieces: seq<seq<byte>>, memory: nat -> Key, k: nat): Message
    requires IsFrame(w)
  {
    if |pieces| == 1 then Meaning(w, memory(k)) else Message(true, TextFrame, Meaning(w, memory(k + 1)).payload)
  }

  /**
   A frame that arrives in several reads gets through exactly if all of it, or all but its first
   byte, is in one read. In the second case it is taken for a final text frame, whatever it was;
   in all other cases nothing that follows is ever delivered.
   */
  lemma SplitFrame(h: Hearing, w: seq<byte>, pieces: seq<seq<byte>>, memory: nat -> Key, k: nat)
    requires IsFrame(w) && h.open && h.state == FinOpcode
    requires Concat(pieces) == w && forall p | p in pieces :: p != []
    ensures var last := HearAll(h, pieces, memory, k);
            && (Deaf(last) <==> !GetsThrough(pieces))
            && (GetsThrough(pieces) ==> last == OnFrame(h, HeardAs(w, pieces, memory, k)))
            && (!GetsThrough(pieces) ==> last.delivered == h.delivered)
  {
    hide Step, IsFrame, Meaning, Hear, Concat, Describes;
    FrameHasTwoBytes(w);
    FirstPiece(pieces);
    var p, rest := pieces[0], pieces[1..];
    var h1 := Hear(h, p, memory(k));
    FirstPiece(rest);
    if rest == [] {
      assert p + [] == p == w;
      RestOfReadIsLost(h, w, [], memory(k));
    } else if |p| >= 2 {
      CutInside(h, w, p, memory(k));
      DeafForever(h1, rest, memory, k + 1);
    } else {
      assert p == [p[0]];
      SecondPiece(h, w, p[0], rest, memory, k);
    }
  }

  lemma FirstPiece(pieces: seq<seq<byte>>)
    requires forall p | p in pieces :: p != []
    ensures pieces == [] ==> Concat(pieces) == []
    ensures pieces != [] ==> pieces[0] != [] && Concat(pieces) == pieces[0] + Concat(pieces[1..])
    ensures pieces != [] ==> forall p | p in pieces[1..] :: p != []
  {
    if pieces != [] {
      assert pieces[0] in pieces && pieces == [pieces[0]] + pieces[1..];
      ConcatPrepend(pieces[0], pieces[1..]);
      assert forall p | p in pieces[1..] :: p in pieces;
    }
  }

  lemma FrameHasTwoBytes(w: seq<byte>)
    requires IsFrame(w)
    ensures |w| >= 2
  {
  }

  /** The first byte came alone; the others follow in one or more reads. */
  lemma SecondPiece(h: Hearing, w: seq<byte>, b: byte, rest: seq<seq<byte>>, memory: nat -> Key, k: nat)
    requires IsFrame(w) && h.open && h.state == FinOpcode
    requires rest != [] && [b] + Concat(rest) == w && forall p | p in rest :: p != []
    ensures var last := HearAll(Hear(h, [b], memory(k)), rest, memory, k + 1);
            if |rest| == 1 then last == OnFrame(h, Message(true, TextFrame, Meaning(w, memory(k + 1)).payload))
            else Deaf(last) && last.delivered == h.delivered
  {
    hide Step, IsFrame, Meaning, Hear, Concat, Describes;
    var key := memory(k + 1);
    var v := [FINAL_TEXT] + w[1..];
    assert w[1..] == Concat(rest);
    FirstPiece(rest);
    CutAfterOne(h, b, memory(k), rest[0], key);
    OtherFirstByte(w, key);
    var h2 := Hear(Hear(h, [b], memory(k)), rest[0], key);
    if |rest| == 1 {
      FirstPiece(rest[1..]);
      assert rest[0] + [] == rest[0] && v + [] == v;
      RestOfReadIsLost(h, v, [], key);
      assert HearAll(h2, [], memory, k + 2) == h2;
    } else {
      FirstPiece(rest[1..]);
      var q := [FINAL_TEXT] + rest[0];
      assert v == q + Concat(rest[1..]);
      CutInside(h, v, q, key);
      DeafForever(h2, rest[1..], memory, k + 2);
    }
  }
}
