/**
 What the frame parser and the frame writer promise each other: the parser accepts
 exactly the frame layout, the writer is inverted by it, and a stream of frames
 comes back as the list that was sent.
 */
module FrameTheorems {
  import opened Buffers
  import opened Octets
  import opened ByteOrder
  import opened Frames
  import opened FrameParsing
  import opened FrameLayout
  import opened ParseLoop

  /** A new parser and a new frame, whose key field holds `initial`. */
  function Fresh(initial: Key): Config
  {
    Config(FinOpcode, EmptyFrame(initial))
  }

  function ParseFrame(input: seq<byte>, initial: Key): Outcome<Config>
  {
    Run(Step, Fresh(initial), input)
  }

  /** Some prefix of the input is a whole frame. */
  ghost predicate StartsWithFrame(input: seq<byte>)
  {
    exists n | 0 <= n <= |input| :: IsFrame(input[..n])
  }

  lemma StepDescribed(c: Config, w: seq<byte>, initial: Key, b: byte)
    requires Describes(c, w, initial)
    ensures GoesOn(Step(c, b), w + [b], initial)
  {
    if AtStart(c, w, initial) {
      StepAtStart(c, w, initial, b);
    } else if InLength(c, w, initial) {
      if LengthBytes(w) == 2 {
        StepInShortLength(c, w, initial, b);
      } else {
        StepInLongLength(c, w, initial, b);
      }
    } else if InKey(c, w, initial) {
      StepInKey(c, w, initial, b);
    } else {
      StepInPayload(c, w, initial, b);
    }
  }

  /** The prefixes of an input and of the same input with one byte more. */
  lemma PrefixesOfAppend(a: seq<byte>, b: byte)
    ensures StartsWithFrame(a + [b]) <==> StartsWithFrame(a) || IsFrame(a + [b])
  {
    var v := a + [b];
    assert v[..|v|] == v;
    assert forall n | 0 <= n <= |a| :: v[..n] == a[..n];
  }

  /**
   The parser accepts exactly the inputs that start with a frame of its layout, reports that
   frame and stops at its end; it never calls an input invalid.
   */
  lemma {:induction false} ParserRecognisesFrames(input: seq<byte>, initial: Key)
    ensures var o := ParseFrame(input, initial);
            && o.verdict != False
            && (o.verdict == True <==> StartsWithFrame(input))
            && (o.verdict == True ==> IsFrame(input[..o.consumed])
                                      && Said(o.state.frame) == Meaning(input[..o.consumed], initial))
            && (o.verdict == Indeterminate ==> Describes(o.state, input, initial))
    decreases |input|
  {
    hide Step, Describes, IsFrame, Meaning;
    if input == [] {
      NothingReadYet(initial);
    } else {
      var a, b := input[..|input| - 1], input[|input| - 1];
      assert input == a + [b];
      ParserRecognisesFrames(a, initial);
      RunAppend(Step, Fresh(initial), a, b);
      PrefixesOfAppend(a, b);
      var o := ParseFrame(a, initial);
      if o.verdict == Indeterminate {
        StepDescribed(o.state, a, initial, b);
        assert input[..|input|] == input;
      } else {
        assert input[..o.consumed] == a[..o.consumed];
      }
    }
  }

  lemma NothingReadYet(initial: Key)
    ensures Describes(Fresh(initial), [], initial) && !StartsWithFrame([])
  {
    assert AtStart(Fresh(initial), [], initial);
  }

  /** At most one prefix of an input is a frame, so the accepted one is the frame. */
  lemma FrameEndIsUnique(input: seq<byte>, m: nat, n: nat)
    requires m <= n <= |input| && IsFrame(input[..m]) && IsFrame(input[..n])
    ensures m == n
  {
    hide GetBits, BigEndian;
    var v, w := input[..m], input[..n];
    assert v == w[..m] && v[0] == w[0] && v[1] == w[1];
    if Len7(v) != 0 {
      assert LengthBytes(v) == LengthBytes(w);
      var k := 2 + LengthBytes(v);
      SliceOfPrefix(input, m, 2, k);
      SliceOfPrefix(input, n, 2, k);
    }
  }

  /**
   While a frame is unfinished, every byte read is accounted for: header bytes first,
   then one payload byte each, and never more than the declared number.
   */
  lemma BytesAreAccountedFor(input: seq<byte>, initial: Key)
    ensures var o := ParseFrame(input, initial);
            var size := |o.state.frame.payload|;
            && size <= o.consumed
            && (size > 0 ==> |input| >= 2 && size + HeaderSize(input) == o.consumed)
            && (size > 0 && Declared(o.state.frame) > 0 ==> size <= Declared(o.state.frame))
  {
    hide Step, GetBits, BigEndian, Value64, Value16;
    ParserRecognisesFrames(input, initial);
    var o := ParseFrame(input, initial);
    if o.verdict == True {
      var w := input[..o.consumed];
      assert w[0] == input[0] && w[1] == input[1];
      DeclaredAtTheEnd(input, initial);
    }
  }

  /** The frame that completes the parse holds exactly the declared number of bytes. */
  lemma DeclaredAtTheEnd(input: seq<byte>, initial: Key)
    requires ParseFrame(input, initial).verdict == True
    ensures var f := ParseFrame(input, initial).state.frame;
            |f.payload| == if f.payload == [] then 0 else Declared(f)
  {
    hide Step, GetBits, BigEndian, Value64, Value16;
    var o := ParseFrame(input, initial);
    VerdictIsStable(Step, Fresh(initial), input, []);
    var w := input[..o.consumed];
    var a, b := w[..|w| - 1], w[|w| - 1];
    assert w == a + [b];
    RunAppend(Step, Fresh(initial), a, b);
    ParserRecognisesFrames(a, initial);
    LastStep(ParseFrame(a, initial).state, b);
  }

  lemma LastStep(c: Config, b: byte)
    ensures var r := Step(c, b);
            r.verdict == True ==>
              (c.state == MaskPayloadLen && r.state.frame.payload == c.frame.payload)
              || |r.state.frame.payload| == Declared(r.state.frame)
  {
    hide Or64, Or16, Placed16, Placed, Ntoh64, Ntoh16, Xor, GetBits, Value64, Value16;
  }

  // ----- a completion measure -----

  ghost predicate LengthKnown(c: Config)
  {
    c.state in {MaskingKey1, MaskingKey2, MaskingKey3, MaskingKey4, Payload} && Declared(c.frame) > 0
  }

  /** Bytes that a configuration with a known length still waits for. */
  ghost function BytesNeeded(c: Config): int
    requires LengthKnown(c)
  {
    (match c.state
     case MaskingKey1 => 4
     case MaskingKey2 => 3
     case MaskingKey3 => 2
     case MaskingKey4 => 1
     case _ => 0) + Declared(c.frame) - |c.frame.payload|
  }

  /** Once a non-zero length is known, each byte brings the frame exactly one byte closer to its end. */
  lemma EveryByteCounts(seen: seq<byte>, initial: Key, b: byte)
    requires ParseFrame(seen, initial).verdict == Indeterminate && LengthKnown(ParseFrame(seen, initial).state)
    ensures var c := ParseFrame(seen, initial).state;
            var r := Step(c, b);
            && BytesNeeded(c) >= 1
            && LengthKnown(r.state)
            && BytesNeeded(r.state) == BytesNeeded(c) - 1
            && (r.verdict == True <==> BytesNeeded(c) == 1)
  {
    hide Step, Describes, LengthKnown, BytesNeeded, IsFrame, Meaning;
    ParserRecognisesFrames(seen, initial);
    var c := ParseFrame(seen, initial).state;
    if c.state == Payload {
      PayloadPhase(c, seen, initial);
      PayloadByteCounts(c, seen, initial, b);
    } else {
      KeyPhase(c, seen, initial);
      KeyByteCounts(c, seen, initial, b);
    }
  }

  lemma PayloadByteCounts(c: Config, w: seq<byte>, initial: Key, b: byte)
    requires InPayload(c, w, initial) && LengthKnown(c)
    ensures var r := Step(c, b);
            && BytesNeeded(c) >= 1
            && LengthKnown(r.state)
            && BytesNeeded(r.state) == BytesNeeded(c) - 1
            && (r.verdict == True <==> BytesNeeded(c) == 1)
  {
    hide Step, Xor, GetBits, Value64, Value16, BigEndian;
    PayloadStep(c, b);
  }

  lemma KeyByteCounts(c: Config, w: seq<byte>, initial: Key, b: byte)
    requires InKey(c, w, initial) && LengthKnown(c)
    ensures var r := Step(c, b);
            && BytesNeeded(c) >= 1
            && LengthKnown(r.state)
            && BytesNeeded(r.state) == BytesNeeded(c) - 1
            && (r.verdict == True <==> BytesNeeded(c) == 1)
  {
    hide Step, Xor, GetBits, Value64, Value16, BigEndian, DeclaredLength;
    KeyStep(c, |w| - 2 - LengthBytes(w), b);
  }

  lemma PayloadPhase(c: Config, w: seq<byte>, initial: Key)
    requires Describes(c, w, initial) && LengthKnown(c) && c.state == Payload
    ensures InPayload(c, w, initial)
  {
    hide GetBits, Value64, Value16, BigEndian, Gathered;
  }

  lemma KeyPhase(c: Config, w: seq<byte>, initial: Key)
    requires Describes(c, w, initial) && LengthKnown(c) && c.state != Payload
    ensures InKey(c, w, initial)
  {
    hide GetBits, Value64, Value16, BigEndian, Gathered;
  }

  // ----- frames that a sender lays out -----

  lemma LengthByteBits(mask: bool, x: byte)
    requires x < 128
    ensures GetBits(MaskAndCode(mask, x), 0, 7) == x
    ensures GetBits(MaskAndCode(mask, x), 7, 1) == 1 <==> mask
  {
  }

  lemma FirstByteBits(fin: bool, opcode: Opcode)
    ensures GetBits(FirstByte(fin, opcode), 7, 1) == 1 <==> fin
    ensures OpcodeOf(GetBits(FirstByte(fin, opcode), 0, 4)) == opcode
  {
  }

  lemma SmallSize(n: nat)
    requires n < 126
    ensures (n as byte) as nat == n && (n as byte) < 126
  {
    ByteValue(n);
  }

  /** The first bytes of a key that a payload of `n` bytes meets are zero. */
  predicate Harmless(key: Key, n: nat)
  {
    forall i | 0 <= i < 4 && i < n :: key[i] == 0
  }

  lemma KeyCancels(key: Key, data: seq<byte>)
    ensures ApplyKey(key, ApplyKey(key, data)) == data
    ensures ApplyKey(key, data) == data <==> Harmless(key, |data|)
  {
    forall i | 0 <= i < |data|
      ensures ApplyKey(key, ApplyKey(key, data))[i] == data[i]
      ensures ApplyKey(key, data)[i] == data[i] <==> key[i % 4] == 0
    {
      XorCancels(data[i], key[i % 4]);
    }
    if ApplyKey(key, data) == data {
      forall i | 0 <= i < 4 && i < |data|
        ensures key[i] == 0
      {
        assert ApplyKey(key, data)[i] == data[i] && i % 4 == i;
      }
    }
  }

  lemma LengthSpelledOut(form: LengthForm, n: nat)
    requires Fits(form, n)
    ensures |LengthDigits(form, n)| == if LengthCode(form, n) == 127 then 8 else if LengthCode(form, n) == 126 then 2 else 0
    ensures n == if LengthDigits(form, n) == [] then LengthCode(form, n) as nat else BigEndian(LengthDigits(form, n))
  {
    hide BigEndian, BigEndianBytes, Pow256;
    match form {
      case SevenBits =>
        SmallSize(n);
      case SixteenBits =>
        BigEndianRoundTrip(n, 2);
        SmallModulo(n, Pow256(2));
      case SixtyFourBits =>
        BigEndianRoundTrip(n, 8);
        SmallModulo(n, Pow256(8));
    }
  }

  lemma SmallModulo(n: nat, p: nat)
    requires n < p
    ensures n % p == n
  {
  }

  lemma CodeBits(form: LengthForm, n: nat, mask: bool)
    requires Fits(form, n)
    ensures GetBits(MaskAndCode(mask, LengthCode(form, n)), 0, 7) == LengthCode(form, n)
    ensures GetBits(MaskAndCode(mask, LengthCode(form, n)), 7, 1) == 1 <==> mask
    ensures LengthCode(form, n) == 0 <==> form == SevenBits && n == 0
  {
    if form == SevenBits {
      SmallSize(n);
    }
    LengthByteBits(mask, LengthCode(form, n));
  }

  /** What the header of a laid-out frame tells its reader. */
  lemma HeaderOf(m: Message, form: LengthForm, masking: Masking)
    requires Fits(form, |m.payload|)
    ensures var w := RfcFrame(m, form, masking);
            && |w| >= 2
            && w[0] == FirstByte(m.fin, m.opcode)
            && Len7(w) == LengthCode(form, |m.payload|)
            && Masked(w) == masking.MaskedBy?
            && |w| == HeaderSize(w) + |m.payload|
            && DeclaredLength(w) == |m.payload|
            && w[2 + LengthBytes(w)..HeaderSize(w)] == KeyField(masking)
            && w[HeaderSize(w)..] == Body(masking, m.payload)
  {
    hide GetBits, FirstByte, MaskAndCode, BigEndian, LengthDigits, LengthCode;
    var n := |m.payload|;
    var w := RfcFrame(m, form, masking);
    CodeBits(form, n, masking.MaskedBy?);
    LengthSpelledOut(form, n);
    var digits := LengthDigits(form, n);
    assert w == [w[0], w[1]] + digits + KeyField(masking) + Body(masking, m.payload);
    PartsOfFrame(w[0], w[1], digits, KeyField(masking), Body(masking, m.payload));
    assert LengthBytes(w) == |digits|;
    assert HeaderSize(w) == 2 + |digits| + |KeyField(masking)|;
  }

  lemma PartsOfFrame(a: byte, b: byte, digits: seq<byte>, key: seq<byte>, body: seq<byte>)
    ensures var w := [a, b] + digits + key + body;
            var i, j := 2 + |digits|, 2 + |digits| + |key|;
            w[2..i] == digits && w[i..j] == key && w[j..] == body
  {
  }

  /** What a frame tells its reader: an unmasked payload meets the key that the frame object held before. */
  function Told(m: Message, masking: Masking, initial: Key): Message
  {
    if masking == Unmasked then m.(payload := ApplyKey(initial, m.payload)) else m
  }

  /** The frames of the RFC that the parser can complete at their last byte. */
  predicate Completes(m: Message, form: LengthForm, masking: Masking)
  {
    |m.payload| > 0 || (form == SevenBits && masking == Unmasked)
  }

  /**
   A frame laid out by the RFC, with any key and any admissible length form, is whole for the
   parser if its payload is not empty or it is unmasked with a 7-bit length.
   */
  lemma LaidOutFrame(m: Message, form: LengthForm, masking: Masking, initial: Key)
    requires Fits(form, |m.payload|) && Completes(m, form, masking)
    ensures IsFrame(RfcFrame(m, form, masking))
    ensures Meaning(RfcFrame(m, form, masking), initial) == Told(m, masking, initial)
  {
    hide GetBits, FirstByte, MaskAndCode, BigEndian, LengthDigits, LengthCode, RfcFrame;
    HeaderOf(m, form, masking);
    CodeBits(form, |m.payload|, masking.MaskedBy?);
    FirstByteBits(m.fin, m.opcode);
    var w := RfcFrame(m, form, masking);
    assert IsFrame(w);
    if |m.payload| > 0 && masking.MaskedBy? {
      KeyCancels(masking.key, m.payload);
      assert KeyOf(w, initial) == masking.key;
    } else if |m.payload| > 0 {
      assert w[HeaderSize(w)..] == m.payload;
    }
  }

  /** The parse of `wire` stops right after `w`, having read `m`. */
  ghost predicate ParsedExactly(wire: seq<byte>, w: seq<byte>, m: Message, initial: Key)
  {
    var o := ParseFrame(wire, initial);
    o.verdict == True && o.consumed == |w| && Said(o.state.frame) == m
  }

  lemma WholeFrameIsParsed(w: seq<byte>, tail: seq<byte>, initial: Key)
    requires IsFrame(w)
    ensures ParsedExactly(w + tail, w, Meaning(w, initial), initial)
  {
    hide IsFrame, Meaning, Step;
    var wire := w + tail;
    assert wire[..|w|] == w;
    ParserRecognisesFrames(wire, initial);
    var n := ParseFrame(wire, initial).consumed;
    if n <= |w| {
      FrameEndIsUnique(wire, n, |w|);
    } else {
      FrameEndIsUnique(wire, |w|, n);
    }
  }

  /**
   A frame laid out by the RFC is parsed to what its sender meant, up to its last byte and
   not beyond, exactly if its payload is not empty or it is unmasked with a 7-bit length, and the
   key left in the frame object cannot spoil it. (An empty masked frame ends before its key; an
   extended length of zero never ends.)
   */
  lemma RfcFrameParsedExactly(m: Message, form: LengthForm, masking: Masking, initial: Key, tail: seq<byte>)
    requires Fits(form, |m.payload|)
    ensures var w := RfcFrame(m, form, masking);
            && (ParsedExactly(w + tail, w, m, initial)
                <==> Completes(m, form, masking) && (masking == Unmasked ==> Harmless(initial, |m.payload|)))
            && (Completes(m, form, masking) ==> ParsedExactly(w + tail, w, Told(m, masking, initial), initial))
  {
    hide Step, RfcFrame, GetBits, LengthCode, MaskAndCode, BigEndian, FirstByte;
    var w := RfcFrame(m, form, masking);
    if Completes(m, form, masking) {
      LaidOutFrame(m, form, masking, initial);
      WholeFrameIsParsed(w, tail, initial);
      KeyCancels(initial, m.payload);
    } else {
      ParserRecognisesFrames(w + tail, initial);
      assert (w + tail)[..|w|] == w;
      HeaderOf(m, form, masking);
      CodeBits(form, 0, masking.MaskedBy?);
    }
  }

  /** An empty masked frame is taken for complete after two bytes; its key is read as the start of the next frame. */
  lemma EmptyMaskedFrameEndsEarly(m: Message, key: Key, initial: Key, tail: seq<byte>)
    requires m.payload == []
    ensures var w := RfcFrame(m, SevenBits, MaskedBy(key));
            ParsedExactly(w + tail, w[..2], m, initial) && w[2..] == key
  {
    hide Step, GetBits, MaskAndCode, BigEndian, FirstByte;
    var w := RfcFrame(m, SevenBits, MaskedBy(key));
    HeaderOf(m, SevenBits, MaskedBy(key));
    FirstByteBits(m.fin, m.opcode);
    var v := w[..2];
    assert v[0] == w[0] && v[1] == w[1];
    WholeFrameIsParsed(v, w[2..] + tail, initial);
    assert v + (w[2..] + tail) == w + tail;
  }

  /**
   The payload of a masked frame bit by bit, from the bytes on the wire: behind the header of at
   least six bytes, whose last four are the key, each byte is combined with the next byte of the key
   in turn.
   */
  lemma MaskedPayload(w: seq<byte>, tail: seq<byte>, initial: Key, i: nat, k: nat)
    requires IsFrame(w) && Masked(w) && Len7(w) != 0 && k < 8
    requires i < |ParseFrame(w + tail, initial).state.frame.payload|
    ensures var o := ParseFrame(w + tail, initial);
            var payload := o.state.frame.payload;
            var h := |w| - |payload|;
            && o.verdict == True && o.consumed == |w| && 6 <= h
            && (Bit(payload[i], k) <==> Bit(w[h + i], k) != Bit(w[h - 4 + i % 4], k))
  {
    hide Step, Xor, GetBits, IsFrame, Meaning, Bit, Masked, Len7;
    WholeFrameIsParsed(w, tail, initial);
    MaskedMeaning(w, initial, i);
    var h := |w| - |Meaning(w, initial).payload|;
    XorOfBits(w[h + i], w[h - 4 + i % 4], k);
  }

  lemma MaskedMeaning(w: seq<byte>, initial: Key, i: nat)
    requires IsFrame(w) && Masked(w) && Len7(w) != 0
    ensures var payload := Meaning(w, initial).payload;
            var h := |w| - |payload|;
            6 <= h && (i < |payload| ==> payload[i] == Xor(w[h + i], w[h - 4 + i % 4]))
  {
    FrameReachesPayload(w);
    KeyOnTheWire(w, initial, i % 4);
    hide IsFrame, GetBits, Xor, HeaderSize, Masked, Len7, KeyOf;
    AppliedAt(KeyOf(w, initial), w, HeaderSize(w), i);
  }

  lemma AppliedAt(key: Key, w: seq<byte>, h: nat, i: nat)
    requires h <= |w|
    ensures |ApplyKey(key, w[h..])| == |w| - h
    ensures h + i < |w| ==> ApplyKey(key, w[h..])[i] == Xor(w[h + i], key[i % 4])
  {
    hide Xor;
  }

  lemma KeyOnTheWire(w: seq<byte>, initial: Key, j: nat)
    requires |w| >= 2 && |w| >= HeaderSize(w) && Masked(w) && j < 4
    ensures HeaderSize(w) >= 6 && KeyOf(w, initial)[j] == w[HeaderSize(w) - 4 + j]
  {
    hide GetBits;
  }

  lemma FrameReachesPayload(w: seq<byte>)
    requires IsFrame(w) && Len7(w) != 0
    ensures |w| >= HeaderSize(w)
  {
  }

  // ----- frames that to_buffers writes -----

  lemma NoBitsKept(b: byte)
    ensures 0 | b == b
  {
  }

  lemma WrittenIsRfcFrame(m: Message)
    ensures Written(0, m) == RfcFrame(m, ChosenForm(|m.payload|), Unmasked)
  {
    hide FirstByte, LengthField;
    NoBitsKept(FirstByte(m.fin, m.opcode));
  }

  /** The header byte after earlier messages were written with the same object. */
  function Kept(earlier: seq<Message>): byte
  {
    if earlier == [] then 0
    else var m := earlier[|earlier| - 1]; Kept(earlier[..|earlier| - 1]) | FirstByte(m.fin, m.opcode)
  }

  /** The header byte of an earlier message leaves no trace in the header byte of `m`. */
  predicate Covered(earlier: Message, m: Message)
  {
    (earlier.fin ==> m.fin) && OpcodeBits(earlier.opcode) | OpcodeBits(m.opcode) == OpcodeBits(m.opcode)
  }

  /** Adding the bits of `kept` changes nothing. */
  predicate Absorbed(kept: byte, m: Message)
  {
    kept | FirstByte(m.fin, m.opcode) == FirstByte(m.fin, m.opcode)
  }

  lemma CoveredBits(earlier: Message, m: Message)
    ensures Absorbed(FirstByte(earlier.fin, earlier.opcode), m) <==> Covered(earlier, m)
  {
  }

  lemma AbsorbedBits(a: byte, b: byte, f: byte)
    ensures (a | b) | f == f <==> a | f == f && b | f == f
  {
  }

  predicate NoReservedBits(b: byte)
  {
    b & 0x70 == 0
  }

  lemma NoReservedBitsAdded(b: byte, fin: bool, opcode: Opcode)
    requires NoReservedBits(b)
    ensures NoReservedBits(b | FirstByte(fin, opcode))
  {
  }

  /** A header byte with bits of earlier messages reads as that of `m` exactly if they make no difference. */
  lemma KeptBitsAreRead(kept: byte, m: Message)
    requires NoReservedBits(kept)
    ensures var b := kept | FirstByte(m.fin, m.opcode);
            Absorbed(kept, m) <==> (GetBits(b, 7, 1) == 1 <==> m.fin) && OpcodeOf(GetBits(b, 0, 4)) == m.opcode
  {
  }

  lemma {:induction false} KeptIsAbsorbed(earlier: seq<Message>, m: Message)
    ensures NoReservedBits(Kept(earlier))
    ensures Absorbed(Kept(earlier), m) <==> forall e | e in earlier :: Covered(e, m)
  {
    hide FirstByte, Covered, NoReservedBits, Absorbed;
    if earlier == [] {
      NothingKept(m);
    } else {
      var front, e := earlier[..|earlier| - 1], earlier[|earlier| - 1];
      KeptIsAbsorbed(front, m);
      OneMoreKept(Kept(front), e, m);
      assert earlier == front + [e];
    }
  }

  lemma OneMoreKept(kept: byte, e: Message, m: Message)
    requires NoReservedBits(kept)
    ensures var b := kept | FirstByte(e.fin, e.opcode);
            NoReservedBits(b) && (Absorbed(b, m) <==> Absorbed(kept, m) && Covered(e, m))
  {
    hide FirstByte, Covered, NoReservedBits;
    CoveredBits(e, m);
    NoReservedBitsAdded(kept, e.fin, e.opcode);
    AbsorbedBits(kept, FirstByte(e.fin, e.opcode), FirstByte(m.fin, m.opcode));
  }

  lemma NothingKept(m: Message)
    ensures Absorbed(0, m) && NoReservedBits(0)
  {
  }

  /** What the first byte on the wire says about a message that was read exactly. */
  lemma FirstByteRead(w: seq<byte>, tail: seq<byte>, m: Message, initial: Key)
    requires |w| > 0 && ParsedExactly(w + tail, w, m, initial)
    ensures (GetBits(w[0], 7, 1) == 1 <==> m.fin) && OpcodeOf(GetBits(w[0], 0, 4)) == m.opcode
  {
    hide Step, GetBits, IsFrame, Describes;
    ParserRecognisesFrames(w + tail, initial);
    assert (w + tail)[..|w|] == w;
  }

  /**
   A frame object with which any number of messages was written before sends the next one exactly
   if its size is not the fatal one, the key it meets is harmless, and the bits of all earlier
   messages are covered by it, because `to_buffers` only ever adds bits.
   */
  lemma ReusedFrame(earlier: seq<Message>, m: Message, tail: seq<byte>, initial: Key)
    requires |m.payload| < Pow256(8)
    ensures var w := Written(Kept(earlier), m);
            ParsedExactly(w + tail, w, m, initial)
            <==> |m.payload| != 65536 && Harmless(initial, |m.payload|) && forall e | e in earlier :: Covered(e, m)
  {
    hide ParsedExactly, FirstByte, GetBits, LengthField, Covered, Harmless, Kept, NoReservedBits;
    var kept := Kept(earlier);
    var w := Written(kept, m);
    KeptIsAbsorbed(earlier, m);
    KeptBitsAreRead(kept, m);
    if |m.payload| == 65536 {
      TruncatedLength(kept, m);
      ZeroLengthNeverCompletes(w, tail, initial);
      NotParsed(w, tail, m, initial);
    } else if Absorbed(kept, m) {
      NoBitsKept(FirstByte(m.fin, m.opcode));
      WriterRoundTrip(m, tail, initial);
    } else if ParsedExactly(w + tail, w, m, initial) {
      FirstByteRead(w, tail, m, initial);
    }
  }

  lemma NotParsed(w: seq<byte>, tail: seq<byte>, m: Message, initial: Key)
    requires ParseFrame(w + tail, initial).verdict == Indeterminate
    ensures !ParsedExactly(w + tail, w, m, initial)
  {
  }

  /** The writer keeps to the layout of section 5.2 of RFC 6455 except at one size. */
  lemma WriterFollowsRfc(m: Message)
    ensures Written(0, m) == Prescribed(m) <==> |m.payload| != 65536
  {
    hide FirstByte, BigEndianBytes;
    WrittenIsRfcFrame(m);
    if |m.payload| == 65536 {
      assert Written(0, m)[1] == MaskAndCode(false, 126) && Prescribed(m)[1] == MaskAndCode(false, 127);
    }
  }

  /** A declared length of zero in an extended form can never be reached. */
  lemma ZeroLengthNeverCompletes(w: seq<byte>, tail: seq<byte>, initial: Key)
    requires |w| >= 2 && LengthBytes(w) > 0 && |w| >= 2 + LengthBytes(w) && DeclaredLength(w) == 0
    ensures ParseFrame(w + tail, initial).verdict == Indeterminate
  {
    hide Step, GetBits, BigEndian;
    var wire := w + tail;
    forall n | 0 <= n <= |wire|
      ensures !IsFrame(wire[..n])
    {
      var v := wire[..n];
      var k := 2 + LengthBytes(w);
      if n >= k {
        assert v[0] == w[0] && v[1] == w[1];
        SliceOfPrefix(wire, n, 2, k);
        assert w == wire[..|w|];
        SliceOfPrefix(wire, |w|, 2, k);
      } else if n >= 2 {
        assert v[1] == w[1];
      }
    }
    ParserRecognisesFrames(wire, initial);
  }

  /**
   The parser inverts the writer at every size but 65536, whose length field is cut to zero:
   there no continuation ever completes the frame. The frame object that is read into must hold
   a key whose bytes are zero as far as the payload reaches; otherwise the payload comes out
   combined with that key.
   */
  lemma WriterRoundTrip(m: Message, tail: seq<byte>, initial: Key)
    requires |m.payload| < Pow256(8)
    ensures var w := Written(0, m);
            && (ParsedExactly(w + tail, w, m, initial) <==> |m.payload| != 65536 && Harmless(initial, |m.payload|))
            && (|m.payload| != 65536 ==> ParsedExactly(w + tail, w, Told(m, Unmasked, initial), initial))
            && (|m.payload| == 65536 ==> ParseFrame(w + tail, initial).verdict == Indeterminate)
  {
    hide Step, RfcFrame, Written, FirstByte, GetBits, BigEndian, Harmless;
    var n := |m.payload|;
    WrittenIsRfcFrame(m);
    Pow256Two();
    if n != 65536 {
      RfcFrameParsedExactly(m, ChosenForm(n), Unmasked, initial, tail);
    } else {
      TruncatedLength(0, m);
      ZeroLengthNeverCompletes(Written(0, m), tail, initial);
    }
  }

  lemma TruncatedLength(kept: byte, m: Message)
    requires |m.payload| == 65536
    ensures var w := Written(kept, m);
            |w| >= 4 && LengthBytes(w) == 2 && DeclaredLength(w) == 0
  {
    hide FirstByte, GetBits, BigEndian, BigEndianBytes, MaskAndCode, Pow256;
    var w := Written(kept, m);
    LengthByteBits(false, 126);
    BigEndianRoundTrip(65536, 2);
    Pow256Two();
    assert w[1] == MaskAndCode(false, 126);
    assert w[2..4] == BigEndianBytes(65536, 2);
  }

  lemma Pow256Two()
    ensures Pow256(2) == 65536
  {
    assert Pow256(1) == 256;
  }

  // ----- streams of frames -----

  function Sent(ms: seq<Message>): seq<byte>
  {
    if ms == [] then [] else Written(0, ms[0]) + Sent(ms[1..])
  }

  /**
   Reading frame after frame, each with a new parser and frame, from where the last one ended;
   `memory(k)` is the key found in the frame object number `k`.
   */
  function Received(wire: seq<byte>, memory: nat -> Key, k: nat): (r: (seq<Message>, seq<byte>))
    decreases |wire|
  {
    var o := ParseFrame(wire, memory(k));
    if o.verdict == True then
      var rest := Received(wire[o.consumed..], memory, k + 1);
      ([Said(o.state.frame)] + rest.0, rest.1)
    else
      ([], wire)
  }

  /** Each message can be written and then read into its frame object. */
  ghost predicate Survive(ms: seq<Message>, memory: nat -> Key, k: nat)
  {
    ms == [] || (|ms[0].payload| != 65536 && Harmless(memory(k), |ms[0].payload|) && Survive(ms[1..], memory, k + 1))
  }

  /**
   A stream of written frames comes back as the list that was sent, with nothing left over, exactly
   if none of them has the fatal size or meets a key that is not zero where it matters.
   */
  lemma {:induction false} StreamRoundTrip(ms: seq<Message>, memory: nat -> Key, k: nat)
    requires forall m | m in ms :: |m.payload| < Pow256(8)
    ensures Received(Sent(ms), memory, k) == (ms, []) <==> Survive(ms, memory, k)
    decreases |ms|
  {
    hide Step, Written, Pow256, Said, Harmless, Told;
    if ms == [] {
      assert ParseFrame([], memory(k)).verdict == Indeterminate;
    } else {
      var w, tail := Written(0, ms[0]), Sent(ms[1..]);
      WriterRoundTrip(ms[0], tail, memory(k));
      StreamRoundTrip(ms[1..], memory, k + 1);
      assert ms == [ms[0]] + ms[1..];
      if |ms[0].payload| != 65536 {
        assert (w + tail)[|w|..] == tail;
      }
    }
  }

  /** Frames may arrive in any number of pieces. */
  lemma ChunkedFrames(chunks: seq<seq<byte>>, initial: Key)
    ensures var o := RunChunks(Step, Fresh(initial), chunks);
            var all := Concat(chunks);
            && (o.verdict == True <==> StartsWithFrame(all))
            && o.verdict != False
            && (o.verdict == True ==> o.consumed <= |all| && IsFrame(all[..o.consumed])
                                      && Said(o.state.frame) == Meaning(all[..o.consumed], initial))
  {
    hide Step, IsFrame, Meaning;
    ChunkingIsInvisible(Step, Fresh(initial), chunks);
    ParserRecognisesFrames(Concat(chunks), initial);
  }
}
