/**
 How the frames of the parser compare with those of sections 5.2 and 5.3 of RFC 6455. The
 parser ignores the reserved bits, the assignment of opcodes and the rule of minimal lengths, and
 it ends a frame with a 7-bit length of zero at its second byte; apart from that, what it
 accepts is a frame of the RFC.
 */
module FrameConformance {
  import opened Octets
  import opened Frames
  import opened FrameParsing
  import opened FrameLayout
  import opened FrameTheorems
  import ParseLoop

  /** No reserved bit is set, and the opcode is one that the RFC assigns. */
  predicate Regular(b: byte)
  {
    GetBits(b, 4, 3) == 0 && OpcodeOf(GetBits(b, 0, 4)) != Reserved
  }

  lemma RegularBytes(b: byte)
    ensures OpcodeOf(GetBits(b, 0, 4)) != Reserved ==>
      (Regular(b) <==> b == FirstByte(GetBits(b, 7, 1) == 1, OpcodeOf(GetBits(b, 0, 4))))
  {
  }

  lemma RegularFirstByte(fin: bool, opcode: Opcode)
    ensures Regular(FirstByte(fin, opcode)) <==> opcode != Reserved
  {
  }

  lemma SecondByte(b: byte)
    ensures b == MaskAndCode(GetBits(b, 7, 1) == 1, GetBits(b, 0, 7)) && GetBits(b, 0, 7) < 128
  {
  }

  /** The form that a frame announces in its second byte. */
  function FormOf(w: seq<byte>): LengthForm
    requires |w| >= 2
  {
    if LengthBytes(w) == 8 then SixtyFourBits else if LengthBytes(w) == 2 then SixteenBits else SevenBits
  }

  function MaskingOf(w: seq<byte>): Masking
    requires |w| >= 2 && |w| >= HeaderSize(w)
  {
    if Masked(w) then MaskedBy(w[2 + LengthBytes(w)..HeaderSize(w)]) else Unmasked
  }

  /** The message that a sender meant with a frame. */
  function MeantBy(w: seq<byte>): Message
    requires |w| >= 2 && |w| >= HeaderSize(w)
  {
    Message(GetBits(w[0], 7, 1) == 1, OpcodeOf(GetBits(w[0], 0, 4)), Body(MaskingOf(w), w[HeaderSize(w)..]))
  }

  lemma SevenBitLength(w: seq<byte>)
    requires |w| >= 2 && LengthBytes(w) == 0
    ensures DeclaredLength(w) < 126 && DeclaredLength(w) as byte == Len7(w)
  {
    hide GetBits;
    SecondByte(w[1]);
    var b := Len7(w);
    assert b < 126 ==> b as nat < 126;
    assert (b as nat) as byte == b;
  }

  lemma FieldIsSpelledOut(w: seq<byte>)
    requires |w| >= 2 && |w| >= 2 + LengthBytes(w)
    ensures Fits(FormOf(w), DeclaredLength(w))
    ensures w[1..2 + LengthBytes(w)] == LengthField(FormOf(w), Masked(w), DeclaredLength(w))
  {
    hide GetBits, BigEndian, BigEndianBytes, Pow256, MaskAndCode;
    var k := LengthBytes(w);
    SecondByte(w[1]);
    if k == 0 {
      SevenBitLength(w);
    } else {
      BigEndianIsInjective(w[2..2 + k]);
    }
    assert w[1..2 + k] == [w[1]] + w[2..2 + k];
  }

  lemma BodyIsUndone(masking: Masking, data: seq<byte>)
    ensures Body(masking, Body(masking, data)) == data
  {
    match masking {
      case Unmasked =>
      case MaskedBy(key) => KeyCancels(key, data);
    }
  }

  /** The top bit of a 64-bit length has to be zero. */
  ghost predicate Admits(form: LengthForm, n: nat)
  {
    Fits(form, n) && (form == SixtyFourBits ==> n < 128 * Pow256(7))
  }

  /** `w` is this frame of the RFC. */
  ghost predicate Spells(w: seq<byte>, m: Message, form: LengthForm, masking: Masking)
  {
    Admits(form, |m.payload|) && m.opcode != Reserved && w == RfcFrame(m, form, masking)
  }

  /** The length field does not use a forbidden bit. */
  predicate TopBitClear(w: seq<byte>)
    requires |w| >= 2 && |w| >= 2 + LengthBytes(w)
  {
    LengthBytes(w) == 8 ==> w[2] < 0x80
  }

  lemma TopBitOfLength(w: seq<byte>)
    requires |w| >= 2 && |w| >= 2 + LengthBytes(w)
    ensures TopBitClear(w) <==> (FormOf(w) == SixtyFourBits ==> DeclaredLength(w) < 128 * Pow256(7))
  {
    hide GetBits, BigEndian, Pow256;
    if LengthBytes(w) == 8 {
      TopBit(w[2..10]);
    }
  }

  /** A whole frame for the parser is, but for its first byte, laid out as in the RFC, unless it ends before its key. */
  lemma FrameIsSpelledOut(w: seq<byte>)
    requires IsFrame(w) && (Len7(w) == 0 ==> !Masked(w))
    ensures Completes(MeantBy(w), FormOf(w), MaskingOf(w))
    ensures Fits(FormOf(w), |MeantBy(w).payload|) && |MeantBy(w).payload| == DeclaredLength(w)
    ensures w[1..] == RfcFrame(MeantBy(w), FormOf(w), MaskingOf(w))[1..]
  {
    hide GetBits, LengthField, FirstByte, Body, DeclaredLength, OpcodeOf, LengthBytes;
    EmptyFrameLength(w);
    FormIsAnnounced(w);
    FieldIsSpelledOut(w);
    BodyIsUndone(MaskingOf(w), w[HeaderSize(w)..]);
    KeyIsCopied(w);
    FourParts(w, 2 + LengthBytes(w), HeaderSize(w));
    var m := MeantBy(w);
    TailOfFrame(m, FormOf(w), MaskingOf(w));
  }

  lemma FormIsAnnounced(w: seq<byte>)
    requires |w| >= 2
    ensures FormOf(w) == SevenBits <==> LengthBytes(w) == 0
    ensures |w| >= HeaderSize(w) ==> |w| >= 2 + LengthBytes(w) && MaskingOf(w).MaskedBy? == Masked(w)
  {
  }

  lemma KeyIsCopied(w: seq<byte>)
    requires |w| >= 2 && |w| >= HeaderSize(w)
    ensures w[2 + LengthBytes(w)..HeaderSize(w)] == KeyField(MaskingOf(w))
  {
  }

  lemma FourParts(w: seq<byte>, i: nat, j: nat)
    requires 1 <= i <= j <= |w|
    ensures w[1..] == w[1..i] + w[i..j] + w[j..]
  {
  }

  lemma TailOfFrame(m: Message, form: LengthForm, masking: Masking)
    requires form.SevenBits? ==> |m.payload| < 126
    ensures RfcFrame(m, form, masking)[1..] ==
            LengthField(form, masking.MaskedBy?, |m.payload|) + KeyField(masking) + Body(masking, m.payload)
  {
    hide LengthField, FirstByte;
  }

  /** The first byte decides whether all of it is. */
  lemma OrdinaryFrameIsSpelledOut(w: seq<byte>)
    requires IsFrame(w) && (Len7(w) == 0 ==> !Masked(w))
    ensures Spells(w, MeantBy(w), FormOf(w), MaskingOf(w)) <==> Regular(w[0]) && TopBitClear(w)
  {
    hide GetBits, Regular, OpcodeOf, FirstByte, IsFrame, LengthField, TopBitClear, DeclaredLength, Body;
    FrameHasLength(w);
    EmptyFrameLength(w);
    FrameIsSpelledOut(w);
    RegularBytes(w[0]);
    TopBitOfLength(w);
    RegularIsAssigned(w[0]);
    var m, form, masking := MeantBy(w), FormOf(w), MaskingOf(w);
    FitsSevenBits(form, |m.payload|);
    hide Fits, FormOf;
    var f := RfcFrame(m, form, masking);
    assert w == [w[0]] + w[1..] && f == [f[0]] + f[1..];
  }

  lemma FitsSevenBits(form: LengthForm, n: nat)
    requires Fits(form, n)
    ensures form.SevenBits? ==> n < 126
  {
  }

  lemma RegularIsAssigned(b: byte)
    ensures Regular(b) ==> OpcodeOf(GetBits(b, 0, 4)) != Reserved
  {
  }

  lemma EmptyFrameLength(w: seq<byte>)
    requires IsFrame(w) && (Len7(w) == 0 ==> !Masked(w))
    ensures |w| == HeaderSize(w) + DeclaredLength(w)
    ensures DeclaredLength(w) == 0 <==> Len7(w) == 0
  {
  }

  /** A frame of the parser that departs from the RFC neither in its first byte, nor in its length, nor by ending early. */
  ghost predicate Ordinary(w: seq<byte>)
  {
    IsFrame(w) && Regular(w[0]) && TopBitClear(w) && (Len7(w) == 0 ==> !Masked(w))
  }

  /** What a frame of the RFC looks like to a reader of its fields. */
  lemma SpelledFrameIsRead(m: Message, form: LengthForm, masking: Masking)
    requires Admits(form, |m.payload|) && m.opcode != Reserved && Completes(m, form, masking)
    ensures var w := RfcFrame(m, form, masking);
            && Ordinary(w)
            && FormOf(w) == form
            && DeclaredLength(w) == |m.payload|
  {
    hide GetBits, RfcFrame, FirstByte, BigEndian, Regular, IsFrame, Meaning;
    LaidOutFrame(m, form, masking, [0, 0, 0, 0]);
    HeaderOf(m, form, masking);
    RegularFirstByte(m.fin, m.opcode);
    CodeBits(form, |m.payload|, masking.MaskedBy?);
    FrameHasLength(RfcFrame(m, form, masking));
    TopBitOfLength(RfcFrame(m, form, masking));
  }

  lemma FrameHasLength(w: seq<byte>)
    requires IsFrame(w)
    ensures |w| >= 2 && |w| >= 2 + LengthBytes(w)
  {
  }

  /**
   The frames that parser and RFC agree on: `w` is an ordinary frame of the parser exactly if it is
   a frame of the RFC, in some length form, that is not empty or is unmasked with a 7-bit length.
   */
  lemma AgreementWithRfc(w: seq<byte>)
    ensures Ordinary(w) <==> exists m: Message, form, masking :: Spells(w, m, form, masking) && Completes(m, form, masking)
  {
    hide GetBits, RfcFrame, Regular;
    if Ordinary(w) {
      OrdinaryFrameIsSpelledOut(w);
      FrameIsSpelledOut(w);
      assert Spells(w, MeantBy(w), FormOf(w), MaskingOf(w));
    }
    if m, form, masking :| Spells(w, m, form, masking) && Completes(m, form, masking) {
      SpelledFrameIsRead(m, form, masking);
    }
  }

  /** No shorter form could have carried the length. */
  predicate Minimal(w: seq<byte>)
    requires |w| >= 2 && |w| >= 2 + LengthBytes(w)
  {
    FormOf(w) == ShortestForm(DeclaredLength(w))
  }

  /** The same for the minimal length form, which section 5.2 demands and the parser does not check. */
  lemma AgreementWithMinimalFrames(w: seq<byte>)
    ensures Ordinary(w) && Minimal(w)
            <==> exists m: Message, masking :: Spells(w, m, ShortestForm(|m.payload|), masking)
                                      && Completes(m, ShortestForm(|m.payload|), masking)
  {
    hide GetBits, RfcFrame, Regular;
    if Ordinary(w) && Minimal(w) {
      OrdinaryFrameIsSpelledOut(w);
      FrameIsSpelledOut(w);
      assert Spells(w, MeantBy(w), ShortestForm(|MeantBy(w).payload|), MaskingOf(w));
    }
    if m: Message, masking :| Spells(w, m, ShortestForm(|m.payload|), masking) && Completes(m, ShortestForm(|m.payload|), masking) {
      SpelledFrameIsRead(m, ShortestForm(|m.payload|), masking);
    }
  }

  /**
   The parser and the RFC on one input. A complete frame of the RFC at its start, in any form, is
   what the parser accepts, exactly if it is one that can be completed; an empty masked one is
   cut after two bytes, and an extended length of zero waits for ever.
   */
  lemma ParserAgainstRfc(m: Message, form: LengthForm, masking: Masking, initial: Key, tail: seq<byte>)
    requires Fits(form, |m.payload|)
    ensures var w := RfcFrame(m, form, masking);
            var o := ParseFrame(w + tail, initial);
            && (Completes(m, form, masking) <==> o.verdict == ParseLoop.True && o.consumed == |w|)
            && (form == SevenBits && m.payload == [] && masking.MaskedBy? ==>
                  o.verdict == ParseLoop.True && o.consumed == 2 && |w| == 6)
            && (form != SevenBits && m.payload == [] ==> o.verdict == ParseLoop.Indeterminate)
  {
    hide GetBits, RfcFrame, FirstByte, BigEndian, IsFrame, Step, Meaning, MaskAndCode;
    var w := RfcFrame(m, form, masking);
    HeaderOf(m, form, masking);
    CodeBits(form, |m.payload|, masking.MaskedBy?);
    if Completes(m, form, masking) {
      RfcFrameParsedExactly(m, form, masking, initial, tail);
    } else if form == SevenBits {
      EmptyMaskedFrameEndsEarly(m, masking.key, initial, tail);
    } else {
      ZeroLengthNeverCompletes(w, tail, initial);
    }
  }
}
