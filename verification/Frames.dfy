/**
 The WebSocket frame of splice/web_socket/rfc6455_engine.hpp, its writer
 `to_buffers`, and the layout that section 5.2 of RFC 6455 prescribes.
 */
module Frames {
  import opened Buffers
  import opened Octets
  import opened ByteOrder

  /** The four bytes of a masking key. */
  type Key = k: seq<byte> | |k| == 4 witness [0, 0, 0, 0]

  datatype Opcode = ContinuationFrame | TextFrame | BinaryFrame | ConnectionClose | Ping | Pong | Reserved

  /** What a frame says to its reader. */
  datatype Message = Message(fin: bool, opcode: Opcode, payload: seq<byte>)

  /** The fields of a frame that the parser reads and writes. */
  datatype FrameData = FrameData(
    fin: bool,
    opcode: Opcode,
    mask: bool,
    payloadLen: byte,
    extendedLen16: bv16,
    extendedLen64: bv64,
    maskingKey: Key,
    payload: seq<byte>)

  function EmptyFrame(key: Key): FrameData
  {
    FrameData(true, TextFrame, false, 0, 0, 0, key, [])
  }

  function OpcodeBits(opcode: Opcode): byte
  {
    match opcode
    case ContinuationFrame => 0x0
    case TextFrame => 0x1
    case BinaryFrame => 0x2
    case ConnectionClose => 0x8
    case Ping => 0x9
    case Pong => 0xA
    case Reserved => 0xF
  }

  function FirstByte(fin: bool, opcode: Opcode): byte
  {
    (if fin then 0x80 else 0) | OpcodeBits(opcode)
  }

  /** The three length forms of section 5.2 of RFC 6455. */
  datatype LengthForm = SevenBits | SixteenBits | SixtyFourBits

  ghost predicate Fits(form: LengthForm, n: nat)
  {
    match form
    case SevenBits => n < 126
    case SixteenBits => n < Pow256(2)
    case SixtyFourBits => n < Pow256(8)
  }

  /** The seven bits that announce a form, or carry the length themselves. */
  function LengthCode(form: LengthForm, n: nat): byte
    requires form.SevenBits? ==> n < 126
  {
    match form
    case SevenBits => n as byte
    case SixteenBits => 126
    case SixtyFourBits => 127
  }

  function LengthDigits(form: LengthForm, n: nat): seq<byte>
  {
    match form
    case SevenBits => []
    case SixteenBits => BigEndianBytes(n, 2)
    case SixtyFourBits => BigEndianBytes(n, 8)
  }

  /** The second byte of a frame. */
  function MaskAndCode(mask: bool, code: byte): byte
  {
    (if mask then 0x80 else 0) | code
  }

  function LengthField(form: LengthForm, mask: bool, n: nat): (field: seq<byte>)
    requires form.SevenBits? ==> n < 126
  {
    [MaskAndCode(mask, LengthCode(form, n))] + LengthDigits(form, n)
  }

  /** The minimal form, which section 5.2 of RFC 6455 requires of a sender. */
  function ShortestForm(n: nat): LengthForm
  {
    if n < 126 then SevenBits else if n < 65536 then SixteenBits else SixtyFourBits
  }

  datatype Masking = Unmasked | MaskedBy(key: Key)

  /** Section 5.3 of RFC 6455: octet i of the payload is combined with octet i modulo 4 of the key. */
  function ApplyKey(key: Key, data: seq<byte>): (r: seq<byte>)
    ensures |r| == |data|
  {
    seq(|data|, i requires 0 <= i < |data| => Xor(data[i], key[i % 4]))
  }

  function KeyField(masking: Masking): seq<byte>
  {
    match masking
    case Unmasked => []
    case MaskedBy(key) => key
  }

  function Body(masking: Masking, payload: seq<byte>): (r: seq<byte>)
    ensures |r| == |payload|
  {
    match masking
    case Unmasked => payload
    case MaskedBy(key) => ApplyKey(key, payload)
  }

  /** A frame as sections 5.2 and 5.3 of RFC 6455 lay it out. */
  function RfcFrame(m: Message, form: LengthForm, masking: Masking): seq<byte>
    requires form.SevenBits? ==> |m.payload| < 126
  {
    [FirstByte(m.fin, m.opcode)]
    + LengthField(form, masking.MaskedBy?, |m.payload|)
    + KeyField(masking)
    + Body(masking, m.payload)
  }

  /** A server's frame: unmasked and of minimal length. */
  function Prescribed(m: Message): seq<byte>
  {
    RfcFrame(m, ShortestForm(|m.payload|), Unmasked)
  }

  /** The form that `to_buffers` picks. */
  function ChosenForm(n: nat): LengthForm
  {
    if n < 126 then SevenBits else if n < 65537 then SixteenBits else SixtyFourBits
  }

  /** The bytes that `to_buffers` hands to the socket, given the header byte kept from earlier calls. */
  function Written(finOpcode: byte, m: Message): seq<byte>
  {
    [finOpcode | FirstByte(m.fin, m.opcode)] + LengthField(ChosenForm(|m.payload|), false, |m.payload|) + m.payload
  }

  /** The length fields as `to_buffers` leaves them: in network order, and untouched in the other forms. */
  function SentLength16(before: bv16, n: nat): bv16
  {
    if ChosenForm(n) == SixteenBits then Hton16(Truncate16(n)) else before
  }

  function SentLength64(before: bv64, n: nat): bv64
  {
    if ChosenForm(n) == SixtyFourBits then Hton64(Truncate64(n)) else before
  }

  class DataFrame {
    var fin: bool
    var opcode: Opcode
    var mask: bool
    var finOpcode: byte
    var maskPayloadLen: byte
    var payloadLen: byte
    var extendedLen16: bv16
    var extendedLen64: bv64
    const maskingKey: array<byte>
    var payload: seq<byte>

    ghost predicate Valid()
    {
      maskingKey.Length == 4
    }

    ghost function Data(): FrameData
      requires Valid()
      reads this, maskingKey
    {
      FrameData(fin, opcode, mask, payloadLen, extendedLen16, extendedLen64, maskingKey[..], payload)
    }

    ghost function Content(): Message
      reads this
    {
      Message(fin, opcode, payload)
    }

    /** `key` is whatever the uninitialised masking key happens to hold. */
    constructor (text: seq<byte>, key: array<byte>)
      requires key.Length == 4
      ensures Valid() && maskingKey == key && finOpcode == 0
      ensures Data() == EmptyFrame(key[..]).(payload := text)
    {
      fin, opcode, mask := true, TextFrame, false;
      finOpcode, maskPayloadLen, payloadLen := 0, 0, 0;
      extendedLen16, extendedLen64 := 0, 0;
      maskingKey, payload := key, text;
    }

    /** The first half of `to_buffers`: bits are only ever added to the header byte. */
    method MarkHeader()
      modifies this`finOpcode
      ensures finOpcode == old(finOpcode) | FirstByte(fin, opcode)
    {
      if fin {
        finOpcode := finOpcode | 0x80;
      }

      match opcode {
        case ContinuationFrame => finOpcode := finOpcode | 0x0;
        case TextFrame => finOpcode := finOpcode | 0x1;
        case BinaryFrame => finOpcode := finOpcode | 0x2;
        case ConnectionClose => finOpcode := finOpcode | 0x8;
        case Ping => finOpcode := finOpcode | 0x9;
        case Pong => finOpcode := finOpcode | 0xA;
        case Reserved => finOpcode := finOpcode | 0xF;
      }
    }

    /** The length branches of `to_buffers`. */
    method MarkLength(buffers: seq<seq<byte>>) returns (more: seq<seq<byte>>)
      modifies this`maskPayloadLen, this`extendedLen16, this`extendedLen64
      ensures Concat(more) == Concat(buffers) + LengthField(ChosenForm(|payload|), false, |payload|)
      ensures maskPayloadLen == LengthCode(ChosenForm(|payload|), |payload|)
      ensures extendedLen16 == SentLength16(old(extendedLen16), |payload|)
      ensures extendedLen64 == SentLength64(old(extendedLen64), |payload|)
    {
      hide Memory16, Memory64, Hton16, Hton64, Truncate16, Truncate64, BigEndianBytes, Concat;
      var size := |payload|;
      if size < 126 {
        maskPayloadLen := size as byte;
        more := Push(buffers, [maskPayloadLen]);
      } else if size < 65537 {
        maskPayloadLen := 126;
        extendedLen16 := Truncate16(size);
        extendedLen16 := Hton16(extendedLen16);
        more := Push(Push(buffers, [maskPayloadLen]), Memory16(extendedLen16));
        Sent16(size);
      } else {
        maskPayloadLen := 127;
        extendedLen64 := Truncate64(size);
        extendedLen64 := Hton64(extendedLen64);
        more := Push(Push(buffers, [maskPayloadLen]), Memory64(extendedLen64));
        Sent64(size);
      }
    }

    method ToBuffers() returns (buffers: seq<seq<byte>>)
      modifies this`finOpcode, this`maskPayloadLen, this`extendedLen16, this`extendedLen64
      ensures Concat(buffers) == Written(old(finOpcode), Content())
      ensures finOpcode == old(finOpcode) | FirstByte(fin, opcode)
      ensures maskPayloadLen == LengthCode(ChosenForm(|payload|), |payload|)
      ensures extendedLen16 == SentLength16(old(extendedLen16), |payload|)
      ensures extendedLen64 == SentLength64(old(extendedLen64), |payload|)
    {
      hide SentLength16, SentLength64, LengthCode, LengthDigits, OpcodeBits;
      MarkHeader();
      buffers := Push([], [finOpcode]);
      assert Concat(buffers) == [finOpcode];
      buffers := MarkLength(buffers);
      buffers := Push(buffers, payload);
    }
  }
}
