/**
 `data_frame_parser`: the fifteen-state automaton that reads a WebSocket frame one
 byte at a time. `Step` is one call of `consume` on values; class `FrameParser`
 does the same in place.
 */
module FrameParsing {
  import opened Octets
  import opened ByteOrder
  import opened Frames
  import opened ParseLoop

  datatype State =
    | FinOpcode
    | MaskPayloadLen
    | ExtendedLen1 | ExtendedLen2 | ExtendedLen3 | ExtendedLen4
    | ExtendedLen5 | ExtendedLen6 | ExtendedLen7 | ExtendedLen8
    | MaskingKey1 | MaskingKey2 | MaskingKey3 | MaskingKey4
    | Payload

  /** A parser together with the frame it fills. */
  datatype Config = Config(state: State, frame: FrameData)

  /** The sign extension of the source's `char` argument lies above the bits that are kept. */
  function GetBits(b: byte, offset: bv4, count: bv4): byte
    requires offset <= 8 && count <= 8
  {
    (b >> offset) & ((1 << count) - 1)
  }

  function OpcodeOf(bits: byte): Opcode
  {
    if bits == 0x0 then ContinuationFrame
    else if bits == 0x1 then TextFrame
    else if bits == 0x2 then BinaryFrame
    else if bits == 0x8 then ConnectionClose
    else if bits == 0x9 then Ping
    else if bits == 0xA then Pong
    else Reserved
  }

  function AfterLength(mask: bool): State
  {
    if mask then MaskingKey1 else Payload
  }

  /** The number of payload bytes at which the payload state stops. */
  function Declared(f: FrameData): nat
  {
    if f.payloadLen == 127 then Value64(f.extendedLen64)
    else if f.payloadLen == 126 then Value16(f.extendedLen16)
    else f.payloadLen as nat
  }

  function More(state: State, frame: FrameData): Reaction<Config>
  {
    Reaction(Indeterminate, Config(state, frame))
  }

  function Or(f: FrameData, temp: bv64): FrameData
  {
    f.(extendedLen64 := Or64(f.extendedLen64, temp))
  }

  /** The byte is unmasked with the key in turn, whether or not the frame declares a mask. */
  function Appended(f: FrameData, input: byte): FrameData
  {
    f.(payload := f.payload + [Xor(input, f.maskingKey[|f.payload| % 4])])
  }

  function Step(c: Config, input: byte): Reaction<Config>
  {
    var f := c.frame;
    match c.state
    case FinOpcode =>
      More(MaskPayloadLen, f.(fin := GetBits(input, 7, 1) == 1, opcode := OpcodeOf(GetBits(input, 0, 4))))
    case MaskPayloadLen =>
      var g := f.(mask := GetBits(input, 7, 1) == 1, payloadLen := GetBits(input, 0, 7));
      if g.payloadLen == 0 then Reaction(True, Config(MaskPayloadLen, g))
      else if g.payloadLen == 126 || g.payloadLen == 127 then More(ExtendedLen1, g)
      else More(AfterLength(g.mask), g)
    case ExtendedLen1 =>
      if f.payloadLen == 126 then More(ExtendedLen2, f.(extendedLen16 := Placed16(input, 0)))
      else if f.payloadLen == 127 then More(ExtendedLen2, f.(extendedLen64 := Placed(input, 0)))
      else More(ExtendedLen2, f)
    case ExtendedLen2 =>
      if f.payloadLen == 126 then
        More(AfterLength(f.mask), f.(extendedLen16 := Ntoh16(Or16(f.extendedLen16, Placed16(input, 1)))))
      else if f.payloadLen == 127 then More(ExtendedLen3, Or(f, Placed(input, 1)))
      else More(ExtendedLen2, f)
    case ExtendedLen3 => More(ExtendedLen4, Or(f, Placed(input, 2)))
    case ExtendedLen4 => More(ExtendedLen5, Or(f, Placed(input, 3)))
    case ExtendedLen5 => More(ExtendedLen6, Or(f, Placed(input, 4)))
    case ExtendedLen6 => More(ExtendedLen7, Or(f, Placed(input, 5)))
    case ExtendedLen7 => More(ExtendedLen8, Or(f, Placed(input, 6)))
    case ExtendedLen8 =>
      var g := Or(f, Placed(input, 7));
      More(AfterLength(f.mask), g.(extendedLen64 := Ntoh64(g.extendedLen64)))
    case MaskingKey1 => More(MaskingKey2, f.(maskingKey := f.maskingKey[0 := input]))
    case MaskingKey2 => More(MaskingKey3, f.(maskingKey := f.maskingKey[1 := input]))
    case MaskingKey3 => More(MaskingKey4, f.(maskingKey := f.maskingKey[2 := input]))
    case MaskingKey4 => More(Payload, f.(maskingKey := f.maskingKey[3 := input]))
    case Payload =>
      var g := Appended(f, input);
      Reaction(if |g.payload| == Declared(g) then True else Indeterminate, Config(Payload, g))
  }

  /** The states in which the length bytes arrive. */
  function LengthState(k: nat): State
    requires k < 8
  {
    match k
    case 0 => ExtendedLen1
    case 1 => ExtendedLen2
    case 2 => ExtendedLen3
    case 3 => ExtendedLen4
    case 4 => ExtendedLen5
    case 5 => ExtendedLen6
    case 6 => ExtendedLen7
    case 7 => ExtendedLen8
  }

  /** The states in which the masking key arrives. */
  function KeyState(k: nat): State
    requires k < 4
  {
    match k
    case 0 => MaskingKey1
    case 1 => MaskingKey2
    case 2 => MaskingKey3
    case 3 => MaskingKey4
  }

  lemma HeaderStep(c: Config, b: byte)
    ensures c.state == FinOpcode ==>
      Step(c, b) == More(MaskPayloadLen, c.frame.(fin := GetBits(b, 7, 1) == 1, opcode := OpcodeOf(GetBits(b, 0, 4))))
    ensures c.state == MaskPayloadLen ==>
      var g := c.frame.(mask := GetBits(b, 7, 1) == 1, payloadLen := GetBits(b, 0, 7));
      Step(c, b) == if g.payloadLen == 0 then Reaction(True, Config(MaskPayloadLen, g))
                    else if g.payloadLen == 126 || g.payloadLen == 127 then More(ExtendedLen1, g)
                    else More(AfterLength(g.mask), g)
  {
    hide Or64, Placed, Ntoh64, Ntoh16, Or16, Placed16, Xor, GetBits, Value64, Value16;
  }

  lemma ShortLengthStep(c: Config, k: nat, b: byte)
    requires k < 2 && c.state == LengthState(k) && c.frame.payloadLen == 126
    ensures k == 0 ==> Step(c, b) == More(ExtendedLen2, c.frame.(extendedLen16 := Placed16(b, 0)))
    ensures k == 1 ==>
      Step(c, b) == More(AfterLength(c.frame.mask),
                         c.frame.(extendedLen16 := Ntoh16(Or16(c.frame.extendedLen16, Placed16(b, 1)))))
  {
    hide Or64, Placed, Ntoh64, Ntoh16, Or16, Placed16, Xor, GetBits, Value64, Value16;
  }

  lemma LongLengthStep(c: Config, k: nat, b: byte)
    requires k < 8 && c.state == LengthState(k)
    requires k < 2 ==> c.frame.payloadLen == 127
    ensures k == 0 ==> Step(c, b) == More(LengthState(1), c.frame.(extendedLen64 := Placed(b, 0)))
    ensures 0 < k < 7 ==> Step(c, b) == More(LengthState(k + 1), Or(c.frame, Placed(b, k)))
    ensures k == 7 ==>
      var g := Or(c.frame, Placed(b, 7));
      Step(c, b) == More(AfterLength(c.frame.mask), g.(extendedLen64 := Ntoh64(g.extendedLen64)))
  {
    hide Or64, Placed, Ntoh64, Ntoh16, Or16, Placed16, Xor, GetBits, Value64, Value16;
  }

  lemma PayloadStep(c: Config, b: byte)
    requires c.state == Payload
    ensures var g := Appended(c.frame, b);
            Step(c, b) == Reaction(if |g.payload| == Declared(g) then True else Indeterminate, Config(Payload, g))
  {
    hide Or64, Placed, Ntoh64, Ntoh16, Or16, Placed16, Xor, GetBits, Value64, Value16;
  }

  lemma KeyStep(c: Config, k: nat, b: byte)
    requires k < 4 && c.state == KeyState(k)
    ensures Step(c, b) == More(if k < 3 then KeyState(k + 1) else Payload,
                               c.frame.(maskingKey := c.frame.maskingKey[k := b]))
  {
    hide Or64, Placed, Ntoh64, Ntoh16, Or16, Placed16, Xor, GetBits, Value64, Value16;
  }

  class FrameParser {
    var state: State

    constructor ()
      ensures state == FinOpcode
    {
      state := FinOpcode;
    }

    ghost function View(frame: DataFrame): Config
      requires frame.Valid()
      reads this, frame, frame.maskingKey
    {
      Config(state, frame.Data())
    }

    method Consume(frame: DataFrame, input: byte) returns (result: Tribool)
      requires frame.Valid()
      modifies this, frame, frame.maskingKey
      ensures Reaction(result, View(frame)) == Step(old(View(frame)), input)
      ensures frame.finOpcode == old(frame.finOpcode) && frame.maskPayloadLen == old(frame.maskPayloadLen)
    {
      match state {
        case FinOpcode | MaskPayloadLen =>
          result := ConsumeHeader(frame, input);
        case ExtendedLen1 | ExtendedLen2 =>
          result := ConsumeFirstLengthBytes(frame, input);
        case ExtendedLen3 | ExtendedLen4 | ExtendedLen5 | ExtendedLen6 | ExtendedLen7 | ExtendedLen8 =>
          result := ConsumeLongLength(frame, input);
        case MaskingKey1 | MaskingKey2 | MaskingKey3 | MaskingKey4 =>
          result := ConsumeKey(frame, input);
        case Payload =>
          result := ConsumePayload(frame, input);
      }
    }

    /** The cases fin_opcode and mask_payload_len of `consume`. */
    method ConsumeHeader(frame: DataFrame, input: byte) returns (result: Tribool)
      requires frame.Valid()
      requires state.FinOpcode? || state.MaskPayloadLen?
      modifies this, frame, frame.maskingKey
      ensures Reaction(result, View(frame)) == Step(old(View(frame)), input)
      ensures frame.finOpcode == old(frame.finOpcode) && frame.maskPayloadLen == old(frame.maskPayloadLen)
    {
      HeaderStep(View(frame), input);
      hide Step, GetBits, OpcodeOf;
      result := Indeterminate;
      if state == FinOpcode {
        frame.fin := GetBits(input, 7, 1) == 1;
        frame.opcode := OpcodeOf(GetBits(input, 0, 4));
        state := MaskPayloadLen;
      } else {
        frame.mask := GetBits(input, 7, 1) == 1;
        frame.payloadLen := GetBits(input, 0, 7);
        if frame.payloadLen == 0 {
          return True;
        } else if frame.payloadLen == 126 || frame.payloadLen == 127 {
          state := ExtendedLen1;
        } else {
          state := AfterLength(frame.mask);
        }
      }
    }

    /** The cases extended_payload_len1 and 2, which serve both extended forms. */
    method ConsumeFirstLengthBytes(frame: DataFrame, input: byte) returns (result: Tribool)
      requires frame.Valid()
      requires state.ExtendedLen1? || state.ExtendedLen2?
      modifies this, frame, frame.maskingKey
      ensures Reaction(result, View(frame)) == Step(old(View(frame)), input)
      ensures frame.finOpcode == old(frame.finOpcode) && frame.maskPayloadLen == old(frame.maskPayloadLen)
    {
      hide Or64, Or16, Placed16, Placed, Ntoh64, Ntoh16, Xor, GetBits, Value64, Value16;
      result := Indeterminate;
      if state == ExtendedLen1 {
        if frame.payloadLen == 126 {
          frame.extendedLen16 := Placed16(input, 0);
        } else if frame.payloadLen == 127 {
          frame.extendedLen64 := Placed(input, 0);
        }
        state := ExtendedLen2;
      } else if frame.payloadLen == 126 {
        var temp := Placed16(input, 1);
        frame.extendedLen16 := Or16(frame.extendedLen16, temp);
        frame.extendedLen16 := Ntoh16(frame.extendedLen16);
        state := AfterLength(frame.mask);
      } else if frame.payloadLen == 127 {
        AddLengthByte(frame, Placed(input, 1));
        state := ExtendedLen3;
      }
    }

    /** The cases extended_payload_len3 to 8. */
    method ConsumeLongLength(frame: DataFrame, input: byte) returns (result: Tribool)
      requires frame.Valid()
      requires state in {ExtendedLen3, ExtendedLen4, ExtendedLen5, ExtendedLen6, ExtendedLen7, ExtendedLen8}
      modifies this, frame, frame.maskingKey
      ensures Reaction(result, View(frame)) == Step(old(View(frame)), input)
      ensures frame.finOpcode == old(frame.finOpcode) && frame.maskPayloadLen == old(frame.maskPayloadLen)
    {
      hide Step, Or64, Placed, Ntoh64, Or;
      ghost var c := View(frame);
      result := Indeterminate;
      match state {
        case ExtendedLen3 =>
          LongLengthStep(c, 2, input);
          AddLengthByte(frame, Placed(input, 2));
          state := ExtendedLen4;
        case ExtendedLen4 =>
          LongLengthStep(c, 3, input);
          AddLengthByte(frame, Placed(input, 3));
          state := ExtendedLen5;
        case ExtendedLen5 =>
          LongLengthStep(c, 4, input);
          AddLengthByte(frame, Placed(input, 4));
          state := ExtendedLen6;
        case ExtendedLen6 =>
          LongLengthStep(c, 5, input);
          AddLengthByte(frame, Placed(input, 5));
          state := ExtendedLen7;
        case ExtendedLen7 =>
          LongLengthStep(c, 6, input);
          AddLengthByte(frame, Placed(input, 6));
          state := ExtendedLen8;
        case ExtendedLen8 =>
          LongLengthStep(c, 7, input);
          AddLengthByte(frame, Placed(input, 7));
          frame.extendedLen64 := Ntoh64(frame.extendedLen64);
          state := AfterLength(frame.mask);
      }
    }

    /** The cases masking_key1 to masking_key4. */
    method ConsumeKey(frame: DataFrame, input: byte) returns (result: Tribool)
      requires frame.Valid()
      requires state in {MaskingKey1, MaskingKey2, MaskingKey3, MaskingKey4}
      modifies this, frame, frame.maskingKey
      ensures Reaction(result, View(frame)) == Step(old(View(frame)), input)
      ensures frame.finOpcode == old(frame.finOpcode) && frame.maskPayloadLen == old(frame.maskPayloadLen)
    {
      hide Or64, Or16, Placed16, Placed, Ntoh64, Ntoh16, Xor, GetBits, Value64, Value16;
      result := Indeterminate;
      match state {
        case MaskingKey1 =>
          frame.maskingKey[0] := input;
          state := MaskingKey2;
        case MaskingKey2 =>
          frame.maskingKey[1] := input;
          state := MaskingKey3;
        case MaskingKey3 =>
          frame.maskingKey[2] := input;
          state := MaskingKey4;
        case MaskingKey4 =>
          frame.maskingKey[3] := input;
          state := Payload;
      }
    }

    /** The case payload. */
    method ConsumePayload(frame: DataFrame, input: byte) returns (result: Tribool)
      requires frame.Valid()
      requires state == Payload
      modifies this, frame, frame.maskingKey
      ensures Reaction(result, View(frame)) == Step(old(View(frame)), input)
      ensures frame.finOpcode == old(frame.finOpcode) && frame.maskPayloadLen == old(frame.maskPayloadLen)
    {
      result := Indeterminate;
      AppendUnmasked(frame, input);
      if frame.payloadLen == 127 {
        if |frame.payload| == Value64(frame.extendedLen64) {
          return True;
        }
      } else if frame.payloadLen == 126 {
        if |frame.payload| == Value16(frame.extendedLen16) {
          return True;
        }
      } else if |frame.payload| == frame.payloadLen as nat {
        return True;
      }
    }

    method AddLengthByte(frame: DataFrame, temp: bv64)
      requires frame.Valid()
      modifies frame`extendedLen64
      ensures frame.Data() == Or(old(frame.Data()), temp)
    {
      frame.extendedLen64 := Or64(frame.extendedLen64, temp);
    }

    method AppendUnmasked(frame: DataFrame, input: byte)
      requires frame.Valid()
      modifies frame`payload
      ensures frame.Data() == Appended(old(frame.Data()), input)
    {
      var mask := frame.maskingKey[|frame.payload| % 4];
      frame.payload := frame.payload + [Xor(input, mask)];
    }

    method Parse(frame: DataFrame, input: seq<byte>, begin: nat) returns (result: Tribool, end: nat)
      requires frame.Valid() && begin <= |input|
      modifies this, frame, frame.maskingKey
      ensures begin <= end <= |input|
      ensures Outcome(result, View(frame), end - begin) == Run(Step, old(View(frame)), input[begin..])
      ensures frame.finOpcode == old(frame.finOpcode) && frame.maskPayloadLen == old(frame.maskPayloadLen)
    {
      hide Step;
      end := begin;
      ghost var start := View(frame);
      while end != |input|
        invariant begin <= end <= |input|
        invariant frame.finOpcode == old(frame.finOpcode) && frame.maskPayloadLen == old(frame.maskPayloadLen)
        invariant Run(Step, start, input[begin..])
               == Resume(Step, Outcome(Indeterminate, View(frame), end - begin), input[end..])
      {
        ResumeOne(Step, View(frame), end - begin, input, end);
        result := Consume(frame, input[end]);
        end := end + 1;
        if result != Indeterminate {
          return;
        }
      }
      result := Indeterminate;
    }
  }
}
