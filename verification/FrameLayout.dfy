/**
 The wire layout of a frame as the parser counts it, read off the bytes directly, and the
 proof that each byte takes the automaton along that layout. Module `FrameConformance` compares the
 layout with sections 5.2 and 5.3 of RFC 6455.
 */
module FrameLayout {
  import opened Octets
  import opened ByteOrder
  import opened Frames
  import opened FrameParsing
  import opened ParseLoop

  // ----- where the fields of a frame lie -----

  function Len7(w: seq<byte>): byte
    requires |w| >= 2
  {
    GetBits(w[1], 0, 7)
  }

  predicate Masked(w: seq<byte>)
    requires |w| >= 2
  {
    GetBits(w[1], 7, 1) == 1
  }

  function LengthBytes(w: seq<byte>): nat
    requires |w| >= 2
  {
    if Len7(w) == 127 then 8 else if Len7(w) == 126 then 2 else 0
  }

  function KeyBytes(w: seq<byte>): nat
    requires |w| >= 2
  {
    if Masked(w) then 4 else 0
  }

  function HeaderSize(w: seq<byte>): nat
    requires |w| >= 2
  {
    2 + LengthBytes(w) + KeyBytes(w)
  }

  function DeclaredLength(w: seq<byte>): nat
    requires |w| >= 2 && |w| >= 2 + LengthBytes(w)
  {
    if LengthBytes(w) == 0 then Len7(w) as nat else BigEndian(w[2..2 + LengthBytes(w)])
  }

  /** The key a payload byte is combined with; `initial` is what the frame object held before. */
  function KeyOf(w: seq<byte>, initial: Key): Key
    requires |w| >= 2 && |w| >= HeaderSize(w)
  {
    if Masked(w) then w[2 + LengthBytes(w)..HeaderSize(w)] else initial
  }

  /** `w` is one whole frame as the parser counts it. */
  ghost predicate IsFrame(w: seq<byte>)
  {
    && |w| >= 2
    && if Len7(w) == 0 then |w| == 2
       else |w| >= HeaderSize(w) && DeclaredLength(w) > 0 && |w| == HeaderSize(w) + DeclaredLength(w)
  }

  /** What a whole frame says. */
  ghost function Meaning(w: seq<byte>, initial: Key): Message
    requires IsFrame(w)
  {
    Message(
      GetBits(w[0], 7, 1) == 1,
      OpcodeOf(GetBits(w[0], 0, 4)),
      if Len7(w) == 0 then [] else ApplyKey(KeyOf(w, initial), w[HeaderSize(w)..]))
  }

  function Said(f: FrameData): Message
  {
    Message(f.fin, f.opcode, f.payload)
  }

  // ----- the state of the automaton after an unfinished prefix -----

  function StateAfter(w: seq<byte>): State
  {
    if |w| == 0 then FinOpcode
    else if |w| == 1 then MaskPayloadLen
    else if |w| < 2 + LengthBytes(w) then
      LengthState(|w| - 2)
    else if |w| < HeaderSize(w) then
      KeyState(|w| - 2 - LengthBytes(w))
    else Payload
  }

  /** Fields fixed by the first two bytes. */
  ghost predicate HeaderSeen(f: FrameData, w: seq<byte>)
    requires |w| >= 2
  {
    && f.fin == (GetBits(w[0], 7, 1) == 1)
    && f.opcode == OpcodeOf(GetBits(w[0], 0, 4))
    && f.mask == Masked(w)
    && f.payloadLen == Len7(w)
    && Len7(w) != 0
  }

  ghost predicate AtStart(c: Config, w: seq<byte>, initial: Key)
  {
    && |w| < 2
    && c.state == StateAfter(w)
    && (|w| == 1 ==> c.frame.fin == (GetBits(w[0], 7, 1) == 1) && c.frame.opcode == OpcodeOf(GetBits(w[0], 0, 4)))
    && c.frame.maskingKey == initial
    && c.frame.payload == []
  }

  ghost predicate InLength(c: Config, w: seq<byte>, initial: Key)
  {
    && 2 <= |w| < 2 + LengthBytes(w)
    && c.state == StateAfter(w)
    && HeaderSeen(c.frame, w)
    && (LengthBytes(w) == 2 && |w| == 3 ==> c.frame.extendedLen16 == Placed16(w[2], 0))
    && (LengthBytes(w) == 8 && |w| > 2 ==> c.frame.extendedLen64 == Gathered(w[2..]))
    && c.frame.maskingKey == initial
    && c.frame.payload == []
  }

  ghost predicate InKey(c: Config, w: seq<byte>, initial: Key)
  {
    && |w| >= 2
    && 2 + LengthBytes(w) <= |w| < HeaderSize(w)
    && c.state == StateAfter(w)
    && HeaderSeen(c.frame, w)
    && Declared(c.frame) == DeclaredLength(w)
    && c.frame.maskingKey[..|w| - 2 - LengthBytes(w)] == w[2 + LengthBytes(w)..]
    && c.frame.payload == []
  }

  ghost predicate InPayload(c: Config, w: seq<byte>, initial: Key)
  {
    && |w| >= 2
    && |w| >= HeaderSize(w)
    && c.state == Payload
    && HeaderSeen(c.frame, w)
    && Declared(c.frame) == DeclaredLength(w)
    && c.frame.maskingKey == KeyOf(w, initial)
    && c.frame.payload == ApplyKey(KeyOf(w, initial), w[HeaderSize(w)..])
    && (DeclaredLength(w) == 0 || |c.frame.payload| < DeclaredLength(w))
  }

  /** The configuration reached on a prefix `w` that is not yet a whole frame. */
  ghost predicate Describes(c: Config, w: seq<byte>, initial: Key)
  {
    AtStart(c, w, initial) || InLength(c, w, initial) || InKey(c, w, initial) || InPayload(c, w, initial)
  }

  /** What one more byte must do after `w`. */
  ghost predicate GoesOn(r: Reaction<Config>, v: seq<byte>, initial: Key)
  {
    if IsFrame(v) then r.verdict == True && Said(r.state.frame) == Meaning(v, initial)
    else r.verdict == Indeterminate && Describes(r.state, v, initial)
  }

  lemma StepAtStart(c: Config, w: seq<byte>, initial: Key, b: byte)
    requires AtStart(c, w, initial)
    ensures GoesOn(Step(c, b), w + [b], initial)
  {
    hide Xor, GetBits, Or16, Placed16, Or64, Placed, Ntoh16, Ntoh64, Value16, Value64, BigEndian;
    var v := w + [b];
    var r := Step(c, b);
    if |w| == 0 {
      assert AtStart(r.state, v, initial);
    } else {
      assert v[0] == w[0] && v[1] == b;
      if Len7(v) == 0 {
        assert IsFrame(v);
      } else if LengthBytes(v) > 0 {
        assert InLength(r.state, v, initial);
      } else if Masked(v) {
        assert InKey(r.state, v, initial);
      } else {
        assert InPayload(r.state, v, initial);
      }
    }
  }

  lemma SameHeader(w: seq<byte>, b: byte)
    requires |w| >= 2
    ensures Len7(w + [b]) == Len7(w) && Masked(w + [b]) == Masked(w)
    ensures LengthBytes(w + [b]) == LengthBytes(w) && HeaderSize(w + [b]) == HeaderSize(w)
    ensures |w| >= 2 + LengthBytes(w) ==> DeclaredLength(w + [b]) == DeclaredLength(w)
    ensures |w| >= HeaderSize(w) ==> forall initial :: KeyOf(w + [b], initial) == KeyOf(w, initial)
  {
    var v := w + [b];
    assert v[..2] == w[..2] && v[0] == w[0] && v[1] == w[1];
    if |w| >= 2 + LengthBytes(w) {
      assert v[2..2 + LengthBytes(w)] == w[2..2 + LengthBytes(w)];
    }
    if |w| >= HeaderSize(w) {
      assert v[2 + LengthBytes(w)..HeaderSize(w)] == w[2 + LengthBytes(w)..HeaderSize(w)];
    }
  }

  /** Once the last length byte is in, the header or the payload follows. */
  lemma AfterLengthDescribed(c: Config, v: seq<byte>, initial: Key)
    requires |v| >= 2 && |v| == 2 + LengthBytes(v)
    requires c.state == AfterLength(Masked(v))
    requires HeaderSeen(c.frame, v) && Declared(c.frame) == DeclaredLength(v)
    requires c.frame.maskingKey == initial && c.frame.payload == []
    ensures Describes(c, v, initial) && !IsFrame(v)
  {
    if Masked(v) {
      assert InKey(c, v, initial);
    } else {
      assert v[HeaderSize(v)..] == [];
      assert InPayload(c, v, initial);
    }
  }

  /** Header bytes alone are no frame. */
  lemma NoPayloadYet(v: seq<byte>)
    requires |v| >= 2 && Len7(v) != 0 && |v| <= HeaderSize(v)
    ensures !IsFrame(v)
  {
  }

  lemma StepInShortLength(c: Config, w: seq<byte>, initial: Key, b: byte)
    requires InLength(c, w, initial) && LengthBytes(w) == 2
    ensures GoesOn(Step(c, b), w + [b], initial)
  {
    hide Step, GetBits, Or16, Placed16, Ntoh16, Value64, Value16, BigEndian;
    var v := w + [b];
    var r := Step(c, b);
    SameHeader(w, b);
    ShortLengthStep(c, |w| - 2, b);
    if |w| == 2 {
      assert InLength(r.state, v, initial);
    } else {
      assert v[2..4] == [w[2], b];
      Received16(v[2..4]);
      AfterLengthDescribed(r.state, v, initial);
    }
  }

  lemma GatheredNext(w: seq<byte>, b: byte)
    requires 2 <= |w| < 10
    ensures (w + [b])[2..] == w[2..] + [b]
    ensures Gathered((w + [b])[2..]) == if |w| == 2 then Placed(b, 0) else Or64(Gathered(w[2..]), Placed(b, |w| - 2))
  {
    hide Or64, Placed;
    var v := w + [b];
    assert v[2..] == w[2..] + [b] && v[2..][..|w| - 2] == w[2..];
  }

  lemma StepInLongLength(c: Config, w: seq<byte>, initial: Key, b: byte)
    requires InLength(c, w, initial) && LengthBytes(w) == 8
    ensures GoesOn(Step(c, b), w + [b], initial)
  {
    hide Step, GetBits, Or64, Placed, Ntoh64, Value64, Value16, BigEndian, IsFrame, Meaning, Gathered;
    var v := w + [b];
    SameHeader(w, b);
    NoPayloadYet(v);
    LongLengthStep(c, |w| - 2, b);
    GatheredNext(w, b);
    if |w| < 9 {
      assert InLength(Step(c, b).state, v, initial);
    } else {
      LastLengthByte(Step(c, b).state, v, initial, c.frame);
    }
  }

  lemma LastLengthByte(c: Config, v: seq<byte>, initial: Key, before: FrameData)
    requires |v| == 10 && LengthBytes(v) == 8
    requires HeaderSeen(before, v) && before.maskingKey == initial && before.payload == []
    requires c == Config(AfterLength(before.mask), before.(extendedLen64 := Ntoh64(Gathered(v[2..]))))
    ensures Describes(c, v, initial)
  {
    hide GetBits, Ntoh64, Value64, Value16, BigEndian, Gathered;
    Received64(v[2..]);
    assert v[2..10] == v[2..];
    AfterLengthDescribed(c, v, initial);
  }

  lemma StepInKey(c: Config, w: seq<byte>, initial: Key, b: byte)
    requires InKey(c, w, initial)
    ensures GoesOn(Step(c, b), w + [b], initial)
  {
    hide Step, GetBits, Value64, Value16, BigEndian, IsFrame, Meaning, Declared, DeclaredLength;
    var v := w + [b];
    var k := |w| - 2 - LengthBytes(w);
    SameHeader(w, b);
    NoPayloadYet(v);
    SameLength(c.frame, k, b);
    KeyStep(c, k, b);
    var d := Step(c, b).state;
    assert v[2 + LengthBytes(w)..] == w[2 + LengthBytes(w)..] + [b];
    assert d.frame.maskingKey[..k + 1] == c.frame.maskingKey[..k] + [b];
    if k < 3 {
      assert InKey(d, v, initial);
    } else {
      LastKeyByte(d, v, initial);
    }
  }

  lemma LastKeyByte(c: Config, v: seq<byte>, initial: Key)
    requires |v| >= 2 && |v| == HeaderSize(v) && Masked(v) && c.state == Payload
    requires HeaderSeen(c.frame, v) && Declared(c.frame) == DeclaredLength(v)
    requires c.frame.maskingKey[..4] == v[2 + LengthBytes(v)..] && c.frame.payload == []
    ensures InPayload(c, v, initial)
  {
    hide GetBits, Declared, DeclaredLength;
    assert c.frame.maskingKey[..4] == c.frame.maskingKey == KeyOf(v, initial);
    assert v[HeaderSize(v)..] == [];
  }

  lemma SameLength(f: FrameData, k: nat, b: byte)
    requires k < 4
    ensures Declared(f.(maskingKey := f.maskingKey[k := b])) == Declared(f)
  {
  }

  lemma StepInPayload(c: Config, w: seq<byte>, initial: Key, b: byte)
    requires InPayload(c, w, initial)
    ensures GoesOn(Step(c, b), w + [b], initial)
  {
    hide GetBits, Or64, Or16, Placed16, Placed, Ntoh64, Ntoh16, Xor, Value64, Value16, BigEndian;
    var v := w + [b];
    var r := Step(c, b);
    SameHeader(w, b);
    var key := KeyOf(w, initial);
    ApplyKeyAppend(key, w[HeaderSize(w)..], b);
    assert v[HeaderSize(w)..] == w[HeaderSize(w)..] + [b];
    if r.verdict == Indeterminate {
      assert InPayload(r.state, v, initial);
    }
  }

  lemma ApplyKeyAppend(key: Key, data: seq<byte>, b: byte)
    ensures ApplyKey(key, data + [b]) == ApplyKey(key, data) + [Xor(b, key[|data| % 4])]
  {
  }
}
