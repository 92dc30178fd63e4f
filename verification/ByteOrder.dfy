/**
 Length fields of a WebSocket frame: the conversions between host and network
 byte order on a little-endian host, and the number that a field stands for.
 */
module ByteOrder {

  import opened Octets

  // ----- sixteen bits -----

  /** Operator | on 16 bits. */
  function Or16(a: bv16, b: bv16): bv16
  {
    a | b
  }

  function Ntoh16(net: bv16): bv16
  {
    ((net & 0x00FF) << 8) | ((net & 0xFF00) >> 8)
  }

  function Hton16(host: bv16): bv16
  {
    ((host & 0x00FF) << 8) | ((host & 0xFF00) >> 8)
  }

  /** The bytes of a 16-bit integer as a little-endian host keeps them in memory. */
  function Memory16(x: bv16): (m: seq<byte>)
    ensures |m| == 2
  {
    [(x & 0xFF) as byte, ((x >> 8) & 0xFF) as byte]
  }

  /** The bytes of a 16-bit integer, most significant byte first. */
  function Digits16(x: bv16): (d: seq<byte>)
    ensures |d| == 2
  {
    [((x >> 8) & 0xFF) as byte, (x & 0xFF) as byte]
  }

  function Value16(x: bv16): nat
  {
    BigEndian(Digits16(x))
  }

  /** static_cast<uint16_t>: the low sixteen bits of a size. */
  function Truncate16(n: nat): bv16
  {
    var b := BigEndianBytes(n, 2);
    (b[0] as bv16 << 8) | b[1] as bv16
  }

  function Placed16(b: byte, k: nat): bv16
    requires k < 2
  {
    if k == 0 then b as bv16 else b as bv16 << 8
  }

  /** The two assignments of the states extended_payload_len1 and extended_payload_len2. */
  function Assemble16(b0: byte, b1: byte): bv16
  {
    Or16(Placed16(b0, 0), Placed16(b1, 1))
  }

  // ----- sixty-four bits -----

  /** Operator | on 64 bits. */
  function Or64(a: bv64, b: bv64): bv64
  {
    a | b
  }

  function Ntoh64(net: bv64): bv64
  {
    ((net & 0x00000000000000FF) << 56) |
    ((net & 0x000000000000FF00) << 40) |
    ((net & 0x0000000000FF0000) << 24) |
    ((net & 0x00000000FF000000) << 8) |
    ((net & 0x000000FF00000000) >> 8) |
    ((net & 0x0000FF0000000000) >> 24) |
    ((net & 0x00FF000000000000) >> 40) |
    ((net & 0xFF00000000000000) >> 56)
  }

  function Hton64(host: bv64): bv64
  {
    ((host & 0x00000000000000FF) << 56) |
    ((host & 0x000000000000FF00) << 40) |
    ((host & 0x0000000000FF0000) << 24) |
    ((host & 0x00000000FF000000) << 8) |
    ((host & 0x000000FF00000000) >> 8) |
    ((host & 0x0000FF0000000000) >> 24) |
    ((host & 0x00FF000000000000) >> 40) |
    ((host & 0xFF00000000000000) >> 56)
  }

  function Memory64(x: bv64): (m: seq<byte>)
    ensures |m| == 8
  {
    [(x & 0xFF) as byte, ((x >> 8) & 0xFF) as byte, ((x >> 16) & 0xFF) as byte, ((x >> 24) & 0xFF) as byte,
     ((x >> 32) & 0xFF) as byte, ((x >> 40) & 0xFF) as byte, ((x >> 48) & 0xFF) as byte, ((x >> 56) & 0xFF) as byte]
  }

  function Digits64(x: bv64): (d: seq<byte>)
    ensures |d| == 8
  {
    var m := Memory64(x);
    [m[7], m[6], m[5], m[4], m[3], m[2], m[1], m[0]]
  }

  function Value64(x: bv64): nat
  {
    BigEndian(Digits64(x))
  }

  /** Storing a size in a uint64_t. */
  function Truncate64(n: nat): bv64
  {
    var b := BigEndianBytes(n, 8);
    Assemble64(b[7], b[6], b[5], b[4], b[3], b[2], b[1], b[0])
  }

  /** The eight shift-or assignments of the states extended_payload_len1 to extended_payload_len8. */
  function Assemble64(b0: byte, b1: byte, b2: byte, b3: byte, b4: byte, b5: byte, b6: byte, b7: byte): bv64
  {
    Or64(Or64(Or64(Or64(Or64(Or64(Or64(Placed(b0, 0), Placed(b1, 1)), Placed(b2, 2)), Placed(b3, 3)),
      Placed(b4, 4)), Placed(b5, 5)), Placed(b6, 6)), Placed(b7, 7))
  }

  /** A length byte shifted to its place: the shift counts of extended_payload_len2 to 8. */
  function Placed(b: byte, k: nat): bv64
    requires k < 8
  {
    match k
    case 0 => b as bv64
    case 1 => b as bv64 << 8
    case 2 => b as bv64 << 16
    case 3 => b as bv64 << 24
    case 4 => b as bv64 << 32
    case 5 => b as bv64 << 40
    case 6 => b as bv64 << 48
    case 7 => b as bv64 << 56
  }

  /** The 64-bit field after the length bytes seen so far. */
  function Gathered(bytes: seq<byte>): bv64
    requires |bytes| <= 8
  {
    if bytes == [] then 0
    else if |bytes| == 1 then Placed(bytes[0], 0)
    else Or64(Gathered(bytes[..|bytes| - 1]), Placed(bytes[|bytes| - 1], |bytes| - 1))
  }

  lemma GatheredAll(b: seq<byte>)
    requires |b| == 8
    ensures Gathered(b) == Assemble64(b[0], b[1], b[2], b[3], b[4], b[5], b[6], b[7])
  {
    hide Or64, Placed;
    assert b[..7][..6] == b[..6] && b[..6][..5] == b[..5] && b[..5][..4] == b[..4];
    assert b[..4][..3] == b[..3] && b[..3][..2] == b[..2] && b[..2][..1] == b[..1];
    assert Gathered(b[..2]) == Or64(Placed(b[0], 0), Placed(b[1], 1));
    assert Gathered(b[..3]) == Or64(Gathered(b[..2]), Placed(b[2], 2));
    assert Gathered(b[..4]) == Or64(Gathered(b[..3]), Placed(b[3], 3));
    assert Gathered(b[..5]) == Or64(Gathered(b[..4]), Placed(b[4], 4));
    assert Gathered(b[..6]) == Or64(Gathered(b[..5]), Placed(b[5], 5));
    assert Gathered(b[..7]) == Or64(Gathered(b[..6]), Placed(b[6], 6));
  }

  // ----- the length arithmetic is exact -----

  /** Each conversion undoes the other, in both orders. */
  lemma ConversionsAreInverse16(x: bv16)
    ensures Ntoh16(Hton16(x)) == x && Hton16(Ntoh16(x)) == x
  {
  }

  lemma ConversionsAreInverse64(x: bv64)
    ensures Ntoh64(Hton64(x)) == x && Hton64(Ntoh64(x)) == x
  {
  }

  lemma Swapped16(b0: byte, b1: byte)
    ensures Digits16(Ntoh16(Assemble16(b0, b1))) == [b0, b1]
  {
  }

  /** The parser's low-first assembly followed by ntoh16 is the big-endian value of the two bytes. */
  lemma Received16(bytes: seq<byte>)
    requires |bytes| == 2
    ensures Value16(Ntoh16(Assemble16(bytes[0], bytes[1]))) == BigEndian(bytes)
  {
    Swapped16(bytes[0], bytes[1]);
    assert bytes == [bytes[0], bytes[1]];
  }

  /** The same field with the shifts written out. */
  function Flat64(b0: byte, b1: byte, b2: byte, b3: byte, b4: byte, b5: byte, b6: byte, b7: byte): bv64
  {
    Or64(Or64(Or64(Or64(Or64(Or64(Or64(b0 as bv64, b1 as bv64 << 8), b2 as bv64 << 16), b3 as bv64 << 24),
      b4 as bv64 << 32), b5 as bv64 << 40), b6 as bv64 << 48), b7 as bv64 << 56)
  }

  lemma FlatForm(b0: byte, b1: byte, b2: byte, b3: byte, b4: byte, b5: byte, b6: byte, b7: byte)
    ensures Assemble64(b0, b1, b2, b3, b4, b5, b6, b7) == Flat64(b0, b1, b2, b3, b4, b5, b6, b7)
  {
    hide Placed, Or64;
    PlacedByValue(b0, b1, b2, b3, b4, b5, b6, b7);
  }

  lemma PlacedByValue(b0: byte, b1: byte, b2: byte, b3: byte, b4: byte, b5: byte, b6: byte, b7: byte)
    ensures Placed(b0, 0) == b0 as bv64 && Placed(b1, 1) == b1 as bv64 << 8
    ensures Placed(b2, 2) == b2 as bv64 << 16 && Placed(b3, 3) == b3 as bv64 << 24
    ensures Placed(b4, 4) == b4 as bv64 << 32 && Placed(b5, 5) == b5 as bv64 << 40
    ensures Placed(b6, 6) == b6 as bv64 << 48 && Placed(b7, 7) == b7 as bv64 << 56
  {
  }

  lemma SwappedFlat64(b0: byte, b1: byte, b2: byte, b3: byte, b4: byte, b5: byte, b6: byte, b7: byte)
    ensures Ntoh64(Flat64(b0, b1, b2, b3, b4, b5, b6, b7)) == Flat64(b7, b6, b5, b4, b3, b2, b1, b0)
  {
  }

  lemma FlatMemory64(b0: byte, b1: byte, b2: byte, b3: byte, b4: byte, b5: byte, b6: byte, b7: byte)
    ensures Memory64(Flat64(b0, b1, b2, b3, b4, b5, b6, b7)) == [b0, b1, b2, b3, b4, b5, b6, b7]
  {
  }

  lemma Swapped64(b0: byte, b1: byte, b2: byte, b3: byte, b4: byte, b5: byte, b6: byte, b7: byte)
    ensures Ntoh64(Assemble64(b0, b1, b2, b3, b4, b5, b6, b7)) == Assemble64(b7, b6, b5, b4, b3, b2, b1, b0)
  {
    hide *;
    FlatForm(b0, b1, b2, b3, b4, b5, b6, b7);
    FlatForm(b7, b6, b5, b4, b3, b2, b1, b0);
    SwappedFlat64(b0, b1, b2, b3, b4, b5, b6, b7);
  }

  lemma AssembledMemory64(b0: byte, b1: byte, b2: byte, b3: byte, b4: byte, b5: byte, b6: byte, b7: byte)
    ensures Memory64(Assemble64(b0, b1, b2, b3, b4, b5, b6, b7)) == [b0, b1, b2, b3, b4, b5, b6, b7]
  {
    hide *;
    FlatForm(b0, b1, b2, b3, b4, b5, b6, b7);
    FlatMemory64(b0, b1, b2, b3, b4, b5, b6, b7);
  }

  lemma ReceivedDigits64(b0: byte, b1: byte, b2: byte, b3: byte, b4: byte, b5: byte, b6: byte, b7: byte)
    ensures Digits64(Ntoh64(Assemble64(b0, b1, b2, b3, b4, b5, b6, b7))) == [b0, b1, b2, b3, b4, b5, b6, b7]
  {
    Swapped64(b0, b1, b2, b3, b4, b5, b6, b7);
    AssembledMemory64(b7, b6, b5, b4, b3, b2, b1, b0);
  }

  /** Eight shift-or steps followed by ntoh64 are the big-endian value of the eight bytes. */
  lemma Received64(bytes: seq<byte>)
    requires |bytes| == 8
    ensures Value64(Ntoh64(Gathered(bytes))) == BigEndian(bytes)
  {
    hide Ntoh64, Assemble64, Digits64;
    GatheredAll(bytes);
    ReceivedDigits64(bytes[0], bytes[1], bytes[2], bytes[3], bytes[4], bytes[5], bytes[6], bytes[7]);
    assert bytes == [bytes[0], bytes[1], bytes[2], bytes[3], bytes[4], bytes[5], bytes[6], bytes[7]];
  }

  /** What the writer puts on the wire is the size in network order, cut to the width of the field. */
  lemma Sent16(n: nat)
    ensures Memory16(Hton16(Truncate16(n))) == BigEndianBytes(n, 2)
  {
    var b := BigEndianBytes(n, 2);
    var x := Hton16((b[0] as bv16 << 8) | b[1] as bv16);
    assert (x & 0xFF) as byte == b[0] && ((x >> 8) & 0xFF) as byte == b[1];
  }

  lemma Sent64(n: nat)
    ensures Memory64(Hton64(Truncate64(n))) == BigEndianBytes(n, 8)
  {
    var b := BigEndianBytes(n, 8);
    var x := Assemble64(b[7], b[6], b[5], b[4], b[3], b[2], b[1], b[0]);
    assert Hton64(x) == Ntoh64(x);
    Swapped64(b[7], b[6], b[5], b[4], b[3], b[2], b[1], b[0]);
    AssembledMemory64(b[0], b[1], b[2], b[3], b[4], b[5], b[6], b[7]);
    assert b == [b[0], b[1], b[2], b[3], b[4], b[5], b[6], b[7]];
  }
}
