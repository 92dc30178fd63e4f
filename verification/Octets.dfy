/**
 Bytes on the wire and the numbers they write in network order.
 */
module Octets {

  type byte = bv8

  /** A byte as the character with that code. */
  function ToChar(b: byte): (c: char)
    ensures c as int == b as int
  {
    ByteBound(b);
    (b as int) as char
  }

  lemma ByteBound(b: byte)
    ensures b as int < 256
  {
  }

  /** Operator ^ on bytes. */
  function Xor(a: byte, b: byte): byte
  {
    a ^ b
  }

  function BitMask(k: nat): (m: byte)
    requires k < 8
    ensures SingleBit(m)
  {
    match k
    case 0 => 0x01
    case 1 => 0x02
    case 2 => 0x04
    case 3 => 0x08
    case 4 => 0x10
    case 5 => 0x20
    case 6 => 0x40
    case 7 => 0x80
  }

  predicate SingleBit(m: byte)
  {
    m != 0 && m & (m - 1) == 0
  }

  /** Bit number `k` of a byte, counted from the least significant one. */
  predicate Bit(b: byte, k: nat)
    requires k < 8
  {
    b & BitMask(k) != 0
  }

  lemma XorUnderMask(a: byte, b: byte, m: byte)
    requires SingleBit(m)
    ensures Xor(a, b) & m != 0 <==> (a & m != 0) != (b & m != 0)
  {
  }

  /** A bit of the result is set if it is set in exactly one of the operands. */
  lemma XorOfBits(a: byte, b: byte, k: nat)
    requires k < 8
    ensures Bit(Xor(a, b), k) <==> Bit(a, k) != Bit(b, k)
  {
    hide Xor, SingleBit, BitMask;
    XorUnderMask(a, b, BitMask(k));
  }

  lemma XorCancels(a: byte, b: byte)
    ensures Xor(Xor(a, b), b) == a
    ensures Xor(a, b) == a <==> b == 0
  {
  }

  lemma ByteValue(n: nat)
    requires n < 256
    ensures (n as byte) as nat == n
  {
    var b := ByteFor(n);
    assert (b as nat) as byte == b;
  }

  lemma {:induction false} ByteFor(n: nat) returns (b: byte)
    requires n < 256
    ensures b as nat == n
  {
    if n == 0 {
      b := 0;
    } else {
      var p := ByteFor(n - 1);
      Successor(p);
      b := p + 1;
    }
  }

  lemma Successor(p: byte)
    requires p as nat < 255
    ensures (p + 1) as nat == p as nat + 1
  {
  }

  /** The number written by `bytes` in network order, most significant byte first. */
  function BigEndian(bytes: seq<byte>): (n: nat)
  {
    if bytes == [] then 0
    else BigEndian(bytes[..|bytes| - 1]) * 256 + bytes[|bytes| - 1] as nat
  }

  function Pow256(k: nat): (p: nat)
    ensures p > 0
  {
    if k == 0 then 1 else 256 * Pow256(k - 1)
  }

  /** The `k` low-order bytes of `n` in network order. */
  function BigEndianBytes(n: nat, k: nat): (bytes: seq<byte>)
    ensures |bytes| == k
  {
    if k == 0 then [] else BigEndianBytes(n / 256, k - 1) + [(n % 256) as byte]
  }

  lemma {:induction false} BigEndianRoundTrip(n: nat, k: nat)
    ensures BigEndian(BigEndianBytes(n, k)) == n % Pow256(k)
  {
    if k > 0 {
      BigEndianRoundTrip(n / 256, k - 1);
      ByteValue(n % 256);
      DigitSplit(n, Pow256(k - 1));
    } else {
      assert n % 1 == 0;
    }
  }

  lemma {:induction false} BigEndianIsInjective(bytes: seq<byte>)
    ensures BigEndianBytes(BigEndian(bytes), |bytes|) == bytes
    ensures BigEndian(bytes) < Pow256(|bytes|)
  {
    if bytes != [] {
      hide BigEndian, BigEndianBytes, Pow256;
      var front, last := bytes[..|bytes| - 1], bytes[|bytes| - 1];
      assert bytes == front + [last];
      BigEndianIsInjective(front);
      NextValue(front, last);
      SameByte(last);
      JoinNext(BigEndian(front), last as nat, |front|);
    }
  }

  lemma JoinNext(q: nat, r: nat, k: nat)
    requires r < 256
    ensures BigEndianBytes(q * 256 + r, k + 1) == BigEndianBytes(q, k) + [r as byte]
    ensures q < Pow256(k) ==> q * 256 + r < Pow256(k + 1)
  {
    NextByte(q, r, k);
    hide BigEndianBytes;
    DigitJoin(q, r, Pow256(k));
    PowNext(k);
  }

  lemma PowNext(k: nat)
    ensures Pow256(k + 1) == 256 * Pow256(k)
  {
  }

  lemma NextValue(front: seq<byte>, last: byte)
    ensures BigEndian(front + [last]) == BigEndian(front) * 256 + last as nat
  {
    assert (front + [last])[..|front|] == front;
  }

  lemma NextByte(q: nat, r: nat, k: nat)
    requires r < 256
    ensures BigEndianBytes(q * 256 + r, k + 1) == BigEndianBytes(q, k) + [r as byte]
  {
    DigitJoin(q, r, 0);
  }

  lemma SameByte(b: byte)
    ensures b as nat < 256 && (b as nat) as byte == b
  {
  }

  lemma DigitJoin(q: nat, r: nat, p: nat)
    requires r < 256
    ensures (q * 256 + r) / 256 == q && (q * 256 + r) % 256 == r
    ensures q < p ==> q * 256 + r < 256 * p
  {
  }

  /** The top bit of a number is that of its first byte. */
  lemma {:induction false} TopBit(bytes: seq<byte>)
    requires bytes != []
    ensures BigEndian(bytes) < 128 * Pow256(|bytes| - 1) <==> bytes[0] < 0x80
  {
    var front, last := bytes[..|bytes| - 1], bytes[|bytes| - 1];
    ByteBound(last);
    if front == [] {
      assert BigEndian(front) == 0;
      HalfByte(bytes[0]);
    } else {
      TopBit(front);
      assert front[0] == bytes[0];
      assert Pow256(|bytes| - 1) == 256 * Pow256(|bytes| - 2);
    }
  }

  lemma HalfByte(b: byte)
    ensures b < 0x80 <==> b as nat < 128
  {
  }

  lemma DigitSplit(n: nat, p: nat)
    requires p > 0
    ensures (n / 256 % p) * 256 + n % 256 == n % (256 * p)
  {
    var q, r := n / 256, n % 256;
    var a, b := q / p, q % p;
    assert n == 256 * q + r && q == p * a + b;
    assert n == (256 * p) * a + (256 * b + r) by {
      assert 256 * (p * a) == (256 * p) * a;
    }
    assert 256 * b + r < 256 * p;
    QuotientIsUnique(n, 256 * p, a, 256 * b + r);
  }

  lemma QuotientIsUnique(n: nat, d: nat, a: nat, r: nat)
    requires d > 0 && r < d && n == d * a + r
    ensures n % d == r
  {
    var q := n / d;
    assert n == d * q + n % d;
    assert q < a ==> d * (q + 1) <= d * a;
    assert a < q ==> d * (a + 1) <= d * q;
  }
}
