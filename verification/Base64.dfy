/**
 `to_base64`: the chain of iterators that turns bytes into 6-bit values, these into
 characters, and breaks the text every 72 characters; and the decoder of section 4 of
 RFC 4648 that undoes it.
 */
module Base64 {
  import opened Octets
  import opened Options

  /** Table 1 of RFC 4648. */
  function Alphabet(s: byte): char
    requires s < 64
  {
    var n := s as int;
    Bounded(s);
    if n < 26 then (65 + n) as char
    else if n < 52 then (71 + n) as char
    else if n < 62 then (n - 4) as char
    else if n == 62 then '+'
    else '/'
  }

  lemma Bounded(s: byte)
    requires s < 64
    ensures s as int < 64
  {
  }

  predicate InAlphabet(c: char)
  {
    'A' <= c <= 'Z' || 'a' <= c <= 'z' || '0' <= c <= '9' || c == '+' || c == '/'
  }

  /** The value of a character of the table. */
  function ValueOf(c: char): (s: byte)
    requires InAlphabet(c)
  {
    if 'A' <= c <= 'Z' then (c as int - 65) as byte
    else if 'a' <= c <= 'z' then (c as int - 71) as byte
    else if '0' <= c <= '9' then (c as int + 4) as byte
    else if c == '+' then 62
    else 63
  }

  const UPPER := "ABCDEFGHIJKLMNOPQRSTUVWXYZ"
  const LOWER := "abcdefghijklmnopqrstuvwxyz"
  const NUMERALS := "0123456789"

  lemma Letters(n: nat)
    requires n < 26
    ensures UPPER[n] as int == 65 + n && LOWER[n] as int == 97 + n
    ensures n < 10 ==> NUMERALS[n] as int == 48 + n
  {
    assert |UPPER| == 26 && |LOWER| == 26;
  }

  /** The characters are those of Table 1 of RFC 4648, in its order. */
  lemma TableOfRfc(s: byte)
    requires s < 64
    ensures |UPPER + LOWER + NUMERALS + "+/"| == 64
    ensures Alphabet(s) == (UPPER + LOWER + NUMERALS + "+/")[s as int]
  {
    Bounded(s);
    var n := s as int;
    if n < 26 {
      Letters(n);
    } else if n < 52 {
      Letters(n - 26);
    } else if n < 62 {
      Letters(n - 52);
    }
  }

  lemma TableIsInvertible(s: byte)
    requires s < 64
    ensures InAlphabet(Alphabet(s)) && ValueOf(Alphabet(s)) == s
  {
    Bounded(s);
    assert s as int as byte == s;
  }

  /** The four 6-bit values of three bytes, from the most significant bit on. */
  function Sextet(a: byte, b: byte, c: byte, k: nat): (s: byte)
    requires k < 4
    ensures s < 64
  {
    match k
    case 0 => a >> 2
    case 1 => ((a & 0x3) << 4) | (b >> 4)
    case 2 => ((b & 0xF) << 2) | (c >> 6)
    case 3 => c & 0x3F
  }

  /** transform_width: value number `k` of a buffer of whole groups of three bytes. */
  function SextetAt(buff: seq<byte>, k: nat): (s: byte)
    requires |buff| % 3 == 0 && k / 4 * 3 < |buff|
    ensures s < 64
  {
    var g := k / 4 * 3;
    Sextet(buff[g], buff[g + 1], buff[g + 2], k % 4)
  }

  function PadCount(n: nat): (p: nat)
    ensures p < 3 && (n + p) % 3 == 0
  {
    if n % 3 != 0 then 3 - n % 3 else 0
  }

  function Zeros(n: nat): seq<byte>
  {
    seq(n, _ => 0 as byte)
  }

  function Padded(data: seq<byte>): (buff: seq<byte>)
    ensures |buff| % 3 == 0
  {
    data + Zeros(PadCount(|data|))
  }

  /** The values that the data itself yields: six bits each, the last one filled up with zero bits. */
  function SextetCount(n: nat): nat
  {
    (8 * n + 5) / 6
  }

  lemma CountFits(n: nat, k: nat)
    requires k < SextetCount(n)
    ensures k / 4 * 3 < n + PadCount(n)
  {
  }

  function Characters(data: seq<byte>): (r: string)
    ensures |r| == SextetCount(|data|)
  {
    seq(SextetCount(|data|), k requires 0 <= k < SextetCount(|data|) =>
      (CountFits(|data|, k); Alphabet(SextetAt(Padded(data), k))))
  }

  const LINE := 72

  /** insert_linebreaks: a break between every 72 characters and the next. */
  function Broken(chars: string): string
    decreases |chars|
  {
    if |chars| <= LINE then chars else chars[..LINE] + "\n" + Broken(chars[LINE..])
  }

  function Equals(n: nat): string
  {
    seq(n, _ => '=')
  }

  function Encoded(data: seq<byte>): string
  {
    Broken(Characters(data)) + Equals(PadCount(|data|))
  }

  /** The length of a text with its breaks. */
  lemma {:induction false} BrokenLength(chars: string)
    ensures |Broken(chars)| == |chars| + (if chars == "" then 0 else (|chars| - 1) / 72)
    decreases |chars|
  {
    if |chars| > LINE {
      BrokenLength(chars[LINE..]);
    }
  }

  lemma BrokenOfPrefix(chars: string, n: nat)
    requires n < |chars|
    ensures Broken(chars[..n + 1]) ==
            Broken(chars[..n]) + (if n > 0 && n % LINE == 0 then "\n" else "") + [chars[n]]
    decreases n
  {
    hide Broken;
    if n <= LINE {
      AtFirstBreak(chars, n);
    } else {
      var rest := chars[LINE..];
      FirstLine(chars, n + 1);
      FirstLine(chars, n);
      BrokenOfPrefix(rest, n - LINE);
      assert (n - LINE) % LINE == n % LINE && rest[n - LINE] == chars[n];
      Regroup(chars[..LINE], Broken(rest[..n - LINE]), if n % LINE == 0 then "\n" else "", [chars[n]]);
    }
  }

  lemma AtFirstBreak(chars: string, n: nat)
    requires n < |chars| && n <= LINE
    ensures Broken(chars[..n + 1]) == Broken(chars[..n]) + (if n == LINE then "\n" else "") + [chars[n]]
  {
    ShortLine(chars[..n]);
    if n < LINE {
      ShortLine(chars[..n + 1]);
      assert chars[..n + 1] == chars[..n] + [chars[n]];
    } else {
      FirstLine(chars, n + 1);
      ShortLine(chars[LINE..][..1]);
    }
  }

  lemma ShortLine(chars: string)
    requires |chars| <= LINE
    ensures Broken(chars) == chars
  {
  }

  lemma FirstLine(chars: string, n: nat)
    requires LINE < n <= |chars|
    ensures Broken(chars[..n]) == chars[..LINE] + "\n" + Broken(chars[LINE..][..n - LINE])
  {
    assert chars[..n][..LINE] == chars[..LINE] && chars[..n][LINE..] == chars[LINE..][..n - LINE];
  }

  lemma Regroup(a: string, b: string, c: string, d: string)
    ensures a + "\n" + (b + c + d) == a + "\n" + b + c + d
  {
  }

  /** The number of characters in the last line of a text of `k` characters. */
  function LineFill(k: nat): nat
  {
    if k == 0 then 0 else (k - 1) % LINE + 1
  }

  lemma NothingBroken()
    ensures Broken("") == "" && LineFill(0) == 0
  {
  }

  lemma LineFillNext(k: nat)
    ensures LineFill(k) == LINE <==> k > 0 && k % LINE == 0
    ensures LineFill(k + 1) == if LineFill(k) == LINE then 1 else LineFill(k) + 1
  {
  }

  method ToBase64(data: seq<byte>) returns (result: string)
    requires data != []
    ensures result == Encoded(data)
  {
    hide Alphabet, SextetAt, Broken, LineFill;
    var padChars := if |data| % 3 != 0 then 3 - |data| % 3 else 0;
    var buff := data + Zeros(padChars);
    result := "";
    var inLine := 0;
    ghost var chars := Characters(data);
    NothingBroken();
    for k := 0 to SextetCount(|data|)
      invariant result == Broken(chars[..k])
      invariant inLine == LineFill(k)
    {
      CountFits(|data|, k);
      BrokenOfPrefix(chars, k);
      LineFillNext(k);
      if inLine == LINE {
        result := result + "\n";
        inLine := 0;
      }
      result := result + [Alphabet(SextetAt(buff, k))];
      inLine := inLine + 1;
    }
    assert chars[..|chars|] == chars;
    result := result + Equals(padChars);
  }

  // ----- the decoder of RFC 4648 -----

  function StripBreaks(s: string): string
  {
    if s == "" then ""
    else if s[0] == '\n' then StripBreaks(s[1..])
    else [s[0]] + StripBreaks(s[1..])
  }

  /** Three bytes from four 6-bit values. */
  function Triple(v0: byte, v1: byte, v2: byte, v3: byte): seq<byte>
  {
    [(v0 << 2) | (v1 >> 4), (v1 << 4) | (v2 >> 2), (v2 << 6) | v3]
  }

  /** Four characters; only the last four may be padded, and then they hold one or two bytes. */
  function DecodeQuad(q: string, last: bool): Option<seq<byte>>
    requires |q| == 4
  {
    if !InAlphabet(q[0]) || !InAlphabet(q[1]) then
      None
    else if last && q[2] == '=' && q[3] == '=' then
      Some(Triple(ValueOf(q[0]), ValueOf(q[1]), 0, 0)[..1])
    else if !InAlphabet(q[2]) then
      None
    else if last && q[3] == '=' then
      Some(Triple(ValueOf(q[0]), ValueOf(q[1]), ValueOf(q[2]), 0)[..2])
    else if !InAlphabet(q[3]) then
      None
    else
      Some(Triple(ValueOf(q[0]), ValueOf(q[1]), ValueOf(q[2]), ValueOf(q[3])))
  }

  function Decode(s: string): Option<seq<byte>>
    decreases |s|
  {
    if s == "" then Some([])
    else if |s| < 4 then None
    else
      match DecodeQuad(s[..4], |s| == 4)
      case None => None
      case Some(bytes) =>
        match Decode(s[4..])
        case None => None
        case Some(rest) => Some(bytes + rest)
  }

  /** The encoding without its breaks. */
  function Unbroken(data: seq<byte>): string
  {
    Characters(data) + Equals(PadCount(|data|))
  }

  lemma SextetsRegroup(a: byte, b: byte, c: byte)
    ensures Triple(Sextet(a, b, c, 0), Sextet(a, b, c, 1), Sextet(a, b, c, 2), Sextet(a, b, c, 3)) == [a, b, c]
    ensures Sextet(a, b, 0, 3) == 0 && Sextet(a, 0, 0, 2) == 0
  {
  }

  /** The alphabet character for one value of a group. */
  function Symbol(a: byte, b: byte, c: byte, k: nat): char
    requires k < 4
  {
    Alphabet(Sextet(a, b, c, k))
  }

  lemma CharacterOfGroup(data: seq<byte>, k: nat)
    requires k < SextetCount(|data|)
    ensures var g := k / 4 * 3;
            g + 2 < |Padded(data)|
            && Characters(data)[k] == Symbol(Padded(data)[g], Padded(data)[g + 1], Padded(data)[g + 2], k % 4)
  {
    CountFits(|data|, k);
    hide Alphabet, Sextet;
  }

  /** The last one, two or three bytes. */
  lemma LastGroup(data: seq<byte>)
    requires 1 <= |data| <= 3
    ensures |Unbroken(data)| == 4
    ensures DecodeQuad(Unbroken(data), true) == Some(data)
    ensures |data| == 3 ==> DecodeQuad(Unbroken(data), false) == Some(data)
  {
    hide Alphabet, Sextet, Triple, ValueOf, InAlphabet, Characters;
    var a := data[0];
    var b := if |data| > 1 then data[1] else 0;
    var c := if |data| > 2 then data[2] else 0;
    var u := Unbroken(data);
    assert Padded(data) == [a, b, c];
    SextetsRegroup(a, b, c);
    forall k | 0 <= k <= |data|
      ensures InAlphabet(u[k]) && ValueOf(u[k]) == Sextet(a, b, c, k)
    {
      CharacterOfGroup(data, k);
      assert u[k] == Characters(data)[k];
      TableIsInvertible(Sextet(a, b, c, k));
    }
    PaddingIsNoSymbol();
    assert |data| == 1 ==> u[2] == '=' && u[3] == '=' && data == [a, b, c][..1];
    assert |data| == 2 ==> u[3] == '=' && data == [a, b, c][..2];
    assert |data| == 3 ==> data == [a, b, c];
  }

  lemma PaddingIsNoSymbol()
    ensures !InAlphabet('=') && !InAlphabet('\n')
  {
  }

  /** Three bytes more are four characters more, and the padding stays the same. */
  lemma CountsOfRest(n: nat)
    requires n > 3
    ensures SextetCount(3) == 4 && SextetCount(n) == 4 + SextetCount(n - 3)
    ensures PadCount(3) == 0 && PadCount(n) == PadCount(n - 3)
  {
  }

  lemma PaddedRest(data: seq<byte>)
    requires |data| > 3
    ensures Padded(data) == data[..3] + Padded(data[3..])
  {
    hide PadCount, Zeros;
    CountsOfRest(|data|);
    SplitAtThree(data, Zeros(PadCount(|data|)));
  }

  lemma SplitAtThree(s: seq<byte>, t: seq<byte>)
    requires |s| >= 3
    ensures s + t == s[..3] + (s[3..] + t)
  {
  }

  /** From the fifth on, the characters are those of the data without its first group. */
  lemma LaterCharacter(data: seq<byte>, k: nat)
    requires |data| > 3 && 4 <= k < SextetCount(|data|)
    ensures k - 4 < SextetCount(|data| - 3)
    ensures Characters(data)[k] == Characters(data[3..])[k - 4]
  {
    hide Symbol, Characters, Padded;
    CharacterOfGroup(data, k);
    CharacterOfGroup(data[3..], k - 4);
    PaddedRest(data);
    var g := k / 4 * 3;
    assert (k - 4) / 4 * 3 == g - 3 && (k - 4) % 4 == k % 4;
    LaterIndex(data[..3], Padded(data[3..]), g);
  }

  lemma LaterIndex(first: seq<byte>, rest: seq<byte>, g: nat)
    requires |first| == 3 && 3 <= g && g + 2 < 3 + |rest|
    ensures var all := first + rest;
            all[g] == rest[g - 3] && all[g + 1] == rest[g - 2] && all[g + 2] == rest[g - 1]
  {
  }

  lemma EarlyCharacter(data: seq<byte>, k: nat)
    requires |data| > 3 && k < 4
    ensures k < SextetCount(|data|)
    ensures Characters(data)[k] == Characters(data[..3])[k]
  {
    hide Alphabet, Sextet, SextetAt, Characters;
    CharacterOfGroup(data, k);
    CharacterOfGroup(data[..3], k);
    assert Padded(data[..3]) == data[..3];
  }

  lemma FirstCharacters(data: seq<byte>)
    requires |data| > 3
    ensures Characters(data) == Characters(data[..3]) + Characters(data[3..])
  {
    hide Alphabet, SextetAt, Padded, SextetCount, PadCount;
    CountsOfRest(|data|);
    var first, rest := Characters(data[..3]), Characters(data[3..]);
    forall k | 0 <= k < |Characters(data)|
      ensures Characters(data)[k] == (first + rest)[k]
    {
      if k < 4 {
        EarlyCharacter(data, k);
      } else {
        LaterCharacter(data, k);
      }
    }
  }

  lemma FirstGroup(data: seq<byte>)
    requires |data| > 3
    ensures Unbroken(data) == Unbroken(data[..3]) + Unbroken(data[3..])
  {
    hide Characters, SextetCount, PadCount;
    CountsOfRest(|data|);
    FirstCharacters(data);
    assert Equals(0) == "";
  }

  lemma {:induction false} UnbrokenRoundTrip(data: seq<byte>)
    ensures Decode(Unbroken(data)) == Some(data)
    ensures |Unbroken(data)| == (|data| + 2) / 3 * 4
    decreases |data|
  {
    hide Characters, DecodeQuad, Unbroken, SextetCount, PadCount;
    if data == [] {
      EmptyEncoding();
    } else if |data| <= 3 {
      LastGroup(data);
      LastQuad(Unbroken(data), data);
    } else {
      FirstGroup(data);
      LastGroup(data[..3]);
      UnbrokenRoundTrip(data[3..]);
      NextQuad(Unbroken(data[..3]), Unbroken(data[3..]), data[..3], data[3..]);
      assert data == data[..3] + data[3..];
    }
  }

  lemma EmptyEncoding()
    ensures Unbroken([]) == ""
  {
  }

  lemma LastQuad(q: string, bytes: seq<byte>)
    requires |q| == 4 && DecodeQuad(q, true) == Some(bytes)
    ensures Decode(q) == Some(bytes)
  {
    hide DecodeQuad;
    assert q[..4] == q && q[4..] == "" && bytes + [] == bytes;
  }

  lemma NextQuad(q: string, s: string, bytes: seq<byte>, rest: seq<byte>)
    requires |q| == 4 && s != "" && DecodeQuad(q, false) == Some(bytes) && Decode(s) == Some(rest)
    ensures Decode(q + s) == Some(bytes + rest)
  {
    hide DecodeQuad;
    assert (q + s)[..4] == q && (q + s)[4..] == s;
  }

  ghost predicate NoBreaks(s: string)
  {
    '\n' !in s
  }

  lemma CharactersHaveNoBreaks(data: seq<byte>)
    ensures NoBreaks(Characters(data)) && forall c | c in Characters(data) :: InAlphabet(c)
  {
    hide Alphabet, SextetAt, InAlphabet;
    PaddingIsNoSymbol();
    forall k | 0 <= k < SextetCount(|data|)
      ensures InAlphabet(Characters(data)[k])
    {
      CountFits(|data|, k);
      TableIsInvertible(SextetAt(Padded(data), k));
    }
  }

  lemma HeadOfConcat(a: string, b: string)
    requires a != ""
    ensures a + b != "" && (a + b)[0] == a[0] && (a + b)[1..] == a[1..] + b
  {
  }

  lemma Associates(a: string, b: string, c: string)
    ensures a + b + c == a + (b + c)
  {
  }

  lemma {:induction false} StripConcat(a: string, b: string)
    ensures StripBreaks(a + b) == StripBreaks(a) + StripBreaks(b)
    decreases |a|
  {
    if a == "" {
      assert a + b == b;
    } else {
      StripConcat(a[1..], b);
      HeadOfConcat(a, b);
      Associates([a[0]], StripBreaks(a[1..]), StripBreaks(b));
    }
  }

  lemma {:induction false} StripNothing(s: string)
    requires NoBreaks(s)
    ensures StripBreaks(s) == s
    decreases |s|
  {
    if s != "" {
      StripNothing(s[1..]);
    }
  }

  lemma StripBreak()
    ensures StripBreaks("\n") == ""
  {
  }

  lemma {:induction false} StripBroken(chars: string)
    requires NoBreaks(chars)
    ensures StripBreaks(Broken(chars)) == chars
    decreases |chars|
  {
    if |chars| <= LINE {
      StripNothing(chars);
    } else {
      var line, rest := chars[..LINE], chars[LINE..];
      StripBroken(rest);
      StripNothing(line);
      hide StripBreaks;
      StripConcat(line + "\n", Broken(rest));
      StripConcat(line, "\n");
      StripBreak();
    }
  }

  /**
   Section 4 of RFC 4648: removing the breaks and decoding gives the bytes back, for every
   byte string; without breaks there are four characters for every three bytes begun.
   */
  lemma Base64RoundTrip(data: seq<byte>)
    ensures Decode(StripBreaks(Encoded(data))) == Some(data)
    ensures |StripBreaks(Encoded(data))| == (|data| + 2) / 3 * 4
  {
    hide Characters, Broken, StripBreaks, Decode;
    CharactersHaveNoBreaks(data);
    var chars, pads := Characters(data), Equals(PadCount(|data|));
    StripConcat(Broken(chars), pads);
    StripBroken(chars);
    StripNothing(pads);
    UnbrokenRoundTrip(data);
  }

  /** A break follows every 72 characters that are followed by another, and nothing else changes. */
  lemma {:induction false} BreakPositions(chars: string, i: nat)
    requires NoBreaks(chars) && i < |Broken(chars)|
    ensures Broken(chars)[i] == '\n' <==> i % 73 == 72
    ensures i % 73 != 72 ==> i - i / 73 < |chars| && Broken(chars)[i] == chars[i - i / 73]
    decreases |chars|
  {
    if |chars| > LINE && i > LINE {
      var k := i - LINE - 1;
      assert Broken(chars)[i] == Broken(chars[LINE..])[k];
      BreakPositions(chars[LINE..], k);
      LineFurther(k);
      hide Broken;
    } else if |chars| <= LINE {
      assert Broken(chars)[i] == chars[i];
    }
  }

  lemma LineFurther(k: nat)
    ensures (k + LINE + 1) / (LINE + 1) == k / (LINE + 1) + 1
    ensures (k + LINE + 1) % (LINE + 1) == k % (LINE + 1)
  {
  }
}
