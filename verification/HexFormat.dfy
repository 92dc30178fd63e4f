/**
 Hexadecimal numbers on C++ streams: what std::hex and std::setw print, and what is extracted from it.
 */
module HexFormat {
  import opened Options

  function HexDigit(n: nat): char
    requires n < 16
  {
    "0123456789abcdef"[n]
  }

  predicate IsHex(c: char)
  {
    '0' <= c <= '9' || 'a' <= c <= 'f' || 'A' <= c <= 'F'
  }

  function HexValue(c: char): (n: nat)
    requires IsHex(c)
    ensures n < 16
  {
    if '0' <= c <= '9' then c as int - '0' as int
    else if 'a' <= c <= 'f' then c as int - 'a' as int + 10
    else c as int - 'A' as int + 10
  }

  predicate IsSpace(c: char)
  {
    c == ' ' || 9 <= c as int <= 13
  }

  function HexText(n: nat): string
  {
    if n < 16 then [HexDigit(n)] else HexText(n / 16) + [HexDigit(n % 16)]
  }

  function Spaces(n: nat): string
  {
    seq(n, _ => ' ')
  }

  /** os << std::setw(width) << std::hex << n */
  function Formatted(n: nat, width: nat): string
  {
    var text := HexText(n);
    if |text| < width then Spaces(width - |text|) + text else text
  }

  function SkipSpaces(s: string): string
  {
    if s != "" && IsSpace(s[0]) then SkipSpaces(s[1..]) else s
  }

  function Scan(s: string, value: nat): nat
    decreases |s|
  {
    if s != "" && IsHex(s[0]) then Scan(s[1..], value * 16 + HexValue(s[0])) else value
  }

  function Pow16(k: nat): (p: nat)
    ensures p > 0
  {
    if k == 0 then 1 else 16 * Pow16(k - 1)
  }

  function WithoutSign(s: string): string
  {
    if s != "" && (s[0] == '+' || s[0] == '-') then s[1..] else s
  }

  function WithoutPrefix(s: string): string
  {
    if |s| >= 2 && s[0] == '0' && (s[1] == 'x' || s[1] == 'X') then s[2..] else s
  }

  /**
   The number at the start of a stream: white space is skipped, and a sign and a base prefix may
   precede the digits.
   */
  function Number(s: string): Option<int>
  {
    var t := SkipSpaces(s);
    var digits := WithoutPrefix(WithoutSign(t));
    if digits == "" || !IsHex(digits[0]) then None
    else Some(if t[0] == '-' then 0 - Scan(digits, 0) else Scan(digits, 0))
  }

  /** Values of std::size_t, taken to have 64 bits. */
  const SIZE_LIMIT := Pow16(16)

  /** is >> std::hex >> n for a std::size_t: a negative number wraps around, one that is too large is an error. */
  function Extracted(s: string): Option<nat>
  {
    match Number(s)
    case None => None
    case Some(value) =>
      if 0 <= value < SIZE_LIMIT then Some(value)
      else if value < 0 && value + SIZE_LIMIT > 0 then Some(value + SIZE_LIMIT)
      else None
  }

  lemma DigitsAreHex(n: nat)
    requires n < 16
    ensures IsHex(HexDigit(n)) && HexValue(HexDigit(n)) == n && !IsSpace(HexDigit(n))
  {
  }

  lemma {:induction false} HexTextLength(n: nat, k: nat)
    requires k > 0
    ensures |HexText(n)| <= k <==> n < Pow16(k)
    ensures |HexText(n)| > 0
  {
    if n >= 16 {
      if k > 1 {
        HexTextLength(n / 16, k - 1);
        assert n / 16 < Pow16(k - 1) <==> n < 16 * Pow16(k - 1);
      } else {
        HexTextLength(n / 16, 1);
      }
    } else {
      assert Pow16(k) == 16 * Pow16(k - 1);
    }
  }

  lemma {:induction false} ScanAppend(s: string, value: nat, c: char)
    requires (forall d | d in s :: IsHex(d)) && IsHex(c)
    ensures Scan(s + [c], value) == Scan(s, value) * 16 + HexValue(c)
    decreases |s|
  {
    if s == "" {
      assert Scan([c][1..], value * 16 + HexValue(c)) == value * 16 + HexValue(c);
    } else {
      assert (s + [c])[1..] == s[1..] + [c];
      ScanAppend(s[1..], value * 16 + HexValue(s[0]), c);
    }
  }

  lemma {:induction false} ScanHexText(n: nat)
    ensures forall c | c in HexText(n) :: IsHex(c) && !IsSpace(c)
    ensures Scan(HexText(n), 0) == n
  {
    DigitsAreHex(n % 16);
    if n < 16 {
      ScanAppend("", 0, HexDigit(n));
      assert "" + [HexDigit(n)] == HexText(n);
    } else {
      ScanHexText(n / 16);
      ScanAppend(HexText(n / 16), 0, HexDigit(n % 16));
    }
  }

  lemma {:induction false} SkipLeadingSpaces(k: nat, text: string)
    requires text == "" || !IsSpace(text[0])
    ensures SkipSpaces(Spaces(k) + text) == text
  {
    if k == 0 {
      assert Spaces(0) + text == text;
    } else {
      assert (Spaces(k) + text)[1..] == Spaces(k - 1) + text;
      SkipLeadingSpaces(k - 1, text);
    }
  }

  /** Digits after any number of spaces are read as the number they write. */
  lemma NumberOfDigits(k: nat, text: string)
    requires text != "" && forall c | c in text :: IsHex(c) && !IsSpace(c)
    ensures Number(Spaces(k) + text) == Some(Scan(text, 0))
  {
    hide Scan;
    assert text[0] in text && (|text| >= 2 ==> text[1] in text);
    SkipLeadingSpaces(k, text);
  }

  predicate LowerHexDigit(c: char)
  {
    '0' <= c <= '9' || 'a' <= c <= 'f'
  }

  lemma LowerDigits(n: nat)
    requires n < 16
    ensures LowerHexDigit(HexDigit(n)) && (HexDigit(n) == '0' <==> n == 0)
  {
  }

  lemma {:induction false} HexTextCharacters(n: nat)
    ensures var t := HexText(n);
            && t != ""
            && (forall i | 0 <= i < |t| :: LowerHexDigit(t[i]))
            && (t[0] == '0' ==> n == 0 && t == "0")
  {
    LowerDigits(n % 16);
    if n >= 16 {
      HexTextCharacters(n / 16);
    }
  }

  /**
   What is printed for a number: as many spaces as are missing in the width, then lower-case
   hexadecimal digits without a leading zero, which write the number.
   */
  lemma FormattedCharacters(n: nat, width: nat) returns (k: nat)
    ensures var s := Formatted(n, width);
            && k < |s|
            && (forall i | 0 <= i < k :: s[i] == ' ')
            && (forall i | k <= i < |s| :: '0' <= s[i] <= '9' || 'a' <= s[i] <= 'f')
            && (s[k] == '0' ==> n == 0 && |s| == k + 1)
            && (k > 0 ==> |s| == width) && |s| >= width
            && Scan(s[k..], 0) == n
  {
    hide Scan, HexText;
    var t := HexText(n);
    HexTextCharacters(n);
    ScanHexText(n);
    k := |Formatted(n, width)| - |t|;
    assert Formatted(n, width)[k..] == t;
    assert forall i | k <= i < |Formatted(n, width)| :: Formatted(n, width)[i] == t[i - k];
  }

  /** The digits have their usual values, and white space is what the C locale says. */
  lemma DigitValues(c: char)
    ensures IsHex(c) <==> c in {'0', '1', '2', '3', '4', '5', '6', '7', '8', '9',
                                'a', 'b', 'c', 'd', 'e', 'f', 'A', 'B', 'C', 'D', 'E', 'F'}
    ensures IsSpace(c) <==> c in {' ', '\t', '\n', '\r', 11 as char, 12 as char}
    ensures '0' <= c <= '9' ==> HexValue(c) == c as int - 48
    ensures c in {'a', 'A'} ==> HexValue(c) == 10
    ensures c in {'b', 'B'} ==> HexValue(c) == 11
    ensures c in {'c', 'C'} ==> HexValue(c) == 12
    ensures c in {'d', 'D'} ==> HexValue(c) == 13
    ensures c in {'e', 'E'} ==> HexValue(c) == 14
    ensures c in {'f', 'F'} ==> HexValue(c) == 15
  {
  }

  lemma Powers()
    ensures Pow16(8) == 0x1_0000_0000 && SIZE_LIMIT == 0x1_0000_0000_0000_0000
  {
    assert Pow16(1) == 16 && Pow16(2) == 256 && Pow16(3) == 4096 && Pow16(4) == 65536;
    assert Pow16(5) == 0x10_0000 && Pow16(6) == 0x100_0000 && Pow16(7) == 0x1000_0000 && Pow16(8) == 0x1_0000_0000;
    assert Pow16(9) == 16 * Pow16(8) && Pow16(10) == 16 * Pow16(9) && Pow16(11) == 16 * Pow16(10);
    assert Pow16(12) == 16 * Pow16(11) && Pow16(13) == 16 * Pow16(12) && Pow16(14) == 16 * Pow16(13);
    assert Pow16(15) == 16 * Pow16(14) && Pow16(16) == 16 * Pow16(15);
  }

  /** A minus sign is accepted, and the number wraps around. */
  lemma NegativeWrapsAround(n: nat)
    requires 0 < n < SIZE_LIMIT
    ensures Extracted("-" + HexText(n)) == Some(SIZE_LIMIT - n)
  {
    hide Pow16, Scan, HexText;
    var text := HexText(n);
    HexTextCharacters(n);
    ScanHexText(n);
    assert ("-" + text)[1..] == text;
    assert |text| >= 2 ==> LowerHexDigit(text[1]);
  }

  /** What was formatted is extracted again, at any width, if it fits. */
  lemma FormattedRoundTrip(n: nat, width: nat)
    ensures Extracted(Formatted(n, width)) == if n < SIZE_LIMIT then Some(n) else None
  {
    hide Pow16, Scan, HexText, Number, IsHex, IsSpace;
    var text := HexText(n);
    HexTextLength(n, 1);
    ScanHexText(n);
    NumberOfDigits(if |text| < width then width - |text| else 0, text);
    assert Spaces(0) + text == text;
  }
}
