/**
 The path that the HTTP request handler looks up: URL decoding, the checks on the decoded
 path, and the file extension. Opening the file is not part of this model. A character
 stands for one byte.
 */
module RequestHandling {
  import opened HexFormat
  import opened Options

  // ----- two characters after a percent sign -----

  /** istringstream(two) >> std::hex >> value for two characters. */
  function ExtractTwo(a: char, b: char): (r: Option<int>)
    ensures r.Some? ==> -16 < r.value < 256
    ensures IsHex(a) && IsHex(b) ==> r == Some(16 * HexValue(a) + HexValue(b))
    ensures IsHex(a) && !IsHex(b) ==> r == if a == '0' && (b == 'x' || b == 'X') then None else Some(HexValue(a))
    ensures !IsHex(a) ==>
      r == if !IsHex(b) then None
           else if a == '-' then Some(0 - HexValue(b))
           else if IsSpace(a) || a == '+' then Some(HexValue(b))
           else None
  {
    TwoCharacters(a, b);
    Number([a, b])
  }

  lemma TwoCharacters(a: char, b: char)
    ensures Number([a, b]) ==
            if IsHex(a) && IsHex(b) then Some(16 * HexValue(a) + HexValue(b))
            else if IsHex(a) then (if a == '0' && (b == 'x' || b == 'X') then None else Some(HexValue(a)))
            else if !IsHex(b) then None
            else if a == '-' then Some(0 - HexValue(b))
            else if IsSpace(a) || a == '+' then Some(HexValue(b))
            else None
  {
    hide HexValue;
    var s := [a, b];
    assert s[1..] == [b] && s[2..] == "" && [b][1..] == "";
    if IsHex(b) {
      assert Scan([b], 0) == 0 * 16 + HexValue(b) == HexValue(b);
    }
    if IsHex(a) {
      assert SkipSpaces(s) == s == WithoutSign(s);
      assert Scan(s, 0) == Scan([b], HexValue(a)) == if IsHex(b) then HexValue(a) * 16 + HexValue(b) else HexValue(a);
    } else if IsSpace(a) {
      assert SkipSpaces(s) == SkipSpaces([b]) == if IsSpace(b) then "" else [b];
      assert IsHex(b) ==> WithoutPrefix(WithoutSign([b])) == [b];
    } else {
      assert SkipSpaces(s) == s;
    }
  }

  /** static_cast<char>: the byte that a number leaves. */
  function AsByte(value: int): (c: char)
    requires -16 < value < 256
  {
    ((value + 256) % 256) as char
  }

  // ----- url_decode -----

  function Prepend(c: char, rest: Option<string>): Option<string>
  {
    match rest
    case None => None
    case Some(s) => Some([c] + s)
  }

  function Decoded(s: string): Option<string>
    decreases |s|
  {
    if s == "" then Some("")
    else if s[0] == '%' then
      if |s| < 3 then None
      else
        match ExtractTwo(s[1], s[2])
        case None => None
        case Some(value) => Prepend(AsByte(value), Decoded(s[3..]))
    else if s[0] == '+' then Prepend(' ', Decoded(s[1..]))
    else Prepend(s[0], Decoded(s[1..]))
  }

  function PrependAll(front: string, rest: Option<string>): Option<string>
  {
    match rest
    case None => None
    case Some(s) => Some(front + s)
  }

  lemma PrependNext(front: string, c: char, rest: Option<string>)
    ensures PrependAll(front, Prepend(c, rest)) == PrependAll(front + [c], rest)
  {
    if rest.Some? {
      assert front + ([c] + rest.value) == front + [c] + rest.value;
    }
  }

  lemma NothingPrepended(s: string)
    ensures Decoded(s) == PrependAll("", Decoded(s[0..]))
  {
    assert s[0..] == s;
    assert Decoded(s).Some? ==> "" + Decoded(s).value == Decoded(s).value;
  }

  method UrlDecode(text: string) returns (ok: bool, out: string)
    ensures ok <==> Decoded(text).Some?
    ensures ok ==> out == Decoded(text).value
  {
    out := "";
    var i := 0;
    NothingPrepended(text);
    while i < |text|
      invariant 0 <= i <= |text|
      invariant Decoded(text) == PrependAll(out, Decoded(text[i..]))
    {
      var rest := text[i..];
      if text[i] == '%' {
        if i + 3 <= |text| {
          var value := ExtractTwo(text[i + 1], text[i + 2]);
          if value.Some? {
            assert rest[3..] == text[i + 3..];
            PrependNext(out, AsByte(value.value), Decoded(text[i + 3..]));
            out := out + [AsByte(value.value)];
            i := i + 2;
          } else {
            return false, out;
          }
        } else {
          return false, out;
        }
      } else if text[i] == '+' {
        assert rest[1..] == text[i + 1..];
        PrependNext(out, ' ', Decoded(text[i + 1..]));
        out := out + " ";
      } else {
        assert rest[1..] == text[i + 1..];
        PrependNext(out, text[i], Decoded(text[i + 1..]));
        out := out + [text[i]];
      }
      i := i + 1;
    }
    ok := true;
  }

  // ----- encodings -----

  /** One encoded byte: itself, a plus for a space, or a percent sign with two characters. */
  datatype Piece = Literal(c: char) | Plus | Percent(a: char, b: char)

  predicate ValidPiece(p: Piece)
  {
    match p
    case Literal(c) => c != '%' && c != '+'
    case Plus => true
    case Percent(a, b) => ExtractTwo(a, b).Some?
  }

  /** Section 2.1 of RFC 3986: two hexadecimal digits. */
  predicate StrictPiece(p: Piece)
  {
    ValidPiece(p) && (p.Percent? ==> IsHex(p.a) && IsHex(p.b))
  }

  function PieceText(p: Piece): string
  {
    match p
    case Literal(c) => [c]
    case Plus => "+"
    case Percent(a, b) => ['%', a, b]
  }

  function PieceByte(p: Piece): char
    requires ValidPiece(p)
  {
    match p
    case Literal(c) => c
    case Plus => ' '
    case Percent(a, b) => AsByte(ExtractTwo(a, b).value)
  }

  function Text(ps: seq<Piece>): string
  {
    if ps == [] then "" else PieceText(ps[0]) + Text(ps[1..])
  }

  function Bytes(ps: seq<Piece>): (s: string)
    requires forall p | p in ps :: ValidPiece(p)
    ensures |s| == |ps|
  {
    if ps == [] then "" else [PieceByte(ps[0])] + Bytes(ps[1..])
  }

  /** Decoding gives the bytes back, whichever of the encodings was chosen for each of them. */
  lemma {:induction false} DecodesEveryEncoding(ps: seq<Piece>)
    requires forall p | p in ps :: ValidPiece(p)
    ensures Decoded(Text(ps)) == Some(Bytes(ps))
    decreases |ps|
  {
    hide ExtractTwo, AsByte;
    if ps != [] {
      var rest := Text(ps[1..]);
      assert ValidPiece(ps[0]);
      DecodesEveryEncoding(ps[1..]);
      match ps[0] {
        case Literal(c) => assert ([c] + rest)[1..] == rest;
        case Plus => assert ("+" + rest)[1..] == rest;
        case Percent(a, b) => assert (['%', a, b] + rest)[3..] == rest;
      }
    }
  }

  /** Whatever is decoded was an encoding of the result, and the result is never longer. */
  lemma {:induction false} DecodedWasEncoded(s: string) returns (ps: seq<Piece>)
    requires Decoded(s).Some?
    ensures forall p | p in ps :: ValidPiece(p)
    ensures Text(ps) == s && Bytes(ps) == Decoded(s).value
    ensures |Decoded(s).value| <= |s|
    decreases |s|
  {
    hide ExtractTwo, AsByte;
    if s == "" {
      ps := [];
    } else {
      var p, n := FirstPiece(s);
      hide Decoded, PieceText, PieceByte, ValidPiece;
      var rest := DecodedWasEncoded(s[n..]);
      ps := [p] + rest;
      assert ps[1..] == rest;
    }
  }

  lemma FirstPiece(s: string) returns (p: Piece, n: nat)
    requires s != "" && Decoded(s).Some?
    ensures 1 <= n <= |s| && ValidPiece(p) && s == PieceText(p) + s[n..]
    ensures Decoded(s[n..]).Some? && Decoded(s).value == [PieceByte(p)] + Decoded(s[n..]).value
  {
    hide ExtractTwo, AsByte;
    p := if s[0] == '%' then Percent(s[1], s[2]) else if s[0] == '+' then Plus else Literal(s[0]);
    n := if s[0] == '%' then 3 else 1;
  }

  /** The digits of a byte in upper case, as RFC 3986 recommends. */
  function UpperDigit(n: nat): char
    requires n < 16
  {
    "0123456789ABCDEF"[n]
  }

  lemma UpperDigitIsHex(n: nat)
    requires n < 16
    ensures IsHex(UpperDigit(n)) && HexValue(UpperDigit(n)) == n
  {
  }

  predicate AreBytes(s: string)
  {
    forall i | 0 <= i < |s| :: s[i] as int < 256
  }

  lemma TwoDigits(n: nat)
    requires n < 256
    ensures var a, b := UpperDigit(n / 16), UpperDigit(n % 16);
            IsHex(a) && IsHex(b) && ExtractTwo(a, b) == Some(n) && AsByte(n) as int == n
  {
    hide ExtractTwo, UpperDigit, IsHex;
    UpperDigitIsHex(n / 16);
    UpperDigitIsHex(n % 16);
  }

  function PercentPiece(c: char): (p: Piece)
    requires c as int < 256
    ensures StrictPiece(p) && PieceByte(p) == c
  {
    hide ExtractTwo, UpperDigit, AsByte, IsHex;
    TwoDigits(c as int);
    Percent(UpperDigit(c as int / 16), UpperDigit(c as int % 16))
  }

  function PercentEncoded(s: string): (ps: seq<Piece>)
    requires AreBytes(s)
    ensures forall p | p in ps :: StrictPiece(p)
  {
    if s == "" then [] else [PercentPiece(s[0])] + PercentEncoded(s[1..])
  }

  /** Every byte string has an encoding with two hexadecimal digits per byte, and it decodes to that string. */
  lemma {:induction false} PercentEncodingRoundTrip(s: string)
    requires AreBytes(s)
    ensures Bytes(PercentEncoded(s)) == s
    ensures Decoded(Text(PercentEncoded(s))) == Some(s)
    decreases |s|
  {
    hide PercentPiece, PieceByte;
    if s != "" {
      PercentEncodingRoundTrip(s[1..]);
      var ps := PercentEncoded(s);
      assert ps[0] == PercentPiece(s[0]) && ps[1..] == PercentEncoded(s[1..]);
    }
    DecodesEveryEncoding(PercentEncoded(s));
  }

  // ----- the path and its extension -----

  /** `file` is the name that the file system gets to see. */
  datatype Target = BadRequest | Lookup(path: string, extension: string, file: string)

  predicate HasDotDot(s: string)
  {
    exists i | 0 <= i < |s| - 1 :: s[i] == '.' && s[i + 1] == '.'
  }

  /** std::string::find_last_of with one character. */
  method FindLast(s: string, c: char) returns (pos: Option<nat>)
    ensures pos.None? ==> c !in s
    ensures pos.Some? ==> pos.value < |s| && s[pos.value] == c && c !in s[pos.value + 1..]
  {
    var i := |s|;
    while i > 0
      invariant 0 <= i <= |s|
      invariant c !in s[i..]
    {
      i := i - 1;
      if s[i] == c {
        return Some(i);
      }
      assert s[i..] == [s[i]] + s[i + 1..];
    }
    assert s[0..] == s;
    pos := None;
  }

  predicate Acceptable(path: string)
  {
    path != "" && path[0] == '/' && !HasDotDot(path)
  }

  function Completed(path: string): string
    requires path != ""
  {
    if path[|path| - 1] == '/' then path + "index.html" else path
  }

  /** `extension` is what follows the last dot of the last component, and empty without one. */
  ghost predicate IsExtension(path: string, extension: string)
  {
    && '.' !in extension && '/' !in extension
    && |extension| <= |path| && path[|path| - |extension|..] == extension
    && (extension != "" ==> |extension| < |path| && path[|path| - |extension| - 1] == '.')
    && (extension == "" ==> path != "" && (path[|path| - 1] == '.'
                            || forall i | 0 <= i < |path| :: path[i] == '.' ==> '/' in path[i + 1..]))
  }

  method ExtensionOf(path: string) returns (extension: string)
    requires path != "" && path[0] == '/'
    ensures IsExtension(path, extension)
  {
    var lastSlash := FindLast(path, '/');
    var lastDot := FindLast(path, '.');
    assert path[0] in path;
    extension := "";
    if lastDot.Some? && lastDot.value > lastSlash.value {
      extension := path[lastDot.value + 1..];
      SuffixLacks(path, lastSlash.value + 1, lastDot.value + 1, '/');
    } else {
      forall i | 0 <= i < |path| && path[i] == '.'
        ensures '/' in path[i + 1..]
      {
        assert path[i] in path;
        NotAfter(path, lastDot.value, i, '.');
        assert path[lastSlash.value] != path[i];
        assert path[i + 1..][lastSlash.value - i - 1] == '/';
      }
    }
  }

  /**
   A file is looked up exactly for a URI that decodes to an absolute path without "..", and the
   path that is looked up keeps these properties, names a file and has the extension reported.
   The file that is opened is that one exactly if no NUL character occurs; what follows the document
   root is absolute and without ".." in any case.
   */
  method Resolve(docRoot: string, uri: string) returns (target: Target)
    ensures target.Lookup? <==> Decoded(uri).Some? && Acceptable(Decoded(uri).value)
    ensures target.Lookup? ==>
      && target.path == Completed(Decoded(uri).value)
      && Acceptable(target.path)
      && target.path[|target.path| - 1] != '/'
      && IsExtension(target.path, target.extension)
      && target.file == UpToNul(docRoot + target.path)
      && (NUL !in docRoot ==> target.file == docRoot + UpToNul(target.path) && Acceptable(UpToNul(target.path)))
      && (target.file == docRoot + target.path <==> NUL !in docRoot && NUL !in target.path)
    ensures target == TargetOf(docRoot, uri)
  {
    var ok, path := UrlDecode(uri);
    if !ok {
      return BadRequest;
    }
    if path == "" || path[0] != '/' || HasDotDot(path) {
      return BadRequest;
    }
    if path[|path| - 1] == '/' {
      IndexHtmlIsHarmless(path);
      path := path + "index.html";
    }
    hide IsExtension, HasDotDot, Decoded;
    var extension := ExtensionOf(path);
    var file := CString(docRoot + path);
    if NUL !in docRoot {
      UpToNulOfConcat(docRoot, path);
    }
    CutIsPrefix(docRoot + path);
    CutIsAcceptable(path);
    ExtensionIsComputed(path, extension);
    target := Lookup(path, extension, file);
  }

  // ----- the name that is opened -----

  const NUL: char := '\0'

  /** What a C string function makes of a string. */
  function UpToNul(s: string): string
  {
    if s == "" || s[0] == NUL then "" else [s[0]] + UpToNul(s[1..])
  }

  /** c_str() as the file system reads it. */
  method CString(s: string) returns (r: string)
    ensures r == UpToNul(s)
  {
    r := "";
    var i := 0;
    assert s[0..] == s;
    while i < |s| && s[i] != NUL
      invariant 0 <= i <= |s|
      invariant UpToNul(s) == r + UpToNul(s[i..])
    {
      assert s[i..][1..] == s[i + 1..];
      r := r + [s[i]];
      i := i + 1;
    }
  }

  lemma {:induction false} UpToNulOfConcat(a: string, b: string)
    requires NUL !in a
    ensures UpToNul(a + b) == a + UpToNul(b)
    decreases |a|
  {
    if a == "" {
      assert a + b == b;
    } else {
      assert (a + b)[1..] == a[1..] + b;
      UpToNulOfConcat(a[1..], b);
    }
  }

  lemma {:induction false} CutIsPrefix(s: string)
    ensures UpToNul(s) <= s && NUL !in UpToNul(s)
    ensures UpToNul(s) == s <==> NUL !in s
    decreases |s|
  {
    if s != "" && s[0] != NUL {
      CutIsPrefix(s[1..]);
      assert s == [s[0]] + s[1..];
    }
  }

  lemma CutIsAcceptable(path: string)
    requires Acceptable(path)
    ensures Acceptable(UpToNul(path))
  {
    CutIsPrefix(path);
    var cut := UpToNul(path);
    assert forall i | 0 <= i < |cut| :: cut[i] == path[i];
  }

  lemma SuffixCharacters(s: string, suffix: string)
    requires |suffix| <= |s| && s[|s| - |suffix|..] == suffix
    ensures forall i | |s| - |suffix| <= i < |s| :: s[i] in suffix
    ensures forall c | c in suffix :: c in s
  {
    forall i | |s| - |suffix| <= i < |s|
      ensures s[i] in suffix
    {
      assert suffix[i - |s| + |suffix|] == s[i];
    }
  }

  /** The extension is determined by the path. */
  lemma ExtensionIsUnique(path: string, a: string, b: string)
    requires IsExtension(path, a) && IsExtension(path, b)
    ensures a == b
  {
    SuffixCharacters(path, a);
    SuffixCharacters(path, b);
    assert b != "" ==> path[|path| - |b|..] == b;
    assert a != "" ==> path[|path| - |a|..] == a;
  }

  /** What follows the last dot, unless a slash comes after it. */
  function AfterLastDot(path: string): Option<string>
  {
    if path == "" then None
    else
      var front, c := path[..|path| - 1], path[|path| - 1];
      if c == '/' then None
      else if c == '.' then Some("")
      else
        match AfterLastDot(front)
        case None => None
        case Some(s) => Some(s + [c])
  }

  /** The extension, read off a path from its end. */
  function Extension(path: string): string
  {
    match AfterLastDot(path)
    case None => ""
    case Some(s) => s
  }

  lemma {:induction false} DotsBeforeSlash(path: string)
    ensures AfterLastDot(path).None? ==> forall i | 0 <= i < |path| :: path[i] == '.' ==> '/' in path[i + 1..]
  {
    if path != "" && AfterLastDot(path).None? {
      var front, c := path[..|path| - 1], path[|path| - 1];
      DotsBeforeSlash(front);
      hide AfterLastDot;
      assert path == front + [c];
      forall i | 0 <= i < |path| && path[i] == '.'
        ensures '/' in path[i + 1..]
      {
        assert path[i + 1..] == front[i + 1..] + [c];
      }
    }
  }

  lemma {:induction false} LastDotIsFound(path: string)
    ensures AfterLastDot(path).Some? ==>
      var s := AfterLastDot(path).value;
      '.' !in s && '/' !in s && |s| < |path| && path[|path| - |s|..] == s && path[|path| - |s| - 1] == '.'
  {
    if path != "" {
      LastDotIsFound(path[..|path| - 1]);
      assert path == path[..|path| - 1] + [path[|path| - 1]];
    }
  }

  /** Every path has exactly one extension. */
  lemma ExtensionIsComputed(path: string, extension: string)
    requires path != ""
    ensures IsExtension(path, extension) <==> extension == Extension(path)
  {
    DotsBeforeSlash(path);
    LastDotIsFound(path);
    assert IsExtension(path, Extension(path)) by {
      if AfterLastDot(path) == Some("") {
        assert path[|path| - 1] == '.';
      }
    }
    hide IsExtension;
    if IsExtension(path, extension) {
      ExtensionIsUnique(path, extension, Extension(path));
    }
  }

  /**
   The file opened has the extension reported exactly if that is the extension of the name cut at
   its first NUL character. So they agree without a NUL character, and cannot agree with one in the
   extension.
   */
  lemma OpenedExtension(path: string, extension: string)
    requires path != "" && path[0] == '/' && IsExtension(path, extension)
    ensures IsExtension(UpToNul(path), extension) <==> Extension(UpToNul(path)) == Extension(path)
    ensures NUL !in path ==> IsExtension(UpToNul(path), extension)
    ensures NUL in extension ==> !IsExtension(UpToNul(path), extension)
  {
    CutIsPrefix(path);
    NotEmptyCut(path);
    ExtensionIsComputed(path, extension);
    ExtensionIsComputed(UpToNul(path), extension);
    ExtensionOfClean(UpToNul(path), extension);
    hide IsExtension, Extension, UpToNul;
  }

  lemma NotEmptyCut(path: string)
    requires path != "" && path[0] == '/'
    ensures UpToNul(path) != ""
  {
  }

  lemma ExtensionOfClean(path: string, extension: string)
    requires NUL !in path
    ensures IsExtension(path, extension) ==> NUL !in extension
  {
    if IsExtension(path, extension) {
      SuffixCharacters(path, extension);
    }
  }

  lemma AfterDot(name: string, extension: string)
    requires extension != "" && '.' !in extension && '/' !in extension
    ensures IsExtension(name + "." + extension, extension)
  {
    var path := name + "." + extension;
    assert path[|path| - |extension|..] == extension && path[|name|] == '.';
  }

  /** With a NUL character before the extension both are possible: here they disagree. */
  lemma NulBeforeExtension(name: string, extension: string)
    requires name != "" && '.' !in name && NUL !in name
    requires extension != "" && '.' !in extension && '/' !in extension && NUL !in extension
    ensures var path := name + [NUL] + "." + extension;
            IsExtension(path, extension) && !IsExtension(UpToNul(path), extension)
  {
    hide IsExtension;
    AfterDot(name + [NUL], extension);
    CutBefore(name, "." + extension);
    assert name + [NUL] + "." + extension == name + [NUL] + ("." + extension);
    NoDotNoExtension(name, extension);
  }

  /** Characters that stand for themselves in a URI. */
  predicate Plain(s: string)
  {
    '%' !in s && '+' !in s && NUL !in s
  }

  lemma {:induction false} PlainIsDecoded(s: string, rest: string)
    requires Plain(s)
    ensures Decoded(s + rest) == PrependAll(s, Decoded(rest))
    decreases |s|
  {
    if s == "" {
      assert s + rest == rest;
      NothingPrepended(rest);
      assert rest[0..] == rest;
    } else {
      assert (s + rest)[1..] == s[1..] + rest;
      PlainIsDecoded(s[1..], rest);
      if Decoded(rest).Some? {
        assert s + Decoded(rest).value == [s[0]] + (s[1..] + Decoded(rest).value);
      }
    }
  }

  lemma DecodedNul(rest: string)
    ensures Decoded("%00" + rest) == Prepend(NUL, Decoded(rest))
  {
    var s := "%00" + rest;
    assert s[0] == '%' && s[1] == '0' && s[2] == '0' && s[3..] == rest;
    assert ExtractTwo('0', '0') == Some(0) && AsByte(0) == NUL;
  }

  // ----- which path is looked up -----

  /** What `Resolve` answers for a URI. */
  function TargetOf(docRoot: string, uri: string): Target
  {
    match Decoded(uri)
    case None => BadRequest
    case Some(path) =>
      if !Acceptable(path) then BadRequest
      else Lookup(Completed(path), Extension(Completed(path)), UpToNul(docRoot + Completed(path)))
  }

  /** The first piece is whole. */
  predicate Ready(s: string)
  {
    s != "" && (s[0] == '%' ==> |s| >= 3 && ExtractTwo(s[1], s[2]).Some?)
  }

  /** The byte that the first piece stands for. */
  function FirstByte(s: string): char
    requires Ready(s)
  {
    if s[0] == '%' then AsByte(ExtractTwo(s[1], s[2]).value) else if s[0] == '+' then ' ' else s[0]
  }

  function FirstLength(s: string): nat
    requires s != ""
  {
    if s[0] == '%' then 3 else 1
  }

  lemma OneByte(s: string)
    requires Ready(s)
    ensures FirstLength(s) <= |s| && Decoded(s) == Prepend(FirstByte(s), Decoded(s[FirstLength(s)..]))
  {
    hide ExtractTwo, AsByte;
  }

  lemma DecodedIsReady(s: string)
    requires s != "" && Decoded(s).Some?
    ensures Ready(s) && FirstLength(s) <= |s| && Decoded(s[FirstLength(s)..]).Some?
  {
    hide ExtractTwo, AsByte;
  }

  lemma SameFirstPiece(a: string, b: string)
    requires Ready(a) && FirstLength(a) <= |a|
    ensures Ready(a + b) && FirstByte(a + b) == FirstByte(a) && FirstLength(a + b) == FirstLength(a)
    ensures (a + b)[FirstLength(a)..] == a[FirstLength(a)..] + b
  {
    hide ExtractTwo, AsByte;
  }

  lemma PrependTwice(c: char, front: string, rest: Option<string>)
    ensures Prepend(c, PrependAll(front, rest)) == PrependAll([c] + front, rest)
  {
    if rest.Some? {
      assert [c] + (front + rest.value) == [c] + front + rest.value;
    }
  }

  lemma {:induction false} DecodedConcat(a: string, b: string)
    requires Decoded(a).Some?
    ensures Decoded(a + b) == PrependAll(Decoded(a).value, Decoded(b))
    decreases |a|
  {
    if a == "" {
      assert a + b == b;
      NothingPrepended(b);
      assert b[0..] == b;
    } else {
      DecodedIsReady(a);
      hide Decoded, Ready, FirstByte, PrependAll;
      var rest := a[FirstLength(a)..];
      DecodedConcat(rest, b);
      OneByte(a);
      SameFirstPiece(a, b);
      OneByte(a + b);
      PrependTwice(FirstByte(a), Decoded(rest).value, Decoded(b));
    }
  }

  /** A URI for a directory, with "index.html" appended. */
  lemma IndexAppended(uri: string)
    requires Decoded(uri).Some?
    ensures Decoded(uri + "index.html") == Some(Decoded(uri).value + "index.html")
  {
    var index := "index.html";
    PlainIsDecoded(index, "");
    NothingDecoded();
    hide Decoded;
    DecodedConcat(uri, index);
    assert index + "" == index;
  }

  /**
   A decoded path that does not end in a slash is looked up as it is; a URI for one that does leads
   where the same URI with "index.html" appended leads.
   */
  lemma PathLookedUp(docRoot: string, uri: string)
    requires TargetOf(docRoot, uri).Lookup?
    ensures var path := Decoded(uri).value;
            && path != ""
            && (path[|path| - 1] != '/' ==> TargetOf(docRoot, uri).path == path)
            && (path[|path| - 1] == '/' ==>
                  && TargetOf(docRoot, uri).path == path + "index.html"
                  && TargetOf(docRoot, uri) == TargetOf(docRoot, uri + "index.html"))
  {
    var path := Decoded(uri).value;
    hide Decoded, Extension, UpToNul, HasDotDot;
    if path[|path| - 1] == '/' {
      IndexAppended(uri);
      IndexHtmlIsHarmless(path);
      CompletedTwice(path);
      hide Acceptable, Completed;
    }
  }

  lemma CompletedTwice(path: string)
    requires path != "" && path[|path| - 1] == '/'
    ensures Completed(path) == path + "index.html" == Completed(path + "index.html")
  {
    var p := path + "index.html";
    assert p[|p| - 1] == 'l';
  }

  /** The check of a decoded path in so many words: it starts with a slash, and no part of it is "..". */
  lemma AcceptablePath(path: string)
    ensures Acceptable(path) <==> "/" <= path && forall before: string, after: string :: path != before + ".." + after
  {
    if HasDotDot(path) {
      var i :| 0 <= i < |path| - 1 && path[i] == '.' && path[i + 1] == '.';
      assert path == path[..i] + ".." + path[i + 2..];
    }
    forall before: string, after: string | path == before + ".." + after
      ensures HasDotDot(path)
    {
      assert path[|before|] == '.' && path[|before| + 1] == '.';
    }
  }

  /** In the middle of plain text a plus stands for a space, and %41 for the letter A. */
  lemma DecodedExamples(before: string, after: string)
    requires Plain(before) && Plain(after)
    ensures Decoded(before + "+" + after) == Some(before + " " + after)
    ensures Decoded(before + "%41" + after) == Some(before + "A" + after)
  {
    PlusAndLetter(after);
    hide Decoded, Plain;
    BetweenPlain(before, "+", ' ', after);
    BetweenPlain(before, "%41", 'A', after);
    assert [' '] == " " && ['A'] == "A";
  }

  lemma BetweenPlain(before: string, piece: string, c: char, after: string)
    requires Plain(before) && Plain(after)
    requires Decoded(piece + after) == Prepend(c, Decoded(after))
    ensures Decoded(before + piece + after) == Some(before + [c] + after)
  {
    PlainIsDecoded(before, piece + after);
    PlainIsDecoded(after, "");
    NothingDecoded();
    hide Decoded, Plain;
    assert after + "" == after;
    InBetween(before, piece, after);
    InBetween(before, [c], after);
  }

  lemma InBetween(a: string, b: string, c: string)
    ensures a + b + c == a + (b + c)
  {
  }

  lemma PlusAndLetter(rest: string)
    ensures Decoded("+" + rest) == Prepend(' ', Decoded(rest))
    ensures Decoded("%41" + rest) == Prepend('A', Decoded(rest))
  {
    var s := "%41" + rest;
    assert ("+" + rest)[1..] == rest;
    assert s[0] == '%' && s[1] == '4' && s[2] == '1' && s[3..] == rest;
    assert ExtractTwo('4', '1') == Some(65) && AsByte(65) == 'A';
  }

  /** A URI, such as /a%00.html, for which a file without the reported extension is opened. */
  lemma NulInUri(name: string, extension: string)
    requires Plain(name) && name != "" && name[0] == '/' && '.' !in name
    requires Plain(extension) && extension != "" && '.' !in extension && '/' !in extension
    ensures var path := name + [NUL] + "." + extension;
            && Decoded(name + "%00." + extension) == Some(path)
            && Acceptable(path)
            && Extension(path) == extension
            && UpToNul(path) == name && Extension(name) == ""
  {
    hide Decoded, Acceptable, Extension, UpToNul;
    UriWithNul(name, extension);
    PathWithNul(name, extension);
  }

  lemma UriWithNul(name: string, extension: string)
    requires Plain(name) && Plain(extension)
    ensures Decoded(name + "%00." + extension) == Some(name + [NUL] + "." + extension)
  {
    hide Decoded;
    var rest := "." + extension;
    PlainIsDecoded(rest, "");
    NothingDecoded();
    PlainIsDecoded(name, "%00" + rest);
    DecodedNul(rest);
    assert rest + "" == rest;
    assert name + "%00." + extension == name + ("%00" + rest);
    assert name + [NUL] + "." + extension == name + ([NUL] + rest);
  }

  lemma NothingDecoded()
    ensures Decoded("") == Some("")
  {
  }

  lemma PathWithNul(name: string, extension: string)
    requires NUL !in name && name != "" && name[0] == '/' && '.' !in name
    requires extension != "" && '.' !in extension && '/' !in extension
    ensures var path := name + [NUL] + "." + extension;
            Acceptable(path) && Extension(path) == extension && UpToNul(path) == name && Extension(name) == ""
  {
    hide IsExtension, HasDotDot, Extension, UpToNul;
    var path := name + [NUL] + "." + extension;
    AfterDot(name + [NUL], extension);
    ExtensionIsComputed(path, extension);
    CutBefore(name, "." + extension);
    assert path == name + [NUL] + ("." + extension);
    NoDot(name);
    ExtensionIsComputed(name, "");
    OneDot(name + [NUL], extension);
  }

  lemma NoDot(name: string)
    requires name != "" && '.' !in name
    ensures IsExtension(name, "")
  {
  }

  lemma OneDot(a: string, b: string)
    requires '.' !in a && '.' !in b
    ensures !HasDotDot(a + "." + b)
  {
  }

  /** And here they agree, although the file is another one. */
  lemma NulAfterSameExtension(name: string, extension: string)
    requires NUL !in name
    requires extension != "" && '.' !in extension && '/' !in extension && NUL !in extension
    ensures var path := name + "." + extension + [NUL] + "." + extension;
            IsExtension(path, extension) && IsExtension(UpToNul(path), extension) && UpToNul(path) != path
  {
    hide IsExtension;
    var file := name + "." + extension;
    AfterDot(file + [NUL], extension);
    AfterDot(name, extension);
    CutBefore(file, "." + extension);
    assert file + [NUL] + "." + extension == file + [NUL] + ("." + extension);
  }

  lemma CutBefore(a: string, b: string)
    requires NUL !in a
    ensures UpToNul(a + [NUL] + b) == a
  {
    UpToNulOfConcat(a, [NUL] + b);
    assert a + [NUL] + b == a + ([NUL] + b) && UpToNul([NUL] + b) == "" && a + "" == a;
  }

  lemma NoDotNoExtension(name: string, extension: string)
    requires '.' !in name && extension != ""
    ensures !IsExtension(name, extension)
  {
  }

  lemma NotAfter(s: string, pos: nat, i: nat, c: char)
    requires pos < |s| && c !in s[pos + 1..] && i < |s| && s[i] == c
    ensures i <= pos
  {
    assert forall k | pos < k < |s| :: s[k] == s[pos + 1..][k - pos - 1];
  }

  lemma SuffixLacks(s: string, i: nat, k: nat, c: char)
    requires i <= k <= |s| && c !in s[i..]
    ensures c !in s[k..]
  {
    assert s[k..] == s[i..][k - i..];
  }

  lemma IndexHtmlIsHarmless(path: string)
    requires Acceptable(path) && path[|path| - 1] == '/'
    ensures Acceptable(path + "index.html")
  {
    var p := path + "index.html";
    forall i | 0 <= i < |p| - 1
      ensures !(p[i] == '.' && p[i + 1] == '.')
    {
      if i < |path| - 1 {
        assert p[i] == path[i] && p[i + 1] == path[i + 1];
      }
    }
  }
}
