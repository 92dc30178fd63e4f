/**
 The request language in terms of character codes: what the character classes of the parser contain,
 what its version numbers are, and a request printed without them that it reads back.
 */
module RequestText {
  import opened ParseLoop
  import opened RequestParsing
  import opened RequestGrammar
  import opened RequestTheorems
  import opened Replies

  // ----- character codes -----

  /** The characters of a token in section 2.2 of RFC 2616, by their codes; the separators are spelled out. */
  predicate TokenCode(n: int)
  {
    && 33 <= n <= 126
    && n != 34 && n != 40 && n != 41 && n != 44 && n != 47 && n != 58 && n != 59 && n != 60 && n != 61
    && n != 62 && n != 63 && n != 64 && n != 91 && n != 92 && n != 93 && n != 123 && n != 125
  }

  lemma TokenCharacters(c: char)
    ensures IsToken(c) <==> TokenCode(c as int)
  {
    var s := "()<>@,;:\\\"/[]?={} \t";
    assert s[0] == '(' && s[1] == ')' && s[2] == '<' && s[3] == '>' && s[4] == '@' && s[5] == ',' && s[6] == ';';
    assert s[7] == ':' && s[8] == '\\' && s[9] == '\"' && s[10] == '/' && s[11] == '[' && s[12] == ']';
    assert s[13] == '?' && s[14] == '=' && s[15] == '{' && s[16] == '}' && s[17] == ' ' && s[18] == '\t';
    if TokenCode(c as int) {
      assert forall i | 0 <= i < |s| :: s[i] != c;
    }
  }

  lemma ControlCodes(c: char)
    ensures 32 <= c as int <= 126 || 128 <= c as int ==> !IsCtl(c)
    ensures c as int <= 31 || c as int == 127 ==> IsCtl(c)
  {
  }

  lemma DigitCharacters(c: char)
    ensures IsDigit(c) <==> c in {'0', '1', '2', '3', '4', '5', '6', '7', '8', '9'}
  {
  }

  // ----- numbers -----

  const NUMERALS := "0123456789"

  /** A number in decimal notation. */
  function Printed(n: nat): (s: string)
    ensures s != ""
  {
    if n < 10 then [NUMERALS[n]] else Printed(n / 10) + [NUMERALS[n % 10]]
  }

  lemma {:induction false} PrintedIsRead(n: nat)
    ensures Digits(Printed(n)) && Decimal(Printed(n)) == n
  {
    hide Decimal, IsDigit;
    if n < 10 {
      NumeralIsDigit(n);
      OneNumeral(NUMERALS[n]);
    } else {
      PrintedIsRead(n / 10);
      NumeralIsDigit(n % 10);
      DecimalAppend(Printed(n / 10), NUMERALS[n % 10]);
    }
  }

  lemma OneNumeral(c: char)
    ensures Decimal([c]) == c as int - '0' as int
  {
    DecimalAppend("", c);
    assert "" + [c] == [c];
  }

  lemma NumeralIsDigit(n: nat)
    requires n < 10
    ensures IsDigit(NUMERALS[n]) && NUMERALS[n] as int - '0' as int == n
  {
  }

  // ----- a printed request -----

  predicate TokenText(s: string)
  {
    s != "" && forall i | 0 <= i < |s| :: TokenCode(s[i] as int)
  }

  /** Codes of text; a URI additionally excludes the space, code 32. */
  predicate TextFrom(s: string, least: int)
  {
    forall i | 0 <= i < |s| :: least <= s[i] as int <= 126 || 128 <= s[i] as int <= 255
  }

  function PrintedHeaders(hs: seq<Header>): string
  {
    if hs == [] then ""
    else
      var h := hs[|hs| - 1];
      PrintedHeaders(hs[..|hs| - 1]) + (h.name + ": " + h.value + "\r\n")
  }

  function PrintedRequest(verb: string, uri: string, major: nat, minor: nat, hs: seq<Header>): string
  {
    verb + " " + uri + " HTTP/" + Printed(major) + "." + Printed(minor) + "\r\n" + PrintedHeaders(hs) + "\r\n"
  }

  lemma TokenTextIsToken(s: string)
    ensures TokenText(s) <==> Token(s)
  {
    hide IsToken, TokenCode;
    if TokenText(s) {
      forall c | c in s
        ensures IsToken(c)
      {
        TokenCharacters(c);
      }
    }
    if Token(s) {
      forall i | 0 <= i < |s|
        ensures TokenCode(s[i] as int)
      {
        assert s[i] in s;
        TokenCharacters(s[i]);
      }
    }
  }

  lemma PlainTextIsText(s: string)
    ensures TextFrom(s, 32) ==> Text(s)
    ensures TextFrom(s, 33) ==> UriText(s)
  {
  }

  lemma {:induction false} PrintedHeadersAreLines(hs: seq<Header>)
    ensures PrintedHeaders(hs) == LinesText(FieldLines(hs))
  {
    if hs != [] {
      var n := |hs| - 1;
      PrintedHeadersAreLines(hs[..n]);
      assert FieldLines(hs) == FieldLines(hs[..n]) + [Field(hs[n].name, hs[n].value)];
      LinesTextAppend(FieldLines(hs[..n]), Field(hs[n].name, hs[n].value));
    }
  }

  lemma PrintedIsUnparsed(verb: string, uri: string, major: nat, minor: nat, hs: seq<Header>)
    ensures PrintedRequest(verb, uri, major, minor, hs)
         == Unparse(Syntax(verb, uri, Printed(major), Printed(minor), FieldLines(hs)))
  {
    hide PrintedHeaders, Printed, LinesText, FieldLines;
    PrintedHeadersAreLines(hs);
  }

  lemma PrintedIsValid(verb: string, uri: string, major: nat, minor: nat, hs: seq<Header>)
    requires TokenText(verb) && TextFrom(uri, 33)
    requires forall i | 0 <= i < |hs| :: TokenText(hs[i].name) && TextFrom(hs[i].value, 32)
    ensures Valid(Syntax(verb, uri, Printed(major), Printed(minor), FieldLines(hs)))
  {
    hide TokenText, TextFrom, Token, Text, UriText, Digits, Printed;
    TokenTextIsToken(verb);
    PlainTextIsText(uri);
    PrintedIsRead(major);
    PrintedIsRead(minor);
    forall i | 0 <= i < |hs|
      ensures Token(hs[i].name) && Text(hs[i].value)
    {
      TokenTextIsToken(hs[i].name);
      PlainTextIsText(hs[i].value);
    }
  }

  /**
   A request printed from codes and numbers, followed by anything, is accepted at its last character
   and read back field by field; 2147483599 is the largest version number that can be read.
   */
  lemma PrintedRequestIsRead(verb: string, uri: string, major: nat, minor: nat, hs: seq<Header>, content: string, req: Request)
    requires TokenText(verb) && TextFrom(uri, 33)
    requires forall i | 0 <= i < |hs| :: TokenText(hs[i].name) && TextFrom(hs[i].value, 32)
    requires Empty(req)
    ensures var text := PrintedRequest(verb, uri, major, minor, hs);
            var o := ParseRequest(text + content, req);
            && o.verdict == True
            && o.consumed == |text|
            && o.state.req.verb == verb
            && o.state.req.uri == uri
            && o.state.req.headers == hs
            && o.state.req.major == (if major <= 2147483599 then Known(major) else Overflowed)
            && o.state.req.minor == (if minor <= 2147483599 then Known(minor) else Overflowed)
  {
    var a := Syntax(verb, uri, Printed(major), Printed(minor), FieldLines(hs));
    PrintedIsValid(verb, uri, major, minor, hs);
    PrintedIsUnparsed(verb, uri, major, minor, hs);
    PrintedIsRead(major);
    PrintedIsRead(minor);
    FieldsMean(hs);
    hide Step, Valid, Unparse, PrintedRequest, Headers, FieldLines, Printed, Decimal, TokenText, TextFrom;
    SentenceDecides(Unparse(a) + content, req, a);
  }

  lemma CodesOfText(s: string)
    ensures Text(s) ==> forall i | 0 <= i < |s| :: s[i] as int >= 32 && s[i] as int != 127
    ensures UriText(s) ==> forall i | 0 <= i < |s| :: s[i] as int >= 33 && s[i] as int != 127
  {
    assert forall i | 0 <= i < |s| :: s[i] in s;
  }

  /**
   Whatever is accepted has a token for a method and for every header name, no control character in
   URI and values, and versions that consist of numerals and are stored as the numbers they write.
   */
  lemma AcceptedIsOfCodes(input: string, req: Request) returns (major: string, minor: string)
    requires Empty(req) && ParseRequest(input, req).verdict == True
    ensures var r := ParseRequest(input, req).state.req;
            && TokenText(r.verb)
            && (forall i | 0 <= i < |r.uri| :: r.uri[i] as int >= 33 && r.uri[i] as int != 127)
            && (forall h | h in r.headers :: TokenText(h.name))
            && (forall h | h in r.headers :: forall i | 0 <= i < |h.value| :: h.value[i] as int >= 32 && h.value[i] as int != 127)
    ensures major != "" && minor != ""
    ensures forall c | c in major + minor :: c in {'0', '1', '2', '3', '4', '5', '6', '7', '8', '9'}
    ensures ParseRequest(input, req).state.req.major == Stored(major)
    ensures ParseRequest(input, req).state.req.minor == Stored(minor)
  {
    hide Step, Unparse, Stored, Headers, IsDigit, ValidLinesAfter, Token, UriText, Text, TokenText, Captured;
    AcceptsExactlyTheGrammar(input, req);
    StoredTextIsClean(input, req);
    var o := ParseRequest(input, req);
    var a :| Valid(a) && Unparse(a) == input[..o.consumed] && o.state.req == Meaning(a);
    major, minor := a.major, a.minor;
    TokenTextIsToken(a.verb);
    CodesOfText(a.uri);
    forall h | h in o.state.req.headers
      ensures TokenText(h.name)
      ensures forall i | 0 <= i < |h.value| :: h.value[i] as int >= 32 && h.value[i] as int != 127
    {
      var i :| 0 <= i < |o.state.req.headers| && o.state.req.headers[i] == h;
      assert Printable(o.state.req.headers[i]);
      TokenTextIsToken(h.name);
      CodesOfText(h.value);
    }
    forall c | c in major + minor
      ensures c in {'0', '1', '2', '3', '4', '5', '6', '7', '8', '9'}
    {
      DigitCharacters(c);
    }
  }
}
