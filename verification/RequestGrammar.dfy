/**
 The language that `request_parser` accepts, as a grammar: the request line of section 5.1
 and the header lines of section 4.2 of RFC 2616, with the parser's own restrictions
 (exactly one space is stripped after the colon, a continuation line is appended
 without a space, and the version is never compared).
 */
module RequestGrammar {
  import opened RequestParsing

  /** A physical line of the header block: a field, or the continuation of the field before it. */
  datatype Line = Field(name: string, value: string) | Fold(lws: string, text: string)

  /** A parsed request, before folding and conversion of the version numbers. */
  datatype Syntax = Syntax(verb: string, uri: string, major: string, minor: string, lines: seq<Line>)

  predicate Token(s: string)
  {
    s != "" && forall c | c in s :: IsToken(c)
  }

  predicate Text(s: string)
  {
    forall c | c in s :: !IsCtl(c)
  }

  predicate UriText(s: string)
  {
    forall c | c in s :: !IsCtl(c) && c != ' '
  }

  predicate Digits(s: string)
  {
    forall c | c in s :: IsDigit(c)
  }

  predicate Lws(s: string)
  {
    s != "" && forall c | c in s :: c == ' ' || c == '\t'
  }

  predicate ValidLine(l: Line)
  {
    match l
    case Field(name, value) => Token(name) && Text(value)
    case Fold(lws, text) => Lws(lws) && Text(text) && (text != "" ==> text[0] != ' ')
  }

  /** A continuation needs a header to continue; a request object may hold some from before. */
  predicate ValidLinesAfter(headers: seq<Header>, ls: seq<Line>)
  {
    && (forall l | l in ls :: ValidLine(l))
    && (ls != [] && headers == [] ==> ls[0].Field?)
  }

  /** The first line of a block is not a continuation. */
  predicate ValidLines(ls: seq<Line>)
  {
    ValidLinesAfter([], ls)
  }

  predicate ValidAfter(headers: seq<Header>, a: Syntax)
  {
    && Token(a.verb) && UriText(a.uri)
    && a.major != "" && Digits(a.major) && a.minor != "" && Digits(a.minor)
    && ValidLinesAfter(headers, a.lines)
  }

  predicate Valid(a: Syntax)
  {
    ValidAfter([], a)
  }

  // ----- concrete syntax -----

  const CRLF := "\r\n"

  /** A line without its end. */
  function OpenLine(l: Line): string
  {
    match l
    case Field(name, value) => name + ": " + value
    case Fold(lws, text) => lws + text
  }

  function LineText(l: Line): string
  {
    OpenLine(l) + CRLF
  }

  function LinesText(ls: seq<Line>): string
  {
    if ls == [] then "" else LinesText(ls[..|ls| - 1]) + LineText(ls[|ls| - 1])
  }

  function RequestLine(a: Syntax): string
  {
    a.verb + " " + a.uri + " HTTP/" + a.major + "." + a.minor + CRLF
  }

  function Unparse(a: Syntax): string
  {
    RequestLine(a) + LinesText(a.lines) + CRLF
  }

  // ----- meaning -----

  /** The number that digits write. */
  function Decimal(s: string): int
  {
    if s == "" then 0 else Decimal(s[..|s| - 1]) * 10 + (s[|s| - 1] as int - '0' as int)
  }

  /**
   What is left of a version number in an int: its digits are added before the code of '0' is
   subtracted, so that the largest numbers of the type are already too large.
   */
  function Stored(s: string): VersionNumber
  {
    if Decimal(s) + '0' as int <= INT_MAX then Known(Decimal(s)) else Overflowed
  }

  /** A field adds a header; a continuation is appended to the last value. */
  function Apply(headers: seq<Header>, l: Line): seq<Header>
  {
    match l
    case Field(name, value) => headers + [Header(name, value)]
    case Fold(_, text) => if headers == [] then [] else ExtendValue(headers, text)
  }

  /** The headers of a block on top of those from before. */
  function HeadersAfter(headers: seq<Header>, ls: seq<Line>): seq<Header>
  {
    if ls == [] then headers else Apply(HeadersAfter(headers, ls[..|ls| - 1]), ls[|ls| - 1])
  }

  function Headers(ls: seq<Line>): seq<Header>
  {
    HeadersAfter([], ls)
  }

  function Meaning(a: Syntax): Request
  {
    Request(a.verb, a.uri, Stored(a.major), Stored(a.minor), Headers(a.lines))
  }

  /** What a request is read into by an object that has not been cleared: only the version is replaced. */
  function Added(req: Request, a: Syntax): Request
  {
    Request(req.verb + a.verb, req.uri + a.uri, Stored(a.major), Stored(a.minor), HeadersAfter(req.headers, a.lines))
  }

  /** Some prefix of the input is a request for an object that holds these headers. */
  ghost predicate StartsWithRequestAfter(headers: seq<Header>, input: string)
  {
    exists a :: ValidAfter(headers, a) && Unparse(a) <= input
  }

  /** Some prefix of the input is a request. */
  ghost predicate StartsWithRequest(input: string)
  {
    exists a :: Valid(a) && Unparse(a) <= input
  }

  // ----- small facts -----

  lemma LinesTextAppend(ls: seq<Line>, l: Line)
    ensures LinesText(ls + [l]) == LinesText(ls) + LineText(l)
  {
    assert (ls + [l])[..|ls|] == ls;
  }

  lemma HeadersAfterAppend(headers: seq<Header>, ls: seq<Line>, l: Line)
    ensures HeadersAfter(headers, ls + [l]) == Apply(HeadersAfter(headers, ls), l)
  {
    assert (ls + [l])[..|ls|] == ls;
  }

  lemma HeadersAppend(ls: seq<Line>, l: Line)
    ensures Headers(ls + [l]) == Apply(Headers(ls), l)
  {
    assert (ls + [l])[..|ls|] == ls;
  }

  lemma DecimalAppend(s: string, c: char)
    ensures Decimal(s + [c]) == Decimal(s) * 10 + (c as int - '0' as int)
  {
    assert (s + [c])[..|s|] == s;
  }

  lemma StoredAppend(s: string, c: char)
    requires Digits(s) && IsDigit(c)
    ensures Stored(s + [c]) == AddDigit(Stored(s), c)
  {
    DecimalAppend(s, c);
    DecimalGrows(s, 0);
  }

  lemma {:induction false} FoldsHaveAField(headers: seq<Header>, ls: seq<Line>)
    requires ValidLinesAfter(headers, ls) && (headers != [] || ls != [])
    ensures HeadersAfter(headers, ls) != []
    decreases |ls|
  {
    if ls != [] {
      var front := ls[..|ls| - 1];
      assert forall l | l in front :: l in ls;
      if headers != [] || front != [] {
        FoldsHaveAField(headers, front);
      } else {
        assert ls[|ls| - 1] == ls[0];
      }
    }
  }

  lemma {:induction false} DecimalGrows(s: string, k: nat)
    requires Digits(s) && k <= |s|
    ensures 0 <= Decimal(s[..k]) <= Decimal(s)
    decreases |s|
  {
    if s != "" {
      var front := s[..|s| - 1];
      assert s[|s| - 1] in s && IsDigit(s[|s| - 1]);
      DecimalGrows(front, if k < |s| then k else |s| - 1);
      if k < |s| {
        assert front[..k] == s[..k];
      } else {
        assert front[..|s| - 1] == front && s[..k] == s;
      }
    }
  }

  /** The sum that is formed when digit number `k` is read, before the code of '0' is subtracted. */
  function Intermediate(s: string, k: nat): int
    requires k < |s|
  {
    Decimal(s[..k]) * 10 + s[k] as int
  }

  lemma IntermediateIsNext(s: string, k: nat)
    requires Digits(s) && k < |s|
    ensures Intermediate(s, k) == Decimal(s[..k + 1]) + '0' as int
  {
    assert s[..k + 1] == s[..k] + [s[k]];
    DecimalAppend(s[..k], s[k]);
  }

  /** A number can be read into an int without overflow exactly if it is by 48 smaller than the largest int. */
  lemma NoOverflowExactly(s: string)
    requires Digits(s) && s != ""
    ensures (forall k | 0 <= k < |s| :: InInt(Intermediate(s, k))) <==> Decimal(s) + '0' as int <= INT_MAX
    ensures Stored(s) == Known(Decimal(s)) <==> Decimal(s) + '0' as int <= INT_MAX
  {
    hide Decimal, Intermediate;
    IntermediateIsNext(s, |s| - 1);
    assert s[..|s|] == s;
    forall k | 0 <= k < |s|
      ensures 0 <= Intermediate(s, k) <= Decimal(s) + '0' as int
    {
      IntermediateIsNext(s, k);
      DecimalGrows(s, k + 1);
    }
  }

  lemma ExtendingTheLast(hs: seq<Header>, h: Header, t: string, c: char)
    ensures ExtendValue(hs + [h], t) == hs + [h.(value := h.value + t)]
    ensures ExtendName(hs + [h], c) == hs + [h.(name := h.name + [c])]
  {
  }

  lemma ExtendingTwice(hs: seq<Header>, a: string, b: string)
    requires hs != []
    ensures ExtendValue(hs, "") == hs
    ensures ExtendValue(ExtendValue(hs, a), b) == ExtendValue(hs, a + b)
  {
    var h := hs[|hs| - 1];
    assert h.value + "" == h.value;
    assert h.value + a + b == h.value + (a + b);
  }

  lemma ValidLinesAppend(headers: seq<Header>, ls: seq<Line>, l: Line)
    requires ValidLinesAfter(headers, ls) && ValidLine(l) && (headers == [] && ls == [] ==> l.Field?)
    ensures ValidLinesAfter(headers, ls + [l])
  {
  }
}
