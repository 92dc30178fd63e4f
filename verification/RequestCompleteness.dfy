/**
 Every sentence of the request grammar is accepted, and every state short of a verdict
 can still be brought to acceptance.
 */
module RequestCompleteness {
  import opened ParseLoop
  import opened RequestParsing
  import opened RequestGrammar

  /** The automaton goes from `c` through `text` to `d` without a verdict. */
  ghost predicate Reads(c: Config, text: string, d: Config)
  {
    Run(Step, c, text) == Outcome(Indeterminate, d, |text|)
  }

  lemma ReadsBoth(c: Config, a: string, d: Config, b: string, e: Config)
    requires Reads(c, a, d) && Reads(d, b, e)
    ensures Reads(c, a + b, e)
  {
    FeedBoth(Step, c, a, b);
  }

  lemma ReadsOne(c: Config, ch: char, d: Config)
    requires Step(c, ch) == Reaction(Indeterminate, d)
    ensures Reads(c, [ch], d)
  {
    hide Step;
    RunAppend(Step, c, [], ch);
    assert [] + [ch] == [ch];
  }

  function TokenSoFar(c: Config, t: string): Config
  {
    if t == "" then c else Config(Method, c.req.(verb := c.req.verb + t))
  }

  lemma ReadsVerb(c: Config, verb: string)
    requires c.state == MethodStart && Token(verb)
    ensures Reads(c, verb, Config(Method, c.req.(verb := c.req.verb + verb)))
  {
    hide IsToken;
    var after: string -> Config := (t: string) => TokenSoFar(c, t);
    forall k | 0 <= k < |verb|
      ensures Step(after(verb[..k]), verb[k]) == Reaction(Indeterminate, after(verb[..k + 1]))
    {
      assert verb[k] in verb && IsToken(verb[k]);
      assert verb[..k + 1] == verb[..k] + [verb[k]] && c.req.verb + "" == c.req.verb;
      assert c.req.verb + (verb[..k] + [verb[k]]) == c.req.verb + verb[..k] + [verb[k]];
      assert IsToken(verb[k]) ==> verb[k] != ' ' by { NotASeparator(verb[k]); }
    }
    Feed(Step, after, verb);
  }

  lemma NotASeparator(c: char)
    requires IsToken(c)
    ensures c != ' ' && c != ':' && c != '\r' && c != '\t'
  {
  }

  lemma ReadsUri(c: Config, uri: string)
    requires c.state == Uri && UriText(uri)
    ensures Reads(c, uri, Config(Uri, c.req.(uri := c.req.uri + uri)))
  {
    hide IsCtl;
    var after: string -> Config := (t: string) => Config(Uri, c.req.(uri := c.req.uri + t));
    forall k | 0 <= k < |uri|
      ensures Step(after(uri[..k]), uri[k]) == Reaction(Indeterminate, after(uri[..k + 1]))
    {
      assert uri[k] in uri;
      assert uri[..k + 1] == uri[..k] + [uri[k]];
      assert c.req.uri + (uri[..k] + [uri[k]]) == c.req.uri + uri[..k] + [uri[k]];
    }
    Feed(Step, after, uri);
    assert c.req.uri + "" == c.req.uri;
  }

  const PROTOCOL := " HTTP/"

  function ProtocolState(k: nat): State
  {
    match k
    case 0 => Uri
    case 1 => VersionH
    case 2 => VersionT1
    case 3 => VersionT2
    case 4 => VersionP
    case 5 => VersionSlash
    case _ => MajorStart
  }

  lemma ReadsProtocol(c: Config)
    requires c.state == Uri
    ensures Reads(c, PROTOCOL, Config(MajorStart, c.req.(major := Known(0), minor := Known(0))))
  {
    var after: string -> Config := (t: string) =>
      (if |t| < 6 then c.(state := ProtocolState(|t|)) else Config(MajorStart, c.req.(major := Known(0), minor := Known(0))));
    forall k | 0 <= k < |PROTOCOL|
      ensures Step(after(PROTOCOL[..k]), PROTOCOL[k]) == Reaction(Indeterminate, after(PROTOCOL[..k + 1]))
    {
      assert |PROTOCOL[..k]| == k && |PROTOCOL[..k + 1]| == k + 1;
    }
    Feed(Step, after, PROTOCOL);
    assert c == after("");
  }

  lemma ReadsMajor(c: Config, digits: string)
    requires c.state == MajorStart && c.req.major == Known(0) && digits != "" && Digits(digits)
    ensures Reads(c, digits, Config(Major, c.req.(major := Stored(digits))))
  {
    var after: string -> Config := (t: string) => (if t == "" then c else Config(Major, c.req.(major := Stored(t))));
    forall k | 0 <= k < |digits|
      ensures Step(after(digits[..k]), digits[k]) == Reaction(Indeterminate, after(digits[..k + 1]))
    {
      assert digits[k] in digits && digits[k] != '.';
      assert digits[..k + 1] == digits[..k] + [digits[k]];
      StoredAppend(digits[..k], digits[k]);
    }
    Feed(Step, after, digits);
    assert c == after("");
  }

  lemma ReadsMinor(c: Config, digits: string)
    requires c.state == MinorStart && c.req.minor == Known(0) && digits != "" && Digits(digits)
    ensures Reads(c, digits, Config(Minor, c.req.(minor := Stored(digits))))
  {
    var after: string -> Config := (t: string) => (if t == "" then c else Config(Minor, c.req.(minor := Stored(t))));
    forall k | 0 <= k < |digits|
      ensures Step(after(digits[..k]), digits[k]) == Reaction(Indeterminate, after(digits[..k + 1]))
    {
      assert digits[k] in digits && digits[k] != '\r';
      assert digits[..k + 1] == digits[..k] + [digits[k]];
      StoredAppend(digits[..k], digits[k]);
    }
    Feed(Step, after, digits);
    assert c == after("");
  }

  lemma ReadsEndOfLine(c: Config)
    requires c.state in {Minor, HeaderLws, HeaderValue}
    ensures Reads(c, CRLF, c.(state := HeaderLineStart))
  {
    var d: Config := c.(state := if c.state == Minor then ExpectingNewline1 else ExpectingNewline2);
    ReadsOne(c, '\r', d);
    ReadsOne(d, '\n', c.(state := HeaderLineStart));
    ReadsBoth(c, "\r", d, "\n", c.(state := HeaderLineStart));
    assert CRLF == "\r" + "\n";
  }

  lemma ReadsRequestLine(c: Config, a: Syntax)
    requires c.state == MethodStart && ValidAfter(c.req.headers, a)
    ensures Reads(c, RequestLine(a), Config(HeaderLineStart, Added(c.req, a).(headers := c.req.headers)))
  {
    hide Step, Token, Digits, UriText, Stored, Reads;
    var c1: Config := Config(Method, c.req.(verb := c.req.verb + a.verb));
    ReadsVerb(c, a.verb);
    var c2: Config := c1.(state := Uri);
    SpaceAfterVerb(c1);
    ReadsBoth(c, a.verb, c1, " ", c2);
    var c3: Config := c2.(req := c2.req.(uri := c.req.uri + a.uri));
    ReadsUri(c2, a.uri);
    ReadsBoth(c, a.verb + " ", c2, a.uri, c3);
    var c4: Config := Config(MajorStart, c3.req.(major := Known(0), minor := Known(0)));
    ReadsProtocol(c3);
    ReadsBoth(c, a.verb + " " + a.uri, c3, PROTOCOL, c4);
    var c5: Config := Config(Major, c4.req.(major := Stored(a.major)));
    ReadsMajor(c4, a.major);
    ReadsBoth(c, a.verb + " " + a.uri + PROTOCOL, c4, a.major, c5);
    var c6: Config := c5.(state := MinorStart);
    DotAfterMajor(c5);
    ReadsBoth(c, a.verb + " " + a.uri + PROTOCOL + a.major, c5, ".", c6);
    var c7: Config := Config(Minor, c6.req.(minor := Stored(a.minor)));
    ReadsMinor(c6, a.minor);
    ReadsBoth(c, a.verb + " " + a.uri + PROTOCOL + a.major + ".", c6, a.minor, c7);
    ReadsEndOfLine(c7);
    ReadsBoth(c, a.verb + " " + a.uri + PROTOCOL + a.major + "." + a.minor, c7, CRLF, c7.(state := HeaderLineStart));
  }

  lemma SpaceAfterVerb(c: Config)
    requires c.state == Method
    ensures Reads(c, " ", c.(state := Uri))
  {
    ReadsOne(c, ' ', c.(state := Uri));
  }

  lemma DotAfterMajor(c: Config)
    requires c.state == Major
    ensures Reads(c, ".", c.(state := MinorStart))
  {
    ReadsOne(c, '.', c.(state := MinorStart));
  }

  // ----- header lines -----

  function With(c: Config, state: State, headers: seq<Header>): Config
    requires headers != []
  {
    Config(state, c.req.(headers := headers))
  }

  lemma ReadsName(c: Config, name: string)
    requires c.state == HeaderLineStart && Token(name)
    ensures Reads(c, name, With(c, HeaderName, c.req.headers + [Header(name, "")]))
  {
    hide IsToken, ExtendName;
    var hs := c.req.headers;
    var after: string -> Config := (t: string) => if t == "" then c else With(c, HeaderName, hs + [Header(t, "")]);
    forall k | 0 <= k < |name|
      ensures Step(after(name[..k]), name[k]) == Reaction(Indeterminate, after(name[..k + 1]))
    {
      var ch := name[k];
      assert ch in name && IsToken(ch);
      NotASeparator(ch);
      assert name[..k + 1] == name[..k] + [ch] && (k == 0 ==> name[..k + 1] == [ch]);
      ExtendingTheLast(hs, Header(name[..k], ""), "", ch);
    }
    Feed(Step, after, name);
  }

  lemma ReadsColon(c: Config)
    requires c.state == HeaderName
    ensures Reads(c, ": ", c.(state := HeaderValue))
  {
    ReadsOne(c, ':', c.(state := SpaceBeforeHeaderValue));
    ReadsOne(c.(state := SpaceBeforeHeaderValue), ' ', c.(state := HeaderValue));
    ReadsBoth(c, ":", c.(state := SpaceBeforeHeaderValue), " ", c.(state := HeaderValue));
    assert ": " == ":" + " ";
  }

  /** Text is appended to the last value, whether it follows the colon or the white space of a fold. */
  lemma ReadsText(c: Config, text: string)
    requires c.state == HeaderValue || (c.state == HeaderLws && (text != "" ==> text[0] != ' '))
    requires Text(text)
    ensures Reads(c, text, if text == "" then c else With(c, HeaderValue, ExtendValue(c.req.headers, text)))
  {
    hide IsCtl, ExtendValue;
    var hs := c.req.headers;
    var after: string -> Config := (t: string) => if t == "" then c else With(c, HeaderValue, ExtendValue(hs, t));
    forall k | 0 <= k < |text|
      ensures Step(after(text[..k]), text[k]) == Reaction(Indeterminate, after(text[..k + 1]))
    {
      var ch := text[k];
      assert ch in text;
      ControlCharacters(ch);
      assert text[..k + 1] == text[..k] + [ch];
      ExtendingTwice(hs, text[..k], [ch]);
    }
    Feed(Step, after, text);
  }

  lemma ControlCharacters(c: char)
    requires !IsCtl(c)
    ensures c != '\r' && c != '\t'
  {
  }

  lemma ReadsLws(c: Config, lws: string)
    requires c.state == HeaderLineStart && c.req.headers != [] && Lws(lws)
    ensures Reads(c, lws, c.(state := HeaderLws))
  {
    var after: string -> Config := (t: string) => (if t == "" then c else c.(state := HeaderLws));
    forall k | 0 <= k < |lws|
      ensures Step(after(lws[..k]), lws[k]) == Reaction(Indeterminate, after(lws[..k + 1]))
    {
      assert lws[k] in lws;
      assert lws[..k + 1] == lws[..k] + [lws[k]];
    }
    Feed(Step, after, lws);
  }

  lemma ReadsLine(c: Config, l: Line)
    requires c.state == HeaderLineStart && ValidLine(l) && (l.Fold? ==> c.req.headers != [])
    ensures Reads(c, LineText(l), c.(req := c.req.(headers := Apply(c.req.headers, l))))
  {
    hide Step, Token, Text, Lws, ExtendValue, Reads;
    var hs := c.req.headers;
    match l {
      case Field(name, value) =>
        var c1 := With(c, HeaderName, hs + [Header(name, "")]);
        var c2: Config := c1.(state := HeaderValue);
        var c3 := With(c, HeaderValue, hs + [Header(name, value)]);
        ReadsName(c, name);
        ReadsColon(c1);
        ReadsBoth(c, name, c1, ": ", c2);
        ReadsText(c2, value);
        ExtendingTheLast(hs, Header(name, ""), value, ' ');
        assert "" + value == value;
        ReadsBoth(c, name + ": ", c2, value, c3);
        ReadsEndOfLine(c3);
        ReadsBoth(c, name + ": " + value, c3, CRLF, c3.(state := HeaderLineStart));
      case Fold(lws, text) =>
        var c1: Config := c.(state := HeaderLws);
        var c2 := if text == "" then c1 else With(c, HeaderValue, ExtendValue(hs, text));
        ReadsLws(c, lws);
        ReadsText(c1, text);
        ReadsBoth(c, lws, c1, text, c2);
        ReadsEndOfLine(c2);
        ReadsBoth(c, lws + text, c2, CRLF, c2.(state := HeaderLineStart));
        ExtendingTwice(hs, "", "");
    }
  }

  lemma {:induction false} ReadsLines(c: Config, ls: seq<Line>)
    requires c.state == HeaderLineStart && ValidLinesAfter(c.req.headers, ls)
    ensures Reads(c, LinesText(ls), c.(req := c.req.(headers := HeadersAfter(c.req.headers, ls))))
    decreases |ls|
  {
    hide Step, ValidLine, LineText, Apply;
    if ls != [] {
      var front, last := ls[..|ls| - 1], ls[|ls| - 1];
      assert forall l | l in front :: l in ls;
      assert last in ls;
      ReadsLines(c, front);
      if c.req.headers != [] || front != [] {
        FoldsHaveAField(c.req.headers, front);
      }
      var d: Config := c.(req := c.req.(headers := HeadersAfter(c.req.headers, front)));
      ReadsLine(d, last);
      ReadsBoth(c, LinesText(front), d, LineText(last), d.(req := d.req.(headers := Apply(d.req.headers, last))));
    }
  }

  /** The empty line that ends the block is the moment of acceptance. */
  lemma AcceptsEmptyLine(c: Config)
    requires c.state == HeaderLineStart
    ensures Run(Step, c, CRLF) == Outcome(True, c.(state := ExpectingNewline3), 2)
  {
    hide Run;
    ReadsOne(c, '\r', c.(state := ExpectingNewline3));
    RunAppend(Step, c, "\r", '\n');
    assert CRLF == "\r" + "\n";
  }

  /** A sentence of the grammar is accepted at its last character, and added to whatever the request object held. */
  lemma AcceptsSentence(c: Config, a: Syntax)
    requires c.state == MethodStart && ValidAfter(c.req.headers, a)
    ensures Run(Step, c, Unparse(a)) == Outcome(True, Config(ExpectingNewline3, Added(c.req, a)), |Unparse(a)|)
  {
    hide Step, RequestLine, LinesText, HeadersAfter, Stored, Token, Digits, UriText, ValidLinesAfter;
    var c1: Config := Config(HeaderLineStart, Added(c.req, a).(headers := c.req.headers));
    var c2: Config := Config(HeaderLineStart, Added(c.req, a));
    ReadsRequestLine(c, a);
    ReadsLines(c1, a.lines);
    ReadsBoth(c, RequestLine(a), c1, LinesText(a.lines), c2);
    AcceptsEmptyLine(c2);
    RunSplits(Step, c, RequestLine(a) + LinesText(a.lines), CRLF);
  }

  // ----- no dead ends -----

  /** The character that brings a state closer to acceptance, and the number of characters to go. */
  function NextCharacter(state: State): char
  {
    match state
    case MethodStart => 'G'
    case Method | Uri | SpaceBeforeHeaderValue => ' '
    case VersionH => 'H'
    case VersionT1 | VersionT2 => 'T'
    case VersionP => 'P'
    case VersionSlash => '/'
    case MajorStart | MinorStart => '1'
    case Major => '.'
    case Minor | HeaderLineStart | HeaderLws | HeaderValue => '\r'
    case HeaderName => ':'
    case ExpectingNewline1 | ExpectingNewline2 | ExpectingNewline3 => '\n'
  }

  function Distance(state: State): nat
  {
    match state
    case MethodStart => 15
    case Method => 14
    case Uri => 13
    case VersionH => 12
    case VersionT1 => 11
    case VersionT2 => 10
    case VersionP => 9
    case VersionSlash => 8
    case MajorStart => 7
    case Major => 6
    case MinorStart => 5
    case HeaderName => 6
    case SpaceBeforeHeaderValue => 5
    case Minor | HeaderValue | HeaderLws => 4
    case ExpectingNewline1 | ExpectingNewline2 => 3
    case HeaderLineStart => 2
    case ExpectingNewline3 => 1
  }

  lemma Closer(c: Config)
    ensures var r := Step(c, NextCharacter(c.state));
            if c.state == ExpectingNewline3 then r.verdict == True
            else r.verdict == Indeterminate && Distance(r.state.state) < Distance(c.state)
  {
  }

  /** From every configuration some continuation is accepted. */
  lemma {:induction false} NoDeadEnd(c: Config) returns (rest: string)
    ensures Run(Step, c, rest).verdict == True
    decreases Distance(c.state)
  {
    hide Step;
    var ch := NextCharacter(c.state);
    Closer(c);
    rest := [ch];
    if c.state != ExpectingNewline3 {
      var more := NoDeadEnd(Step(c, ch).state);
      rest := [ch] + more;
      assert rest[0] == ch && rest[1..] == more;
    }
  }
}
