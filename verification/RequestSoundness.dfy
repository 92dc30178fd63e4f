/**
 What the parser has understood of an unfinished request: a partial syntax tree whose
 text is exactly the characters read. Every step of the automaton extends it, so a
 request that is accepted is a sentence of the grammar.
 */
module RequestSoundness {
  import opened ParseLoop
  import opened RequestParsing
  import opened RequestGrammar

  /** `lines` are complete; `current` is the line being read in the states of a line. */
  datatype Partial = Partial(state: State, tree: Syntax, current: Line)

  predicate FirstLine(state: State)
  {
    state in {MethodStart, Method, Uri, VersionH, VersionT1, VersionT2, VersionP, VersionSlash,
              MajorStart, Major, MinorStart, Minor, ExpectingNewline1}
  }

  predicate InLine(state: State)
  {
    state in {HeaderName, SpaceBeforeHeaderValue, HeaderValue, HeaderLws, ExpectingNewline2}
  }

  function FirstLineText(p: Partial): string
  {
    var t := p.tree;
    match p.state
    case MethodStart => ""
    case Method => t.verb
    case Uri => t.verb + " " + t.uri
    case VersionH => t.verb + " " + t.uri + " "
    case VersionT1 => t.verb + " " + t.uri + " H"
    case VersionT2 => t.verb + " " + t.uri + " HT"
    case VersionP => t.verb + " " + t.uri + " HTT"
    case VersionSlash => t.verb + " " + t.uri + " HTTP"
    case MajorStart => t.verb + " " + t.uri + " HTTP/"
    case Major => t.verb + " " + t.uri + " HTTP/" + t.major
    case MinorStart => t.verb + " " + t.uri + " HTTP/" + t.major + "."
    case Minor => t.verb + " " + t.uri + " HTTP/" + t.major + "." + t.minor
    case ExpectingNewline1 => t.verb + " " + t.uri + " HTTP/" + t.major + "." + t.minor + "\r"
    case _ => ""
  }

  function CurrentText(p: Partial): string
  {
    match p.state
    case HeaderName => if p.current.Field? then p.current.name else ""
    case SpaceBeforeHeaderValue => if p.current.Field? then p.current.name + ":" else ""
    case HeaderLws | HeaderValue => OpenLine(p.current)
    case ExpectingNewline2 => OpenLine(p.current) + "\r"
    case ExpectingNewline3 => "\r"
    case _ => ""
  }

  /** The characters that lead to this partial tree. */
  function PartialText(p: Partial): string
  {
    if FirstLine(p.state) then FirstLineText(p)
    else RequestLine(p.tree) + LinesText(p.tree.lines) + CurrentText(p)
  }

  /** How far the version has been read: 0 nothing, 1 the major number, 2 both. */
  function VersionSeen(state: State): nat
  {
    match state
    case MethodStart | Method | Uri | VersionH | VersionT1 | VersionT2 | VersionP | VersionSlash | MajorStart => 0
    case Major | MinorStart => 1
    case _ => 2
  }

  /** `headers` are those that the request object held before. */
  predicate LineOpen(headers: seq<Header>, p: Partial)
  {
    match p.state
    case HeaderName | SpaceBeforeHeaderValue =>
      p.current.Field? && Token(p.current.name) && p.current.value == ""
    case HeaderValue =>
      ValidLine(p.current) && (p.current.Fold? ==> Continuable(headers, p) && p.current.text != "")
    case HeaderLws =>
      p.current.Fold? && Lws(p.current.lws) && p.current.text == "" && Continuable(headers, p)
    case ExpectingNewline2 =>
      ValidLine(p.current) && (p.current.Fold? ==> Continuable(headers, p))
    case _ => true
  }

  /** There is a header that a continuation could belong to. */
  predicate Continuable(headers: seq<Header>, p: Partial)
  {
    headers != [] || p.tree.lines != []
  }

  ghost predicate ValidPartial(headers: seq<Header>, p: Partial)
  {
    var t := p.tree;
    && (if p.state == MethodStart then t.verb == "" else Token(t.verb))
    && (p.state in {MethodStart, Method} ==> t.uri == "")
    && UriText(t.uri)
    && Digits(t.major) && (VersionSeen(p.state) < 1 <==> t.major == "")
    && Digits(t.minor) && (VersionSeen(p.state) < 2 <==> t.minor == "")
    && ValidLinesAfter(headers, t.lines)
    && (FirstLine(p.state) ==> t.lines == [])
    && LineOpen(headers, p)
  }

  function HeadersRead(headers: seq<Header>, p: Partial): seq<Header>
  {
    var hs := HeadersAfter(headers, p.tree.lines);
    if InLine(p.state) then Apply(hs, p.current) else hs
  }

  predicate VersionStarted(state: State)
  {
    state !in {MethodStart, Method, Uri, VersionH, VersionT1, VersionT2, VersionP, VersionSlash}
  }

  /** The configuration holds what the partial tree says, on top of what was held before. */
  ghost predicate Understands(c: Config, p: Partial, held: Request)
  {
    && c.state == p.state
    && ValidPartial(held.headers, p)
    && c.req.verb == held.verb + p.tree.verb
    && c.req.uri == held.uri + p.tree.uri
    && (VersionStarted(p.state) ==> c.req.major == Stored(p.tree.major) && c.req.minor == Stored(p.tree.minor))
    && c.req.headers == HeadersRead(held.headers, p)
  }

  // ----- one character more -----

  function WithName(p: Partial, c: char): Line
    requires p.current.Field?
  {
    Field(p.current.name + [c], "")
  }

  function WithText(l: Line, c: char): Line
  {
    match l
    case Field(name, value) => Field(name, value + [c])
    case Fold(lws, text) => Fold(lws, text + [c])
  }

  function Extend(p: Partial, next: State, c: char): Partial
    requires p.state == HeaderName ==> p.current.Field?
    requires p.state == HeaderLws ==> p.current.Fold?
  {
    var t := p.tree;
    var q := p.(state := next);
    match (p.state, next)
    case (MethodStart, _) => q.(tree := t.(verb := [c]))
    case (Method, Method) => q.(tree := t.(verb := t.verb + [c]))
    case (Uri, Uri) => q.(tree := t.(uri := t.uri + [c]))
    case (MajorStart, _) => q.(tree := t.(major := [c]))
    case (Major, Major) => q.(tree := t.(major := t.major + [c]))
    case (MinorStart, _) => q.(tree := t.(minor := [c]))
    case (Minor, Minor) => q.(tree := t.(minor := t.minor + [c]))
    case (HeaderLineStart, HeaderName) => q.(current := Field([c], ""))
    case (HeaderLineStart, HeaderLws) => q.(current := Fold([c], ""))
    case (HeaderLws, HeaderLws) => q.(current := Fold(p.current.lws + [c], ""))
    case (HeaderName, HeaderName) => q.(current := WithName(p, c))
    case (HeaderLws, HeaderValue) => q.(current := WithText(p.current, c))
    case (HeaderValue, HeaderValue) => q.(current := WithText(p.current, c))
    case (ExpectingNewline2, _) => q.(tree := t.(lines := t.lines + [p.current]))
    case _ => q
  }

  /** The character classes of a growing string. */
  lemma ClassesAppend(s: string, c: char)
    ensures (s == "" || Token(s)) && IsToken(c) ==> Token(s + [c])
    ensures Digits(s) && IsDigit(c) ==> Digits(s + [c])
    ensures UriText(s) && !IsCtl(c) && c != ' ' ==> UriText(s + [c])
    ensures Text(s) && !IsCtl(c) ==> Text(s + [c])
    ensures (s == "" || Lws(s)) && (c == ' ' || c == '\t') ==> Lws(s + [c])
    ensures "" + [c] == [c]
  {
    hide IsToken, IsCtl, IsDigit;
  }

  lemma StepInFirstLine(c: Config, p: Partial, held: Request, ch: char)
    requires Understands(c, p, held) && FirstLine(c.state)
    requires Step(c, ch).verdict == Indeterminate
    ensures Understands(Step(c, ch).state, Extend(p, Step(c, ch).state.state, ch), held)
  {
    hide IsToken, IsCtl, IsDigit, Token, Digits, UriText, ValidLine, Stored, AddDigit;
    NoDigits();
    var t := p.tree;
    match c.state {
      case MethodStart => ClassesAppend("", ch); assert held.verb + "" == held.verb;
      case Method => ClassesAppend(t.verb, ch); Snoc(held.verb, t.verb, ch);
      case Uri => ClassesAppend(t.uri, ch); Snoc(held.uri, t.uri, ch);
      case MajorStart => NextDigit("", ch);
      case Major => NextDigit(t.major, ch);
      case MinorStart => NextDigit("", ch);
      case Minor => NextDigit(t.minor, ch);
      case _ =>
    }
  }

  lemma NextDigit(s: string, c: char)
    requires Digits(s)
    ensures IsDigit(c) ==> Digits(s + [c]) && Stored(s + [c]) == AddDigit(Stored(s), c)
    ensures "" + [c] == [c]
  {
    if IsDigit(c) {
      StoredAppend(s, c);
    }
  }

  lemma NoDigits()
    ensures Digits("") && Stored("") == Known(0)
  {
  }

  lemma NoText()
    ensures Text("")
  {
  }

  lemma Snoc(a: string, b: string, c: char)
    ensures a + (b + [c]) == (a + b) + [c]
  {
  }

  lemma TextBeforeVersion(c: Config, p: Partial, held: Request, ch: char)
    requires Understands(c, p, held) && VersionSeen(c.state) == 0
    requires Step(c, ch).verdict == Indeterminate
    ensures PartialText(Extend(p, Step(c, ch).state.state, ch)) == PartialText(p) + [ch]
  {
    hide IsToken, IsCtl, IsDigit, Token, Digits, UriText, ValidLine, Stored, AddDigit, Headers, LinesText;
    var t := p.tree;
    var before := t.verb + " " + t.uri;
    match c.state {
      case MethodStart =>
      case Method => Snoc(t.verb, "", ch); Snoc(t.verb + " ", "", ch);
      case Uri => Snoc(t.verb + " ", t.uri, ch);
      case VersionH => Snoc(before, " ", ch);
      case VersionT1 => Snoc(before, " H", ch);
      case VersionT2 => Snoc(before, " HT", ch);
      case VersionP => Snoc(before, " HTT", ch);
      case VersionSlash => Snoc(before, " HTTP", ch);
      case MajorStart => Snoc(before + " HTTP/", "", ch);
    }
  }

  lemma TextInVersion(c: Config, p: Partial, held: Request, ch: char)
    requires Understands(c, p, held) && c.state in {Major, MinorStart, Minor, ExpectingNewline1}
    requires Step(c, ch).verdict == Indeterminate
    ensures PartialText(Extend(p, Step(c, ch).state.state, ch)) == PartialText(p) + [ch]
  {
    hide IsToken, IsCtl, IsDigit, Token, Digits, UriText, ValidLine, Stored, AddDigit, Headers;
    var t := p.tree;
    var version := t.verb + " " + t.uri + " HTTP/" + t.major;
    match c.state {
      case Major => Snoc(t.verb + " " + t.uri + " HTTP/", t.major, ch);
      case MinorStart => Snoc(version + ".", "", ch);
      case Minor => Snoc(version + ".", t.minor, ch);
      case ExpectingNewline1 =>
        Snoc(version + "." + t.minor, "\r", ch);
        assert CRLF == "\r" + "\n";
    }
  }

  lemma CurrentLineGrows(c: Config, p: Partial, held: Request, ch: char)
    requires Understands(c, p, held) && c.state in {HeaderLineStart, HeaderName, SpaceBeforeHeaderValue, HeaderLws, HeaderValue}
    requires Step(c, ch).verdict == Indeterminate
    ensures var q := Extend(p, Step(c, ch).state.state, ch);
            q.tree == p.tree && !FirstLine(q.state) && CurrentText(q) == CurrentText(p) + [ch]
  {
    hide IsToken, IsCtl, IsDigit, Token, Text, Lws, Digits, UriText, Stored, AddDigit, Headers, RequestLine, LinesText;
    match c.state {
      case HeaderLws =>
        Snoc(p.current.lws, "", ch);
      case HeaderValue =>
        if p.current.Field? {
          Snoc(p.current.name + ": ", p.current.value, ch);
        } else {
          Snoc(p.current.lws, p.current.text, ch);
        }
      case _ =>
    }
  }

  lemma TextInHeaders(c: Config, p: Partial, held: Request, ch: char)
    requires Understands(c, p, held) && !FirstLine(c.state)
    requires Step(c, ch).verdict == Indeterminate
    ensures PartialText(Extend(p, Step(c, ch).state.state, ch)) == PartialText(p) + [ch]
  {
    hide IsToken, IsCtl, IsDigit, Token, Text, Lws, Digits, UriText, Stored, AddDigit, Headers, RequestLine, LinesText;
    hide OpenLine;
    Snoc(RequestLine(p.tree) + LinesText(p.tree.lines), CurrentText(p), ch);
    if c.state == ExpectingNewline2 {
      LinesTextAppend(p.tree.lines, p.current);
      SameFirstLine(p.tree, p.tree.lines + [p.current]);
      LineEnds(RequestLine(p.tree), LinesText(p.tree.lines), OpenLine(p.current));
    } else {
      CurrentLineGrows(c, p, held, ch);
    }
  }

  lemma SameFirstLine(t: Syntax, lines: seq<Line>)
    ensures RequestLine(t.(lines := lines)) == RequestLine(t)
  {
  }

  lemma LineEnds(a: string, b: string, open: string)
    ensures a + (b + (open + CRLF)) + "" == a + b + ((open + "\r") + "\n")
  {
  }

  lemma HeadersSoFar(headers: seq<Header>, p: Partial, ch: char)
    requires ValidLinesAfter(headers, p.tree.lines)
    ensures var hs := HeadersAfter(headers, p.tree.lines);
            Continuable(headers, p) ==> hs != [] && ExtendValue(hs, "") == hs
  {
    if Continuable(headers, p) {
      FoldsHaveAField(headers, p.tree.lines);
      ExtendingTwice(HeadersAfter(headers, p.tree.lines), "", "");
    }
  }

  lemma StepAtLineStart(c: Config, p: Partial, held: Request, ch: char)
    requires Understands(c, p, held) && c.state == HeaderLineStart
    requires Step(c, ch).verdict == Indeterminate
    ensures Understands(Step(c, ch).state, Extend(p, Step(c, ch).state.state, ch), held)
  {
    hide IsToken, IsCtl, IsDigit, Token, Text, Lws, Digits, UriText, Stored, AddDigit, ExtendValue, ExtendName;
    hide HeadersAfter, ValidLinesAfter;
    NoText();
    NoHeaders(held.headers, p.tree.lines);
    HeadersSoFar(held.headers, p, ch);
    ClassesAppend("", ch);
  }

  lemma NoHeaders(headers: seq<Header>, ls: seq<Line>)
    ensures HeadersAfter(headers, ls) != [] ==> headers != [] || ls != []
  {
  }

  /** The line feed after a line puts the line on the list. */
  lemma StepAfterLine(c: Config, p: Partial, held: Request, ch: char)
    requires Understands(c, p, held) && c.state in {ExpectingNewline2, ExpectingNewline3}
    requires Step(c, ch).verdict == Indeterminate
    ensures Understands(Step(c, ch).state, Extend(p, Step(c, ch).state.state, ch), held)
  {
    hide Token, Digits, UriText, Stored, HeadersAfter, ValidLinesAfter, ValidLine, Apply;
    HeadersAfterAppend(held.headers, p.tree.lines, p.current);
    ValidLinesAppend(held.headers, p.tree.lines, p.current);
  }

  lemma StepInName(c: Config, p: Partial, held: Request, ch: char)
    requires Understands(c, p, held) && c.state in {HeaderName, SpaceBeforeHeaderValue}
    requires Step(c, ch).verdict == Indeterminate
    ensures Understands(Step(c, ch).state, Extend(p, Step(c, ch).state.state, ch), held)
  {
    hide IsToken, IsCtl, IsDigit, Token, Text, Lws, Digits, UriText, Stored, AddDigit, ExtendValue, ExtendName;
    hide HeadersAfter, ValidLinesAfter;
    NoText();
    ClassesAppend(p.current.name, ch);
    ExtendingTheLast(HeadersAfter(held.headers, p.tree.lines), Header(p.current.name, ""), "", ch);
  }

  lemma StepInText(c: Config, p: Partial, held: Request, ch: char)
    requires Understands(c, p, held) && c.state in {HeaderLws, HeaderValue}
    requires Step(c, ch).verdict == Indeterminate
    ensures Understands(Step(c, ch).state, Extend(p, Step(c, ch).state.state, ch), held)
  {
    hide IsToken, IsCtl, IsDigit, Token, Text, Lws, Digits, UriText, Stored, AddDigit, ExtendValue, ExtendName;
    hide HeadersAfter, ValidLinesAfter;
    NoText();
    var hs := HeadersAfter(held.headers, p.tree.lines);
    HeadersSoFar(held.headers, p, ch);
    if c.state == HeaderLws {
      ClassesAppend(p.current.lws, ch);
      ClassesAppend("", ch);
    } else if p.current.Field? {
      ClassesAppend(p.current.value, ch);
      ExtendingTheLast(hs, Header(p.current.name, p.current.value), [ch], ch);
    } else {
      ClassesAppend(p.current.text, ch);
      ExtendingTwice(hs, p.current.text, [ch]);
    }
  }
}
