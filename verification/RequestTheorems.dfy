/**
 The verdicts of `request_parser` and the request grammar coincide.
 */
module RequestTheorems {
  import opened Buffers
  import opened ParseLoop
  import opened RequestParsing
  import opened RequestGrammar
  import opened RequestSoundness
  import opened RequestCompleteness

  /** A request object before parsing; its version numbers are not initialised. */
  predicate Empty(req: Request)
  {
    req.verb == "" && req.uri == "" && req.headers == []
  }

  function Start(req: Request): Config
  {
    Config(MethodStart, req)
  }

  function ParseRequest(input: string, req: Request): Outcome<Config>
  {
    Run(Step, Start(req), input)
  }

  function NothingRead(): Partial
  {
    Partial(MethodStart, Syntax("", "", "", "", []), Field("", ""))
  }

  /** The accepting step completes a sentence of the grammar. */
  lemma AcceptingStep(c: Config, p: Partial, held: Request, ch: char)
    requires Understands(c, p, held) && Step(c, ch).verdict == True
    ensures ValidAfter(held.headers, p.tree)
    ensures Unparse(p.tree) == PartialText(p) + [ch]
    ensures Step(c, ch).state.req == Added(held, p.tree)
  {
    hide IsToken, IsCtl, IsDigit, Token, Digits, UriText, Text, Stored, AddDigit, HeadersAfter, LinesText, RequestLine;
    hide ValidLinesAfter;
    assert c.state == ExpectingNewline3 && ch == '\n';
    assert CRLF == "\r" + "\n";
  }

  /**
   Without a verdict, everything read is in the request or in the state, on top of what the request
   object held before; a verdict of true is a sentence.
   */
  lemma {:induction false} ParserIsSound(input: string, held: Request) returns (p: Partial)
    ensures var o := ParseRequest(input, held);
            && (o.verdict == Indeterminate ==> Understands(o.state, p, held) && PartialText(p) == input)
            && (o.verdict == True ==> ValidAfter(held.headers, p.tree) && Unparse(p.tree) == input[..o.consumed]
                                      && o.state.req == Added(held, p.tree))
            && (o.verdict == False ==> Understands(o.state, p, held) && PartialText(p) == input[..o.consumed - 1])
    decreases |input|
  {
    hide Step, Understands, ValidAfter, Unparse, Added, PartialText;
    if input == [] {
      p := NothingRead();
      StartIsUnderstood(held);
    } else {
      var front, ch := input[..|input| - 1], input[|input| - 1];
      p := ParserIsSound(front, held);
      p := SoundForOneMore(front, ch, held, p);
      assert front + [ch] == input;
    }
  }

  lemma SoundForOneMore(front: string, ch: char, held: Request, p: Partial) returns (q: Partial)
    requires var o := ParseRequest(front, held);
             && (o.verdict == Indeterminate ==> Understands(o.state, p, held) && PartialText(p) == front)
             && (o.verdict == True ==> ValidAfter(held.headers, p.tree) && Unparse(p.tree) == front[..o.consumed]
                                       && o.state.req == Added(held, p.tree))
             && (o.verdict == False ==> Understands(o.state, p, held) && PartialText(p) == front[..o.consumed - 1])
    ensures var input := front + [ch];
            var o := ParseRequest(input, held);
            && (o.verdict == Indeterminate ==> Understands(o.state, q, held) && PartialText(q) == input)
            && (o.verdict == True ==> ValidAfter(held.headers, q.tree) && Unparse(q.tree) == input[..o.consumed]
                                      && o.state.req == Added(held, q.tree))
            && (o.verdict == False ==> Understands(o.state, q, held) && PartialText(q) == input[..o.consumed - 1])
  {
    hide Step, Understands, ValidAfter, Unparse, Added, PartialText;
    var input := front + [ch];
    RunAppend(Step, Start(held), front, ch);
    var o := ParseRequest(front, held);
    q := p;
    if o.verdict != Indeterminate {
      assert input[..o.consumed] == front[..o.consumed] && input[..o.consumed - 1] == front[..o.consumed - 1];
    } else {
      assert input[..|input|] == input && input[..|front|] == front;
      var r := Step(o.state, ch);
      if r.verdict == True {
        AcceptingStep(o.state, p, held, ch);
      } else if r.verdict == Indeterminate {
        q := Understood(o.state, p, held, ch);
      } else {
        RejectingStep(o.state, ch);
      }
    }
  }

  lemma RejectingStep(c: Config, ch: char)
    requires Step(c, ch).verdict == False
    ensures Step(c, ch).state == c
  {
    hide IsToken, IsCtl, IsDigit, ExtendName, ExtendValue;
  }

  lemma StartIsUnderstood(held: Request)
    ensures Understands(Start(held), NothingRead(), held) && PartialText(NothingRead()) == ""
  {
    assert held.verb + "" == held.verb && held.uri + "" == held.uri;
  }

  lemma Understood(c: Config, p: Partial, held: Request, ch: char) returns (q: Partial)
    requires Understands(c, p, held) && Step(c, ch).verdict == Indeterminate
    ensures Understands(Step(c, ch).state, q, held) && PartialText(q) == PartialText(p) + [ch]
  {
    var next := Step(c, ch).state.state;
    Fitting(c, p, held);
    q := Extend(p, next, ch);
    hide Step, Extend, PartialText, ValidPartial;
    if !FirstLine(c.state) {
      TextInHeaders(c, p, held, ch);
      match c.state {
        case HeaderLineStart => StepAtLineStart(c, p, held, ch);
        case HeaderName | SpaceBeforeHeaderValue => StepInName(c, p, held, ch);
        case HeaderLws | HeaderValue => StepInText(c, p, held, ch);
        case _ => StepAfterLine(c, p, held, ch);
      }
    } else {
      StepInFirstLine(c, p, held, ch);
      if VersionSeen(c.state) == 0 {
        TextBeforeVersion(c, p, held, ch);
      } else {
        TextInVersion(c, p, held, ch);
      }
    }
  }

  lemma Fitting(c: Config, p: Partial, held: Request)
    requires Understands(c, p, held)
    ensures p.state == HeaderName ==> p.current.Field?
    ensures p.state == HeaderLws ==> p.current.Fold?
  {
  }

  lemma AddedToNothing(req: Request, a: Syntax)
    requires Empty(req)
    ensures ValidAfter(req.headers, a) <==> Valid(a)
    ensures Added(req, a) == Meaning(a)
  {
  }

  /** A sentence at the start of the input decides everything about the parse. */
  lemma SentenceIsAdded(input: string, held: Request, a: Syntax)
    requires ValidAfter(held.headers, a) && Unparse(a) <= input
    ensures var o := ParseRequest(input, held);
            && o.verdict == True
            && o.consumed == |Unparse(a)|
            && o.state.req == Added(held, a)
  {
    hide Step, Unparse, ValidAfter, Added;
    var n := |Unparse(a)|;
    assert input == Unparse(a) + input[n..];
    AcceptsSentence(Start(held), a);
    VerdictIsStable(Step, Start(held), Unparse(a), input[n..]);
  }

  lemma SentenceDecides(input: string, req: Request, a: Syntax)
    requires Empty(req) && Valid(a) && Unparse(a) <= input
    ensures var o := ParseRequest(input, req);
            && o.verdict == True
            && o.consumed == |Unparse(a)|
            && o.state.req == Meaning(a)
  {
    hide Step, Unparse, Valid, ValidAfter, Added, Meaning;
    AddedToNothing(req, a);
    SentenceIsAdded(input, req, a);
  }

  /**
   Whatever the request object holds, the parser accepts exactly the inputs that start with a
   request for it, whose first header line may continue the last header held.
   */
  lemma AcceptsExactlyAfter(input: string, held: Request)
    ensures var o := ParseRequest(input, held);
            && (o.verdict == True <==> StartsWithRequestAfter(held.headers, input))
            && (o.verdict == True ==>
                  exists a :: ValidAfter(held.headers, a) && Unparse(a) == input[..o.consumed] && o.state.req == Added(held, a))
  {
    hide Step, Unparse, ValidAfter, Added;
    var o := ParseRequest(input, held);
    var p := ParserIsSound(input, held);
    if o.verdict == True {
      assert Unparse(p.tree) <= input;
    }
    if StartsWithRequestAfter(held.headers, input) {
      var a :| ValidAfter(held.headers, a) && Unparse(a) <= input;
      SentenceIsAdded(input, held, a);
    }
  }

  /** The input is rejected exactly when nothing that could follow would make it start with a request. */
  lemma RejectsExactlyAfter(input: string, held: Request)
    ensures ParseRequest(input, held).verdict == False <==> forall more :: !StartsWithRequestAfter(held.headers, input + more)
  {
    hide Step, StartsWithRequestAfter, Unparse, ValidAfter, Added;
    var c := Start(held);
    var o := ParseRequest(input, held);
    if o.verdict == False {
      forall more
        ensures !StartsWithRequestAfter(held.headers, input + more)
      {
        VerdictIsStable(Step, c, input, more);
        AcceptsExactlyAfter(input + more, held);
      }
    } else if o.verdict == True {
      AcceptsExactlyAfter(input, held);
      assert input + "" == input;
      assert StartsWithRequestAfter(held.headers, input + "");
    } else {
      var rest := NoDeadEnd(o.state);
      RunSplits(Step, c, input, rest);
      AcceptsExactlyAfter(input + rest, held);
      assert StartsWithRequestAfter(held.headers, input + rest);
    }
  }

  lemma NothingHeld(input: string, req: Request)
    requires Empty(req)
    ensures StartsWithRequestAfter(req.headers, input) <==> StartsWithRequest(input)
  {
    hide Unparse, ValidAfter;
    if StartsWithRequest(input) {
      var a :| Valid(a) && Unparse(a) <= input;
      assert ValidAfter(req.headers, a);
    }
    if StartsWithRequestAfter(req.headers, input) {
      var a :| ValidAfter(req.headers, a) && Unparse(a) <= input;
      assert Valid(a);
    }
  }

  /**
   The parser accepts exactly the inputs that start with a request of the grammar, and then
   it has read that request, to its end, and stored what it means.
   */
  lemma AcceptsExactlyTheGrammar(input: string, req: Request)
    requires Empty(req)
    ensures var o := ParseRequest(input, req);
            && (o.verdict == True <==> StartsWithRequest(input))
            && (o.verdict == True ==>
                  exists a :: Valid(a) && Unparse(a) == input[..o.consumed] && o.state.req == Meaning(a))
  {
    hide Step, Unparse, Valid, ValidAfter, Meaning, Added, StartsWithRequest, StartsWithRequestAfter;
    var o := ParseRequest(input, req);
    AcceptsExactlyAfter(input, req);
    NothingHeld(input, req);
    if o.verdict == True {
      var a :| ValidAfter(req.headers, a) && Unparse(a) == input[..o.consumed] && o.state.req == Added(req, a);
      AddedToNothing(req, a);
    }
  }

  lemma RejectsExactlyTheHopeless(input: string, req: Request)
    requires Empty(req)
    ensures ParseRequest(input, req).verdict == False <==> forall more :: !StartsWithRequest(input + more)
  {
    hide Step, StartsWithRequest, StartsWithRequestAfter;
    RejectsExactlyAfter(input, req);
    forall more
      ensures StartsWithRequestAfter(req.headers, input + more) <==> StartsWithRequest(input + more)
    {
      NothingHeld(input + more, req);
    }
  }

  /** Two sentences at the start of one input are the same text with the same meaning. */
  lemma SentenceIsUnique(input: string, a: Syntax, b: Syntax)
    requires Valid(a) && Valid(b) && Unparse(a) <= input && Unparse(b) <= input
    ensures Unparse(a) == Unparse(b) && Meaning(a) == Meaning(b)
  {
    hide Unparse, Valid, Meaning;
    var req := Request("", "", Known(0), Known(0), []);
    SentenceDecides(input, req, a);
    SentenceDecides(input, req, b);
    assert Unparse(a) == input[..|Unparse(a)|] && Unparse(b) == input[..|Unparse(b)|];
  }

  // ----- version numbers -----

  /**
   The version numbers stored are those in the text exactly if both are at least 48 below the
   largest int; beyond that the parser still accepts, after an overflow.
   */
  lemma VersionsAreExact(input: string, req: Request, a: Syntax)
    requires Empty(req) && Valid(a) && Unparse(a) <= input
    ensures var stored := ParseRequest(input, req).state.req;
            (stored.major == Known(Decimal(a.major)) && stored.minor == Known(Decimal(a.minor)))
            <==> Decimal(a.major) + '0' as int <= INT_MAX && Decimal(a.minor) + '0' as int <= INT_MAX
  {
    hide Step, Unparse, ValidLinesAfter, Decimal, HeadersAfter;
    SentenceDecides(input, req, a);
    NoOverflowExactly(a.major);
    NoOverflowExactly(a.minor);
  }

  const LARGEST_INT := "2147483647"

  /** The number written by the first `k` digits of the largest int. */
  function LeadingDigits(k: nat): int
    requires k <= 10
  {
    [0, 2, 21, 214, 2147, 21474, 214748, 2147483, 21474836, 214748364, 2147483647][k]
  }

  lemma PlainTokens()
    ensures Token("GET") && UriText("/") && Digits(LARGEST_INT) && Digits("1")
  {
  }

  lemma LargestIntInDecimal()
    ensures Decimal(LARGEST_INT) == INT_MAX
  {
    hide Decimal;
    var s := LARGEST_INT;
    assert s[..0] == "" && Decimal("") == 0 by { NoDecimal(); }
    for k := 0 to |s|
      invariant Decimal(s[..k]) == LeadingDigits(k)
    {
      assert s[..k + 1] == s[..k] + [s[k]];
      DecimalAppend(s[..k], s[k]);
    }
    assert s[..|s|] == s;
  }

  lemma NoDecimal()
    ensures Decimal("") == 0
  {
  }

  /** A version that fits an int, and yet cannot be read into one. */
  lemma LargestVersionOverflows(req: Request)
    requires Empty(req)
    ensures var a := Syntax("GET", "/", LARGEST_INT, "1", []);
            var o := ParseRequest(Unparse(a), req);
            InInt(Decimal(a.major)) && o.verdict == True && o.state.req.major == Overflowed
  {
    hide Step, Decimal, Token, UriText, Digits, Unparse;
    PlainTokens();
    LargestIntInDecimal();
    SentenceDecides(Unparse(Syntax("GET", "/", LARGEST_INT, "1", [])), req, Syntax("GET", "/", LARGEST_INT, "1", []));
  }

  // ----- a request object that is used again -----

  lemma {:induction false} HeadersAddUp(headers: seq<Header>, ls: seq<Line>)
    ensures |HeadersAfter(headers, ls)| == |headers| + |Headers(ls)|
    decreases |ls|
  {
    if ls != [] {
      HeadersAddUp(headers, ls[..|ls| - 1]);
    }
  }

  /**
   A parser that was reset, with the request object of an earlier parse: the new text is appended
   to what the object holds, so that it holds the new request exactly if it had been cleared.
   (What is accepted then is the subject of `AcceptsExactlyAfter`.)
   */
  lemma ReusedRequest(input: string, held: Request, a: Syntax)
    requires ValidAfter(held.headers, a) && Unparse(a) <= input
    ensures var stored := ParseRequest(input, held).state.req;
            && stored == Added(held, a)
            && (stored == Meaning(a) <==> Empty(held))
  {
    hide Step, Unparse, ValidAfter, HeadersAfter;
    SentenceIsAdded(input, held, a);
    HeadersAddUp(held.headers, a.lines);
    if Empty(held) {
      AddedToNothing(held, a);
    } else {
      assert |(held.verb + a.verb)| + |(held.uri + a.uri)| + |HeadersAfter(held.headers, a.lines)|
           > |a.verb| + |a.uri| + |Headers(a.lines)|;
    }
  }

  // ----- what every unfinished parse has stored -----

  predicate Printable(h: Header)
  {
    Token(h.name) && Text(h.value)
  }

  ghost predicate AllPrintable(hs: seq<Header>)
  {
    forall i | 0 <= i < |hs| :: Printable(hs[i])
  }

  lemma GrowingPrintable(hs: seq<Header>, ch: char)
    requires AllPrintable(hs)
    ensures IsToken(ch) ==> AllPrintable(hs + [Header([ch], "")])
    ensures IsToken(ch) && hs != [] ==> AllPrintable(ExtendName(hs, ch))
    ensures !IsCtl(ch) && hs != [] ==> AllPrintable(ExtendValue(hs, [ch]))
  {
    hide IsToken, IsCtl, Token, Text;
    ClassesAppend("", ch);
    NoText();
    if hs != [] {
      var last := hs[|hs| - 1];
      ClassesAppend(last.name, ch);
      ClassesAppend(last.value, ch);
    }
  }

  lemma StepKeepsPrintable(c: Config, ch: char)
    requires AllPrintable(c.req.headers)
    ensures AllPrintable(Step(c, ch).state.req.headers)
  {
    hide IsToken, IsCtl, IsDigit, AllPrintable, ExtendName, ExtendValue, AddDigit;
    GrowingPrintable(c.req.headers, ch);
  }

  lemma {:induction false} RunKeepsPrintable(c: Config, input: string)
    requires AllPrintable(c.req.headers)
    ensures AllPrintable(Run(Step, c, input).state.req.headers)
    decreases |input|
  {
    hide Step, AllPrintable;
    if input != "" {
      StepKeepsPrintable(c, input[0]);
      RunKeepsPrintable(Step(c, input[0]).state, input[1..]);
    }
  }

  /** The number of characters stored in a list of headers. */
  function Captured(hs: seq<Header>): nat
  {
    if hs == [] then 0 else Captured(hs[..|hs| - 1]) + |hs[|hs| - 1].name| + |hs[|hs| - 1].value|
  }

  function CapturedBy(l: Line): nat
  {
    match l
    case Field(name, value) => |name| + |value|
    case Fold(_, text) => |text|
  }

  lemma ApplyCaptures(hs: seq<Header>, l: Line)
    ensures Captured(Apply(hs, l)) <= Captured(hs) + CapturedBy(l)
  {
    match l {
      case Field(name, value) =>
        assert Apply(hs, l)[..|hs|] == hs;
      case Fold(lws, text) =>
        if hs != [] {
          assert Apply(hs, l)[..|hs| - 1] == hs[..|hs| - 1];
        }
    }
  }

  lemma {:induction false} LinesCapture(ls: seq<Line>)
    ensures Captured(Headers(ls)) <= |LinesText(ls)|
    decreases |ls|
  {
    if ls != [] {
      LinesCapture(ls[..|ls| - 1]);
      ApplyCaptures(Headers(ls[..|ls| - 1]), ls[|ls| - 1]);
    }
  }

  ghost predicate Clean(req: Request, read: nat)
  {
    && AllPrintable(req.headers)
    && |req.verb| + |req.uri| + Captured(req.headers) <= read
  }

  lemma HeadersReadAreShort(p: Partial)
    requires ValidPartial([], p)
    ensures Captured(HeadersRead([], p)) <= |LinesText(p.tree.lines)| + |CurrentText(p)|
  {
    hide Printable, Captured, CapturedBy, HeadersAfter, Apply, LinesText, CurrentText, LineOpen, Token, Digits, UriText;
    var ls := p.tree.lines;
    LinesCapture(ls);
    if InLine(p.state) {
      CurrentLineIsShort(p);
      ApplyCaptures(Headers(ls), p.current);
    }
  }

  lemma PartialIsClean(c: Config, p: Partial, held: Request)
    requires Empty(held) && Understands(c, p, held) && AllPrintable(c.req.headers)
    ensures Clean(c.req, |PartialText(p)|)
  {
    hide Printable, Captured, Headers, Apply, LinesText, CurrentText, LineOpen, Token, Digits, UriText, FirstLineText;
    HeadersReadAreShort(p);
    if FirstLine(p.state) {
      FirstLineIsLong(p);
      NothingCaptured();
    }
  }

  lemma NothingCaptured()
    ensures Captured([]) == 0 && Headers([]) == []
  {
  }

  lemma FirstLineIsLong(p: Partial)
    requires ValidPartial([], p) && FirstLine(p.state)
    ensures |p.tree.verb| + |p.tree.uri| <= |PartialText(p)|
    ensures p.tree.lines == []
  {
  }

  lemma CurrentLineIsShort(p: Partial)
    requires ValidPartial([], p) && InLine(p.state)
    ensures CapturedBy(p.current) <= |CurrentText(p)|
  {
    hide Token, Lws, Digits, UriText, Headers, LinesText;
    NoText();
  }

  /**
   In every state that can be reached from a new parser and an empty request, every header
   has a token for a name and no control character in its value, and no more characters are
   stored than were read.
   */
  lemma StoredTextIsClean(input: string, req: Request)
    requires Empty(req)
    ensures var o := ParseRequest(input, req); Clean(o.state.req, o.consumed)
  {
    hide Step, Understands, Valid, Unparse, Clean, PartialText;
    RunKeepsPrintable(Start(req), input);
    var o := ParseRequest(input, req);
    var p := ParserIsSound(input, req);
    if o.verdict == True {
      AddedToNothing(req, p.tree);
      SentenceIsClean(p.tree);
    } else {
      PartialIsClean(o.state, p, req);
      CleanForMore(o.state.req, |PartialText(p)|, o.consumed);
    }
  }

  lemma CleanForMore(req: Request, a: nat, b: nat)
    requires Clean(req, a) && a <= b
    ensures Clean(req, b)
  {
  }

  lemma SentenceIsClean(a: Syntax)
    requires Valid(a) && AllPrintable(Headers(a.lines))
    ensures Clean(Meaning(a), |Unparse(a)|)
  {
    hide Printable, Captured, Headers, LinesText, Stored, Token, Digits, UriText;
    LinesCapture(a.lines);
  }

  /** A request may arrive in any number of reads, as the first read and `handle_read` of a session rely on. */
  lemma ChunkedRequest(pieces: seq<string>, req: Request)
    requires Empty(req)
    ensures var o := RunChunks(Step, Start(req), pieces);
            && o == ParseRequest(Concat(pieces), req)
            && (o.verdict == True <==> StartsWithRequest(Concat(pieces)))
            && (o.verdict == False <==> forall more :: !StartsWithRequest(Concat(pieces) + more))
  {
    hide Step, Unparse, Valid, Meaning;
    ChunkingIsInvisible(Step, Start(req), pieces);
    AcceptsExactlyTheGrammar(Concat(pieces), req);
    RejectsExactlyTheHopeless(Concat(pieces), req);
  }
}
