/**
 `request_parser`: the twenty-state automaton that reads an HTTP request one
 character at a time. The library holds it twice, in splice/http/request_parser.hxx
 and inside rfc6455_engine; one model stands for both. A character is one byte of
 input; those above 127 are neither control characters nor token characters,
 whether or not the host's `char` is signed.
 */
module RequestParsing {
  import opened ParseLoop

  datatype Header = Header(name: string, value: string)

  /**
   A variable of C++ type int. An arithmetic operation whose result is out of range is undefined
   behaviour; `Overflowed` records that there was one.
   */
  datatype VersionNumber = Known(value: int) | Overflowed

  datatype Request = Request(verb: string, uri: string, major: VersionNumber, minor: VersionNumber, headers: seq<Header>)

  datatype State =
    | MethodStart | Method | Uri
    | VersionH | VersionT1 | VersionT2 | VersionP | VersionSlash
    | MajorStart | Major | MinorStart | Minor
    | ExpectingNewline1
    | HeaderLineStart | HeaderLws | HeaderName | SpaceBeforeHeaderValue | HeaderValue
    | ExpectingNewline2 | ExpectingNewline3

  // ----- character classes -----

  predicate IsChar(c: char)
  {
    c as int <= 127
  }

  predicate IsCtl(c: char)
  {
    c as int <= 31 || c as int == 127
  }

  predicate IsTspecial(c: char)
  {
    c in "()<>@,;:\\\"/[]?={} \t"
  }

  predicate IsDigit(c: char)
  {
    '0' <= c <= '9'
  }

  predicate IsToken(c: char)
  {
    IsChar(c) && !IsCtl(c) && !IsTspecial(c)
  }

  // ----- one step -----

  datatype RawConfig = Config(state: State, req: Request)

  /** The states that lead to `headers.back()` have a header to lead to. */
  predicate HasBack(c: RawConfig)
  {
    c.state in {HeaderLws, HeaderName, SpaceBeforeHeaderValue, HeaderValue} ==> c.req.headers != []
  }

  type Config = c: RawConfig | HasBack(c) witness Config(MethodStart, Request("", "", Known(0), Known(0), []))

  function ExtendName(headers: seq<Header>, c: char): (r: seq<Header>)
    requires headers != []
    ensures |r| == |headers|
  {
    var last := |headers| - 1;
    headers[last := headers[last].(name := headers[last].name + [c])]
  }

  function ExtendValue(headers: seq<Header>, text: string): (r: seq<Header>)
    requires headers != []
    ensures |r| == |headers|
  {
    var last := |headers| - 1;
    headers[last := headers[last].(value := headers[last].value + text)]
  }

  const INT_MIN: int := -0x8000_0000
  const INT_MAX: int := 0x7FFF_FFFF

  predicate InInt(n: int)
  {
    INT_MIN <= n <= INT_MAX
  }

  /** n * 10 + c - '0', one operation after the other. */
  function AddDigit(n: VersionNumber, c: char): VersionNumber
  {
    match n
    case Overflowed => Overflowed
    case Known(value) =>
      if InInt(value * 10) && InInt(value * 10 + c as int) && InInt(value * 10 + c as int - '0' as int)
      then Known(value * 10 + c as int - '0' as int)
      else Overflowed
  }

  function Goto(c: Config, state: State): Reaction<Config>
    requires HasBack(c.(state := state))
  {
    Reaction(Indeterminate, c.(state := state))
  }

  function Accept(state: State, req: Request): Reaction<Config>
    requires HasBack(Config(state, req))
  {
    Reaction(Indeterminate, Config(state, req))
  }

  function Reject(c: Config): Reaction<Config>
  {
    Reaction(False, c)
  }

  /** A state that waits for one particular character. */
  function Expect(c: Config, input: char, wanted: char, next: State): Reaction<Config>
    requires HasBack(c.(state := next))
  {
    if input == wanted then Goto(c, next) else Reject(c)
  }

  function Step(c: Config, input: char): Reaction<Config>
  {
    var req := c.req;
    match c.state
    case MethodStart =>
      if !IsToken(input) then Reject(c)
      else Accept(Method, req.(verb := req.verb + [input]))
    case Method =>
      if input == ' ' then Goto(c, Uri)
      else if !IsToken(input) then Reject(c)
      else Accept(Method, req.(verb := req.verb + [input]))
    case Uri =>
      if input == ' ' then Goto(c, VersionH)
      else if IsCtl(input) then Reject(c)
      else Accept(Uri, req.(uri := req.uri + [input]))
    case VersionH => Expect(c, input, 'H', VersionT1)
    case VersionT1 => Expect(c, input, 'T', VersionT2)
    case VersionT2 => Expect(c, input, 'T', VersionP)
    case VersionP => Expect(c, input, 'P', VersionSlash)
    case VersionSlash =>
      if input == '/' then Accept(MajorStart, req.(major := Known(0), minor := Known(0))) else Reject(c)
    case MajorStart =>
      if IsDigit(input) then Accept(Major, req.(major := AddDigit(req.major, input))) else Reject(c)
    case Major =>
      if input == '.' then Goto(c, MinorStart)
      else if IsDigit(input) then Accept(Major, req.(major := AddDigit(req.major, input)))
      else Reject(c)
    case MinorStart =>
      if IsDigit(input) then Accept(Minor, req.(minor := AddDigit(req.minor, input))) else Reject(c)
    case Minor =>
      if input == '\r' then Goto(c, ExpectingNewline1)
      else if IsDigit(input) then Accept(Minor, req.(minor := AddDigit(req.minor, input)))
      else Reject(c)
    case ExpectingNewline1 => Expect(c, input, '\n', HeaderLineStart)
    case HeaderLineStart =>
      if input == '\r' then Goto(c, ExpectingNewline3)
      else if req.headers != [] && (input == ' ' || input == '\t') then Goto(c, HeaderLws)
      else if !IsToken(input) then Reject(c)
      else Accept(HeaderName, req.(headers := req.headers + [Header([input], "")]))
    case HeaderLws =>
      if input == '\r' then Goto(c, ExpectingNewline2)
      else if input == ' ' || input == '\t' then Goto(c, HeaderLws)
      else if IsCtl(input) then Reject(c)
      else Accept(HeaderValue, req.(headers := ExtendValue(req.headers, [input])))
    case HeaderName =>
      if input == ':' then Goto(c, SpaceBeforeHeaderValue)
      else if !IsToken(input) then Reject(c)
      else Accept(HeaderName, req.(headers := ExtendName(req.headers, input)))
    case SpaceBeforeHeaderValue => Expect(c, input, ' ', HeaderValue)
    case HeaderValue =>
      if input == '\r' then Goto(c, ExpectingNewline2)
      else if IsCtl(input) then Reject(c)
      else Accept(HeaderValue, req.(headers := ExtendValue(req.headers, [input])))
    case ExpectingNewline2 => Expect(c, input, '\n', HeaderLineStart)
    case ExpectingNewline3 => Reaction(if input == '\n' then True else False, c)
  }

  // ----- the parser and the request it fills -----

  class RequestObject {
    var verb: string
    var uri: string
    var major: VersionNumber
    var minor: VersionNumber
    var headers: seq<Header>

    /** The version numbers of a new request are whatever the memory held. */
    constructor (major: VersionNumber, minor: VersionNumber)
      ensures Data() == Request("", "", major, minor, [])
    {
      verb, uri, headers := "", "", [];
      this.major, this.minor := major, minor;
    }

    ghost function Data(): Request
      reads this
    {
      Request(verb, uri, major, minor, headers)
    }
  }

  class RequestParser {
    var state: State

    constructor ()
      ensures state == MethodStart
    {
      state := MethodStart;
    }

    method Reset()
      modifies this
      ensures state == MethodStart
    {
      state := MethodStart;
    }

    ghost predicate Safe(req: RequestObject)
      reads this, req
    {
      HasBack(Config(state, req.Data()))
    }

    ghost function View(req: RequestObject): Config
      requires Safe(req)
      reads this, req
    {
      Config(state, req.Data())
    }

    method Consume(req: RequestObject, input: char) returns (result: Tribool)
      requires Safe(req)
      modifies this, req
      ensures Safe(req)
      ensures Reaction(result, View(req)) == Step(old(View(req)), input)
    {
      match state {
        case MethodStart | Method | Uri | VersionH | VersionT1 | VersionT2 | VersionP | VersionSlash =>
          result := ConsumeRequestLine(req, input);
        case MajorStart | Major | MinorStart | Minor | ExpectingNewline1 =>
          result := ConsumeVersion(req, input);
        case HeaderLineStart | HeaderLws | HeaderName | SpaceBeforeHeaderValue | HeaderValue
           | ExpectingNewline2 | ExpectingNewline3 =>
          result := ConsumeHeader(req, input);
      }
    }

    /** The cases of `consume` up to the slash of the version. */
    method ConsumeRequestLine(req: RequestObject, input: char) returns (result: Tribool)
      requires Safe(req)
      requires state in {MethodStart, Method, Uri, VersionH, VersionT1, VersionT2, VersionP, VersionSlash}
      modifies this, req
      ensures Safe(req)
      ensures Reaction(result, View(req)) == Step(old(View(req)), input)
    {
      result := Indeterminate;
      match state {
        case MethodStart =>
          if !IsChar(input) || IsCtl(input) || IsTspecial(input) {
            return False;
          } else {
            state := Method;
            req.verb := req.verb + [input];
          }
        case Method =>
          if input == ' ' {
            state := Uri;
          } else if !IsChar(input) || IsCtl(input) || IsTspecial(input) {
            return False;
          } else {
            req.verb := req.verb + [input];
          }
        case Uri =>
          if input == ' ' {
            state := VersionH;
          } else if IsCtl(input) {
            return False;
          } else {
            req.uri := req.uri + [input];
          }
        case VersionH => result := Await(input, 'H', VersionT1);
        case VersionT1 => result := Await(input, 'T', VersionT2);
        case VersionT2 => result := Await(input, 'T', VersionP);
        case VersionP => result := Await(input, 'P', VersionSlash);
        case VersionSlash =>
          if input == '/' {
            req.major := Known(0);
            req.minor := Known(0);
            state := MajorStart;
          } else {
            return False;
          }
      }
    }

    /** The cases of `consume` from the version numbers to the end of the request line. */
    method ConsumeVersion(req: RequestObject, input: char) returns (result: Tribool)
      requires Safe(req)
      requires state in {MajorStart, Major, MinorStart, Minor, ExpectingNewline1}
      modifies this, req
      ensures Safe(req)
      ensures Reaction(result, View(req)) == Step(old(View(req)), input)
    {
      result := Indeterminate;
      match state {
        case MajorStart =>
          if IsDigit(input) {
            req.major := AddDigit(req.major, input);
            state := Major;
          } else {
            return False;
          }
        case Major =>
          if input == '.' {
            state := MinorStart;
          } else if IsDigit(input) {
            req.major := AddDigit(req.major, input);
          } else {
            return False;
          }
        case MinorStart =>
          if IsDigit(input) {
            req.minor := AddDigit(req.minor, input);
            state := Minor;
          } else {
            return False;
          }
        case Minor =>
          if input == '\r' {
            state := ExpectingNewline1;
          } else if IsDigit(input) {
            req.minor := AddDigit(req.minor, input);
          } else {
            return False;
          }
        case ExpectingNewline1 => result := Await(input, '\n', HeaderLineStart);
      }
    }

    /** The cases of `consume` for the header lines. */
    method ConsumeHeader(req: RequestObject, input: char) returns (result: Tribool)
      requires Safe(req)
      requires state in {HeaderLineStart, HeaderLws, HeaderName, SpaceBeforeHeaderValue, HeaderValue,
                         ExpectingNewline2, ExpectingNewline3}
      modifies this, req
      ensures Safe(req)
      ensures Reaction(result, View(req)) == Step(old(View(req)), input)
    {
      result := Indeterminate;
      match state {
        case HeaderLineStart =>
          if input == '\r' {
            state := ExpectingNewline3;
          } else if req.headers != [] && (input == ' ' || input == '\t') {
            state := HeaderLws;
          } else if !IsChar(input) || IsCtl(input) || IsTspecial(input) {
            return False;
          } else {
            req.headers := req.headers + [Header([input], "")];
            state := HeaderName;
          }
        case HeaderLws =>
          if input == '\r' {
            state := ExpectingNewline2;
          } else if input == ' ' || input == '\t' {
          } else if IsCtl(input) {
            return False;
          } else {
            state := HeaderValue;
            req.headers := ExtendValue(req.headers, [input]);
          }
        case HeaderName =>
          if input == ':' {
            state := SpaceBeforeHeaderValue;
          } else if !IsChar(input) || IsCtl(input) || IsTspecial(input) {
            return False;
          } else {
            req.headers := ExtendName(req.headers, input);
          }
        case SpaceBeforeHeaderValue => result := Await(input, ' ', HeaderValue);
        case HeaderValue =>
          if input == '\r' {
            state := ExpectingNewline2;
          } else if IsCtl(input) {
            return False;
          } else {
            req.headers := ExtendValue(req.headers, [input]);
          }
        case ExpectingNewline2 => result := Await(input, '\n', HeaderLineStart);
        case ExpectingNewline3 => return if input == '\n' then True else False;
      }
    }

    method Await(input: char, wanted: char, next: State) returns (result: Tribool)
      modifies this
      ensures if input == wanted then result == Indeterminate && state == next
              else result == False && state == old(state)
    {
      if input == wanted {
        state := next;
        result := Indeterminate;
      } else {
        result := False;
      }
    }

    method Parse(req: RequestObject, input: string, begin: nat) returns (result: Tribool, end: nat)
      requires Safe(req) && begin <= |input|
      modifies this, req
      ensures begin <= end <= |input|
      ensures Safe(req)
      ensures Outcome(result, View(req), end - begin) == Run(Step, old(View(req)), input[begin..])
    {
      hide Step, HasBack;
      end := begin;
      ghost var start := View(req);
      while end != |input|
        invariant begin <= end <= |input|
        invariant Safe(req)
        invariant Run(Step, start, input[begin..])
               == Resume(Step, Outcome(Indeterminate, View(req), end - begin), input[end..])
      {
        ResumeOne(Step, View(req), end - begin, input, end);
        result := Consume(req, input[end]);
        end := end + 1;
        if result != Indeterminate {
          return;
        }
      }
      result := Indeterminate;
    }
  }
}
