/**
 The two `to_buffers` functions that print a reply, and the header block they print,
 which the request parser reads back.
 */
module Replies {
  import opened Buffers
  import opened ParseLoop
  import opened RequestParsing
  import opened RequestGrammar
  import opened RequestCompleteness
  import opened RequestTheorems

  function FieldLines(hs: seq<Header>): (ls: seq<Line>)
    ensures |ls| == |hs|
  {
    seq(|hs|, i requires 0 <= i < |hs| => Field(hs[i].name, hs[i].value))
  }

  /** The header lines and the empty line after them. */
  function HeaderBlock(hs: seq<Header>): string
  {
    LinesText(FieldLines(hs)) + CRLF
  }

  lemma FieldLinesAppend(hs: seq<Header>, i: nat)
    requires i < |hs|
    ensures LinesText(FieldLines(hs[..i + 1])) == LinesText(FieldLines(hs[..i])) + hs[i].name + ": " + hs[i].value + CRLF
  {
    hide LinesText;
    var front, last := FieldLines(hs[..i]), Field(hs[i].name, hs[i].value);
    assert FieldLines(hs[..i + 1]) == front + [last];
    LinesTextAppend(front, last);
    Flatten(LinesText(front), hs[i].name, hs[i].value);
  }

  lemma Flatten(before: string, name: string, value: string)
    ensures before + (name + ": " + value + CRLF) == before + name + ": " + value + CRLF
  {
  }

  /** The reply of the HTTP server. Its status line comes from a table of strings. */
  class HttpReply {
    var statusLine: string
    var headers: seq<Header>
    var content: string

    constructor (statusLine: string)
      ensures this.statusLine == statusLine && headers == [] && content == ""
    {
      this.statusLine, headers, content := statusLine, [], "";
    }

    method ToBuffers() returns (buffers: seq<string>)
      ensures Concat(buffers) == statusLine + HeaderBlock(headers) + content
    {
      buffers := Push([], statusLine);
      for i := 0 to |headers|
        invariant Concat(buffers) == statusLine + LinesText(FieldLines(headers[..i]))
      {
        var h := headers[i];
        FieldLinesAppend(headers, i);
        buffers := Push(buffers, h.name);
        buffers := Push(buffers, ": ");
        buffers := Push(buffers, h.value);
        buffers := Push(buffers, CRLF);
        Regroup(statusLine, LinesText(FieldLines(headers[..i])), h.name, h.value);
      }
      assert headers[..|headers|] == headers;
      buffers := Push(buffers, CRLF);
      buffers := Push(buffers, content);
    }
  }

  lemma Regroup(a: string, b: string, name: string, value: string)
    ensures a + b + name + ": " + value + CRLF == a + (b + name + ": " + value + CRLF)
  {
  }

  /** The reply of the WebSocket engine fills a vector whose size it has computed beforehand. */
  class EngineReply {
    var statusLine: string
    var headers: seq<Header>

    constructor (statusLine: string, headers: seq<Header>)
      ensures this.statusLine == statusLine && this.headers == headers
    {
      this.statusLine, this.headers := statusLine, headers;
    }

    /** The four buffers of one header line. */
    static method PutHeader(buffers: array<string>, i: nat, h: Header) returns (next: nat)
      requires i + 4 <= buffers.Length
      modifies buffers
      ensures next == i + 4
      ensures Concat(buffers[..next]) == old(Concat(buffers[..i])) + h.name + ": " + h.value + CRLF
    {
      hide Concat;
      next := Put(buffers, i, h.name);
      next := Put(buffers, next, ": ");
      next := Put(buffers, next, h.value);
      next := Put(buffers, next, CRLF);
    }

    method ToBuffers() returns (buffers: array<string>)
      requires headers != []
      ensures fresh(buffers) && buffers.Length == 1 + 4 * |headers| + 1
      ensures Concat(buffers[..]) == statusLine + HeaderBlock(headers)
    {
      NothingPrinted();
      hide Concat, LinesText, FieldLines;
      buffers := new string[1 + 4 * |headers| + 1](_ => "");
      var i := 0;
      assert buffers[..0] == [] && headers[..0] == [];
      i := Put(buffers, i, statusLine);
      var it := 0;
      while it != |headers|
        invariant 0 <= it <= |headers|
        invariant i == 1 + 4 * it
        invariant Concat(buffers[..i]) == statusLine + LinesText(FieldLines(headers[..it]))
      {
        var h := headers[it];
        FieldLinesAppend(headers, it);
        i := PutHeader(buffers, i, h);
        Regroup(statusLine, LinesText(FieldLines(headers[..it])), h.name, h.value);
        it := it + 1;
      }
      assert headers[..|headers|] == headers;
      i := Put(buffers, i, CRLF);
      assert buffers[..i] == buffers[..];
    }
  }

  lemma NothingPrinted()
    ensures Concat<char>([]) == "" && LinesText(FieldLines([])) == ""
  {
  }

  /** buffers[i++] = b */
  method Put(buffers: array<string>, i: nat, b: string) returns (next: nat)
    requires i < buffers.Length
    modifies buffers
    ensures next == i + 1
    ensures Concat(buffers[..next]) == old(Concat(buffers[..i])) + b
  {
    buffers[i] := b;
    next := i + 1;
    assert buffers[..next] == old(buffers[..i]) + [b];
    ConcatAppend(old(buffers[..i]), b);
  }

  // ----- reading a header block back -----

  lemma {:induction false} FieldsMean(hs: seq<Header>)
    ensures Headers(FieldLines(hs)) == hs
    decreases |hs|
  {
    if hs != [] {
      var n := |hs| - 1;
      FieldsMean(hs[..n]);
      assert FieldLines(hs) == FieldLines(hs[..n]) + [Field(hs[n].name, hs[n].value)];
      HeadersAppend(FieldLines(hs[..n]), Field(hs[n].name, hs[n].value));
    }
  }

  /** The parse of what follows the first line ends right after the block, with the same headers. */
  ghost predicate ReadBack(c: Config, hs: seq<Header>, content: string)
  {
    var o := Run(Step, c, HeaderBlock(hs) + content);
    o.verdict == True && o.consumed == |HeaderBlock(hs)| && o.state.req.headers == hs
  }

  /**
   A printed header block is read back as the same list, stopping exactly at the content, if and
   only if every name is a non-empty token and no value holds a control character.
   */
  lemma HeaderBlockRoundTrip(c: Config, hs: seq<Header>, content: string)
    requires c.state == HeaderLineStart && c.req.headers == []
    ensures ReadBack(c, hs, content) <==> AllPrintable(hs)
  {
    hide Step, Printable, LinesText, HeadersAfter;
    var block := HeaderBlock(hs);
    RunKeepsPrintable(c, block + content);
    if AllPrintable(hs) {
      var ls := FieldLines(hs);
      PrintableFields(hs);
      ReadsLines(c, ls);
      FieldsMean(hs);
      var d: Config := c.(req := c.req.(headers := hs));
      AcceptsEmptyLine(d);
      RunSplits(Step, c, LinesText(ls), CRLF);
      VerdictIsStable(Step, c, block, content);
    }
  }

  lemma PrintableFields(hs: seq<Header>)
    requires AllPrintable(hs)
    ensures ValidLines(FieldLines(hs))
  {
  }
}
