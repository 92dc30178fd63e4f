/**
 The answer to an upgrade request: `to_sha1`, `to_base64` and `handle_request` of the
 WebSocket engine. SHA-1 itself is a parameter.
 */
module AcceptKeys {
  import opened Base64
  import opened Octets
  import opened ParseLoop
  import opened Options
  import opened RequestParsing
  import opened RequestGrammar
  import opened RequestTheorems
  import opened Replies

  // ----- the digest as bytes -----

  type Digest = d: seq<bv32> | |d| == 5 witness [0, 0, 0, 0, 0]

  /** (unsigned char)(word >> 8 * (3 - k)) */
  function DigestByte(word: bv32, k: nat): byte
    requires k < 4
  {
    match k
    case 0 => ((word >> 24) & 0xFF) as byte
    case 1 => ((word >> 16) & 0xFF) as byte
    case 2 => ((word >> 8) & 0xFF) as byte
    case 3 => (word & 0xFF) as byte
  }

  function Word(b: seq<byte>): bv32
    requires |b| == 4
  {
    (b[0] as bv32 << 24) | (b[1] as bv32 << 16) | (b[2] as bv32 << 8) | b[3] as bv32
  }

  function DigestBytes(d: Digest): (hash: seq<byte>)
    ensures |hash| == 20
  {
    seq(20, i requires 0 <= i < 20 => DigestByte(d[i / 4], i % 4))
  }

  method ToSha1(s: string, sha1: string -> Digest) returns (hash: seq<byte>)
    ensures hash == DigestBytes(sha1(s))
  {
    var digest := sha1(s);
    var bytes := new byte[20](_ => 0);
    var i := 0;
    while i < bytes.Length
      invariant 0 <= i <= 20
      invariant forall k | 0 <= k < i :: bytes[k] == DigestByte(digest[k / 4], k % 4)
    {
      bytes[i] := DigestByte(digest[i / 4], i % 4);
      i := i + 1;
    }
    hash := bytes[..];
  }

  lemma WordOfBytes(w: bv32)
    ensures Word([DigestByte(w, 0), DigestByte(w, 1), DigestByte(w, 2), DigestByte(w, 3)]) == w
  {
  }

  /** The twenty bytes are the five words, most significant byte first. */
  lemma DigestRegroups(d: Digest, j: nat)
    requires j < 5
    ensures Word(DigestBytes(d)[4 * j..4 * j + 4]) == d[j]
  {
    hide DigestByte, Word;
    WordOfBytes(d[j]);
    assert DigestBytes(d)[4 * j..4 * j + 4]
        == [DigestByte(d[j], 0), DigestByte(d[j], 1), DigestByte(d[j], 2), DigestByte(d[j], 3)];
  }

  // ----- handle_request -----

  const KEY_NAME := "Sec-WebSocket-Key"
  const MAGIC_GUID := "258EAFA5-E914-47DA-95CA-C5AB0DC85B11"

  datatype UpgradeAnswer = BadRequest | SwitchingProtocols(headers: seq<Header>)

  predicate FirstKeyAt(headers: seq<Header>, i: nat)
  {
    && i < |headers|
    && headers[i].name == KEY_NAME
    && forall j | 0 <= j < i :: headers[j].name != KEY_NAME
  }

  predicate HasKey(headers: seq<Header>)
  {
    exists i | 0 <= i < |headers| :: headers[i].name == KEY_NAME
  }

  function AcceptValue(key: string, sha1: string -> Digest): string
  {
    Encoded(DigestBytes(sha1(key + MAGIC_GUID)))
  }

  function UpgradeHeaders(accept: string): seq<Header>
  {
    [Header("Upgrade", "websocket"), Header("Connection", "Upgrade"), Header("Sec-WebSocket-Accept", accept)]
  }

  /** What `handle_request` answers, as a relation: an answer to the first key, or a refusal without one. */
  ghost predicate Answers(req: Request, answer: UpgradeAnswer, sha1: string -> Digest)
  {
    if HasKey(req.headers) then
      exists i: nat :: FirstKeyAt(req.headers, i)
                  && answer == SwitchingProtocols(UpgradeHeaders(AcceptValue(req.headers[i].value, sha1)))
    else
      answer == BadRequest
  }

  method HandleRequest(req: RequestObject, sha1: string -> Digest) returns (answer: UpgradeAnswer)
    ensures Answers(req.Data(), answer, sha1)
  {
    var it := 0;
    while it < |req.headers| && req.headers[it].name != KEY_NAME
      invariant 0 <= it <= |req.headers|
      invariant forall j | 0 <= j < it :: req.headers[j].name != KEY_NAME
    {
      it := it + 1;
    }
    if it == |req.headers| {
      return BadRequest;
    }
    var key := req.headers[it].value;
    var hash := ToSha1(key + MAGIC_GUID, sha1);
    var accept := ToBase64(hash);
    answer := SwitchingProtocols(UpgradeHeaders(accept));
    assert FirstKeyAt(req.Data().headers, it);
  }

  /** `text` is base64 for the five words, most significant bytes first. */
  ghost predicate Spells(text: string, d: Digest)
  {
    match Decode(text)
    case None => false
    case Some(bytes) => |bytes| == 20 && forall j | 0 <= j < 5 :: Word(bytes[4 * j..4 * j + 4]) == d[j]
  }

  /**
   The accept value of section 4.2.2 of RFC 6455: 28 characters of the alphabet and its padding
   sign, without a break, that decode to the five words of the digest of key and GUID.
   */
  lemma AcceptValueIsTheDigest(key: string, sha1: string -> Digest)
    ensures var accept := AcceptValue(key, sha1);
            && |accept| == 28
            && (forall c | c in accept :: InAlphabet(c) || c == '=')
            && Spells(accept, sha1(key + MAGIC_GUID))
  {
    hide InAlphabet, Word, DigestByte, Characters;
    var d := sha1(key + MAGIC_GUID);
    var hash := DigestBytes(d);
    CharactersHaveNoBreaks(hash);
    assert |Characters(hash)| == 27;
    UnbrokenRoundTrip(hash);
    assert AcceptValue(key, sha1) == Unbroken(hash);
    forall j | 0 <= j < 5
      ensures Word(hash[4 * j..4 * j + 4]) == d[j]
    {
      DigestRegroups(d, j);
    }
  }

  /** The values of all headers of one name, in order. */
  function ValuesOf(headers: seq<Header>, name: string): seq<string>
  {
    if headers == [] then []
    else
      var h := headers[|headers| - 1];
      ValuesOf(headers[..|headers| - 1], name) + if h.name == name then [h.value] else []
  }

  lemma {:induction false} FirstValue(headers: seq<Header>, i: nat)
    requires FirstKeyAt(headers, i)
    ensures var values := ValuesOf(headers, "Sec-WebSocket-Key"); values != [] && values[0] == headers[i].value
    decreases |headers|
  {
    var front := headers[..|headers| - 1];
    if i < |front| {
      FirstValue(front, i);
    } else {
      NoValue(front);
    }
  }

  lemma {:induction false} NoValue(headers: seq<Header>)
    ensures !HasKey(headers) <==> ValuesOf(headers, "Sec-WebSocket-Key") == []
    decreases |headers|
  {
    if headers != [] {
      var front := headers[..|headers| - 1];
      NoValue(front);
      assert HasKey(headers) <==> HasKey(front) || headers[|front|].name == KEY_NAME by {
        assert forall i | 0 <= i < |front| :: front[i] == headers[i];
      }
    }
  }

  lemma AlphabetIsText(s: string)
    requires forall c | c in s :: InAlphabet(c) || c == '='
    ensures Text(s)
  {
  }

  lemma UpgradeHeadersArePrintable(accept: string)
    requires Text(accept)
    ensures AllPrintable(UpgradeHeaders(accept))
  {
    UpgradeNames();
    assert Text("websocket") && Text("Upgrade");
  }

  predicate NameCharacter(c: char)
  {
    'A' <= c <= 'Z' || 'a' <= c <= 'z' || c == '-'
  }

  lemma NamesAreTokens(s: string)
    requires s != "" && forall i | 0 <= i < |s| :: NameCharacter(s[i])
    ensures Token(s)
  {
    forall c | c in s
      ensures IsToken(c)
    {
      NameCharacterIsToken(c);
    }
  }

  lemma NameCharacterIsToken(c: char)
    requires NameCharacter(c)
    ensures IsToken(c)
  {
  }

  lemma UpgradeNames()
    ensures Token("Upgrade") && Token("Connection") && Token("Sec-WebSocket-Accept")
  {
    hide Token;
    NamesAreTokens("Upgrade");
    NamesAreTokens("Connection");
    NamesAreTokens("Sec-WebSocket-Accept");
  }

  lemma ValuesOfThree(a: Header, b: Header, c: Header, name: string)
    ensures ValuesOf([a, b, c], name) == (if a.name == name then [a.value] else [])
            + (if b.name == name then [b.value] else []) + (if c.name == name then [c.value] else [])
  {
    assert [a, b, c][..2] == [a, b] && [a, b][..1] == [a] && [a][..0] == [];
    assert ValuesOf([a], name) == if a.name == name then [a.value] else [];
    assert ValuesOf([a, b], name) == ValuesOf([a], name) + if b.name == name then [b.value] else [];
  }

  lemma ValuesOfUpgrade(accept: string)
    ensures ValuesOf(UpgradeHeaders(accept), "Upgrade") == ["websocket"]
    ensures ValuesOf(UpgradeHeaders(accept), "Connection") == ["Upgrade"]
    ensures ValuesOf(UpgradeHeaders(accept), "Sec-WebSocket-Accept") == [accept]
  {
    var a, b, c := Header("Upgrade", "websocket"), Header("Connection", "Upgrade"), Header("Sec-WebSocket-Accept", accept);
    ValuesOfThree(a, b, c, "Upgrade");
    ValuesOfThree(a, b, c, "Connection");
    ValuesOfThree(a, b, c, "Sec-WebSocket-Accept");
    assert "Upgrade"[0] != "Connection"[0] && "Upgrade"[0] != "Sec-WebSocket-Accept"[0];
    assert "Connection"[0] != "Sec-WebSocket-Accept"[0];
    hide ValuesOf;
  }

  /**
   What the client finds in the printed answer when it reads it: the two fixed headers of section
   4.2.2 of RFC 6455, and one accept header whose value spells the digest of its own first key and
   the GUID of section 1.3. Without a key, and only then, the request is refused.
   */
  lemma ClientReadsAnswer(req: Request, answer: UpgradeAnswer, sha1: string -> Digest, c: Config)
    requires Answers(req, answer, sha1)
    requires c.state == HeaderLineStart && c.req.headers == []
    ensures var keys := ValuesOf(req.headers, "Sec-WebSocket-Key");
            && (answer == BadRequest <==> keys == [])
            && (keys != [] ==>
                  var o := Run(Step, c, HeaderBlock(answer.headers));
                  var accepts := ValuesOf(o.state.req.headers, "Sec-WebSocket-Accept");
                  && o.verdict == ParseLoop.True && o.consumed == |HeaderBlock(answer.headers)|
                  && ValuesOf(o.state.req.headers, "Upgrade") == ["websocket"]
                  && ValuesOf(o.state.req.headers, "Connection") == ["Upgrade"]
                  && |accepts| == 1 && |accepts[0]| == 28
                  && Spells(accepts[0], sha1(keys[0] + "258EAFA5-E914-47DA-95CA-C5AB0DC85B11")))
  {
    NoValue(req.headers);
    hide Step, HeaderBlock, Spells, ValuesOf, UpgradeHeaders, AcceptValue;
    if HasKey(req.headers) {
      UpgradeAnswerReadsBack(req, answer, sha1, c);
      var i: nat :| FirstKeyAt(req.headers, i)
               && answer == SwitchingProtocols(UpgradeHeaders(AcceptValue(req.headers[i].value, sha1)));
      FirstValue(req.headers, i);
      AcceptValueIsTheDigest(req.headers[i].value, sha1);
      ValuesOfUpgrade(AcceptValue(req.headers[i].value, sha1));
      assert HeaderBlock(answer.headers) + "" == HeaderBlock(answer.headers);
    }
  }

  /** Every upgrade answer survives being printed by `to_buffers` and read by the header automaton. */
  lemma UpgradeAnswerReadsBack(req: Request, answer: UpgradeAnswer, sha1: string -> Digest, c: Config)
    requires Answers(req, answer, sha1) && HasKey(req.headers)
    requires c.state == HeaderLineStart && c.req.headers == []
    ensures answer.SwitchingProtocols? && ReadBack(c, answer.headers, "")
  {
    hide ReadBack, AllPrintable, AcceptValue, Text;
    var i: nat :| FirstKeyAt(req.headers, i)
             && answer == SwitchingProtocols(UpgradeHeaders(AcceptValue(req.headers[i].value, sha1)));
    var accept := AcceptValue(req.headers[i].value, sha1);
    AcceptValueIsTheDigest(req.headers[i].value, sha1);
    AlphabetIsText(accept);
    UpgradeHeadersArePrintable(accept);
    HeaderBlockRoundTrip(c, answer.headers, "");
  }
}
