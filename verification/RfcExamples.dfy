/**
 The examples of section 5.7 of RFC 6455, byte by byte, and a request with a continuation line: what
 the two parsers and the frame writer do with texts that do not come from this library.
 */
module RfcExamples {
  import opened Octets
  import opened Frames
  import opened FrameTheorems
  import ParseLoop
  import opened RequestParsing
  import opened RequestGrammar
  import opened RequestTheorems
  import opened RequestText
  import opened Options
  import opened Base64
  import opened AcceptKeys

  const HELLO: seq<byte> := [0x48, 0x65, 0x6c, 0x6c, 0x6f]

  const MASK: Key := [0x37, 0xfa, 0x21, 0x3d]

  const MASKED_HELLO: seq<byte> := [0x7f, 0x9f, 0x4d, 0x51, 0x58]

  lemma MaskedHello()
    ensures ApplyKey(MASK, HELLO) == MASKED_HELLO
  {
    assert 0x48 as byte ^ 0x37 == 0x7f && 0x65 as byte ^ 0xfa == 0x9f && 0x6c as byte ^ 0x21 == 0x4d;
    assert 0x6c as byte ^ 0x3d == 0x51 && 0x6f as byte ^ 0x37 == 0x58;
  }

  /** First bytes: FIN is the top bit, and the opcodes are those of section 5.2. */
  lemma FirstBytes()
    ensures FirstByte(true, TextFrame) == 0x81 && FirstByte(false, TextFrame) == 0x01
    ensures FirstByte(true, ContinuationFrame) == 0x80 && FirstByte(false, ContinuationFrame) == 0x00
    ensures FirstByte(true, BinaryFrame) == 0x82 && FirstByte(true, ConnectionClose) == 0x88
    ensures FirstByte(true, Ping) == 0x89 && FirstByte(true, Pong) == 0x8A
    ensures FirstByte(true, Reserved) == 0x8F
  {
  }

  /** The second byte of a short frame. */
  function SmallCode(mask: bool, n: nat): byte
    requires n in {2, 3, 5}
  {
    if n == 2 then (if mask then 0x82 else 0x02)
    else if n == 3 then (if mask then 0x83 else 0x03)
    else if mask then 0x85 else 0x05
  }

  lemma SmallFields(mask: bool, n: nat)
    requires n in {2, 3, 5}
    ensures LengthField(SevenBits, mask, n) == [SmallCode(mask, n)]
  {
    assert 5 as byte == 0x05 && 3 as byte == 0x03 && 2 as byte == 0x02;
  }

  lemma SmallFrame(m: Message, first: byte, masking: Masking)
    requires |m.payload| in {2, 3, 5} && FirstByte(m.fin, m.opcode) == first
    ensures RfcFrame(m, SevenBits, masking) ==
            [first, SmallCode(masking.MaskedBy?, |m.payload|)] + KeyField(masking) + Body(masking, m.payload)
  {
    hide FirstByte, LengthField, Body, SmallCode;
    SmallFields(masking.MaskedBy?, |m.payload|);
  }

  /** The parser reads the frame with that key in its memory as the message, and stops at its end. */
  ghost predicate ReadAs(w: seq<byte>, m: Message)
  {
    forall initial: Key, tail: seq<byte> :: initial == [0, 0, 0, 0] ==> ParsedExactly(w + tail, w, m, initial)
  }

  lemma FrameIsRead(m: Message, form: LengthForm, masking: Masking)
    requires Frames.Fits(form, |m.payload|) && |m.payload| > 0
    ensures ReadAs(RfcFrame(m, form, masking), m)
  {
    hide RfcFrame, ParsedExactly;
    forall initial: Key, tail: seq<byte> | initial == [0, 0, 0, 0]
      ensures ParsedExactly(RfcFrame(m, form, masking) + tail, RfcFrame(m, form, masking), m, initial)
    {
      RfcFrameParsedExactly(m, form, masking, initial, tail);
    }
  }

  /** Single-frame text messages, a fragmented one, a ping and its masked pong. */
  lemma ShortExamples()
    ensures ReadAs([0x81, 0x05, 0x48, 0x65, 0x6c, 0x6c, 0x6f], Message(true, TextFrame, HELLO))
    ensures ReadAs([0x81, 0x85, 0x37, 0xfa, 0x21, 0x3d, 0x7f, 0x9f, 0x4d, 0x51, 0x58], Message(true, TextFrame, HELLO))
    ensures ReadAs([0x01, 0x03, 0x48, 0x65, 0x6c], Message(false, TextFrame, HELLO[..3]))
    ensures ReadAs([0x80, 0x02, 0x6c, 0x6f], Message(true, ContinuationFrame, HELLO[3..]))
    ensures ReadAs([0x89, 0x05, 0x48, 0x65, 0x6c, 0x6c, 0x6f], Message(true, Ping, HELLO))
    ensures ReadAs([0x8a, 0x85, 0x37, 0xfa, 0x21, 0x3d, 0x7f, 0x9f, 0x4d, 0x51, 0x58], Message(true, Pong, HELLO))
  {
    hide ReadAs, FirstByte, ApplyKey;
    FirstBytes();
    MaskedHello();
    assert HELLO[..3] == [0x48, 0x65, 0x6c] && HELLO[3..] == [0x6c, 0x6f];
    var plain: seq<byte> := [0x81, 0x05, 0x48, 0x65, 0x6c, 0x6c, 0x6f];
    var masked: seq<byte> := [0x81, 0x85, 0x37, 0xfa, 0x21, 0x3d, 0x7f, 0x9f, 0x4d, 0x51, 0x58];
    ShortFrame(plain, Message(true, TextFrame, HELLO), 0x81, Unmasked);
    ShortFrame(masked, Message(true, TextFrame, HELLO), 0x81, MaskedBy(MASK));
    ShortFrame([0x01, 0x03, 0x48, 0x65, 0x6c], Message(false, TextFrame, HELLO[..3]), 0x01, Unmasked);
    ShortFrame([0x80, 0x02, 0x6c, 0x6f], Message(true, ContinuationFrame, HELLO[3..]), 0x80, Unmasked);
    ShortFrame(plain[0 := 0x89], Message(true, Ping, HELLO), 0x89, Unmasked);
    ShortFrame(masked[0 := 0x8a], Message(true, Pong, HELLO), 0x8a, MaskedBy(MASK));
    assert plain[0 := 0x89] == [0x89, 0x05, 0x48, 0x65, 0x6c, 0x6c, 0x6f];
    assert masked[0 := 0x8a] == [0x8a, 0x85, 0x37, 0xfa, 0x21, 0x3d, 0x7f, 0x9f, 0x4d, 0x51, 0x58];
  }

  lemma ShortFrame(w: seq<byte>, m: Message, first: byte, masking: Masking)
    requires |m.payload| in {2, 3, 5} && FirstByte(m.fin, m.opcode) == first
    requires w == [first, SmallCode(masking.MaskedBy?, |m.payload|)] + KeyField(masking) + Body(masking, m.payload)
    ensures ReadAs(w, m)
  {
    hide ReadAs, RfcFrame, FirstByte, Body;
    SmallFrame(m, first, masking);
    FrameIsRead(m, SevenBits, masking);
  }

  lemma LongFields()
    ensures LengthField(SixteenBits, false, 256) == [0x7E, 0x01, 0x00]
    ensures LengthField(SixtyFourBits, false, 65536) == [0x7F, 0x00, 0x00, 0x00, 0x00, 0x00, 0x01, 0x00, 0x00]
  {
    BigEndianIsInjective([0x01, 0x00]);
    BigEndianIsInjective([0x00, 0x00, 0x00, 0x00, 0x00, 0x01, 0x00, 0x00]);
    Value256();
    Value65536();
    hide BigEndian, BigEndianBytes;
  }

  lemma Value256()
    ensures BigEndian([0x01, 0x00]) == 256
  {
    NextValue([], 0x01);
    NextValue([0x01], 0x00);
    assert [] + [0x01 as byte] == [0x01] && [0x01 as byte] + [0x00] == [0x01, 0x00];
  }

  lemma Value65536()
    ensures BigEndian([0x00, 0x00, 0x00, 0x00, 0x00, 0x01, 0x00, 0x00]) == 65536
  {
    var b: seq<byte> := [0x00, 0x00, 0x00, 0x00, 0x00, 0x01, 0x00, 0x00];
    EmptyValue();
    hide BigEndian;
    for k := 0 to 8
      invariant BigEndian(b[..k]) == if k < 6 then 0 else if k == 6 then 1 else if k == 7 then 256 else 65536
    {
      NextValue(b[..k], b[k]);
      assert b[..k] + [b[k]] == b[..k + 1];
    }
    assert b[..8] == b;
  }

  lemma EmptyValue()
    ensures BigEndian([]) == 0
  {
  }

  /** Binary messages of 256 bytes and of 64 KiB. */
  lemma LongExamples(a: seq<byte>, b: seq<byte>)
    requires |a| == 256 && |b| == 65536
    ensures ReadAs([0x82, 0x7E, 0x01, 0x00] + a, Message(true, BinaryFrame, a))
    ensures ReadAs([0x82, 0x7F, 0x00, 0x00, 0x00, 0x00, 0x00, 0x01, 0x00, 0x00] + b, Message(true, BinaryFrame, b))
  {
    hide ReadAs, FirstByte, LengthField;
    FirstBytes();
    LongFields();
    LargeFits();
    var m, n := Message(true, BinaryFrame, a), Message(true, BinaryFrame, b);
    hide Frames.Fits;
    FrameIsRead(m, SixteenBits, Unmasked);
    FrameIsRead(n, SixtyFourBits, Unmasked);
    assert RfcFrame(m, SixteenBits, Unmasked) == [0x82, 0x7E, 0x01, 0x00] + a;
    assert RfcFrame(n, SixtyFourBits, Unmasked) == [0x82, 0x7F, 0x00, 0x00, 0x00, 0x00, 0x00, 0x01, 0x00, 0x00] + b;
  }

  lemma LargeFits()
    ensures Frames.Fits(SixteenBits, 256) && Frames.Fits(SixtyFourBits, 65536)
  {
    Pow256Two();
    assert Pow256(3) == 256 * Pow256(2) && Pow256(4) == 256 * Pow256(3) && Pow256(5) == 256 * Pow256(4);
    assert Pow256(6) == 256 * Pow256(5) && Pow256(7) == 256 * Pow256(6) && Pow256(8) == 256 * Pow256(7);
  }

  /** What the writer sends for these messages: the same bytes, but for the 64 KiB, whose length is cut to zero. */
  lemma WrittenExamples(a: seq<byte>, b: seq<byte>)
    requires |a| == 256 && |b| == 65536
    ensures Written(0, Message(true, TextFrame, HELLO)) == [0x81, 0x05, 0x48, 0x65, 0x6c, 0x6c, 0x6f]
    ensures Written(0, Message(true, BinaryFrame, a)) == [0x82, 0x7E, 0x01, 0x00] + a
    ensures Written(0, Message(true, BinaryFrame, b)) == [0x82, 0x7E, 0x00, 0x00] + b
  {
    FirstBytes();
    LongFields();
    SmallFields(false, 5);
    CutLength();
    NoBitsKept(0x81);
    NoBitsKept(0x82);
    hide FirstByte, LengthField;
    assert [0x82, 0x7E, 0x01, 0x00] + a == [0x82] + [0x7E, 0x01, 0x00] + a;
    assert [0x82, 0x7E, 0x00, 0x00] + b == [0x82] + [0x7E, 0x00, 0x00] + b;
  }

  lemma CutLength()
    ensures LengthField(SixteenBits, false, 65536) == [0x7E, 0x00, 0x00]
  {
    assert 65536 / 256 == 256 && 256 / 256 == 1 && 65536 % 256 == 0 && 256 % 256 == 0;
    assert BigEndianBytes(65536, 2) == BigEndianBytes(256, 1) + [0];
    assert BigEndianBytes(256, 1) == BigEndianBytes(1, 0) + [0];
  }

  /** The digest of section 1.3 of RFC 6455 begins with these words. */
  lemma WordExample()
    ensures Word([0xb3, 0x7a, 0x4f, 0x2c]) == 0xb37a4f2c && Word([0xc0, 0x62, 0x4f, 0x16]) == 0xc0624f16
  {
  }

  lemma ValuesOfCharacters()
    ensures ValueOf('F') == 5 && ValueOf('P') == 15 && ValueOf('u') == 46 && ValueOf('c') == 28
    ensures ValueOf('A') == 0 && ValueOf('9') == 61 && ValueOf('l') == 37 && ValueOf('+') == 62
  {
    assert 5 as int as byte == 5 && 15 as int as byte == 15 && 46 as int as byte == 46 && 28 as int as byte == 28;
    assert 0 as int as byte == 0 && 61 as int as byte == 61 && 37 as int as byte == 37;
  }

  lemma TriplesOfValues()
    ensures Triple(5, 15, 46, 28) == [0x14, 0xfb, 0x9c] && Triple(0, 61, 37, 62) == [0x03, 0xd9, 0x7e]
  {
  }

  /** The first example of section 9 of RFC 4648. */
  lemma Base64Example()
    ensures Decode("FPuc" + "A9l+") == Some([0x14, 0xfb, 0x9c] + [0x03, 0xd9, 0x7e])
  {
    ValuesOfCharacters();
    TriplesOfValues();
    assert DecodeQuad("FPuc", false) == Some([0x14, 0xfb, 0x9c]) by { hide ValueOf, Triple; }
    assert DecodeQuad("A9l+", true) == Some([0x03, 0xd9, 0x7e]) by { hide ValueOf, Triple; }
    hide DecodeQuad, Decode;
    LastQuad("A9l+", [0x03, 0xd9, 0x7e]);
    NextQuad("FPuc", "A9l+", [0x14, 0xfb, 0x9c], [0x03, 0xd9, 0x7e]);
  }

  /** A request with two headers, the second one continued. */
  lemma FoldedRequest(req: Request)
    requires Empty(req)
    ensures var text := "GET /a HTTP/1.1\r\n" + ("Host: b\r\n" + "X: c\r\n" + " \td e\r\n") + "\r\n";
            var o := ParseRequest(text, req);
            && o.verdict == ParseLoop.True
            && o.state.req.verb == "GET" && o.state.req.uri == "/a"
            && o.state.req.headers == [Header("Host", "b"), Header("X", "cd e")]
  {
    var lines := [Field("Host", "b"), Field("X", "c"), Fold(" \t", "d e")];
    var a := Syntax("GET", "/a", "1", "1", lines);
    FoldedIsValid();
    FoldedMeans();
    FoldedFirstLine(lines);
    FoldedText();
    hide Valid, Headers, RequestLine, LinesText;
    SentenceDecides(Unparse(a), req, a);
  }

  lemma FoldedFirstLine(lines: seq<Line>)
    ensures RequestLine(Syntax("GET", "/a", "1", "1", lines)) == "GET /a HTTP/1.1\r\n"
  {
  }

  lemma FoldedText()
    ensures LinesText([Field("Host", "b"), Field("X", "c"), Fold(" \t", "d e")])
         == "Host: b\r\n" + "X: c\r\n" + " \td e\r\n"
  {
    var host, x, fold := Field("Host", "b"), Field("X", "c"), Fold(" \t", "d e");
    LineExamples();
    NoLines();
    hide LineText, LinesText;
    LinesTextAppend([], host);
    LinesTextAppend([host], x);
    LinesTextAppend([host, x], fold);
    assert [] + [host] == [host] && [host] + [x] == [host, x] && [host, x] + [fold] == [host, x, fold];
    assert "" + LineText(host) == LineText(host);
  }

  lemma NoLines()
    ensures LinesText([]) == ""
  {
  }

  lemma LineExamples()
    ensures LineText(Field("Host", "b")) == "Host: b\r\n" && LineText(Field("X", "c")) == "X: c\r\n"
    ensures LineText(Fold(" \t", "d e")) == " \td e\r\n"
  {
  }

  lemma FoldedIsValid()
    ensures Valid(Syntax("GET", "/a", "1", "1", [Field("Host", "b"), Field("X", "c"), Fold(" \t", "d e")]))
  {
    TokenTextIsToken("GET");
    TokenTextIsToken("Host");
    TokenTextIsToken("X");
    ClassesOfExample();
    hide Token, Text, UriText, Digits;
  }

  lemma ClassesOfExample()
    ensures Text("b") && Text("c") && Text("d e") && UriText("/a") && Digits("1")
  {
  }

  lemma FoldedMeans()
    ensures Headers([Field("Host", "b"), Field("X", "c"), Fold(" \t", "d e")]) == [Header("Host", "b"), Header("X", "cd e")]
  {
    var host, x, fold := Field("Host", "b"), Field("X", "c"), Fold(" \t", "d e");
    HeadersAppend([], host);
    HeadersAppend([host], x);
    HeadersAppend([host, x], fold);
    assert [] + [host] == [host] && [host] + [x] == [host, x] && [host, x] + [fold] == [host, x, fold];
    assert "c" + "d e" == "cd e";
  }
}
