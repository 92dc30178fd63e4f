# Splice protocol engines

A Dafny model of the protocol code of the Splice networking library, and proofs about it: the
WebSocket frame codec, the incremental HTTP request parser, the chain of handshakes by which the
multi-protocol server finds out what a new connection speaks, and the helpers around them
(accept key, base64, message framing, URL decoding, reply printing, socket ownership).

Check it with `dafny verify dfyconfig.toml`.

## How it is organised

| files | subject |
|---|---|
| `ParseLoop`, `Buffers`, `Octets`, `Options` | the input loop both parsers share; lists of buffers; bytes and big-endian numbers |
| `ByteOrder`, `Frames`, `FrameParser` | length fields on a little-endian host; frame and writer; the fifteen-state frame automaton |
| `FrameLayout`, `FrameTheorems` | the wire layout read off the bytes, and what automaton and writer have to do with it |
| `FrameConformance`, `WsSession` | that layout compared with RFC 6455; what a session makes of frames cut into reads |
| `RequestParser`, `RequestGrammar` | the twenty-state request automaton; the language as a grammar with a meaning |
| `RequestSoundness`, `RequestCompleteness`, `RequestTheorems` | automaton and grammar coincide, in both directions |
| `RequestText`, `RfcExamples` | the language in terms of character codes and decimal numbers; published examples byte by byte |
| `Reply`, `Base64`, `AcceptKey` | printing replies; encoding; the answer to an upgrade request |
| `HexFormat`, `MessageFraming`, `RequestHandler` | messages with a hexadecimal length; URL decoding and paths |
| `TcpSession`, `Negotiation`, `HttpSession`, `MultiProtocolServer` | socket ownership; the chain and where it leads; the handlers that drive it |

Code that works by changing objects is a class here too. Each of its methods is proved against a
function on values (`Step`, `Written`, `Encoded`, `Decoded`, `ChainFrom`, ...), and the theorems
connect that function with an independent description: the layout of a frame, the grammar of a
request, a decoder, the route of a connection.

## Main results

- The frame parser accepts exactly the inputs that start with a frame of a layout that is read off
  the bytes, stores what that frame says and stops at its end; it never reports invalid data. The
  layout agrees with RFC 6455 sections 5.2 and 5.3 but for reserved bits and opcodes, for lengths that
  could be shorter or have the forbidden top bit, and for frames without a payload; each difference
  has its exact condition.
- The frame parser inverts the frame writer, frame by frame on a stream, exactly if no payload has
  size 65536 and every frame object read into holds a key that is zero as far as the payload reaches.
- What a WebSocket session makes of any list of reads is described from their bytes. A frame that
  arrives in several reads gets through exactly if all of it, or all but its first byte, is in one
  read; otherwise the session is deaf for ever.
- The request parser says true exactly when a prefix of the input is a request of the grammar, false
  exactly when no continuation can be one, and has then stored the meaning of that unique prefix,
  the version numbers as long as they are at most the largest int minus 48. The same is proved for a
  request object that still holds an earlier request.
- Both parsers give the same outcome for every division of the input into reads.
- The negotiation chain ends, for every client, where a direct description of the client's bytes
  says, with the socket held by the last session or shut down exactly once by it.
- A socket is owned or was shut down, exactly once, unless the session that held it closed it directly.

## How the code is read

- The host is little-endian: the frame parser collects length bytes low-first and then converts.
- A payload of 65536 bytes takes the 16-bit form (`size < 65537`), although section 5.2 of RFC 6455
  asks for the 64-bit form, and its length field is cut to zero.
- The masking key of a frame is not initialised, yet every payload byte is combined with it. The key
  is therefore an argument of the frame's constructor, and statements about unmasked frames say what
  an arbitrary key does to them.
- A 7-bit length of zero completes a frame before any masking key is read. An extended length of zero
  never completes, because the comparison comes after a byte was appended.
- The parser ignores the three reserved bits and does not ask for an assigned opcode, the minimal
  length form, or the zero top bit of a 64-bit length. `Fits` admits all 64 bits, as the code does;
  `FrameConformance` draws the line where the RFC does.
- The opcode `reserved` is written as 0xF, which the RFC does not assign, and is what every unassigned
  value is read as.
- `to_buffers` of a frame only adds bits to the stored header byte, so that a frame object cannot in
  general be written twice with different contents; `ReusedFrame` says exactly when it can.
- HTTP characters are Dafny characters, one per byte. Codes above 127 are neither control nor token
  characters whatever the sign of the host's `char`.
- The request grammar is that of RFC 2616 sections 5.1 and 4.2 with the parser's own restrictions:
  one mandatory space after the colon, continuation lines appended without a space, no comparison of
  the version. The library holds the parser twice; the model stands for both copies.
- Version numbers are read as `n * 10 + c - '0'` in `int`, in this order, so that the sum before the
  subtraction exceeds the result by 48: the version 2147483647.1 fits and cannot be read. Overflow of
  an `int` is undefined behaviour in C++. The model records it as the value `Overflowed` and goes on
  with the parse, as a host does on which the number wraps around.
- SHA-1 is a function parameter with five 32-bit words as its result.
- `to_base64` is written with Boost iterator adaptors; each adaptor is modelled by its documented
  effect (6-bit values from 8-bit values, the base64 table, a line break before every 73rd character).
- A read is a chunk of bytes of the client's choosing, at most 8192 of them where the code reads into
  a buffer of that size, or a failure.
- An upgrade request or a GUID frame that does not arrive in one read is never completed: the former is
  rejected or left to the HTTP session (`UpgradeInOneRead`), and an incomplete GUID frame makes `on_guid_read` return without a further read; nothing refers to the
  session afterwards and its destructor closes the socket. This is the result `Dropped`.
- Comments in `ws_handshake.hxx` say that the log session may upgrade a connection first read by the
  HTTP session. In this chain it never does: the WebSocket session has already looked for the text of
  the key field (`LogNeverUpgradesPlainData`). For the same reason the search for that text in
  `http_session` never succeeds in this chain.

## Model

| member | source | states |
|---|---|---|
| ParseLoop.RunSplits | splice/web_socket/rfc6455_engine.hpp:724-735 | Parsing `a + b` is parsing `a` and, if there was no verdict, resuming on `b` with the state carried over: same verdict, state and total consumed. |
| ParseLoop.ChunkingIsInvisible | splice/web_socket/rfc6455_engine.hpp:724-735 | For every division of the input into reads, reading them one after the other equals one parse of their concatenation. |
| ParseLoop.VerdictIsStable | splice/http/request_parser.hpp:45-56 | A verdict and the returned position depend only on the characters consumed; whatever follows changes nothing. |
| ByteOrder.ConversionsAreInverse16 | splice/web_socket/rfc6455_engine.hpp:741-774 | `ntoh16` and `hton16` undo each other in both orders. |
| ByteOrder.ConversionsAreInverse64 | splice/web_socket/rfc6455_engine.hpp:777-825 | `ntoh64` and `hton64` undo each other in both orders. |
| ByteOrder.Received16 | splice/web_socket/rfc6455_engine.hpp:884-918 | Two low-first assembly steps followed by `ntoh16` give the big-endian value of the two bytes. |
| ByteOrder.Received64 | splice/web_socket/rfc6455_engine.hpp:884-985 | Eight shift-or steps followed by `ntoh64` give the big-endian value of the eight bytes. |
| ByteOrder.Sent16 | splice/web_socket/rfc6455_engine.hpp:665-671 | What lies in memory after the cast and `hton16` is the size in network order, modulo 2 to the 16. |
| ByteOrder.Sent64 | splice/web_socket/rfc6455_engine.hpp:677-683 | What lies in memory after `hton64` is the size in network order, modulo 2 to the 64. |
| Frames.DataFrame.constructor | splice/web_socket/rfc6455_engine.hpp:619-630 | A new frame is a final, unmasked text frame with the given payload; the masking key is not set but taken as it is found in memory. |
| Frames.DataFrame.MarkHeader | splice/web_socket/rfc6455_engine.hpp:639-651 | FIN and opcode bits are added to the header byte, and none is ever removed. |
| Frames.DataFrame.MarkLength | splice/web_socket/rfc6455_engine.hpp:655-685 | The buffers gain the length field of the chosen form; the length members keep the values in network order or stay untouched. |
| Frames.DataFrame.ToBuffers | splice/web_socket/rfc6455_engine.hpp:633-688 | The buffers together are header byte, length field and payload of `Written`; every member it changes is pinned down. |
| FrameParsing.FrameParser.constructor | splice/web_socket/rfc6455_engine.hpp:714-717 | A new parser waits for the first byte of a frame. |
| FrameParsing.FrameParser.Consume | splice/web_socket/rfc6455_engine.hpp:829-1045 | Parser state and frame after one byte, and the result, are those of `Step`; the members used by the writer are not touched. |
| FrameParsing.FrameParser.ConsumeHeader | splice/web_socket/rfc6455_engine.hpp:833-883 | The first two bytes set FIN, opcode, mask and 7-bit length, and pick what follows; a 7-bit length of zero is a complete frame at once. |
| FrameParsing.FrameParser.ConsumeFirstLengthBytes | splice/web_socket/rfc6455_engine.hpp:884-920 | The first two extended length bytes, for both extended forms. |
| FrameParsing.FrameParser.ConsumeLongLength | splice/web_socket/rfc6455_engine.hpp:921-985 | The third to eighth extended length bytes; after the last the length is converted to host order. |
| FrameParsing.FrameParser.ConsumeKey | splice/web_socket/rfc6455_engine.hpp:986-1013 | The four bytes of the masking key are stored at their index. |
| FrameParsing.FrameParser.ConsumePayload | splice/web_socket/rfc6455_engine.hpp:1014-1040 | A byte is unmasked and appended, and the frame is complete when the payload has the length declared in the form in use. |
| FrameParsing.FrameParser.Parse | splice/web_socket/rfc6455_engine.hpp:724-735 | The loop computes the run of `Step` over the input, with the position it returns. |
| FrameTheorems.ParserRecognisesFrames | splice/web_socket/rfc6455_engine.hpp:829-1045 | For every input and initial key: never false; true if and only if some prefix is a frame of the layout `IsFrame` (whose relation to RFC 6455 is the subject of `FrameConformance`), and then the consumed bytes are that frame and the stored FIN, opcode and payload are what it says; otherwise the state is the one the unfinished prefix calls for. |
| FrameConformance.AgreementWithRfc | splice/web_socket/rfc6455_engine.hpp:833-1040 | A frame of the layout whose reserved bits are zero, whose opcode is assigned, whose 64-bit length has a zero top bit and which does not end before its key is a frame of RFC 6455 sections 5.2 and 5.3 in some length form, non-empty or unmasked with a 7-bit length, and conversely. |
| FrameConformance.AgreementWithMinimalFrames | splice/web_socket/rfc6455_engine.hpp:865-985 | The same equivalence for the minimal length form of section 5.2, under the condition on the bytes that the parser does not check. |
| FrameConformance.FrameIsSpelledOut | splice/web_socket/rfc6455_engine.hpp:833-1040 | From its second byte on, every frame of the layout that does not end before its key is laid out as the RFC prescribes for the message, form and key that can be read off it. |
| FrameConformance.OrdinaryFrameIsSpelledOut | splice/web_socket/rfc6455_engine.hpp:833-1040 | Such a frame is one of the RFC exactly if its first byte has no reserved bit and an assigned opcode, and the top bit of a 64-bit length is zero. |
| FrameConformance.ParserAgainstRfc | splice/web_socket/rfc6455_engine.hpp:829-1045 | On a complete frame of the RFC the parser stops exactly at its end if and only if it is non-empty or unmasked with a 7-bit length; an empty masked one is ended after two of its six bytes, and an empty one with an extended length never. |
| FrameTheorems.EmptyMaskedFrameEndsEarly | splice/web_socket/rfc6455_engine.hpp:870-871 | An empty masked frame is reported after two bytes, and exactly its key is left on the wire. |
| FrameTheorems.FrameEndIsUnique | splice/web_socket/rfc6455_engine.hpp:829-1045 | At most one prefix of an input is a frame. |
| FrameTheorems.WholeFrameIsParsed | splice/web_socket/rfc6455_engine.hpp:724-735 | A frame followed by anything is parsed to its meaning, up to its last byte and not beyond. |
| FrameTheorems.RfcFrameParsedExactly | splice/web_socket/rfc6455_engine.hpp:865-1040 | A frame laid out by RFC 6455 with any key, any of the three length forms and any admissible size is parsed exactly if and only if its payload is non-empty or it is unmasked with a 7-bit length, and, if it is unmasked, the key bytes left in the frame object are zero as far as the payload reaches; otherwise the payload comes out combined with them. |
| FrameTheorems.MaskedPayload | splice/web_socket/rfc6455_engine.hpp:1014-1017 | In the payload read from a masked frame a bit is set if and only if it is set in exactly one of the byte on the wire and byte i modulo 4 of the key on the wire. |
| Octets.XorOfBits | splice/web_socket/rfc6455_engine.hpp:1016-1017 | Bytes are combined bit by bit by exclusive or. |
| RfcExamples.ShortExamples | splice/web_socket/rfc6455_engine.hpp:829-1045 | The first examples of section 5.7 of RFC 6455, masked and not, fragmented, ping and pong, byte by byte, and the messages read from them. |
| RfcExamples.LongExamples | splice/web_socket/rfc6455_engine.hpp:884-985 | The examples of section 5.7 with 256 bytes and 64 KiB. |
| RfcExamples.WrittenExamples | splice/web_socket/rfc6455_engine.hpp:633-688 | The bytes written for messages of these examples. |
| FrameTheorems.WriterFollowsRfc | splice/web_socket/rfc6455_engine.hpp:655-685 | The writer produces the frame with the minimal length form of section 5.2 if and only if the payload size is not 65536. |
| FrameTheorems.WriterRoundTrip | splice/web_socket/rfc6455_engine.hpp:633-688 | A written frame followed by anything is parsed back exactly if and only if its size is not 65536 and the uninitialised key it meets is zero as far as the payload reaches; at 65536 no continuation ever completes it, and with another key the payload read is known. |
| FrameTheorems.StreamRoundTrip | splice/web_socket/rfc6455_engine.hpp:633-688 | Frames concatenated on the wire and read with a fresh parser and frame from each returned position come back as the same list with nothing left, if and only if none has size 65536 and each meets a harmless key in its frame object, for any contents of memory. |
| FrameTheorems.ReusedFrame | splice/web_socket/rfc6455_engine.hpp:639-653 | A frame object with which any list of messages was written before is read as the next message if and only if its size is not 65536, the FIN and opcode bits of every earlier one are contained in its own, and the key met is harmless. |
| FrameTheorems.ZeroLengthNeverCompletes | splice/web_socket/rfc6455_engine.hpp:1014-1032 | An extended length of zero leaves every continuation indeterminate. |
| FrameTheorems.BytesAreAccountedFor | splice/web_socket/rfc6455_engine.hpp:829-1045 | In every reachable state payload plus header bytes equal the bytes consumed once payload has arrived, and the payload never exceeds a non-zero declared length. |
| FrameTheorems.DeclaredAtTheEnd | splice/web_socket/rfc6455_engine.hpp:1019-1039 | A completed frame with a payload holds exactly the declared number of bytes. |
| FrameTheorems.EveryByteCounts | splice/web_socket/rfc6455_engine.hpp:986-1040 | Once a non-zero length is known, each byte lowers the number of bytes still needed by exactly one, and the frame completes exactly when one was needed. |
| FrameTheorems.ChunkedFrames | splice/web_socket/rfc6455_engine.hpp:724-735 | Frames arriving in any pieces, with parser and frame carried over: verdict, total consumed and meaning are those of the concatenation. |
| WsSessions.WsSession.OnReadDataframe | splice/web_socket/ws_session.hxx:133-179 | One read: the parser is carried over, the frame is new; the whole new state is that of `Hear`. A failed read shuts the socket. |
| WsSessions.ReadsAsDescribed | splice/web_socket/ws_session.hxx:133-179 | For any list of reads, from any state: a read that starts with a frame delivers that frame only, a lone first byte turns the next read into the rest of a final text frame, any other read without a whole frame makes the session deaf, and an opcode other than text, ping and pong closes it. |
| WsSessions.WsSession.OnReadDataFrame | splice/web_socket/ws_session.hxx:87-130 | Texts are delivered, pings and pongs skipped, everything else closes the session. |
| WsSessions.SplitFrame | splice/web_socket/ws_session.hxx:151-175 | A frame that arrives in several reads gets through if and only if all of it, or all but its first byte, is in one read; in the second case it passes for a final text frame, in every other case the session never delivers anything again. |
| WsSessions.DeafForever | splice/web_socket/ws_session.hxx:151-175 | After a read that ended inside a frame behind its second byte, no reads whatever lead to a delivery. |
| WsSessions.RestOfReadIsLost | splice/web_socket/ws_session.hxx:153-177 | What follows a whole frame in the same read has no effect. |
| WsSessions.HeardByOpcode | splice/web_socket/ws_session.hxx:87-130 | By the low half of the first byte of a frame: 1 is delivered, 9 and 10 are passed over, everything else closes the socket. |
| WsSessions.CutAfterOne | splice/web_socket/ws_session.hxx:151-154 | After a read of one byte the next read is parsed as the rest of a final text frame. |
| RequestParsing.RequestObject.constructor | splice/web_socket/rfc6455_engine.hpp:138-145 | A new request is empty; its version numbers are arbitrary. |
| RequestParsing.RequestParser.Reset | splice/http/request_parser.hxx:30-33 | The parser waits for a method again. |
| RequestParsing.RequestParser.Consume | splice/http/request_parser.hxx:35-291 | One character changes state and request as `Step` does, and states that use `headers.back()` keep having a header. |
| RequestParsing.RequestParser.ConsumeRequestLine | splice/http/request_parser.hxx:39-131 | Method, URI and the letters of the protocol. |
| RequestParsing.RequestParser.ConsumeVersion | splice/http/request_parser.hxx:132-193 | The two version numbers, with the overflow of each int operation, and the end of the request line. |
| RequestParsing.RequestParser.ConsumeHeader | splice/http/request_parser.hxx:194-287 | Header names, values, continuation lines and the empty line at the end. |
| RequestParsing.RequestParser.Parse | splice/http/request_parser.hpp:45-56 | The loop computes the run of `Step` over the input, with the position it returns. |
| RequestTheorems.AcceptsExactlyTheGrammar | splice/http/request_parser.hxx:35-291 | True if and only if a prefix of the input is a request of the grammar; then the consumed text is that request and method, URI and the ordered headers, folds included, are its meaning; each version number is the one written if it is at most the largest int minus 48, and an overflow otherwise. |
| RequestTheorems.VersionsAreExact | splice/http/request_parser.hxx:132-183 | Both stored version numbers are those in the text if and only if both are at most the largest int minus 48. |
| RequestTheorems.LargestVersionOverflows | splice/http/request_parser.hxx:149-152 | The version 2147483647.1 fits two ints, is accepted, and overflows while it is read. |
| RequestTheorems.AcceptsExactlyAfter | splice/http/request_parser.hxx:35-291 | The same whatever the request object holds: true if and only if a prefix is a request whose first header line may continue the last header held; then it is added to what was held. |
| RequestTheorems.RejectsExactlyAfter | splice/http/request_parser.hxx:35-291 | Whatever the request object holds: false if and only if no continuation starts with such a request. |
| RequestTheorems.ReusedRequest | splice/http/request_parser.hxx:30-33 | After `reset()` a request object that was not cleared keeps its old method, URI and headers in front of the new ones; it holds the new request if and only if it had been empty. |
| RequestTheorems.SentenceDecides | splice/http/request_parser.hxx:35-291 | Any request of the grammar at the start of the input is the one accepted, consumed exactly and stored, version overflow included. |
| RequestTheorems.RejectsExactlyTheHopeless | splice/http/request_parser.hxx:35-291 | False if and only if no continuation of the input starts with a request. |
| RequestTheorems.SentenceIsUnique | splice/http/request_parser.hxx:35-291 | Two requests of the grammar at the start of one input have the same text and the same meaning. |
| RequestTheorems.ParserIsSound | splice/http/request_parser.hxx:35-291 | In every state reachable with any request object the characters read are exactly the text of a partial syntax tree, and the object holds that tree on top of what it held before. |
| RequestCompleteness.AcceptsSentence | splice/web_socket/rfc6455_engine.hpp:262-518 | Every request of the grammar is accepted at its last character and added to whatever the request object held. |
| RequestCompleteness.NoDeadEnd | splice/http/request_parser.hxx:35-291 | From every configuration whose verdict is still open some continuation is accepted. |
| RequestTheorems.StoredTextIsClean | splice/http/request_parser.hxx:194-287 | In every state reachable from a new parser every header name is a non-empty token, every value is free of control characters, and the text captured never exceeds the characters consumed. |
| RequestText.PrintedRequestIsRead | splice/http/request_parser.hxx:35-291 | A request printed from character codes and decimal numbers, followed by anything, is accepted at its last character and read back field by field; a version number is stored up to 2147483599. |
| RequestText.AcceptedIsOfCodes | splice/http/request_parser.hxx:35-291 | Whatever is accepted has tokens for method and header names, no control characters in URI and values, by their codes, and versions made of the ten numerals. |
| RequestText.TokenCharacters | splice/http/request_parser.hxx:293-315 | Token characters are the codes 33 to 126 without the separators, spelled out. |
| RequestText.ControlCodes | splice/http/request_parser.hxx:298-301 | Control characters are the codes 0 to 31 and 127, and no others. |
| RequestText.DigitCharacters | splice/http/request_parser.hxx:317-320 | The digits are the ten numerals. |
| RequestText.PrintedIsRead | splice/http/request_parser.hxx:132-183 | Every number printed by division by ten consists of digits and is read as itself. |
| RfcExamples.FoldedRequest | splice/http/request_parser.hxx:194-287 | A request with a continuation line, character by character, and what is stored of it. |
| RequestTheorems.RunKeepsPrintable | splice/http/request_parser.hxx:194-287 | The same about names and values from any state in which it holds. |
| RequestTheorems.ChunkedRequest | splice/http/request_parser.hpp:45-56 | For any division into reads: same result as one parse of the whole, hence true and false exactly for the grammar on the whole. |
| RequestGrammar.NoOverflowExactly | splice/http/request_parser.hxx:132-183 | No operation overflows while the digits of a number are read if and only if the number is at most the largest int minus 48; only then is it stored. |
| Replies.HttpReply.ToBuffers | splice/http/reply.hxx:111-126 | The buffers together are status line, header block and content. |
| Replies.EngineReply.ToBuffers | splice/web_socket/rfc6455_engine.hpp:103-127 | The vector of the size computed beforehand is filled completely, with status line and header block. |
| Replies.HeaderBlockRoundTrip | splice/http/reply.hxx:111-126 | A printed header block followed by any content is parsed back to the same list, with the returned position at the start of the content, if and only if all names are non-empty tokens and no value holds a control character. |
| Base64.ToBase64 | splice/web_socket/rfc6455_engine.hpp:194-221 | The method computes the encoding with breaks and padding. |
| Base64.Base64RoundTrip | splice/web_socket/rfc6455_engine.hpp:194-221 | Removing the breaks and decoding by section 4 of RFC 4648 gives the bytes back; without breaks there are four characters for every three bytes begun. |
| Base64.BreakPositions | splice/web_socket/rfc6455_engine.hpp:199-209 | Breaks stand exactly after every 72 characters that are followed by another, and nothing else changes. |
| Base64.BrokenLength | splice/web_socket/rfc6455_engine.hpp:199-209 | The number of breaks. |
| Base64.TableIsInvertible | splice/web_socket/rfc6455_engine.hpp:199-209 | Every 6-bit value is recovered from its character. |
| Base64.TableOfRfc | splice/web_socket/rfc6455_engine.hpp:199-209 | The characters are those of Table 1 of RFC 4648 in its order. |
| RfcExamples.Base64Example | splice/web_socket/rfc6455_engine.hpp:194-221 | The first example of section 9 of RFC 4648 decodes to its bytes. |
| AcceptKeys.ToSha1 | splice/web_socket/rfc6455_engine.hpp:177-191 | The twenty bytes of the digest, each word most significant byte first. |
| AcceptKeys.DigestRegroups | splice/web_socket/rfc6455_engine.hpp:186-189 | The twenty bytes regroup into the five words. |
| AcceptKeys.HandleRequest | splice/web_socket/rfc6455_engine.hpp:153-173 | An upgrade answer with the accept value of the first key header, or a bad request exactly if there is none. |
| AcceptKeys.AcceptValueIsTheDigest | splice/web_socket/rfc6455_engine.hpp:160-170 | Section 4.2.2 of RFC 6455: 28 characters without a break that decode to the five digest words of key plus GUID. |
| AcceptKeys.UpgradeAnswerReadsBack | splice/web_socket/rfc6455_engine.hpp:103-127 | Every upgrade answer, printed, is read back by the header automaton as the same headers, to its last character. |
| AcceptKeys.ClientReadsAnswer | splice/web_socket/rfc6455_engine.hpp:153-173 | What a client finds in the printed answer: Upgrade is websocket, Connection is Upgrade, and one Sec-WebSocket-Accept header of 28 characters spells the digest of the first key followed by the GUID of RFC 6455; refused exactly without a key. |
| HexFormat.FormattedRoundTrip | splice/serialization_session.hxx:94-96 | A number printed in hexadecimal at any width is extracted again, if it fits std::size_t; else extraction fails. |
| HexFormat.FormattedCharacters | splice/serialization_session.hxx:94-96 | What is printed: spaces up to the width, then lower-case hexadecimal digits without a leading zero, which write the number. |
| HexFormat.NegativeWrapsAround | splice/serialization_session.hxx:165-169 | A number with a minus sign is extracted as its difference to 2 to the 64. |
| RfcExamples.FirstBytes | splice/web_socket/rfc6455_engine.hpp:639-653 | The header byte for the opcodes of section 5.2 of RFC 6455, and 0x8F for a reserved one. |
| HexFormat.DigitValues | splice/serialization_session.hxx:165-169 | Which characters are hexadecimal digits, which are white space, and what the digits are worth. |
| MessageFraming.HeaderFits | splice/serialization_session.hxx:97-97 | The header has eight characters if and only if the size is below 16 to the power of 8, which is 4294967296. |
| MessageFraming.ReadsFramed | splice/serialization_session.hxx:149-190 | One header and one data step take exactly one framed message off the stream. |
| MessageFraming.StreamRoundTrip | splice/serialization_engine.hxx:94-227 | Any sequence of messages below that size is read back as the same sequence with nothing left. |
| MessageFraming.SerializationSession.AsyncWrite | splice/serialization_session.hxx:79-113 | A message is sent whole on an open socket; one of 16 to the power of 8 characters or more is refused and closes the socket. |
| MessageFraming.SerializationSession.OnErrorCode | splice/tcp_session.hxx:216-223 | Every error closes the socket. |
| MessageFraming.SentIsRead | splice/serialization_session.hxx:79-224 | After any sequence of writes and reads, the peer reads exactly the messages that were written while the socket was open and were not refused. |
| MessageFraming.NothingAfterError | splice/serialization_session.hxx:97-101 | After the first refusal, invalid header or failed read, nothing is sent, read or handed on any more. |
| MessageFraming.RefusalEndsSending | splice/serialization_session.hxx:97-101 | Of a list of messages written, exactly those before the first one too long are sent, and the socket stays open exactly if there is none. |
| MessageFraming.ReadsDeliver | splice/serialization_session.hxx:130-224 | The messages of the peer come out in order, one per read; the read after the last one fails and closes the socket. |
| MessageFraming.ReadOrClose | splice/serialization_session.hxx:159-201 | After any calls, a read either hands on one message and leaves the socket open, or hands on nothing and leaves it closed. |
| MessageFraming.SerializationSession.AsyncRead | splice/serialization_session.hxx:130-224 | A message comes out if and only if the socket is open and one is there in full; an unreadable header or a failed read closes the socket. |
| RequestHandling.ExtractTwo | splice/http/request_handler.hxx:101-103 | What stream extraction makes of two characters; two hexadecimal digits give their value. |
| RequestHandling.UrlDecode | splice/http/request_handler.hxx:91-128 | The loop computes the decoding, and refuses exactly what has none. |
| RequestHandling.DecodesEveryEncoding | splice/http/request_handler.hxx:91-128 | Any mixture of literal bytes, plus signs and percent groups decodes to the bytes it stands for. |
| RequestHandling.DecodedWasEncoded | splice/http/request_handler.hxx:91-128 | Whatever is decoded was such an encoding of the result, and the result is never longer than the input. |
| RequestHandling.PercentEncodingRoundTrip | splice/http/request_handler.hxx:97-117 | Every byte string encoded with two hexadecimal digits per byte (section 2.1 of RFC 3986) decodes to itself. |
| RequestHandling.ExtensionOf | splice/http/request_handler.hxx:61-68 | The extension has no slash or dot and is what follows the last dot of the last component. |
| RequestHandling.Resolve | splice/http/request_handler.hxx:37-72 | A path is looked up exactly for a URI that decodes to an absolute path without "..", and the completed path keeps both, does not end in a slash, and has the extension reported; the file opened is the one of that path if and only if no NUL character occurs; the whole answer is `TargetOf`. |
| RequestHandling.PathLookedUp | splice/http/request_handler.hxx:55-59 | A decoded path that does not end in a slash is looked up unchanged; a URI for one that does has the same target as that URI with index.html appended. |
| RequestHandling.AcceptablePath | splice/http/request_handler.hxx:47-53 | The check in so many words: the path starts with a slash and is not of the form a, "..", b. |
| RequestHandling.DecodedConcat | splice/http/request_handler.hxx:91-128 | A URI that can be decoded, followed by anything, is decoded part by part. |
| RequestHandling.DecodedExamples | splice/http/request_handler.hxx:97-121 | In plain text a plus is decoded to a space and %41 to the letter A. |
| RequestHandling.ExtensionIsUnique | splice/http/request_handler.hxx:61-68 | The extension reported is the only one that a path can have. |
| RequestHandling.CString | splice/http/request_handler.hxx:71-72 | The file name is cut at the first NUL character. |
| RequestHandling.ExtensionIsComputed | splice/http/request_handler.hxx:61-68 | Every path has exactly one extension, the one read off from its end. |
| RequestHandling.OpenedExtension | splice/http/request_handler.hxx:61-72 | The file opened has the extension reported if and only if that is the extension of the path cut at its first NUL character; so it has without one, and has not with one in the extension. |
| RequestHandling.NulInUri | splice/http/request_handler.hxx:37-72 | URIs such as /a%00.html pass all checks, report the extension and open a file without it. |
| RequestHandling.NulBeforeExtension | splice/http/request_handler.hxx:61-72 | A NUL character before the extension can make the two differ. |
| RequestHandling.NulAfterSameExtension | splice/http/request_handler.hxx:61-72 | Or leave the extension right while the file is another one. |
| TcpSessions.TcpSession.FromSocket | splice/tcp_session.hxx:36-42 | The new session holds the socket, the other one holds none. |
| TcpSessions.TcpSession.Shutdown | splice/tcp_session.hxx:175-203 | An open socket is closed and `on_shutdown` called once; without one nothing happens. |
| TcpSessions.TcpSession.OnError | splice/tcp_session.hxx:54-61 | Errors and destruction come down to one shutdown. |
| TcpSessions.TcpSession.CloseSocket | splice/http/http_session.hxx:197-197 | A direct close releases the socket without a call of `on_shutdown`. |
| TcpSessions.EventConserves | splice/tcp_session.hxx:175-203 | Accepting, handing over, shutting down and closing directly, in whatever session, conserve owners plus shutdown calls plus direct closes of every other socket. |
| TcpSessions.SocketConservation | splice/tcp_session.hxx:36-42 | Along every sequence of events, owners, shutdown calls and direct closes of a socket add up to the number of times it was accepted. |
| TcpSessions.OneOwnerOrOneShutdown | splice/tcp_session.hxx:175-203 | A socket accepted once has at most one owner or shutdown call, and exactly one if and only if no session that held it closed it directly. |
| TcpSessions.HandshakeOutcome | splice/multi_protocol.hxx:78-100 | A socket that is accepted and handed on any number of times, each time followed by a shutdown of the former owner, has one owner and no shutdown; after a final shutdown it has no owner and one shutdown. |
| TcpSessions.ServedRequestIsNotShutDown | splice/http/http_session.hxx:185-199 | A served HTTP request: the session closes its socket directly, and `on_shutdown` is never called. |
| TcpSessions.FormerOwnerIsHarmless | splice/tcp_session.hxx:441-446 | After handing the socket over, a shutdown of the former owner has no effect. |
| TcpSessions.ShutdownIsIdempotent | splice/tcp_session.hxx:189-191 | A second shutdown changes nothing. |
| Negotiation.ChainFollowsRoute | examples/multi_protocol_echo/server/main.cpp:68-113 | For every client behaviour the chain of five handshakes ends where the direct description in terms of grammar, frame layout and GUIDs says. |
| Negotiation.TriedInOrder | splice/multi_protocol.hxx:77-100 | Protocols are tried in the order ws, http, log, serialization, tcp, each at most once, all of them before a rejection, and an accepting protocol is the last one tried. |
| Negotiation.StageSettles | splice/tcp_session.hxx:130-140 | A handshake accepts for its own protocol only and never rejects the connection by itself. |
| Negotiation.FilterIsSound | splice/web_socket/ws_handshake.hxx:139-147 | Data that starts with a request to be upgraded always contains the text that is searched for. |
| Negotiation.LogNeverUpgradesPlainData | splice/web_socket/ws_handshake.hxx:365-371 | Data passed on by the first stage as HTTP is always refused by the log session, although it parses it for an upgrade. |
| Negotiation.UpgradeInOneRead | splice/web_socket/ws_handshake.hxx:136-168 | An upgrade request of which the first read holds a part is upgraded exactly if the part is the whole; otherwise the connection is rejected if the part holds the text of the key field, and left waiting if not. |
| Negotiation.RestOfFirstReadIsLost | splice/web_socket/ws_handshake.hxx:162-168 | What follows the upgrade request in the first read has no influence. |
| Negotiation.BraceIsHopeless | splice/http/request_parser.hxx:39-49 | Text that starts with a brace never becomes a request. |
| Negotiation.PlainGuidIsRouted | examples/multi_protocol_echo/server/my_serialization_session.hpp:23-29 | The serialization or raw GUID as first read is accepted by exactly its own session, any other GUID is rejected. |
| Negotiation.PlainTextsAreRouted | examples/multi_protocol_echo/server/my_tcp_session.hpp:18-24 | The same for the four texts written out. |
| Negotiation.FramedTextsAreRouted | examples/multi_protocol_echo/server/my_ws_session.hpp:19-25 | After an upgrade, any text in a masked first frame leads to the session for that text, written out, or to a rejection. |
| Negotiation.EveryOutcome | examples/multi_protocol_echo/server/main.cpp:68-113 | Exactly when a connection is served, kept waiting, dropped or closed, in terms of the reads and of the fate of the reply. |
| Negotiation.FramedGuidIsRouted | splice/web_socket/ws_handshake.hxx:271-349 | After an upgrade, a GUID in a text frame, in any length form and followed by anything, is accepted by its own session if and only if the frame is masked or the uninitialised key of the frame read into is zero. |
| HttpSessions.Find | splice/http/http_session.hxx:86-86 | The search finds the text exactly if it occurs. |
| HttpSessions.HttpSession.ParseRead | splice/http/http_session.hxx:145-149 | One more read, parsed on top of the earlier ones, is judged as the concatenation of all of them. |
| HttpSessions.HttpSession.OnFirstRead | splice/http/http_session.hxx:62-130 | Handed on exactly if the key field occurs or no continuation can be a request; served exactly if a request is there; otherwise reading goes on. |
| HttpSessions.HttpSession.HandleRead | splice/http/http_session.hxx:133-182 | After any number of reads: served exactly when all reads together start with a request, refused exactly when none can follow; a failed read that was not aborted closes the socket directly. |
| MultiProtocolServers.UpgradeIsParsed | splice/web_socket/ws_handshake.hxx:162-168 | The parser accepts and finds a key header exactly for data that starts with a request carrying one. |
| MultiProtocolServers.FirstFrameIsParsed | splice/web_socket/ws_handshake.hxx:292-295 | The frame parser is never false, true exactly if the read starts with a frame, and its payload never exceeds the read. |
| MultiProtocolServers.TryHandshake | examples/multi_protocol_echo/server/my_log_session.hpp:49-55 | Accepted exactly if the data is the GUID of the session. |
| MultiProtocolServers.CopyToBuffer | splice/web_socket/ws_handshake.hxx:324-327 | The payload is copied unchanged; it fits the buffer of 8192 bytes. |
| MultiProtocolServers.HandleGuidRead | splice/web_socket/ws_handshake.hxx:271-349 | The GUID read ends as the frame layout of its bytes says; the copy always fits because one read of at most 8192 bytes filled the frame. |
| MultiProtocolServers.HandleFirstWrite | splice/web_socket/ws_handshake.hxx:153-248 | Refused without a request carrying a key; otherwise the reply is written and the GUID read decides. |
| MultiProtocolServers.HandleWsFirstRead | splice/web_socket/ws_handshake.hxx:122-148 | The handshake of the session that accepted the connection. |
| MultiProtocolServers.HandleHttp | splice/http/http_session.hxx:39-58 | Anything but untouched HTTP data is refused; the rest is decided by the request grammar. |
| MultiProtocolServers.HandleLog | splice/web_socket/ws_handshake.hxx:353-378 | Dispatch on the tag: upgrade, GUID or refusal. |
| MultiProtocolServers.OnHandshakeFail | splice/multi_protocol.hxx:78-100 | With no protocol left the socket is shut down and the connection rejected; otherwise the rest of the chain decides and the session that failed is left without a socket. |
| MultiProtocolServers.DoNextHandshake | examples/multi_protocol_echo/server/main.cpp:77-113 | The index assertion holds and the default branch is dead; the new session takes the socket and the result is that of the chain from this index. |
| MultiProtocolServers.OnAccept | splice/multi_protocol.hxx:45-63 | From acceptance to the end of the handshakes: the result is the one described directly; the protocols are tried in order, each by one session; an accepted, served or waiting client leaves the last session holding the socket with nothing shut or closed, any other has it shut exactly once by the last session; all sessions are left as by a run of accept, hand over and shutdown with exactly one owner if and only if the client was not turned away. |
| MultiProtocolServers.FinishServing | splice/http/http_session.hxx:185-199 | When the reply is written the socket is closed directly, and the destructor does nothing; after an aborted write the destructor shuts it down. |

## Left out

- Asio: sockets, acceptor errors, strands, threads, signals and the timers that are commented out; a handler is one step, and a read or write is its outcome.
- SHA-1 and the Boost text archive: a function parameter and an opaque string.
- MessageFraming.SerializationSession.AsyncWrite: does not model writes that overtake one another or are cut off by a later error; a write on an open socket is done when it is issued.
- Status lines, the status table and stock replies: a status line is an opaque string, and header block properties start after it.
- Big-endian hosts: the branch of the conversions that returns its argument unchanged.
- MessageFraming.SerializationSession.AsyncRead: does not model a partial read, which the source asserts not to happen, nor a failing archive; a stream that ends early, or a length too large to allocate, is a failed read.
- RequestHandling.ExtractTwo: does not model other locales than the C locale, whose digit grouping would change stream extraction.
- RequestHandling.Resolve: does not model opening and reading the file, nor the MIME table.
- MultiProtocolServers.OnAccept: does not model the set of log sessions, the later life of an accepted session, or several connections at once; socket ownership under any interleaving is stated in `TcpSessions`.
- The second copy of the HTTP parser and of the serialization code as separate code: they are identical in effect.
- Loggers, JSON messages, HTML and console clients, the mono-protocol server and version headers: no protocol logic, or easy members.
