# staticlib_pion: an incremental HTTP server core, modelled and proved in Dafny

staticlib_pion is an asynchronous HTTP/1.1 and WebSocket server. Its difficult part is that
every parser is resumable: the network may cut the byte stream anywhere, so all progress lives
in fields and the same answer has to come out of every cutting. This project models

* the request parser `http_parser`: the request-line and header machine, the chunked-body
  machine, the fixed-length copy, and the loop over the message stages;
* the form, multipart and cookie parsers it calls;
* the printers these parsers invert: request heads, the chunk framer of the response writer,
  query strings, Set-Cookie headers, and the standard multipart encoding;
* pipelined connections: successive request readers that hand a read position to each other;
* the receive side of WebSockets, with the frame that is a view of the receive buffer;
* routing by the longest registered ancestor, and the connection pool as lock-protected steps.

How it is laid out. Each machine is first a pure step function, run over a byte string
(`HeaderMachine`, `ChunkMachine`, `Parsing`); the theorems about all streams and all cuttings
are about these runs. The classes (`HttpParser`, `RequestReader.Session`, `WebSocket`,
`Writer`, `Router`, `TcpServer`, `HttpRequest`) hold the fields the source updates, loop as
the source loops, and are proved against the runs, byte counters and buffer bounds included.

The main theorems, with where they are stated:

* For every input, printed by a client or not, and every cutting of it, the parser ends as a
  reading of the whole request at once says: the head line by line, the body by its framing,
  chunk by chunk if it is chunked, the trailers line by line; with the same verdict and error
  after the same number of bytes, and the same request (`RequestGrammar.RequestIsGrammar`,
  `AnyCuttingIsGrammar`; for the parts `HeadGrammar.HeadIsGrammar`,
  `ChunkGrammar.ChunksAreGrammar`).
* Any two cuttings of a stream give the same verdict, error, message, payload and consumption
  (`Parsing.SplitIndependence`), and the class computes exactly that
  (`HttpParser.HttpParser.Parse`).
* Any list of printed requests, with fixed-length, chunked or no bodies, sent back to back and
  cut into reads anywhere, is handled as exactly that list, bodies included, if and only if no
  request leaves something unread (`Pipelines.PipelinedRequests`). For the server's own hook and
  in terms of the header fields that clients send: if and only if every method is known and
  every body has a payload handler and no trailers (`HttpServer.ServedAsSent`).
* Every byte of any stream belongs to exactly one request (`Connections.EveryByteOnce`).
* The requests the header machine can report are exactly the printable ones
  (`HeadLanguage.LegalIsReportable`), and it rejects an input at the first byte after which
  nothing could complete it (`HeadLanguage.RejectsAtOnce`).
* What the writer emits in chunks decodes to the data written, in any fragmentation
  (`ChunkText.ChunkedRoundTrip`, `ResponseWriter.SendChunked`).
* Fragmented WebSocket messages are reassembled from arbitrary reads (`WebSockets.Reassembly`,
  `WebSockets.BoundedReassembly`).
* Form decoding equals a grammar in both directions (`Forms.ParseFormIsGrammar`), multipart
  decoding equals a line-by-line reading on every body (`MultipartGrammar.MultipartIsGrammar`),
  and cookie decoding a reading cookie by cookie on every text
  (`CookieGrammar.CookiesAreGrammar`).
* The pool is safe in every interleaving (`ConnectionPool.RunsAreSafe`, `NothingAfterStop`), and
  a connection in use stays in the pool exactly until a step releases it
  (`InUseUntilReleased`).

Five properties one might expect are false of the code, and their exact conditions are proved:

* A request whose body has no payload handler is complete with its head, and on a connection that
  stays open its body is parsed as the next request (`Pipelines.UnreadBodyIsNextRequest`); so
  are trailers behind a body that has a handler. When requests arrive as sent is the condition
  of the two theorems on lists of requests above, which also cover the request that closes the
  connection.
* A chunked body without a payload handler completes if and only if it fits the maximum: bytes
  over it are dropped without being counted, so the chunk never ends
  (`ChunkLimits.DecodesExactlyWithinMax`, `ChunkLimits.CompletableExactly`).
* Multipart parsing leaves by an exception if and only if a named text part has the boundary
  right behind the CR LF of its blank line, so that the field length is minus two; this holds
  for every body (`MultipartGrammar.ThrowsExactly`). When it leaves `parse` as a whole is stated
  for every request, framing and length (`FormPosts.ParseRaisesExactly`) and for every hook
  (`Pipelines.RaisesExactly`).
* `change_resource` keeps the cached first line; it stays right if and only if there was no
  cached line or the resource did not change (`HttpRequest.HttpRequest.ChangeResource`).
* A message with pings between its fragments is delivered whole if and only if the fragments
  before the last ping carry no data and start with the type that the remaining ones start with
  (`WebSockets.SurvivesPings`).

Modelling conventions. A byte is a `char`; bytes from 128 upwards are neither characters nor
controls, as with a signed `char`. Pointers are indices. Header, query and cookie dictionaries
are sequences of pairs in insertion order; which of several values a lookup finds is left open.
The tribool is `More`, `Done` or `Fail(error)`, and `Raised` is an exception that leaves `parse`.
Version numbers wrap at sixteen bits and chunk sizes saturate like `strtol`. The maximum
content length is an arbitrary number. `url_encode`, `url_decode`, `parse_uint64`, the lookup in
a multimap, the frame decoder, the hook after the headers and the keep-alive rule are function
parameters; the laws assumed of them are written as predicates (`Forms.Encodable`,
`Messages.Foreign.Lawful`, `WebSockets.Lawful`).

One place where the code and its comments disagree: on CR or LF in front of the version the
code sets the state for a line end and then overwrites it, so the input goes on at the first
`T` of `HTTP`. The model does what the code does.

## Model

| member | source | states |
|---|---|---|
| `HeaderMachine.RunAppend` | src/http_parser.cpp:162-591 | running the header machine on two pieces, resumed from its fields, is running it on their concatenation |
| `HeaderMachine.StepSame` | src/http_parser.cpp:503-513 | stale header name and value never influence a step: they are erased before they are read |
| `HeadGrammar.HeadIsGrammar` | src/http_parser.cpp:162-591 | for every input the header machine ends as a reading line by line says, with the same verdict and error after the same number of bytes, and reports the method, resource, query, version and fields read: values without a space behind the colon, empty values, lone CR or LF, lines that start with blanks, and leading spaces and line ends included |
| `HeadGrammar.TrailersAreGrammar` | src/http_parser.cpp:85-95 | the same for trailers, which start at a line and are added to the fields |
| `HeadGrammar.CountIsValue` | src/http_parser.cpp:313-360 | a version number is the decimal number that its digits denote, cut to sixteen bits |
| `Bytes.TokensExactly` | include/staticlib/pion/algorithm.hpp:53-100 | the characters allowed in a method or a header name are the token characters of RFC 7230 |
| `Bytes.SameLetter` | include/staticlib/pion/algorithm.hpp:103-114 | the comparison of names ignores the case of the twenty-six letters and nothing else |
| `HeadLanguage.RunSound` | src/http_parser.cpp:162-591 | every run keeps method, resource, query, names, values and versions within their character sets and limits |
| `HeadLanguage.ReportedIsLegal` | src/http_parser.cpp:162-591 | a request reported by the machine is legal if and only if its major version is not zero |
| `HeadLanguage.LegalIsReportable` | src/http_parser.cpp:162-591 | a request is legal if and only if some input makes the machine report it with a non-zero major version |
| `HeadLanguage.ReprintedHead` | include/staticlib/pion/http_message.hpp:949-960 | printing what was reported and parsing it again reports the same request, whatever spacing and line ends it came with |
| `HeadLanguage.EveryStateCanEnd` | src/http_parser.cpp:162-591 | no state of the machine is a dead end |
| `HeadLanguage.RejectsAtOnce` | src/http_parser.cpp:162-591 | an unfinished input is rejected if and only if no continuation of it is accepted |
| `HeadLanguage.MethodLimit` | src/http_parser.cpp:180-208 | a method may have the maximum length, and one byte more is the method size error |
| `HeadLanguage.ResourceLimit` | src/http_parser.cpp:210-234 | the same for the resource |
| `HeadLanguage.QueryLimit` | src/http_parser.cpp:236-256 | the same for the query string |
| `HeadLanguage.HeaderNameLimit` | src/http_parser.cpp:498-524 | the same for a header name |
| `HeadLanguage.HeaderValueLimit` | src/http_parser.cpp:546-570 | the same for a header value |
| `RequestText.ReadHeaderSection` | include/staticlib/pion/http_message.hpp:1047-1057 | printed header fields with their blank line are read back in order, and nothing behind them is touched |
| `RequestText.HeadRoundTrip` | include/staticlib/pion/http_request.hpp:349-363 | parsing a printed head, followed by anything, ends at its last byte and recovers method, resource, query, version and fields |
| `RequestText.PrintedLine` | include/staticlib/pion/http_request.hpp:349-363 | how a printed first line looks, query and version included |
| `RequestText.PrintedField` | include/staticlib/pion/http_message.hpp:1047-1057 | how a printed header field looks |
| `RequestText.RunUpToRaw` | src/http_parser.cpp:162-591 | saving the raw headers changes nothing else in a run |
| `HttpRequest.FirstLineTellsResource` | include/staticlib/pion/http_request.hpp:349-363 | two requests that differ only in the resource print the same first line only if the resources are equal |
| `HttpRequest.HttpRequest.SetMethod` | include/staticlib/pion/http_request.hpp:194-197 | changes the method and nothing else, and leaves no stale first line |
| `HttpRequest.HttpRequest.SetResource` | include/staticlib/pion/http_request.hpp:202-205 | changes the resource and the originally requested one, and leaves no stale first line |
| `HttpRequest.HttpRequest.SetQueryString` | include/staticlib/pion/http_request.hpp:221-224 | changes the query and leaves no stale first line |
| `HttpRequest.HttpRequest.ChangeResource` | include/staticlib/pion/http_request.hpp:212-214 | the cached line stays right if and only if it was empty or the resource is unchanged |
| `HttpRequest.HttpRequest.GetFirstLine` | include/staticlib/pion/http_message.hpp:705-710 | with a current cache, the line is the one the fields print to |
| `HttpRequest.HttpRequest.PrintHead` | include/staticlib/pion/http_message.hpp:949-960 | with a current cache, the printed head is the text that the round trips are about |
| `ChunkMachine.ChunkRunAppend` | src/http_parser.cpp:1143-1305 | decoding two pieces, resumed from the fields, is decoding their concatenation |
| `ChunkMachine.DataSlice` | src/http_parser.cpp:1227-1244 | a whole slice of chunk data does what its bytes do one after the other |
| `ChunkMachine.HandlerMatchesCache` | src/http_parser.cpp:1227-1244 | within the maximum, handler and cache give the same verdict, state, consumption and decoded bytes |
| `ChunkMachine.DecodedGrows` | src/http_parser.cpp:1227-1244 | decoded bytes are only ever added at the end |
| `ChunkMachine.ChunkStepSame` | src/http_parser.cpp:1159-1215 | a stale size text and stale counters never influence a step |
| `ChunkGrammar.ChunksAreGrammar` | src/http_parser.cpp:1143-1305 | for every input, with a handler or without and for every maximum, decoding agrees with a reading chunk by chunk: the data, the bytes read, the error, and where trailers start |
| `ChunkGrammar.AnySizeLine` | src/http_parser.cpp:1153-1224 | blanks and line ends in front, digits in either case, blanks or a semicolon with any text behind: the chunk has the size that its digits denote |
| `ChunkGrammar.SixteenDigits` | include/staticlib/pion/http_parser.hpp:831-833 | what each of the sixteen digits is worth, in lower and in upper case |
| `ChunkGrammar.NoOtherDigits` | include/staticlib/pion/http_parser.hpp:831-833 | no other character is a digit of a size |
| `ChunkGrammar.AnyCase` | src/http_parser.cpp:1215 | sizes written in either case denote the same number |
| `ChunkGrammar.LeadingZero` | src/http_parser.cpp:1215 | a zero in front of a size changes nothing |
| `ChunkLimits.CompletableExactly` | src/http_parser.cpp:1227-1244 | some input completes the body if and only if there is a handler or the current chunk fits the maximum |
| `ChunkLimits.NeverCompletes` | src/http_parser.cpp:1236-1239 | once the current chunk does not fit, no input completes the body |
| `ChunkLimits.DecodesExactlyWithinMax` | src/http_parser.cpp:1236-1242 | without a handler a printed chunked body decodes if and only if its data fits the maximum |
| `ChunkText.ChunkedRoundTrip` | include/staticlib/pion/http_response_writer.hpp:355-410 | the body of any list of sends, empty ones included, decodes to exactly their data and decoding stops after the final CRLF |
| `ChunkText.PrintedChunk` | include/staticlib/pion/http_response_writer.hpp:355-410 | how a chunk looks |
| `Bytes.DigitsArePlain` | include/staticlib/pion/http_response_writer.hpp:355-410 | sizes and lengths are printed without leading zeros and in lower case |
| `ChunkText.ChunkedThenTrailers` | src/http_parser.cpp:1266-1281 | with trailers behind the last chunk, decoding stops before their first byte |
| `Parsing.ParseRunAppend` | src/http_parser.cpp:66-160 | parsing two buffers one after the other is parsing their concatenation |
| `Parsing.FeedAllIsParseRun` | src/http_parser.cpp:66-160 | feeding the pieces of a cutting until the first verdict is parsing the whole stream |
| `Parsing.SplitIndependence` | src/http_parser.cpp:66-160 | two cuttings of one stream give the same verdict, error, message, payload and consumption |
| `Parsing.HeadersLoop` | src/http_parser.cpp:79-95 | the header stage of `parse` is the byte-at-a-time machine |
| `Parsing.ChunksLoop` | src/http_parser.cpp:97-115 | the chunk stage of `parse`, trailers included, is the byte-at-a-time machine |
| `Parsing.ContentLoop` | src/http_parser.cpp:1307-1350 | the bulk copy of a fixed-length body is the byte-at-a-time machine |
| `Parsing.FilledIsCopy` | src/http_parser.cpp:1329-1342 | the single copy, cut off at the maximum, puts every byte that fits into its place |
| `Parsing.StageByStage` | src/http_parser.cpp:76-159 | a turn of the stage loop agrees with the byte-at-a-time machine, and stops short of the end of the buffer only for a later stage |
| `ParserFacts.ResetIsFreshStart` | include/staticlib/pion/http_parser.hpp:474-485 | from whatever state a run left it in, a reset parser behaves on every input like a new one with the same handler |
| `ParserFacts.FixedLengthBody` | src/http_parser.cpp:1307-1350 | exactly the declared bytes are consumed, read plus remaining is the declared length, the buffer holds the first bytes up to the maximum |
| `ParserFacts.HeadFinishedOnce` | src/http_parser.cpp:85-95 | once the head is finished, no input finishes it again, trailers included |
| `RequestGrammar.RequestIsGrammar` | src/http_parser.cpp:66-160 | for every input of a new parser and every hook: the parser ends with the verdict and the error of the reading of a whole request, after as many bytes, and a complete request has the head, trailers, content and payload that were read |
| `RequestGrammar.AnyCuttingIsGrammar` | src/http_parser.cpp:66-160 | the same for an input that arrives in any pieces |
| `Requests.ParseHead` | src/http_parser.cpp:625-696 | parsing a printed head and then anything is finishing that head and parsing the rest |
| `Requests.BodilessRequest` | src/http_parser.cpp:662-690 | a printed request without a body completes with its head, its cookies and its query pairs, and exactly its bytes are read |
| `Requests.RaisedRequest` | src/http_server.cpp:54-71 | a hook that raises an exception ends the call at the head |
| `Requests.UnreadBody` | src/http_server.cpp:289-299 | a hook that finds no payload handler completes the request with its body unread |
| `Requests.FixedLengthRequest` | src/http_parser.cpp:663-680 | a fixed-length body goes to the handler whole, or into the message up to the maximum, and exactly its bytes are read |
| `Requests.BadLengthRequest` | src/http_parser.cpp:651-660 | a content length that is no number gives its own error and an invalid message |
| `Requests.ChunkedBody` | src/http_parser.cpp:106-115 | a chunked body becomes the content of the message |
| `Requests.ChunkedBodyHandled` | src/http_parser.cpp:1229-1235 | with a handler, the handler is given exactly the data sent |
| `Requests.TrailedBody` | src/http_parser.cpp:85-115 | with any trailers the body is unchanged and the fields are the headers followed by the trailers |
| `Requests.ChunkedRequest` | src/http_parser.cpp:97-115 | a chunked request kept in the message completes with its data, its headers and its trailers |
| `Requests.ChunkedRequestHandled` | src/http_parser.cpp:1227-1235 | a chunked request without trailers is given to the handler whole |
| `Requests.TrailedRequestHandled` | src/http_parser.cpp:108-114 | with a handler the request is complete before its trailers, which stay unread |
| `Requests.ChunkedRequestTooLong` | src/http_parser.cpp:1236-1239 | a chunked request over the maximum, kept in the message, never completes |
| `HttpParser.Memcpy` | src/http_parser.cpp:1332-1342 | copies into the buffer in bounds and changes nothing else |
| `HttpParser.SliceOfBuffer` | src/http_parser.cpp:1227-1244 | handing a slice of the read buffer to the payload handler and going on behind it is decoding its bytes one by one |
| `HttpParser.HttpParser.constructor` | include/staticlib/pion/http_parser.hpp:362-375 | a new parser is the fresh state with nothing to read |
| `HttpParser.HttpParser.SetReadBuffer` | include/staticlib/pion/http_parser.hpp:418-421 | the bytes to read are the given ones and the parser is otherwise unchanged |
| `HttpParser.HttpParser.ResetParser` | include/staticlib/pion/http_parser.hpp:474-485 | callable in every state; states, texts and counters go back, six fields keep their old values |
| `HttpParser.HttpParser.ParseHeaders` | src/http_parser.cpp:162-591 | the loop does what the machine does on the rest of the buffer, which is what the reading line by line says; on success the counters grow by the advance |
| `HttpParser.HttpParser.ParseChunks` | src/http_parser.cpp:1143-1305 | the loop, slices included, does what the machine does byte by byte, which is what the reading chunk by chunk says; on success the counters grow by the advance |
| `HttpParser.HttpParser.StoreContent` | src/http_parser.cpp:1329-1342 | body bytes go to the handler, or to their places in the buffer as far as they fit |
| `HttpParser.HttpParser.ConsumeContent` | src/http_parser.cpp:1307-1350 | takes what the buffer holds of the body; its early return is never needed |
| `HttpParser.HttpParser.CreateContentBuffer` | include/staticlib/pion/http_message.hpp:292-302 | a new buffer of zero bytes |
| `HttpParser.HttpParser.PrepareBody` | src/http_parser.cpp:625-691 | chooses the body stage from the headers and allocates the buffer |
| `HttpParser.HttpParser.FinishHeaderParsing` | src/http_parser.cpp:625-696 | the same followed by the hook, which may install a handler or end the message |
| `HttpParser.HttpParser.ConcatenateChunks` | include/staticlib/pion/http_message.hpp:965-971 | the chunk cache becomes the content |
| `HttpParser.HttpParser.Finish` | src/http_parser.cpp:1375-1437 | the message is valid, a form body adds its pairs to the query, and the exception of a form parser leaves the call |
| `HttpParser.HttpParser.ParseStage` | src/http_parser.cpp:76-146 | one turn of the loop: the state, the counters, and what is still to be done |
| `HttpParser.HttpParser.ParseStages` | src/http_parser.cpp:76-146 | the loop terminates, and leaves the buffer exhausted when more is needed |
| `HttpParser.HttpParser.Parse` | src/http_parser.cpp:66-160 | the result, the state and the consumption are those of the byte-at-a-time machine; without an error both counters equal the pointer advance |
| `Connections.ServeAppend` | src/http_request_reader.cpp:34-116 | serving two reads one after the other is serving their concatenation, pipelined or not |
| `Connections.ConnectionSplitIndependence` | src/http_request_reader.cpp:34-116 | the requests handled and the state the connection waits in depend only on the bytes received |
| `Connections.EveryByteOnce` | src/http_request_reader.cpp:47-116 | consecutive stretches of the stream belong to consecutive requests, what follows belongs to the request still being read or to the one whose exception ended the connection |
| `Connections.ParserIsLawful` | src/http_parser.cpp:66-160 | this parser has the properties the connection theorems need |
| `Connections.RequestTakesBytes` | src/http_parser.cpp:180-191 | a finished request has consumed at least one byte |
| `Pipelines.CleanIsParsed` | src/http_parser.cpp:66-160 | a request of which nothing stays unread, in front of anything, is parsed to its last byte and no further, and arrives as sent |
| `Pipelines.UncleanIsGarbled` | src/http_request_reader.cpp:34-116 | any other request is not handled as sent: it is missing or invalid or without its payload, or an invalid one follows it |
| `Pipelines.LastIsServed` | src/http_request_reader.cpp:75-104 | the request that closes its connection arrives as sent if and only if it is clean or has an empty chunked body that stays unread |
| `Pipelines.RaisesExactly` | src/http_parser.cpp:66-160 | for every request, however its body is framed and however long it is, and for every hook: exactly when an exception leaves `parse` |
| `Pipelines.UnreadBodyIsNextRequest` | src/http_server.cpp:289-299 | without a payload handler, on a connection that stays open, the body is parsed as the next request |
| `Pipelines.PipelinedRequests` | src/http_request_reader.cpp:34-116 | any list of printed requests on one connection, the last one closing it or not, in reads cut anywhere and under any hook, is handled as sent, bodies included, if and only if nothing of any of them stays unread (but for an empty chunked body before the close) and none raises an exception |
| `HttpServer.HandleRequestAfterHeadersParsed` | src/http_server.cpp:273-300 | installs a handler if and only if a payload route covers the resource, raises on an unknown method, and ends the message otherwise |
| `HttpServer.ChunkedFraming` | include/staticlib/pion/http_message.hpp:846-862 | a body is chunked when every Transfer-Encoding value contains the word, and not when none does, whichever value a lookup finds |
| `HttpServer.LengthFraming` | include/staticlib/pion/http_message.hpp:832-841 | otherwise a printed Content-Length is the length of the body, and none means no body |
| `HttpServer.UnreadableLength` | src/http_parser.cpp:648-660 | without a coding, a Content-Length is an error if and only if it cannot be read, and otherwise the number read is the length |
| `HttpServer.ServedAsSent` | src/http_server.cpp:273-300 | for requests whose own header fields announce their bodies, the last one asking to close the connection or not: the server is handed exactly the list sent, every body as payload, if and only if every method is known and every request with a body has a payload route and no trailers (or is the last before the close, with an empty chunked body) |
| `HttpServer.UnroutedBodyIsNextRequest` | src/http_server.cpp:289-299 | on a connection that stays open, a body without a payload route is parsed as the next request, whatever its headers and bytes are |
| `HttpServer.ReaderRaisesExactly` | src/http_server.cpp:54-71 | an unknown method is the only thing that makes an exception leave the `parse` of a request reader |
| `HttpServer.KeptOpenByHead` | include/staticlib/pion/http_message.hpp:936-940 | a request from version 1.1 on without close keeps its connection open, an older one or one that says close ends it, whichever value a lookup finds |
| `HttpServer.ZerosDoNotRaise` | src/http_parser.cpp:847-1010 | a content buffer of zero bytes holds no form that raises the exception |
| `HttpServer.HelloIsWellSent` | src/http_server.cpp:273-300 | five bytes posted with their Content-Length meet the conditions of the theorem on the server |
| `FormPosts.BodyIsParsed` | src/http_parser.cpp:1375-1437 | any posted body, fixed-length or chunked, within the maximum or not: content, head with trailers, cookies, the pairs of query and form, and whether an exception leaves the call |
| `FormPosts.FormPost` | src/http_parser.cpp:1375-1437 | a posted url-encoded form, however it is framed, arrives as the pairs of the query string followed by the pairs of the form |
| `FormPosts.MultipartPost` | src/http_parser.cpp:1375-1437 | a multipart form posted with the boundary that its Content-Type names, however it is framed, arrives as the pairs of the query string followed by its named text fields |
| `FormPosts.ParseRaisesExactly` | src/http_parser.cpp:1375-1437 | for every request, however its body is framed and however long it is: an exception leaves `parse` if and only if the body can be completed, its type is that of a multipart form, and what the message keeps of it has a named text part of negative length |
| `FormPosts.CookiesArrive` | src/http_parser.cpp:593-623 | the cookies of any number of Cookie headers arrive in order, attributes left out |
| `RequestReader.Session.ConsumeBytes` | src/http_request_reader.cpp:63-116 | reports a finished or failed request, and chooses keep-alive, pipelined with its bookmark, or close |
| `RequestReader.Session.Receive` | src/http_request_reader.cpp:34-45 | a new reader that starts at the bookmark when requests are pipelined, and waits otherwise |
| `RequestReader.Session.ServeRequest` | src/http_request_reader.cpp:34-116 | one reader's turn and the choice of what comes next |
| `RequestReader.Session.OnRead` | src/http_request_reader.cpp:47-116 | one socket read sets off exactly the requests of the specified run, the waiting state included |
| `RequestReader.Session.OnReads` | src/http_request_reader.cpp:47-116 | so does a whole sequence of reads |
| `Forms.ParseFormIsGrammar` | src/http_parser.cpp:766-845 | the scan succeeds if and only if the stripped text is legal, and then inserts exactly the pairs of the grammar |
| `Forms.StripDrops` | src/http_parser.cpp:766-845 | the grammar drops CR, LF and tabs, wherever they stand, and nothing else |
| `Forms.ControlsAreIllegal` | src/http_parser.cpp:766-845 | any other control makes a form illegal |
| `Forms.SegmentMeans` | src/http_parser.cpp:766-845 | a segment gives one pair for each of its values, none without a name, and is legal if and only if name and values are within 1024 and 1048576 bytes |
| `Forms.NameMeans` | src/http_parser.cpp:766-845 | a name without an equals sign has an empty value |
| `Forms.TextMeans` | src/http_parser.cpp:766-845 | the segments between ampersands are read one after the other |
| `Forms.ParseUrlEncoded` | src/http_parser.cpp:766-845 | the loop over the bytes computes that scan |
| `Forms.MakeQueryString` | include/staticlib/pion/http_message.hpp:981-994 | the loop joins the encoded pairs with ampersands |
| `Forms.QueryStringRoundTrip` | include/staticlib/pion/http_message.hpp:981-994 | with an invertible encoding free of delimiters, parsing a made query string gives back the pairs |
| `Forms.PrintedQuery` | include/staticlib/pion/http_message.hpp:981-994 | how a query string of two pairs looks |
| `Cookies.ParseCookieHeader` | src/http_parser.cpp:1012-1124 | the loop over the bytes computes the scan the cookie theorems are about |
| `CookieGrammar.CookiesAreGrammar` | src/http_parser.cpp:1012-1124 | every text is accepted if and only if a reading cookie by cookie accepts it, and yields the same cookies: names without spaces, values quoted with either quote or unquoted, text ignored behind a closing quote, and either separator |
| `CookieGrammar.AttributesExactly` | src/http_parser.cpp:1496-1515 | ignored are nameless cookies, names with a dollar sign in front, and in Set-Cookie headers the eight attribute names in any case |
| `Cookies.SetCookieRoundTrip` | include/staticlib/pion/http_message.hpp:1007-1023 | parsing a printed Set-Cookie header yields exactly the one cookie, attributes ignored |
| `Cookies.CookieListRoundTrip` | src/http_parser.cpp:1012-1124 | parsing a list of unquoted cookies yields them in order, attributes left out |
| `Cookies.PrintedAttributes` | include/staticlib/pion/http_message.hpp:1007-1023 | how the attributes of a printed Set-Cookie header look |
| `Cookies.OnlyCookiesInserted` | src/http_parser.cpp:1012-1124 | whatever the text, every inserted cookie has a proper name within its limit, is no attribute, and has a value within its limit |
| `Cookies.AttributeNames` | src/http_parser.cpp:1496-1515 | the attributes that the printer writes are names the parser ignores |
| `Multipart.ParseMultipartFormData` | src/http_parser.cpp:847-1010 | the loops compute the specified scan, boundary extraction included |
| `Multipart.BoundaryIs` | src/http_parser.cpp:855-859 | the boundary of a content type is two hyphens and all that stands behind its first `boundary=` |
| `Multipart.BoundaryOrNone` | src/http_parser.cpp:855-859 | a content type has a boundary if and only if `boundary=` occurs in it |
| `MultipartGrammar.MultipartIsGrammar` | src/http_parser.cpp:847-1010 | for every body the parser returns what a line-by-line reading says: parts, header lines, blank line, field, and how the body ends |
| `MultipartGrammar.ThrowsExactly` | src/http_parser.cpp:984-1001 | for every body, parsing leaves by an exception if and only if some named text part has the boundary right behind the CR LF of its blank line |
| `MultipartGrammar.ThrowsOnlyOnEmptyField` | src/http_parser.cpp:984-1001 | so a body in which no empty line is followed by the boundary never raises it |
| `MultipartGrammar.FieldIsChomped` | src/http_parser.cpp:984-1001 | a field is its text without the CR LF before the boundary, and its length is negative in exactly that one case |
| `MultipartText.NoMatchInContent` | src/http_parser.cpp:978-987 | no boundary match starts inside a value or straddles it and its closing CRLF |
| `MultipartText.BoundaryAfterContent` | src/http_parser.cpp:978-987 | so the next boundary found is the one that ends the part |
| `MultipartText.ParseEncoded` | src/http_parser.cpp:847-1010 | for a content type that names a boundary: the result on the standard encoding of any form behind any preamble, exceptions included |
| `MultipartText.MultipartRoundTrip` | src/http_parser.cpp:847-1010 | for a content type that names a boundary, parsing the encoding of a form with it returns true and exactly the named text fields, other parts skipped |
| `MultipartText.EncodedThrows` | src/http_parser.cpp:984-1001 | an encoded form raises the exception if and only if a named text part has no content line or one that starts with the boundary |
| `MultipartText.DispositionNames` | src/http_parser.cpp:945-968 | a Content-Disposition line names its field |
| `MultipartText.PlainField` | src/http_parser.cpp:945-968 | a part with only that line is stored under the name |
| `MultipartText.TypedField` | src/http_parser.cpp:945-968 | with a content type it is stored if and only if that type is text |
| `MultipartText.TypedFirst` | src/http_parser.cpp:945-968 | so it does when the content type stands first |
| `MultipartText.OtherLine` | src/http_parser.cpp:945-968 | any other header line of a part means nothing |
| `WebSockets.DeliverAppend` | include/staticlib/pion/websocket.hpp:595-631 | delivering two reads is delivering their concatenation |
| `WebSockets.EventsDependOnBytes` | include/staticlib/pion/websocket.hpp:595-652 | while the buffer suffices, events and waiting state depend only on the bytes received |
| `WebSockets.Reassembly` | include/staticlib/pion/websocket.hpp:595-698 | any data messages in any fragments and any reads that are not refused give one event per message, in order: the type of its first frame, and the texts of all its frames one after the other |
| `WebSockets.EveryCuttingFits` | include/staticlib/pion/websocket.hpp:488-494 | with bounded frames and reads and a buffer with room for both, no cutting of the stream is refused |
| `WebSockets.BoundedReassembly` | include/staticlib/pion/websocket.hpp:595-698 | with such bounds, every cutting of any data messages gives those events |
| `WebSockets.TooManyFragments` | include/staticlib/pion/websocket.hpp:687-698 | one fragment more than the cache holds closes the connection for overflow |
| `WebSockets.ControlFrames` | include/staticlib/pion/websocket.hpp:608-685 | a ping is answered with its first 128 bytes, a close frame ends the connection normally, and anything else that is not data for a breach of the protocol |
| `WebSockets.PingDropsFragments` | include/staticlib/pion/websocket.hpp:674-685 | with pings between fragments, the message delivered is the texts of the fragments after the last ping, under the type of the first of them |
| `WebSockets.SurvivesPings` | include/staticlib/pion/websocket.hpp:674-685 | the whole message is delivered if and only if the fragments before the last ping carry no data and start with the type the remaining ones start with |
| `WebSockets.WebSocket.constructor` | include/staticlib/pion/websocket.hpp:189-206 | a new connection waits with no frames, no bytes and no events |
| `WebSockets.WebSocket.RemoveFromReceiveBuffer` | include/staticlib/pion/websocket.hpp:432-440 | the tail moves to the front, and removed bytes plus buffer are still all bytes received |
| `WebSockets.WebSocket.AddToFramesCache` | include/staticlib/pion/websocket.hpp:442-448 | a copy of the frame is kept behind the earlier frames, and the frame leaves the buffer |
| `WebSockets.WebSocket.ClearFramesCache` | include/staticlib/pion/websocket.hpp:457-464 | removes exactly the final frame, which must be the view of the buffer |
| `WebSockets.WebSocket.MessageData` | include/staticlib/pion/websocket.hpp:52-130 | the texts of all frames, cached or viewed, one after the other |
| `WebSockets.WebSocket.ProcessFinalFrame` | include/staticlib/pion/websocket.hpp:633-652 | fires the event of the frame, and the last frame is a view of the buffer |
| `WebSockets.WebSocket.ProcessReceiveBuffer` | include/staticlib/pion/websocket.hpp:608-631 | handles one frame, or asks for bytes, or closes |
| `WebSockets.WebSocket.Pump` | include/staticlib/pion/websocket.hpp:595-631 | the chain of frames terminates and fires exactly the specified events |
| `WebSockets.WebSocket.Consume` | include/staticlib/pion/websocket.hpp:595-606 | one read, refused on overflow, with every received byte accounted for |
| `Headers.ChangeValueSets` | include/staticlib/pion/http_message.hpp:1086-1105 | afterwards there is exactly one value, and every other header is as before |
| `Headers.LookupFinds` | include/staticlib/pion/http_message.hpp:832-841 | a header whose values are all the same is found with that value by every lookup |
| `ResponseWriter.PreparedValues` | include/staticlib/pion/http_message.hpp:1031-1040 | exactly one Connection value, and exactly one Content-Length or chunked Transfer-Encoding |
| `ResponseWriter.OthersKept` | include/staticlib/pion/http_message.hpp:1031-1040 | every header that is not written there keeps the values the application gave it |
| `RequestText.AppendHeaders` | include/staticlib/pion/http_message.hpp:1047-1057 | the loop prints the fields in order and the blank line |
| `ResponseWriter.Writer.Clear` | include/staticlib/pion/http_response_writer.hpp:138-142 | nothing is buffered and the accounting holds |
| `ResponseWriter.Writer.Write` | include/staticlib/pion/http_response_writer.hpp:149-168 | appends the data when a body is allowed; the length is always the size of the buffers |
| `ResponseWriter.Writer.PrepareHead` | include/staticlib/pion/http_response_writer.hpp:295-301 | the head with its prepared fields |
| `ResponseWriter.Writer.SendMoreData` | include/staticlib/pion/http_response_writer.hpp:355-410 | emits the head once and first, then the data plain or as a chunk, then the last chunk when final |
| `ResponseWriter.Writer.Send` | include/staticlib/pion/http_response_writer.hpp:177-190 | one head, then the body; the single Content-Length is the length of the body, or the one set before for an empty body; every other header is as the application left it |
| `ResponseWriter.Writer.SendChunk` | include/staticlib/pion/http_response_writer.hpp:202-217 | emits one frame, none when there is no data, so an empty send never ends the body, and plain data to a client without chunks; the first one sends the head, with every other header as the application left it |
| `ResponseWriter.SendChunked` | include/staticlib/pion/http_response_writer.hpp:202-241 | a whole chunked response is one head, which announces the coding if the response supports chunks and keeps the other headers, followed by the body that the round trip decodes |
| `Routing.FindSubmatch` | src/http_server.cpp:121-136 | terminates with the longest key that covers the path, and with none if and only if there is none |
| `Routing.CoversOfOneLength` | src/http_server.cpp:121-136 | the longest covering key is unique |
| `Routing.RootCoversAll` | src/http_server.cpp:46-52 | a handler on the root covers every path that starts with a slash |
| `Routing.RegisteredCovers` | src/http_server.cpp:46-52 | a handler covers its resource, with or without trailing slash, and everything below it |
| `Routing.OneSlash` | src/http_server.cpp:46-52 | exactly one slash at the end is stripped |
| `Routing.TablesByMethod` | src/http_server.cpp:54-70 | six methods are known, and two different ones share a table only if they are GET and HEAD |
| `Routing.Router.AddHandler` | src/http_server.cpp:227-235 | added if and only if the method is known and the resource is free, and all other tables are unchanged |
| `Routing.Router.FindHandler` | src/http_server.cpp:351-361 | the longest covering handler of the method's table |
| `ConnectionPool.StepKeepsSafe` | src/tcp_server.cpp:48-242 | every step keeps the invariant |
| `ConnectionPool.RunsAreSafe` | src/tcp_server.cpp:48-242 | it holds in every state of every interleaving |
| `ConnectionPool.OneAccept` | src/tcp_server.cpp:129-186 | at most one accept is outstanding, its connection is in the pool, and while listening there is exactly one or one about to be made |
| `ConnectionPool.NothingAfterStop` | src/tcp_server.cpp:90-127 | after stop clears listening the pool only shrinks and nothing is dispatched again; once stop returned it is and stays empty, and nothing is accepted, active or finishing |
| `ConnectionPool.InUseUntilReleased` | src/tcp_server.cpp:129-242 | over any part of any run a connection in use stays in use and in the pool if and only if no step in between was its release, so pruning never drops it |
| `ConnectionPool.KeptOrGone` | src/tcp_server.cpp:202-223 | while the server listens a connection to be kept is dispatched again, and any other finished one leaves the pool |
| `ConnectionPool.AcceptedIsUsed` | src/tcp_server.cpp:155-200 | an accepted connection is in use, a failed one is finished, and a listening server goes on to the next accept |
| `ConnectionPool.TcpServer.PruneConnections` | src/tcp_server.cpp:225-242 | erases exactly the connections that only the pool refers to |
| `ConnectionPool.TcpServer.ListenStep` | src/tcp_server.cpp:129-153 | does the listen step of the machine |
| `ConnectionPool.TcpServer.FinishStep` | src/tcp_server.cpp:202-223 | does the finish step: dispatched again or removed |
| `ConnectionPool.TcpServer.StopStep` | src/tcp_server.cpp:105-115 | a turn of the waiting loop, which ends if and only if the pool is empty |

## Left out

- Sockets, strands, timers, SSL, signals and logging: reads are arbitrary byte strings and callbacks are steps.
- `url_encode`, `url_decode`, `parse_uint64` and the WebSocket frame codec are foreign code and appear as parameters with stated laws.
- Response parsing: the status-line states of the header machine and bodies without a length are not reachable for requests.
- Premature end of a connection and lost packets (`check_premature_eof`, `set_missing_packets`).
- Byte counters are unbounded numbers; their 64-bit wrap-around is not modelled.
- HttpParser.HttpParser.Parse: the byte counters after an error are not stated, because the source does not count the bytes of a failing call.
- HttpParser.HttpParser.HeaderByte: the switch on one byte is the step function itself, so the update of single string fields in place is captured at the grain of one byte.
- Hashing of header names: a dictionary is a sequence of pairs, and the iteration order of an unordered map is insertion order.
- Payload handlers that throw. The exceptions of an unknown method and of a multipart form end the connection without a handled request; unwinding itself is not modelled.
- WebSockets.WebSocket.AddToFramesCache: cached copies are immutable values here, so that a later frame cannot overwrite an earlier copy holds by construction; the aliasing of the last frame with the receive buffer is modelled.
- The interim answer to `Expect: 100-continue`.
- Printing simple requests of HTTP/0.9 and explicit major version 0: reading them is covered by the line-by-line reading.
- Cookie printing by `append_cookie_headers`, which does nothing in the base class.
- The special answer to `OPTIONS *`, and the registration of WebSocket handlers.
- Sending on WebSockets, broadcasting, `find_ws_conns`, and pong frames; message handlers are taken to go on with `receive`.
- The scheduler's threads, and a second `start` of a server; a connection handled under the server lock is a queued dispatch.
- `parse_uri`, `ihash`, error texts and constants, which would only add easy members.
