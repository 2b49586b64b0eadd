# Octane: a verified model of framing, serialization and routing

This project models the parts of Octane on which a client depends and in which most of its state and
arithmetic lie, and proves what they keep.

**The connection.** `Framing` says what a byte stream means as a sequence of requests, with no buffer and no
reads. `Connection` is the connection as a state machine over values: each callback (read completed or failed,
write completed or failed, stop) is a function. `TcpConnection` is the object itself, with a byte array that is
compacted and doubled in place; each of its methods is proved to do what the function says. `ConnectionInvariants`
and `ConnectionRuns` prove what every callback and every run keep, and that an undisturbed run, however its bytes
are cut into reads, is the framing of its stream. `ViewStability` gives the exact conditions under which the bytes
behind the views of a parsed request are never moved while its body is read, and under which the views still show
its header block when it is dispatched. `Pipeline` and `Wire` close the two ends: what a client prints is what is
dispatched, and what is written is what a client decodes, where it can. `FirstRequest` says in which runs the first
request is dispatched with intact views, and holds runs in which something fails.

**The parser and the serializer.** `HttpRequest` specifies what a header block means, `HttpParser` holds the loops,
`HeaderBlock` and `RequestRoundTrip` the results: blocks are lists of lines, the first value of a name wins, and a
printed request is accepted exactly when its parts obey the rules. `HttpResponse` holds the setters and the
serializer, `ResponseDecoding` an independent client-side decoder. `RequestLaws` and `ResponseLaws` say what requests
and responses mean in terms of their texts alone, with names, characters and numbers spelled out, and `Exchange` does
so for whole connections, from the text a client writes to the text it reads. The framing policy is that of RFC 9112, sections
2.2, 6.3, 9.3 and 9.6, as the code implements it. `Text`, `Decimal` and `HttpTypes` are what these rest on.

**The router.** `RouteTable` states routing on a table of patterns, without a tree. `TrieModel` is the trie as a
value and relates it to the table; `Trie` is the graph of nodes that insertion extends, and refines it. `RouterSpec`
and `Router` put exact maps and tries together, one of each for a method. `GreedySearch` gives the tables in which a
search that never backs out misses nothing. `Server` is admission over any number of workers, and `Hosting` the
workers together with the connections they hold.

A byte is a `char`; no statement needs it to be less than 256. A header map is keyed by folded name and keeps the
spelling of the field it holds, which the equality and hash contract in `HttpTypes` justifies. The handler is the
environment: a callback dispatches at most one request, and what the dispatcher returns for it is an argument of the
callback, together with the order in which the response's header map is walked.

## Where the code decides

The model follows the code where its documentation or tests say something else.

- An empty Content-Length line is accepted as 0 (include/HttpParser.h:65-66); tests/http_parser.cpp:22 expects 400.
- The query is not percent-decoded (include/HttpParser.h:199); tests/http_parser.cpp:39 expects it.
- The serializer does not check header names and values (include/HttpResponse.h:166-171). What a client decodes is
  stated for all of them: `ResponseDecoding.OneReadsBack` and `ResponseDecoding.StreamReadsBack` give the exact
  condition, `ResponseDecoding.BrokenIsMisread` is a response, and by `ResponseDecoding.PrintableDelimits` token names
  and values without CRLF meet the condition.
- An error response has a body even if it answers HEAD (include/transport/TcpConnection.h:185-194), where README.md:78
  and docs/hardening.md:33 promise none: `FirstRequest.HeadErrorIsMisread` is a run, `Wire.ClientReadsResponses` the
  exact condition.
- For a dispatched request the transport suppresses the body only for HEAD (include/transport/TcpConnection.h:136-151), `serialize` also for 204
  and 304: `Wire.TransportPrints` is the exact condition under which the two agree.
- `max_connections` is not a bound by itself, because each worker keeps a floor of 1024
  (include/transport/TcpServer.h:137): `Server.MaximumHoldsExactlyAboveFloor`.
- Search does not backtrack (include/Trie.h:112-120), so a matching route can be missed: `TrieModel.GreedyCanMiss` is a
  request, `TrieModel.SearchIsPreferred` the exact condition for a hit, and
  `GreedySearch.FindsAllExactlyWithoutDeadEnds` the exact condition on a table to miss nothing.
- Routes that share a wildcard share its last registered name (include/Trie.h:84): `TrieModel.LaterNameIsBound` is a
  request, `TrieModel.NamesBoundExactlyWhenLast` the exact condition.
- Reading the rest of a body can move the request from under its views, or replace the buffer they point into
  (include/transport/TcpConnection.h:116-120, 158-170): `FirstRequest.ViewsCanBeLost` is a run,
  `ViewStability.NeverMovedExactlyWithRoom`, `ViewStability.ViewsShowHeaderExactly` and, for the first request,
  `FirstRequest.FirstViewsShowHeader` are the exact conditions.
  Other statements about dispatched requests are therefore over the bytes of header block and body and the close
  decision, not over what the views show.
- A graceful stop closes the connection after the response under way even if its header block did not say so
  (include/transport/TcpConnection.h:61-64, 217): `FirstRequest.ClosingCanBeUnannounced` is a run,
  `Wire.ClosesWhenAnnouncedOrDraining` the exact condition.

## Model

| member | source | states |
|---|---|---|
| HttpTypes.CaseInsensitiveEqual | include/HttpTypes.h:48-62 | names are equal exactly when their foldings are, so equality is an equivalence that ignores case only |
| HttpTypes.FoldIgnoresCase | include/HttpTypes.h:48-62 | names have one folding exactly when they differ in the case of ASCII letters only |
| HttpTypes.CaseInsensitiveHash | include/HttpTypes.h:29-46 | the hash is the 64-bit FNV-1a hash of the folded name: equal names of any length hash alike |
| HttpTypes.FnvOfA | include/HttpTypes.h:29-46 | the hash of `a` is the published FNV-1a value |
| HttpTypes.MethodsAreNames | include/HttpParser.h:228-237 | different method names are different methods, apart from those that are none; only the text HEAD is HEAD, only OPTIONS is OPTIONS |
| HttpTypes.MethodIndexInjective | include/HttpTypes.h:82-84 | methods have distinct table indices |
| Text.BlankIsStable | include/transport/TcpConnection.h:96-101 | more input never moves an end of headers already found, and one found later ends beyond the old input |
| Text.CutLine | include/HttpParser.h:38-44 | in a block ending in CRLFCRLF a CRLF is always found, and cutting the line off leaves a shorter terminated block: the missing-CRLF exits are never taken |
| Text.LinesRejoin | include/HttpParser.h:38-44 | the lines of a block hold no CRLF and rejoin to the block |
| Text.JoinThenLines | include/HttpParser.h:38-44 | joining CRLF-free lines and cutting them again gives the same lines |
| Text.JoinFirstBlank | include/transport/TcpConnection.h:96-103 | when no line is empty, the first CRLFCRLF of a joined block is the one that ends it |
| Text.LinesOfTexts | include/HttpResponse.h:155-174 | a client that cuts a printed block finds the lines of its texts, one after another: a text that holds CRLF is several lines |
| Text.EmptyLineEndsEarly | include/HttpResponse.h:166-174 | a block with an empty line after its first has its first CRLFCRLF before its end |
| Text.TrimPadded | include/HttpParser.h:219-225 | trimming a trimmed core between blanks gives the core |
| Text.TrimSplits | include/HttpParser.h:219-225 | trimming removes only blanks, at the ends, and all of them |
| Text.PiecesOfGlue | include/HttpParser.h:193-204 | splitting undoes gluing, for any separator-free pieces, except that an empty last piece is not seen |
| Text.GlueOfPieces | include/HttpParser.h:193-204 | the pieces of a text hold no separator, and gluing undoes splitting, up to one trailing separator |
| Decimal.PrintThenRead | include/HttpResponse.h:160-162 | a printed size reads back as itself |
| Decimal.ReadThenPrint | include/HttpParser.h:64-73 | a numeral without superfluous zeros is the printed form of its value |
| HttpParser.TrimView | include/HttpParser.h:219-225 | the two loops compute the trimmed text |
| HttpParser.IsToken | include/HttpParser.h:107-116 | true exactly for non-empty texts of token characters |
| HttpParser.FindToken | include/HttpParser.h:118-127 | true exactly when some comma-separated element, trimmed, is the token in any case |
| HttpParser.ParseQueryString | include/HttpParser.h:193-204 | the loop builds the query map of the pieces between ampersands |
| HttpParser.ParseCookies | include/HttpParser.h:206-217 | the loop builds the cookie map of the pieces between semicolons |
| HttpParser.CheckTarget | include/HttpParser.h:152-162 | true exactly for valid targets: form, visible characters, complete percent triplets |
| HttpParser.ReadRequestLine | include/HttpParser.h:137-171 | the request line, or the status it is rejected with |
| HttpParser.ReadTarget | include/HttpParser.h:146-171 | version, then target, then path and query, with the status of the first rule broken |
| HttpParser.ReadHeaderLine | include/HttpParser.h:173-191 | one header line added to the map, the first value of a name kept, a repeated single name rejected |
| HttpParser.CheckHost | include/HttpParser.h:50-57 | true exactly when no character of Host is a forbidden one |
| HttpParser.ReadContentLength | include/HttpParser.h:64-73 | 0 for an absent or empty value, the exact value of digits, 400 beyond 64 bits, 413 beyond the limit |
| HttpParser.FinishRequest | include/HttpParser.h:46-88 | the rules over the whole block, in the order of the code |
| HttpParser.ReadHeaders | include/HttpParser.h:27-89 | the header loop computes the specified result for every input and all limits |
| HttpRequest.ParseHeaders | include/HttpParser.h:27-89 | 431 exactly for blocks over the limit, every rejection one of 400, 413, 417, 431, 501, 505; acceptance bounds the block and its body length |
| HeaderBlock.CollectKeepsFirst | include/HttpParser.h:185-190 | a list of fields is accepted exactly when Content-Length, Host and Transfer-Encoding do not recur in any case, and then every name has its first value |
| HeaderBlock.FirstWinsUnique | include/HttpTypes.h:67-68 | a list of fields determines one header map |
| HeaderBlock.BlockIsItsLines | include/HttpParser.h:30-44 | every block ending in CRLFCRLF is cut without loss into CRLF-free lines, and its verdict is the verdict on those lines |
| HeaderBlock.FramingIsUnambiguous | include/HttpParser.h:59-73 | an accepted block has at most one Content-Length, Host and Transfer-Encoding line in any case, no non-empty Transfer-Encoding, and a body length that is 0 or the exact value of its digits, below 2^64 and within the limit |
| HeaderBlock.RequestSizeFits | include/transport/TcpConnection.h:116 | under validated limits header size plus body length never wraps |
| RequestRoundTrip.FieldRoundTrip | include/HttpParser.h:173-191 | a printed header line reads back as its name and value |
| RequestRoundTrip.ParseOfRender | include/HttpParser.h:27-89 | parsing a printed request gives exactly the verdict on its parts, status included |
| RequestRoundTrip.RequestRoundTrips | include/HttpParser.h:27-89 | a printed request is accepted if and only if its parts obey the rules, and then method, version, header map, body length, keep-alive decision and cookies come back |
| RequestRoundTrip.LastWinsMeaning | include/HttpParser.h:193-204 | each query key has the value of its last pair, and no other key is bound |
| RequestRoundTrip.TargetRoundTrips | include/HttpParser.h:163-170 | a target printed from a path and pairs parses to that path and the last-wins map of the pairs |
| RequestRoundTrip.WholeRequestRoundTrips | include/HttpParser.h:27-89 | a request printed from method, path, query or none, version and fields is accepted if and only if the parts obey the rules, and then that method, path and version, the last value of each query key and the first field of each name come back |
| RequestLaws.TokenIsVisible | include/HttpParser.h:107-116 | token characters are the visible ones that RFC 9110 does not list as delimiters |
| RequestLaws.FieldLines | include/HttpParser.h:173-184 | for any line: it is a field if and only if it is a token, a colon and a printable value between padding, and then that name and that value |
| RequestLaws.RequestLines | include/HttpParser.h:137-162 | for any line: it is accepted if and only if it is a token, a target and a known version between single spaces; it is answered 505 if and only if only its version is another; and then its method is that of the token |
| RequestLaws.MalformedBlocks | include/HttpParser.h:30-44 | for any block: without CRLFCRLF at its end it is answered 400, and with a line that is no field too, unless its version is answered first |
| RequestLaws.StatusOfEachRule | include/HttpParser.h:30-78 | which requests are answered 400, 413, 417, 431, 501 and 505: for each status an if-and-only-if over the text of the request, which fixes the order of the rules |
| RequestLaws.ListContains | include/HttpParser.h:118-127 | a comma-separated list of padded elements contains a word exactly when some element is that word in any case |
| RequestLaws.KeptExactlyUnlessAsked | include/HttpParser.h:79-81 | a connection is kept exactly when no element of Connection is close and, under HTTP/1.0, some element is keep-alive |
| RequestLaws.CookiesOfParts | include/HttpParser.h:206-217 | cookies printed with any padding come back without it, the last value of each name; what has no = is passed over |
| RequestLaws.QueryOfParts | include/HttpParser.h:193-204 | query parts come back as they stand, the last value of each key; what has no = is passed over |
| RequestLaws.MeaningOfParts | include/HttpParser.h:27-89 | an accepted request printed from parts has that path, the last values of its query keys and cookies, is HEAD exactly when that text was printed, and is kept exactly unless it asks to close |
| HttpResponse.ResponseObject.Status | include/HttpResponse.h:72 | sets the status and nothing else |
| HttpResponse.ResponseObject.Send | include/HttpResponse.h:95-99 | replaces the body and makes it the active one, keeping the content type |
| HttpResponse.ResponseObject.Json | include/HttpResponse.h:74-79 | replaces body and content type |
| HttpResponse.ResponseObject.Html | include/HttpResponse.h:81-86 | replaces body and content type |
| HttpResponse.ResponseObject.PlainText | include/HttpResponse.h:88-93 | replaces body and content type |
| HttpResponse.ResponseObject.Image | include/HttpResponse.h:101-106 | replaces body and content type |
| HttpResponse.ResponseObject.Header | include/HttpResponse.h:108-111 | sets one header, replacing its value |
| HttpResponse.ResponseObject.HtmlView | include/HttpResponse.h:113-118 | makes a view the active body |
| HttpResponse.ResponseObject.ImageView | include/HttpResponse.h:120-125 | makes a view the active body |
| HttpResponse.LastBodyWins | include/HttpResponse.h:72-134 | after any setters the active body is what the last body setter was given |
| ResponseLaws.SettersKeepLast | include/HttpResponse.h:72-125 | after any setters status, content type, active body and each header are the last ones given, and otherwise as before |
| HttpResponse.ResponseObject.FindContentType | include/HttpResponse.h:146-154 | true exactly when the handler set a content type in any case, although only names of its length and first letter are compared |
| HttpResponse.ResponseObject.AppendKept | include/HttpResponse.h:166-171 | the loop appends a handler's headers in order, without the three reserved names in any case |
| HttpResponse.ResponseObject.SerializeHeaders | include/HttpResponse.h:136-175 | the loops print the specified block, for every order of the header map; no text for a status outside 200 to 599 |
| HttpResponse.ResponseObject.Serialize | include/HttpResponse.h:178-184 | block and body, the body suppressed for HEAD, 204 and 304 |
| ResponseDecoding.ServerOwnsFraming | include/HttpResponse.h:144-174 | whatever headers a handler sets, a printed block is the lines of the server and then those of the handler; under Content-Length, Connection and Transfer-Encoding it says first what the server decided and then only what handler lines add; and it ends at its first CRLFCRLF if and only if no handler line is empty |
| ResponseDecoding.PrintableDelimits | include/HttpResponse.h:166-171 | headers with token names and values without CRLF add no empty line and no line under the three names |
| ResponseDecoding.OneReadsBack | include/HttpResponse.h:136-184 | for any headers: a client decodes a response in front of anything to its block and body, leaving the rest untouched, if and only if no handler line is empty or, where a body may follow, a Content-Length or Transfer-Encoding line |
| ResponseDecoding.StreamReadsBack | include/HttpResponse.h:136-184 | any number of printed responses one after another, 204, 304 and answers to HEAD included, decode to the same blocks and bodies if and only if each of them delimits itself |
| ResponseDecoding.BrokenIsMisread | include/HttpResponse.h:166-171 | a concrete response, with a header value that ends in CRLF, that no client reads back |
| ResponseLaws.HandlerHeadersArePrinted | include/HttpResponse.h:166-171 | after the lines of the server a printed block has, once each, exactly the lines of the handler headers that are not named Content-Length, Transfer-Encoding or Connection in any case |
| ResponseLaws.HandlerHeadersAreRead | include/HttpResponse.h:144-171 | under every other name a client reads exactly the trimmed values that the handler gave under it in any case, and under Content-Type that of the server when the handler gave none |
| ResponseLaws.StatusLineReads | include/HttpResponse.h:140-144 | the first line is the version, the status in digits and its reason |
| ResponseLaws.StatusReadsBack | include/HttpResponse.h:140-144 | a client reads the status that was set |
| ResponseLaws.DefaultText | include/HttpResponse.h:136-175 | line for line what an untouched response prints |
| ContentTypes.ParseContentType | include/HttpTypes.h:86-91 | the text before the first semicolon, without spaces at its end, names the type |
| ContentTypes.TypesReadBack | include/HttpTypes.h:86-107 | the content type a response prints is read back by a request, whatever parameters follow |
| Framing.NextIsStable | include/transport/TcpConnection.h:96-120 | once a request or an error is visible, later bytes change neither; the early and the late 431 agree |
| Framing.FramingIsSound | include/transport/TcpConnection.h:91-128 | framing splits a stream without loss into well-framed requests with right close decisions, and stops exactly at a closing request, a rejected rest or an incomplete one |
| Framing.FramingIsComplete | include/transport/TcpConnection.h:91-128 | servable requests written one after another are framed back to themselves, and framing goes on with what follows |
| Framing.FramingIsUnique | include/transport/TcpConnection.h:91-128 | requests a stream starts with are the start of its framing |
| Framing.EndIsStable | include/transport/TcpConnection.h:185-194 | a stream whose framing has ended keeps it whatever follows |
| Framing.MessageIsOneFrame | include/HttpParser.h:91-101 | `parse` accepts a string exactly when it is one well-framed request with nothing after it, and returns that request's body |
| ConnectionInvariants.ReadMoreKeeps | include/transport/TcpConnection.h:158-173 | making room loses no byte, leaves at least one byte free and keeps the buffer within its bound |
| ConnectionInvariants.DispatchKeeps | include/transport/TcpConnection.h:116-155 | dispatching a request keeps every invariant: bytes, order, close decisions, replies |
| ConnectionInvariants.FailKeeps | include/transport/TcpConnection.h:185-198 | answering an error keeps every invariant |
| ConnectionInvariants.StopKeeps | include/transport/TcpConnection.h:61-64 | a stop request, forced or draining, keeps every invariant |
| ConnectionInvariants.StepKeeps | include/transport/TcpConnection.h:61-232 | every callback and every stop request, whatever arrives, keeps every invariant |
| ConnectionRuns.EveryByteIsAccountedFor | include/transport/TcpConnection.h:130-181 | over every run the bytes received are the dispatched requests followed by the unread bytes, every read has room, and the buffer has at least 65536 bytes and stays within max(65536, 2*(header limit + body limit) - 2) |
| ConnectionRuns.OneOperationAtATime | include/transport/TcpConnection.h:67-89 | in every run the operations pending between callbacks of an open connection are exactly one: a write while writing, a read into all the free room otherwise; after closing at most one is left; the close callback has run exactly once by then, with the connection's id |
| ConnectionRuns.ClosedStaysClosed | include/transport/TcpConnection.h:174-179 | a closed connection does nothing any more: what was pending completes late, each operation once, and nothing is started |
| ConnectionRuns.StopsAndErrorsClose | include/transport/TcpConnection.h:61-79 | in every run a forced stop and a socket error close in any phase, a graceful stop exactly while waiting for a header block, and otherwise it only marks the connection; closing reports the id |
| ConnectionRuns.CompletesOne | include/transport/TcpConnection.h:172-181 | a completion takes exactly one pending operation of its kind off |
| ConnectionRuns.ServiceIsOrderedAndBounded | include/transport/TcpConnection.h:125-154 | responses answer requests one for one in order, an error response comes last, at most max_requests_per_connection are written, and nothing follows one that closes |
| ConnectionRuns.FramedSoFar | include/transport/TcpConnection.h:91-232 | in every undisturbed state what has been dispatched is the framing of the bytes received so far |
| ConnectionRuns.RunRefinesFraming | include/transport/TcpConnection.h:91-232 | once a stream has been served, the requests dispatched, their close decisions, the error status and whether the connection closed are those of the pure framing of the stream |
| ConnectionRuns.FragmentationDoesNotMatter | include/transport/TcpConnection.h:91-182 | two connections under the same limits serve the same stream alike, however it was cut into reads and whenever writes completed |
| ConnectionRuns.EveryStreamIsServed | include/transport/TcpConnection.h:91-232 | for all valid limits and every stream there is an undisturbed run that serves the stream to its end or to a closing response |
| Pipeline.PipelinedRequestsAreServed | include/transport/TcpConnection.h:91-232 | acceptable requests printed one after another are dispatched exactly as printed, with their bodies and close decisions, however the stream is cut |
| Wire.TransportPrints | include/transport/TcpConnection.h:136-151 | the transport writes what `serialize` prints if and only if it is not giving a 204 or 304 a body |
| Wire.ClosesWhenAnnouncedOrDraining | include/transport/TcpConnection.h:210-220 | in every run, when the write of a response completes, an error response included, the connection closes if and only if the header block just written says close or a stop has been requested |
| Wire.UndisturbedClosesWhenAnnounced | include/transport/TcpConnection.h:210-220 | in a run without stop requests and socket errors it closes if and only if the header block just written says close |
| FirstRequest.DrainingClosesUnannounced | include/transport/TcpConnection.h:61-64 | from every state of every run in which a response is being written, a graceful stop makes the connection close after it, whatever its header block says |
| FirstRequest.ClosingCanBeUnannounced | include/transport/TcpConnection.h:217-220 | a concrete run under the default limits that closes after a header block that did not say close |
| Wire.ClientReadsResponses | include/transport/TcpConnection.h:125-154 | in every run the bytes handed to the socket, a response still being written included, decode to exactly the responses to the requests dispatched, in order, and the error response, if and only if every reply is delimitable and what was rejected, if anything, is no HEAD request |
| Exchange.HeadByText | include/transport/TcpConnection.h:135-140 | a well-framed request is a HEAD request exactly when its text begins with HEAD and a space |
| Exchange.AnswersSayTheirStatus | include/transport/TcpConnection.h:125-154 | in every run each response carries the status its handler gave, and its body unless the request text begins with HEAD; an error response carries the status of the rule broken, says close, and has the fixed body |
| Exchange.ErrorText | include/transport/TcpConnection.h:185-194 | line for line what answers each of the six error statuses |
| Exchange.CallsAreServed | include/transport/TcpConnection.h:91-232 | printed requests of which none before the last asks to close, within the limit on requests, are dispatched as printed; each closes exactly when its Connection elements ask for it or it is the last allowed; and the connection is closed afterwards exactly when the last one closes |
| Exchange.CallsAreAnswered | include/transport/TcpConnection.h:91-232 | from the bytes written for those requests a client that knows only which of its texts begin with HEAD reads, in order, each status, each body and each close announcement, if and only if every reply is delimitable |
| Wire.FailureReadsBack | include/transport/TcpConnection.h:185-194 | an error response can be read if and only if it does not answer HEAD: its body is written in any case |
| FirstRequest.FirstAnswer | include/transport/TcpConnection.h:91-128 | every stream that starts with a request, or with something rejected, has an undisturbed run that answers exactly that first |
| FirstRequest.RejectedHeadIsMisread | include/transport/TcpConnection.h:185-194 | every stream that starts with something rejected has a run whose bytes a client reads if it sent no HEAD request, and does not if it did |
| FirstRequest.HeadErrorIsMisread | include/transport/TcpConnection.h:185-194 | a concrete such run under the default limits, of a HEAD request without Host |
| TcpConnection.Object.constructor | include/transport/TcpConnection.h:42-55 | a new connection: an empty buffer of 65536 bytes |
| TcpConnection.Object.CloseSocket | include/transport/TcpConnection.h:67-79 | closes once and reports the id |
| TcpConnection.Object.MoveBytes | include/transport/TcpConnection.h:160-163 | the in-place copy loop puts the unread bytes at the front and leaves the bytes behind them alone |
| TcpConnection.Object.MoveToFront | include/transport/TcpConnection.h:159-166 | the unread bytes begin at the front, and a view shows what they have been written over |
| TcpConnection.Object.Grow | include/transport/TcpConnection.h:168-170 | a new buffer of twice the size with the old bytes in front, into which no view points |
| TcpConnection.Object.MakeRoom | include/transport/TcpConnection.h:158-170 | the two tests compact and grow the buffer exactly where the value machine does |
| TcpConnection.Object.IssueRead | include/transport/TcpConnection.h:158-182 | compacts or grows the buffer in place as specified and starts a read |
| TcpConnection.Object.TakeRequest | include/transport/TcpConnection.h:116-134 | takes exactly the bytes of the request out of the buffer and counts it |
| TcpConnection.Object.CountRequest | include/transport/TcpConnection.h:125-126 | the request is counted unless the connection closes after it anyway, and the close decision is the specified one |
| TcpConnection.Object.Consume | include/transport/TcpConnection.h:130-134 | the unread bytes begin behind the request, and at the front again once there are none |
| TcpConnection.Object.DispatchRequest | include/transport/TcpConnection.h:116-155 | takes the request and writes the answer, no body for HEAD; what its views are recorded to have shown is what stands in their buffer |
| TcpConnection.Object.FailWith | include/transport/TcpConnection.h:185-198 | writes the closing error response |
| TcpConnection.Object.StartWrite | include/transport/TcpConnection.h:200-209 | hands header and body to the socket and enters the writing phase |
| TcpConnection.Object.AwaitHeader | include/transport/TcpConnection.h:97-101 | 431 at the limit, a read below it |
| TcpConnection.Object.AcceptHeader | include/transport/TcpConnection.h:103-113 | remembers the accepted block; its views point at the unread bytes |
| TcpConnection.Object.ProcessHeadersPhase | include/transport/TcpConnection.h:95-120 | finding, parsing and rejecting a header block refines the specified step |
| TcpConnection.Object.ProcessBodyPhase | include/transport/TcpConnection.h:116-154 | waiting for the body or dispatching refines the specified step |
| TcpConnection.Object.Process | include/transport/TcpConnection.h:91-156 | the processing of input refines the step of the value machine |
| TcpConnection.Object.BeginRequest | include/transport/TcpConnection.h:81-89 | starting refines the specified step |
| TcpConnection.Object.StopConnection | include/transport/TcpConnection.h:61-64 | stopping refines the specified step |
| TcpConnection.Object.StoreBytes | include/transport/TcpConnection.h:180 | the bytes read follow the unread ones |
| TcpConnection.Object.Fill | include/transport/TcpConnection.h:173-180 | the bytes read are put behind the unread ones, and views show what has been written over their place |
| TcpConnection.Object.ReadFailed | include/transport/TcpConnection.h:176-179 | a read error closes |
| TcpConnection.Object.ClearPayloads | include/transport/TcpConnection.h:213-215 | forgets the response written and nothing else |
| TcpConnection.Object.ResetRequest | include/transport/TcpConnection.h:222-224 | a new request may follow; the unread bytes stay |
| TcpConnection.Object.ReadCompleted | include/transport/TcpConnection.h:174-181 | a completed read stores its bytes behind the unread ones and processes input |
| TcpConnection.Object.WriteCompleted | include/transport/TcpConnection.h:210-232 | a completed or failed write refines the specified step |
| TcpConnection.Object.Handle | include/transport/TcpConnection.h:61-232 | every event takes the object to the state of the specified step and keeps every invariant |
| TcpConnection.Object.HandleAll | include/transport/TcpConnection.h:61-232 | over any sequence of events that can happen the object makes the run that its value makes, and keeps every invariant |
| TcpConnection.Serve | include/transport/TcpConnection.h:57-232 | an object constructed, started and given any events that can happen ends in a state that such a run reaches, so every theorem on runs is one on it |
| TcpConnection.Object.ViewsShowHeader | include/transport/TcpConnection.h:103-105 | views whose bytes have not been moved show, in the buffer itself, the header block they were taken from |
| ViewStability.UnmovedViewsShowHeader | include/transport/TcpConnection.h:103-128 | in every run a request dispatched without its bytes having been moved is dispatched with views that show its header block |
| ViewStability.RoomyKeepsViews | include/transport/TcpConnection.h:116-120 | with room for the rest of the request neither a read nor a graceful stop moves its bytes |
| ViewStability.SlowReadsMoveViews | include/transport/TcpConnection.h:158-170 | without room, reads of one byte move its bytes, and leave its views without a buffer or showing exactly what has been written over their place |
| ViewStability.NeverMovedExactlyWithRoom | include/transport/TcpConnection.h:116-170 | the bytes of a request are moved in no way its rest can arrive, graceful stops between the reads included, if and only if it is complete, or starts at the front of a buffer that holds it, or leaves the compaction margin free |
| ViewStability.ViewsShowHeaderExactly | include/transport/TcpConnection.h:116-170 | in every way the rest can arrive, graceful stops between the reads included, with at most `extra` bytes behind it, the views show the header block at dispatch if and only if there is room, or the request and `extra` bytes fit before its old place, or that place holds the same bytes once more |
| ViewStability.ViewsShowHeaderWhateverFollows | include/transport/TcpConnection.h:116-170 | the same without a bound on the bytes behind it: only room, or the same bytes once more, will do |
| FirstRequest.FirstViewsShowHeader | include/transport/TcpConnection.h:116-170 | in every run the first request is dispatched unmoved and with views of its header block if and only if header block and body fit the buffer that the header block is read into, 65536 bytes doubled until they hold it; otherwise with views into a freed buffer |
| FirstRequest.LongRequestLosesViews | include/transport/TcpConnection.h:168-170 | every sound first request that does not fit that buffer is dispatched, with views into a freed buffer, in some run |
| FirstRequest.ViewsCanBeLost | include/transport/TcpConnection.h:168-170 | a concrete such run under the default limits, of a POST with a body of 70000 bytes |
| RouteTable.SegmentsOfPath | include/Trie.h:63-89 | writing segments behind slashes and cutting the path gives the segments back |
| RouteTable.SegmentsOfTexts | include/Trie.h:63-78 | for any placing of slashes the segments are the texts between them that are not empty |
| RouteTable.PreferredIsUnique | include/Trie.h:112-120 | at most one registered pattern is preferred for a request |
| TrieModel.ViewRepresentsTable | include/Trie.h:63-91 | after any registrations a node exists exactly for the root and every start of a registered pattern, and handlers are the last-wins table |
| TrieModel.EnterAllNodes | include/Trie.h:68-89 | entering segments adds exactly the nodes along their pattern |
| TrieModel.SearchFromNode | include/Trie.h:100-125 | from any node the search answers with the preferred pattern below it, or shows that there is none |
| TrieModel.SearchIsPreferred | include/Trie.h:93-126 | a search finds a handler if and only if some registered matching pattern is wild only where no registered pattern goes on with the segment itself, and then that pattern's last handler |
| TrieModel.GreedyCanMiss | include/Trie.h:112-120 | a concrete table and request where a matching route is not found |
| GreedySearch.PreferredExists | include/Trie.h:112-120 | without dead ends, every request that a route matches has a preferred route |
| GreedySearch.FindsAllExactlyWithoutDeadEnds | include/Trie.h:93-126 | every request that some route matches is found if and only if, wherever a route has a wildcard and another goes on with a text instead, one that begins like the other covers what is left of the first |
| TrieModel.LastNameWins | include/Trie.h:80-85 | the name of a wildcard is the one in the last registration through it |
| TrieModel.SearchBindsNames | include/Trie.h:112-125 | a search that ends at a pattern binds exactly the names of its wildcards |
| TrieModel.ParametersAreBound | include/Trie.h:112-125 | when registrations sharing a wildcard agree on its name, each parameter of the route found is bound to its segment and nothing else changes |
| TrieModel.NamesBoundExactlyWhenLast | include/Trie.h:80-125 | every search that finds a pattern binds exactly a given list of names if and only if no name is there twice and each is the one in the last registration through its wildcard |
| TrieModel.LaterNameIsBound | include/Trie.h:84 | a concrete request that binds another route's parameter name |
| Trie.Node.FindChild | include/Trie.h:29-38 | the child for a segment, wherever it is kept |
| Trie.Node.GetOrCreateChild | include/Trie.h:40-58 | one finite map before, during and after migration: an existing child keeps its identity, a missing one is fresh; at most eight distinct list entries, and never both stores |
| Trie.Node.Migrate | include/Trie.h:49-54 | the loop moves every child from the list to the map |
| Trie.Node.FindInList | include/Trie.h:41-43 | the list is searched by segment |
| Trie.Node.AppendToList | include/Trie.h:44-47 | a new child at the end of a list of fewer than eight |
| Trie.Node.FindOrAddInMap | include/Trie.h:55-57 | the child in the map, created if missing |
| Trie.Tree.AttachWild | include/Trie.h:80-85 | the wildcard child is found or created, and always renamed |
| Trie.Tree.AttachStatic | include/Trie.h:87 | the child for a segment is found or created, and no other link changes |
| Trie.Tree.SetHandler | include/Trie.h:90 | one node's handler is replaced |
| Trie.Tree.Descend | include/Trie.h:80-88 | one step of an insertion keeps the graph in agreement with the value it represents |
| Trie.Tree.InsertRoute | include/Trie.h:63-91 | the walk over the path refines insertion on the value |
| Trie.Tree.SearchPath | include/Trie.h:93-126 | the walk over the path refines search on the value, parameters included, also when nothing is found |
| RouterSpec.ExactRouteIsSelected | include/Router.h:47-57 | the last colon-free registration of a method and path is selected, whatever else is registered |
| RouterSpec.PatternRouteIsSelected | include/Router.h:59-67 | otherwise the preferred pattern of the method decides, and otherwise nothing is selected |
| RouterSpec.OtherMethodsUnaffected | include/Router.h:21-37 | registering for one method changes no other method's answers |
| RouterSpec.UnknownMethodsAreIgnored | include/Router.h:24-25 | an unknown method never resolves and registering for one changes nothing |
| RouterSpec.LastStaticWins | include/Router.h:33-35 | an exact path has the handler of its last registration |
| RouterSpec.SelectedByName | include/Router.h:21-67 | by method names alone: the last registration of just this name and path without a colon is selected, otherwise the preferred pattern among those of this name with a colon; a name that is no method selects nothing |
| RouterSpec.OtherNamesUnaffected | include/Router.h:21-37 | registering under one name changes nothing under any other name |
| Exchange.PrintedRequestIsRouted | include/Router.h:21-67 | a printed request is answered by the route registered last for the method name and path printed; routes of any other name change nothing for it |
| Router.RouterObject.AddExact | include/Router.h:31-36 | a path without a colon changes one method's exact map only |
| Router.RouterObject.AddPattern | include/Router.h:29-30 | a path with a colon changes one method's trie only |
| Router.RouterObject.Add | include/Router.h:21-37 | keeps each method's exact map and trie equal to what was registered for it |
| Router.RouterObject.Select | include/Router.h:47-67 | selects exactly what the registrations determine |
| Server.WorkerContext.OnAccept | include/transport/TcpServer.h:116-127 | admits below the limit under a new id, and drops the socket otherwise |
| Server.WorkerContext.OnClose | include/transport/TcpServer.h:122-124 | removes exactly the connection that closed |
| Server.AdmissionIsBounded | include/transport/TcpServer.h:112-138 | over every interleaving the connections of all workers are at most max(1024 W, max_connections) |
| Server.AdmittedExactlyBelowShare | include/transport/TcpServer.h:118-138 | in every run an accept admits, under the next id, if and only if the worker holds fewer than 1024 connections or fewer than its share of the maximum |
| Server.MostConnections | include/transport/TcpServer.h:118-138 | some run holds W * max(1024, max_connections / W) connections, and none holds more |
| Server.RunKeeps | include/transport/TcpServer.h:118-126 | in every run each worker keeps its table within its limit and its ids below the next one |
| Server.MaximumHoldsExactlyAboveFloor | include/transport/TcpServer.h:136-138 | max_connections bounds every run if and only if it is at least 1024 times the number of workers |
| Server.TableIsAdmittedNotClosed | include/transport/TcpServer.h:118-126 | when close callbacks come from connections in the table only, which Hosting.RunAgrees proves of connections, a table holds exactly the connections admitted and not closed since |
| Server.IdsOnlyGrow | include/transport/TcpServer.h:119 | later admissions get larger ids, so none is reused |
| Hosting.ReportsOnce | include/transport/TcpConnection.h:67-79 | a connection calls its close callback in the step in which it closes, once, and in no other |
| Hosting.RunAgrees | include/transport/TcpServer.h:112-126 | over every interleaving of accepts and of events at connections, the workers' tables are those of a history whose close callbacks all come from connections in the table |
| Hosting.OpenConnectionsAreBounded | include/transport/TcpServer.h:112-138 | over every such interleaving each connection makes a run of its own under its own id, each table holds exactly the connections that are open, and at most max(1024 W, max_connections) are open in all |

## Left out

- Sockets, the event loop, threads, signals, `SO_REUSEPORT` and accept errors: only completions and their bytes appear.
- Timeouts: `HttpLimits` declares them, but the transport has no timer.
- `TcpServer::stop`: it iterates the table that close callbacks erase from; draining is modelled for one connection.
- Bodies of handlers, route hooks and the catch-to-500 wrapper: a reply is any response with a status from 200 to 599. Another status makes the serializer throw, which nothing catches.
- `MappedFile`: foreign calls. The `content_type` field of a request: `ContentTypes` reads one, the parsed request does not hold it.
- Memory exhaustion: growing the buffer is assumed to succeed and to free the old one, and its size is an unbounded integer.
- What a handler does with views: what they show at dispatch is recorded, and nothing when their buffer is gone; the dispatcher's reply is any reply.
- Clients that end a line at a bare LF, or join a line that starts with a blank to the one before: the decoding client cuts lines at CRLF and skips those that are no field.
- Single views: what is tracked is the header block they were taken from as a whole; a byte that no view covers counts like any other.
- The memory behind `path_storage_`: paths are values, so keeping them alive needs no argument.
- Hash tables: maps and sets stand for them; iteration order over response headers is a parameter.
- Server.WorkerContext.OnAccept: ids are unbounded integers, so the wrap after 2^64 connections is not modelled.
