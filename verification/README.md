# Verified model of the Vortex-Net network library

A Dafny model of the parts of the library whose correctness is hardest to see: the chunked decoder and the HTTP
message parser, the framing of requests in a segmented stream, the lock-free token bucket, smooth weighted round
robin and the consistent-hash ring, copy-on-write snapshots, and the buffers, framers and output path underneath.
Run `dafny verify dfyconfig.toml` to check all of it.

Code that the library writes as loops and objects is modelled by methods and classes, each proved against a
function; the theorems are about those functions, over all inputs, all runs or all interleavings.

| file | what it holds |
|---|---|
| `Bytes.dfy` | octets and their ASCII spelling, 64-bit wrap-around, concatenation of segments |
| `ChunkedAutomaton.dfy` | the decoder as an automaton over single octets, resumable anywhere |
| `ChunkedMessage.dfy` | the grammar of chunked bodies; the decoder completes on exactly its members |
| `ChunkedStream.dfy` | successive calls on a segmented stream: accounting, the overhead cut-off, split invariance |
| `ChunkedDecoder.dfy` | the decoder object, rewriting its buffer in place, refines the automaton |
| `HttpSyntax.dfy` | the three-valued recognisers for requests, responses and header blocks |
| `HttpScanner.dfy` | the scanning loops, including the eight-at-a-time search, compute the recognisers |
| `HttpStability.dfy` | success and error are stable under extension; all proper prefixes of a message are partial |
| `HttpEarlyOut.dfy` | the early-out scan agrees with the parser |
| `HttpGrammar.dfy` | the language of requests and responses spelled out in ASCII; the parser accepts exactly its members |
| `HttpUndecided.dfy` | an answer is partial exactly if more input can change it |
| `HttpRoundTrip.dfy` | parsing a printed request or response |
| `HttpLength.dfy` | how the fields spell a body's length, and how the server reads it |
| `HttpFraming.dfy` | the true request sequence of a stream against what the server dispatches |
| `HttpServer.dfy` | the parser object and the connection callbacks refine the framing functions |
| `TokenBucket.dfy` | every interleaving of the bucket's atomic steps |
| `TokenBucketLoops.dfy` | the retry loops in their machine arithmetic, and that their rounds are those steps |
| `Swrr.dfy` | fairness of weighted selection, for any way of breaking ties |
| `Selection.dfy` | the selection loop over a group that may list nodes repeatedly, and its exact shares |
| `HashRing.dfy` | key movement on the hash ring |
| `Selector.dfy` | the objects that implement selection, health and the ring |
| `Sequences.dfy` | erasing from lists |
| `CopyOnWrite.dfy`, `ApiKeyAuth.dfy` | snapshot isolation; the sorted key set and the bearer token |
| `Buffer.dfy`, `TcpConnection.dfy`, `TlvCodec.dfy` | the byte queue, the output path, the 11-octet header framer |

## Where the code does less than its documentation says

The code is modelled as it is; each of these is a theorem with the exact condition or an explicit input.

- Line 82 of the repository's README.md says applications need not care how requests are split over or merged into
  reads. Order and bodies are kept exactly as long as no read comes upon a malformed request (`HttpFraming.FramedIff`).
  One message callback dispatches at most one request, so as long as none does, a complete request waits for a later
  read exactly when some read completes several (`HttpFraming.PromptIffOneAtATime`).
- The token bucket gives out at most its capacity plus rate times time exactly when the rate divides, or is divided
  by, 1000 (`TokenBucket.KeepsRateIffCommensurable`); otherwise each refill may gain up to one millisecond's worth, that
  is rate/1000 tokens. In a window of a run, the time that counts starts with the oldest clock sample still in use
  (`TokenBucket.WindowBound`): a suspended request can let two full buckets out at once (`TokenBucket.StaleSampleBurst`).
- The comment at Proxy/src/L7/Middleware/TokenBucket.cc:82 says an update never leaves more tokens than the new
  capacity. A tryAcquire already under way can, exactly when the capacity falls by more than one and the old rate is
  positive (`TokenBucket.UpdateKeepsCapacityIff`).
- The chunked decoder's overhead cut-off looks only at the end of a call, so the same body may be accepted in one
  piece and rejected in two (`ChunkedStream.SplittingCanReject`); `ChunkedStream.FeedVerdict` says when.
- The early-out of `phr_parse_headers` finds the end of a complete header block exactly when the block is not empty; an
  empty one gets through only if what follows it brings another blank line (`HttpEarlyOut.HeadersEarlyOut`).
- A message sent by the TLV codec is received as sent exactly when its body is shorter than 2^32 octets
  (`TlvCodec.SendRoundTrip`).
- The hash ring depends only on who is in it exactly when no two addresses share a point
  (`HashRing.HistoryIrrelevantIff`); with collisions, removal disturbs other nodes' keys (`HashRing.RemoveIsMinimalIff`).

## Model

| member | source | states |
|---|---|---|
| `ChunkedAutomaton.Step` | Http/picohttpparser.c:553-682 | every octet takes a reachable decoder state to a reachable one: hex digits at most 16, bytes left within 64 bits and zero between chunks; at most one octet is produced |
| `ChunkedAutomaton.Run` | Http/picohttpparser.c:545-698 | an incomplete stretch is consumed entirely; never more octets out than in |
| `ChunkedAutomaton.RunConcat` | Http/picohttpparser.c:545-698 | decoding can be suspended and resumed at any octet: the state carries all that matters |
| `ChunkedAutomaton.SizeAccumulates` | Http/picohttpparser.c:554-584 | while a size is read the accumulator equals the hex numeral so far, is below 16^digits and so never wraps; a 17th digit is an error |
| `ChunkedAutomaton.HexDigitsAre` | Http/picohttpparser.c:532-543 | the digits 0 to 9 and a to f in either case have their values, and no other octet has one |
| `ChunkedAutomaton.HexRoundTrip` | Http/picohttpparser.c:532-584 | a number spelled in hexadecimal is read as that number |
| `ChunkedAutomaton.ErrorsStick` | Http/picohttpparser.c:554-682 | at an error everything before it has been decoded, the wrong octet is not consumed, and no later call gets further |
| `ChunkedMessage.DecodesBody` | Http/picohttpparser.c:554-686 | for any chunks, hex spellings, extensions and trailer lines and any tail: the encoded body decodes to its content and exactly its octets are consumed |
| `ChunkedMessage.OnlyBodiesComplete` | Http/picohttpparser.c:554-686 | the converse: whatever input the decoder completes on is an encoded body plus a tail, and was decoded to that body's content |
| `ChunkedStream.CallAccounting` | Http/picohttpparser.c:550-696 | one incomplete call adds to total read less total overhead exactly the octets it decoded |
| `ChunkedStream.CallRoundTrip` | Http/picohttpparser.c:685-697 | one call on an encoded body and a tail returns the tail's length, and leaves the tail |
| `ChunkedStream.SeriesAccounting` | Http/picohttpparser.c:550-696 | over any series of incomplete calls, total read less total overhead is the octets decoded, so line 694 never underflows; the next call is cut off exactly on 100 KB overhead with decoded octets under a quarter of those read |
| `ChunkedStream.FeedExact` | Http/picohttpparser.c:545-698 | feeding a stream in pieces either stops at a piece boundary where the cut-off fires, or gives output, verdict and remainder of the automaton on the whole stream |
| `ChunkedStream.FeedVerdict` | Http/picohttpparser.c:691-696 | the verdict of a segmented stream is that of the whole exactly when no cut-off intervenes or the whole is malformed anyway |
| `ChunkedStream.SplitInvariance` | Http/picohttpparser.c:545-698 | with under 100 KB of overhead every segmentation gives the same output, verdict and remainder as one call |
| `ChunkedStream.SegmentedRoundTrip` | Http/picohttpparser.c:545-698 | a fresh decoder fed any segmentation of an encoded body and a tail yields the content and the tail |
| `ChunkedStream.SplittingCanReject` | Http/picohttpparser.c:691-696 | a concrete body accepted whole and rejected in two pieces |
| `ChunkedDecoder.Decoder.Decode` | Http/picohttpparser.c:545-698 | one in-place call: new state and totals, return code, decoded octets at the front of the buffer, the undecoded remainder right behind them, the rest of the array untouched |
| `ChunkedDecoder.Decoder.Consume` | Http/picohttpparser.c:552-683 | the switch loop terminates, writing never overtakes reading, unread input is untouched, and it does what the automaton does on the input |
| `ChunkedDecoder.Decoder.TakeData` | Http/picohttpparser.c:621-637 | moving chunk data forward preserves what is already written and what is still unread |
| `ChunkedDecoder.Decoder.MoveDown` | Http/picohttpparser.c:624-632 | the overlapping move delivers the old contents and leaves everything before the target and behind the source alone |
| `HttpSyntax.TokenEnd` | Http/picohttpparser.c:245-277 | a token ends at the first stop octet and has only token characters before it |
| `HttpSyntax.PathEnd` | Http/picohttpparser.c:71-94 | a target ends at its first space and holds no space or control octet |
| `HttpSyntax.Version` | Http/picohttpparser.c:280-296 | an accepted version leaves an octet behind it, gives the digit's value and has no line end inside |
| `HttpSyntax.TrimRight` | Http/picohttpparser.c:341-350 | what is dropped is all blank, and what is left ends in no blank |
| `HttpSyntax.Headers` | Http/picohttpparser.c:298-353 | an accepted block lies in the buffer, extends the fields read so far and respects the limit on their number |
| `HttpScanner.ParseToken` | Http/picohttpparser.c:245-277 | the loop computes the token recogniser: end, partial or error |
| `HttpScanner.AdvanceToken` | Http/picohttpparser.c:71-94 | the target loop computes the target recogniser |
| `HttpScanner.GetTokenToEol` | Http/picohttpparser.c:134-195 | the eight-at-a-time scan agrees with the octet-by-octet definition of a text line |
| `HttpScanner.ParseHeaderLine` | Http/picohttpparser.c:315-350 | one header line, including continuation lines and trimming of the value |
| `HttpScanner.ParseHeaders` | Http/picohttpparser.c:298-353 | the header loop computes the header block recogniser |
| `HttpScanner.ParseHttpVersion` | Http/picohttpparser.c:280-296 | the version check computes its recogniser |
| `HttpScanner.ParseRequestMessage` | Http/picohttpparser.c:355-399 | the request parser computes the request recogniser: fields, length, partial or error |
| `HttpScanner.ParseStatusLine` | Http/picohttpparser.c:429-471 | version, status, message and the start of the header block of a response |
| `HttpScanner.ParseResponseMessage` | Http/picohttpparser.c:429-472 | the response parser computes the response recogniser |
| `HttpScanner.FindBlankLine` | Http/picohttpparser.c:197-223 | the early-out loop finds the end of the first two adjacent line ends |
| `HttpScanner.PhrParseRequest` | Http/picohttpparser.c:401-427 | entry point: with a previous length the early-out is consulted first |
| `HttpScanner.PhrParseResponse` | Http/picohttpparser.c:474-498 | the same for responses |
| `HttpScanner.PhrParseHeaders` | Http/picohttpparser.c:500-519 | the same for header blocks |
| `HttpStability.RequestStable` | Http/picohttpparser.c:355-399 | once a request buffer is accepted or rejected, every extension gives the same fields, length and verdict |
| `HttpStability.ResponseStable` | Http/picohttpparser.c:429-472 | the same for responses |
| `HttpStability.HeadersStable` | Http/picohttpparser.c:298-353 | the same for header blocks |
| `HttpStability.RequestPrefixes` | Http/picohttpparser.c:355-399 | of an accepted n-octet request every proper prefix is partial, every longer one parses to the same |
| `HttpStability.ResponsePrefixes` | Http/picohttpparser.c:429-472 | the same for responses |
| `HttpStability.HeadersPrefixes` | Http/picohttpparser.c:298-353 | the same for header blocks |
| `HttpEarlyOut.Resynchronise` | Http/picohttpparser.c:197-223 | started anywhere up to four octets before the end, even inside a CRLF, the scan finds the same end |
| `HttpEarlyOut.IsCompleteIs` | Http/picohttpparser.c:197-223 | in terms of octets: the scan answers with the end of the first blank line from three octets before the previous length, and rejects exactly a CR without LF before it |
| `HttpEarlyOut.EntryPointsAre` | Http/picohttpparser.c:401-519 | the entry points parse at once without a previous length, and otherwise only past the early-out; its partial and error answers are theirs |
| `HttpEarlyOut.RequestEarlyOut` | Http/picohttpparser.c:415-426 | if a prefix was partial, the early-out finds exactly the end of an accepted request, and the entry point accepts precisely the requests the parser accepts |
| `HttpEarlyOut.ResponseEarlyOut` | Http/picohttpparser.c:487-497 | the same for responses |
| `HttpEarlyOut.HeadersEarlyOut` | Http/picohttpparser.c:500-519 | after a partial prefix, whatever follows the block: the early-out stops at its end if and only if it has a field, and the entry point returns it if and only if it has a field or a later blank line lets the scan finish |
| `HttpEarlyOut.RequestRejectionIsFinal` | Http/picohttpparser.c:415-426 | after a partial prefix, what the entry point rejects, early-out included, no further octets make a request |
| `HttpEarlyOut.ResponseRejectionIsFinal` | Http/picohttpparser.c:487-497 | the same for responses |
| `HttpEarlyOut.HeadersRejectionIsFinal` | Http/picohttpparser.c:500-519 | the same for header blocks with a field |
| `HttpGrammar.Classes` | Http/picohttpparser.c:96-103 | token octets are visible ASCII without the delimiters; text is anything but controls other than the tab; blanks are space and tab |
| `HttpGrammar.RequestAt` | Http/picohttpparser.c:298-399 | whatever has the form of a request, in all its liberties (leading empty line, runs of spaces, bare LF, continuation lines), is accepted as what it means with exactly its length, or rejected for more fields than allowed |
| `HttpGrammar.OnlyRequests` | Http/picohttpparser.c:298-399 | the converse: whatever is accepted begins with a request of that meaning |
| `HttpGrammar.ResponseAt` | Http/picohttpparser.c:429-472 | the same for responses: version, three-digit status, message without its leading spaces, fields |
| `HttpGrammar.OnlyResponses` | Http/picohttpparser.c:429-472 | the converse for responses |
| `HttpUndecided.RequestUndecided` | Http/picohttpparser.c:355-399 | whatever is partial is decided by nine NUL octets more |
| `HttpUndecided.ResponseUndecided` | Http/picohttpparser.c:429-472 | the same for responses |
| `HttpUndecided.PartialIffNotFinal` | Http/picohttpparser.c:298-472 | requests, responses and header blocks are partial if and only if some further input changes the answer |
| `HttpRoundTrip.RequestRoundTrip` | Http/picohttpparser.c:298-427 | a printed request followed by any octets parses to its own fields and exactly the printed length |
| `HttpRoundTrip.ResponseRoundTrip` | Http/picohttpparser.c:429-497 | a printed response followed by any octets parses to its own version, status, message and fields and exactly the printed length |
| `HttpFraming.NextStable` | Http/HttpParser.cc:28-98 | a request at the front of a stream, once complete or rejected, stays the same when more arrives |
| `HttpFraming.OnMessageReacts` | Http/HttpServer.h:88-128 | one callback serves exactly the first undispatched request if it is complete, body included, and nothing otherwise |
| `HttpFraming.FramedIff` | Http/HttpServer.h:88-128 | for every stream and segmentation: the dispatched sequence is a prefix, of known length, of the true request sequence and the rest of the stream is still held, if and only if no read came upon a malformed request |
| `HttpFraming.DispatchesInOrder` | Http/HttpServer.h:88-128 | in particular for every segmentation of a well-formed stream |
| `HttpFraming.PromptIffOneAtATime` | Http/HttpServer.h:88-128 | as long as no read has come upon a malformed request, everything complete is dispatched at once if and only if no read completes two requests |
| `HttpLength.NameIsRead` | Http/HttpParser.cc:57-57 | the field's name is recognised in any mixture of cases, and no other name is |
| `HttpLength.ValueIsRead` | Http/HttpParser.cc:59-59 | a value that starts with the digits of n, zeros before them or other text behind them, is read as n if n < 2^64, and otherwise not at all |
| `HttpLength.UnusableKeeps` | Http/HttpParser.cc:59-68 | a Content-Length field that spells no number, or one too large, leaves the length of the fields before it |
| `HttpLength.OthersKeep` | Http/HttpParser.cc:51-70 | fields of other names leave the length alone; without any Content-Length field it is zero |
| `HttpLength.LengthUnderstood` | Http/HttpParser.cc:51-70 | a Content-Length field with the decimal digits of n < 2^64 makes the length n, wherever it stands, if no other follows it |
| `HttpLength.SpelledIsRead` | Http/HttpParser.cc:51-75 | whatever length the fields spell is read |
| `HttpFraming.AnyBodyCanBeSent` | Http/HttpParser.cc:51-75 | hence any request line and fields can carry any body, its length spelled anywhere among them |
| `HttpFraming.TooManyFields` | Http/HttpParser.cc:22-36 | a request of more than 100 fields is refused |
| `HttpFraming.WireExchanges` | Http/HttpParser.cc:28-98 | the true sequence of a stream of printed requests, up to 100 fields each spelling the body's length, is those requests |
| `HttpFraming.ServesWhatWasSent` | Http/HttpServer.h:88-128 | whatever the reads, the application sees the sent requests in order with exactly their bodies |
| `HttpFraming.MalformedDependsOnReads` | Http/HttpParser.cc:90-97 | after a malformed request, what is served depends on where the reads fall |
| `HttpServer.LengthOfBody` | Http/HttpParser.cc:51-70 | the header loop: the last usable Content-Length decides |
| `HttpServer.HttpParser.ParseRequest` | Http/HttpParser.cc:8-98 | state, fields and Content-Length after each of the three parse results; an error empties the buffer |
| `HttpServer.HttpParser.ConsumeBody` | Http/HttpParser.cc:201-208 | exactly n octets leave the buffer and the body is complete when the count reaches the length |
| `HttpServer.HttpParser.Reset` | Http/HttpParser.cc:210-219 | everything about the last request is forgotten |
| `HttpServer.Connection.OnMessage` | Http/HttpServer.h:88-108 | the callback does to connection, buffer and dispatched requests what the framing function says |
| `HttpServer.Connection.CollectBody` | Http/HttpServer.h:109-120 | takes as much of the body as there is, no more than is missing |
| `HttpServer.Connection.Dispatch` | Http/HttpServer.h:122-128 | hands over method, path and body once and clears them |
| `TokenBucket.SettlementArithmetic` | Proxy/src/L7/Middleware/TokenBucket.cc:33-42 | the time paid for never exceeds the time passed, is within one millisecond of the tokens' worth, what is kept back is worth less than one token and one millisecond together, and 64 bits suffice |
| `TokenBucket.ExactSettlement` | Proxy/src/L7/Middleware/TokenBucket.cc:33-42 | for rates that divide or are divided by 1000, settlement is exact |
| `TokenBucket.ProducedIs` | Proxy/src/L7/Middleware/TokenBucket.cc:34-35 | the tokens of a time are its share of the rate per 1000 ms, rounded down; whole seconds give the rate's worth |
| `TokenBucket.SettleKeepsAvailable` | Proxy/src/L7/Middleware/TokenBucket.cc:33-48 | a settlement costs nobody a token: at any later time at least as many are available as without it, exactly as many for commensurable rates |
| `TokenBucket.UpdateKeepsAvailable` | Proxy/src/L7/Middleware/TokenBucket.cc:77-84 | what was available just before an update, up to the new capacity, is available just after it |
| `TokenBucket.AcquireGrants` | Proxy/src/L7/Middleware/TokenBucket.cc:19-56 | an undisturbed tryAcquire gets its tokens if and only if they are available, and takes exactly those |
| `TokenBucket.UpdateTakesEffect` | Proxy/src/L7/Middleware/TokenBucket.cc:67-92 | an undisturbed update puts its configuration in force and keeps what was available |
| `TokenBucket.UpdatesExcludeEachOther` | Proxy/src/L7/Middleware/TokenBucket.cc:67-71 | in every interleaving at most one update is under way |
| `TokenBucket.NeverOverfull` | Proxy/src/L7/Middleware/TokenBucket.cc:15-92 | in every interleaving with any updates: tokens never exceed the largest capacity ever in force, the timestamp never passes the clock |
| `TokenBucket.RateBound` | Proxy/src/L7/Middleware/TokenBucket.cc:15-56 | in every interleaving under one configuration: 1000 times tokens granted and left is at most 1000 times capacity plus rate times settled time and one millisecond per refill; without the last term for commensurable rates |
| `TokenBucket.UpdatedRateBound` | Proxy/src/L7/Middleware/TokenBucket.cc:15-92 | the same bound in every interleaving with any updates, for the highest rate in force; without the refill term if all rates are commensurable |
| `TokenBucket.WindowBound` | Proxy/src/L7/Middleware/TokenBucket.cc:15-56 | in every window of every interleaved run: fewer tokens than a full bucket and one, the rate for the time since the oldest clock sample still in use, and a millisecond's worth per refill; without the last for commensurable rates |
| `TokenBucket.StaleSampleBurst` | Proxy/src/L7/Middleware/TokenBucket.cc:26-50 | why the oldest sample: a reachable window of no duration that gives out two full buckets |
| `TokenBucket.KeepsRateIffCommensurable` | Proxy/src/L7/Middleware/TokenBucket.cc:19-56 | all runs grant at most capacity plus rate times time if and only if the rate divides or is divided by 1000 (or nothing is ever granted or refilled) |
| `TokenBucket.Overdraw` | Proxy/src/L7/Middleware/TokenBucket.cc:33-42 | for every other rate, a run of one thread that exceeds the nominal rate |
| `TokenBucket.AvailableIsGranted` | Proxy/src/L7/Middleware/TokenBucket.cc:58-65 | without interference, what is reported as available is exactly what a request can get |
| `TokenBucket.UpdateKeepsCapacityIff` | Proxy/src/L7/Middleware/TokenBucket.cc:67-92 | with concurrent updates to a configuration, tokens stay within the capacity in force in all runs if and only if the capacity falls by at most one or the old rate is zero |
| `TokenBucket.Overfill` | Proxy/src/L7/Middleware/TokenBucket.cc:67-92 | for every other pair of configurations, a run that leaves more tokens than the capacity in force |
| `TokenBucketLoops.SettleNow` | Proxy/src/L7/Middleware/TokenBucket.cc:28-42 | in 32- and 64-bit arithmetic the loop computes the settled state: no product wraps and nothing is divided by zero |
| `TokenBucketLoops.TryAcquire` | Proxy/src/L7/Middleware/TokenBucket.cc:19-56 | the retry loop, for any interference between its atomic operations, refuses, takes or goes on as the specification says |
| `TokenBucketLoops.Update` | Proxy/src/L7/Middleware/TokenBucket.cc:67-89 | the same for the loop of update, clipping to both capacities |
| `TokenBucketLoops.AvailableTokens` | Proxy/src/L7/Middleware/TokenBucket.cc:58-65 | the reported number, computed without wrap-around |
| `TokenBucketLoops.AttemptIsSteps` | Proxy/src/L7/Middleware/TokenBucket.cc:27-55 | a round of tryAcquire's loop, whatever others do meanwhile, is the thread's two steps in the interleaving machine: same state written, same tokens granted, same next move |
| `TokenBucketLoops.ReconfigureIsSteps` | Proxy/src/L7/Middleware/TokenBucket.cc:75-89 | the same for update |
| `TokenBucketLoops.AttemptContinues` | Proxy/src/L7/Middleware/TokenBucket.cc:27-55 | a loop that survived its first rounds goes on from the state they left it with |
| `Selection.Scan` | Proxy/src/Common/Selector.cc:70-83 | the loop ends with an eligible node of the group, or with none if nobody is eligible |
| `Selection.ScanRaises` | Proxy/src/Common/Selector.cc:72-77 | each eligible node is raised by its weight as often as it is listed, all others not at all |
| `Selection.ScanTotal` | Proxy/src/Common/Selector.cc:77-78 | the total is the sum of the shares of the eligible nodes |
| `Selection.ScanFindsHighest` | Proxy/src/Common/Selector.cc:80-82 | the node remembered has the highest current weight in the end, unless a node of negative weight is listed twice |
| `Selection.ScanFindsFirst` | Proxy/src/Common/Selector.cc:80-82 | of several nodes with the highest weight the one listed first is chosen, if none is listed twice |
| `Selection.SelectConserves` | Proxy/src/Common/Selector.cc:70-88 | a selection preserves the sum of current weights, whatever the weights and however often nodes are listed |
| `Selection.SelectIsSelection` | Proxy/src/Common/Selector.cc:70-88 | the loop makes a weighted selection, a node's share being its weight times the number of its listings |
| `Selection.GroupSharesAreExact` | Proxy/src/Common/Selector.cc:70-88 | for any group without negative weights, repeated listings included: from zero, every window of W selections chooses each eligible node exactly its share |
| `Selection.GroupIsSmooth` | Proxy/src/Common/Selector.cc:70-88 | for any such group, at every moment no node is a whole selection ahead of its share and its lag is bounded, a node's share being its weight times its listings |
| `Swrr.SelectionConserves` | Proxy/src/Common/Selector.cc:72-95 | whoever is alive and whatever the weights, a selection preserves the sum of the current weights |
| `Swrr.AlwaysEligible` | Proxy/src/Common/Selector.cc:59-68 | in a non-empty group someone is always eligible |
| `Swrr.PanicExactly` | Proxy/src/Common/Selector.cc:64-68 | panic mode is on if and only if fewer than one in five is alive |
| `Selectors.CandidatesAre` | Proxy/src/Common/Selector.cc:60-74 | the candidates are the nodes alive, or all of them if fewer than one in five is |
| `Swrr.SelectionInBounds` | Proxy/src/Common/Selector.cc:72-88 | every selection keeps each current weight above minus the total weight, and ineligible ones at zero |
| `Swrr.RunBalance` | Proxy/src/Common/Selector.cc:72-88 | after any number of selections a node's current weight is its due share less what it got |
| `Swrr.CycleIsFair` | Proxy/src/Common/Selector.cc:72-88 | W selections choose each node exactly its weight times and return all current weights to zero |
| `Swrr.EveryWindowIsFair` | Proxy/src/Common/Selector.cc:72-88 | so does every window of W consecutive selections |
| `Swrr.Smooth` | Proxy/src/Common/Selector.cc:72-88 | at every moment no node is a whole request ahead of its share, and its lag is bounded by (m-1)(W-1) |
| `Selectors.HealthFollowsStreaks` | Proxy/src/Common/ServerNode.h:15-36 | over any probe history and for any standards, the counters are the counted final streaks, and liveness changes only when a streak reaches its standard |
| `Selectors.ServerNode.UpdateStatus` | Proxy/src/Common/ServerNode.h:15-36 | the new health record after one probe |
| `Selectors.Selector.AddNode` | Proxy/src/Common/Selector.cc:8-29 | the group grows by the node; each of its 100 virtual points belongs to it, all other points to whom they did |
| `Selectors.Selector.RemoveNode` | Proxy/src/Common/Selector.cc:30-48 | every occurrence of the node leaves the group; its 100 points leave the ring and nothing else does |
| `Sequences.Erase` | Proxy/src/Common/Selector.cc:35-36 | erase after remove: all occurrences go, order is kept |
| `Sequences.WithoutConcat` | Proxy/src/Common/Selector.cc:35-36 | erasing goes through the list in order, part by part |
| `Selectors.Selector.GetNextServer` | Proxy/src/Common/Selector.cc:49-95 | for any group, repeated listings included, current weights and answer are those of one selection among the candidates; an empty group yields nobody, any other a server |
| `Selectors.Choose` | Proxy/src/Common/Selector.cc:70-88 | somebody is found, and pays back the total |
| `Selectors.Raise` | Proxy/src/Common/Selector.cc:72-83 | the loop over the node objects does to their current weights what the scan does |
| `Selectors.Selector.GetNextServerFor` | Proxy/src/Common/Selector.cc:97-113 | the key's owner on the ring |
| `HashRing.AddLoop` | Proxy/src/Common/Selector.cc:24-28 | after the loop each of the points belongs to the new address, all others to whom they did |
| `HashRing.RemoveLoop` | Proxy/src/Common/Selector.cc:43-47 | after the loop the points are gone and nothing else |
| `HashRing.Locate` | Proxy/src/Common/Selector.cc:104-113 | lower_bound, or begin() at the end, gives the first point at or after the hash going round |
| `HashRing.LookupNext` | Proxy/src/Common/Selector.cc:107-112 | a key goes to the first point not below its hash |
| `HashRing.LookupWraps` | Proxy/src/Common/Selector.cc:108-110 | or to the lowest point if there is none |
| `HashRing.AddMovesToNewOnly` | Proxy/src/Common/Selector.cc:18-28 | adding a node to a non-empty ring moves keys to that node only, even with colliding hashes |
| `HashRing.RemoveMovesOwnedOnly` | Proxy/src/Common/Selector.cc:39-47 | removing a node whose points are its own moves only keys it owned |
| `HashRing.TakeOver` | Proxy/src/Common/Selector.cc:39-47 | the keys of a removed point all go to the same successor |
| `HashRing.RemoveIsMinimalIff` | Proxy/src/Common/Selector.cc:39-47 | with collisions, removal moves only owned keys if and only if, on the ring before it, each point taken from another node is followed by a point of that node among those that stay |
| `HashRing.RemoveUndoesAdd` | Proxy/src/Common/Selector.cc:18-47 | removing undoes adding if and only if the added points were free |
| `HashRing.InsertionOrder` | Proxy/src/Common/Selector.cc:18-28 | the order of two insertions is irrelevant if and only if the addresses are equal or share no point |
| `HashRing.HistoryIrrelevantIff` | Proxy/src/Common/Selector.cc:18-47 | after any history of additions and removals the ring is a function of its members alone if and only if no two addresses share a point |
| `Selectors.SnapshotRoutes` | Proxy/src/Common/Selector.cc:97-113 | in every interleaving with additions and removals, a lookup goes by the ring of one moment: what the history up to then built |
| `CopyOnWrite.StepIsolated` | Proxy/src/Common/Selector.cc:8-41 | every step keeps the published object equal to what the history of committed changes makes, each held snapshot equal to the version acquired, and an object being edited in nobody else's hands |
| `CopyOnWrite.AcquireSeesLatest` | Proxy/src/Common/Selector.cc:52-55 | a reader gets the latest version, and is rid of it when it lets go |
| `CopyOnWrite.WriteTakesEffect` | Proxy/src/Common/Selector.cc:8-41 | a change goes through whoever reads: in place if nobody else holds the object, otherwise in a clone, the readers keeping theirs |
| `CopyOnWrite.ReplaceTakesEffect` | Proxy/src/L7/Middleware/ApiKeyAuth.cc:72-73 | so does a replacement, at once |
| `CopyOnWrite.SnapshotNeverChanges` | Proxy/src/Common/Selector.cc:50-56 | in every interleaving, what a reader sees through a pointer never changes while it holds it |
| `CopyOnWrite.VersionKeeps` | Proxy/src/L7/Middleware/ApiKeyAuth.cc:76-97 | a property every change preserves holds of every version ever published |
| `ApiKeyAuth.LessIsLexicographic` | Proxy/src/L7/Middleware/ApiKeyAuth.cc:8-13 | the order of keys is the lexicographic order of their octets |
| `ApiKeyAuth.NamesAre` | Proxy/src/L7/Middleware/ApiKeyAuth.cc:35-51 | the scheme is "bearer" and the field "authorization", each letter in either case |
| `ApiKeyAuth.LowerBound` | Proxy/src/L7/Middleware/ApiKeyAuth.cc:82-82 | bisection finds the boundary between smaller and not smaller keys |
| `ApiKeyAuth.BinarySearch` | Proxy/src/L7/Middleware/ApiKeyAuth.cc:108-108 | answers membership |
| `ApiKeyAuth.FoundAtBound` | Proxy/src/L7/Middleware/ApiKeyAuth.cc:82-83 | a key is in a sorted vector if and only if it is at its bound |
| `ApiKeyAuth.SortedUnique` | Proxy/src/L7/Middleware/ApiKeyAuth.cc:68-74 | a strictly sorted vector is determined by its set of keys |
| `ApiKeyAuth.DropRepeats` | Proxy/src/L7/Middleware/ApiKeyAuth.cc:71-71 | erase after unique: drops each key equal to the one before it |
| `ApiKeyAuth.UnrepeatedSorted` | Proxy/src/L7/Middleware/ApiKeyAuth.cc:69-71 | what that leaves of an ascending vector is strictly sorted and has the same keys |
| `ApiKeyAuth.ApplySorted` | Proxy/src/L7/Middleware/ApiKeyAuth.cc:68-96 | adding, removing and loading keep the vector strictly sorted and change its set of keys as they should |
| `ApiKeyAuth.VectorHoldsKnown` | Proxy/src/L7/Middleware/ApiKeyAuth.cc:68-96 | after any history of changes the vector is strictly sorted and holds exactly the keys then known |
| `ApiKeyAuth.ApiKeyAuthenticator.Load` | Proxy/src/L7/Middleware/ApiKeyAuth.cc:68-74 | the vector is strictly sorted and holds exactly the loaded keys |
| `ApiKeyAuth.ApiKeyAuthenticator.AddKey` | Proxy/src/L7/Middleware/ApiKeyAuth.cc:76-85 | the key set gains exactly the key and stays strictly sorted; adding a present key changes nothing |
| `ApiKeyAuth.ApiKeyAuthenticator.RemoveKey` | Proxy/src/L7/Middleware/ApiKeyAuth.cc:87-96 | the key set loses exactly the key and stays strictly sorted; removing an absent key changes nothing |
| `ApiKeyAuth.ApiKeyAuthenticator.Authenticate` | Proxy/src/L7/Middleware/ApiKeyAuth.cc:98-109 | true if and only if the header has the form of blanks, the scheme in any case, blanks, a token, blanks, with a token from the set |
| `ApiKeyAuth.ApiKeyAuthenticator.AuthenticateHeaders` | Proxy/src/L7/Middleware/ApiKeyAuth.cc:111-119 | the first Authorization field alone decides |
| `ApiKeyAuth.TokenExtracted` | Proxy/src/L7/Middleware/ApiKeyAuth.cc:44-57 | blanks, the scheme in any case, blanks, a token, blanks: yields that token |
| `ApiKeyAuth.OnlyThenExtracted` | Proxy/src/L7/Middleware/ApiKeyAuth.cc:44-57 | the converse: any header that yields a token has that form |
| `ApiKeyAuth.CarriesIs` | Proxy/src/L7/Middleware/ApiKeyAuth.cc:44-57 | a header in that form carries exactly the token that is extracted |
| `ApiKeyAuth.SnapshotAuthenticates` | Proxy/src/L7/Middleware/ApiKeyAuth.cc:76-109 | in every interleaving of readers with adding, removing and loading writers, a bisection of a held snapshot answers membership in the set of keys known when it was taken |
| `Buffers.Buffer.constructor` | utils/Buffer.h:9-13 | an empty queue (its size argument is ignored) |
| `Buffers.Buffer.Retrieve` | utils/Buffer.h:30-38 | drops octets from the front only |
| `Buffers.Buffer.RetrieveAllAsString` | utils/Buffer.h:45-49 | what is returned followed by what is left is what was there |
| `Buffers.Buffer.EnsureWriteableBytes` | utils/Buffer.h:51-55 | room is made without changing the queue; the array is replaced exactly when compaction would not suffice |
| `Buffers.Buffer.MakeSpace` | utils/Buffer.h:78-90 | compaction or growth, both preserving the queue |
| `Buffers.Buffer.Append` | utils/Buffer.h:57-61 | the queue grows by exactly the data |
| `Buffers.Buffer.ReadFd` | utils/Buffer.cc:5-31 | what was read, scattered over the buffer's end and the spare block, joins the queue in order |
| `TcpConnections.StepFaithful` | src/TcpConnection.cc:106-192 | every event keeps: socket stream followed by output buffer equals everything accepted; write interest exactly while octets wait; at most one FIN and only after everything |
| `TcpConnections.StepAfterFin` | src/TcpConnection.cc:184-264 | after the FIN nothing more is written, accepted or finished again |
| `TcpConnections.RunFaithful` | src/TcpConnection.cc:106-275 | the same over all runs, and the socket's stream only ever grows |
| `TcpConnections.RunDelivers` | src/TcpConnection.cc:106-157 | over all runs, socket stream and output buffer together are all data sent, in order, except sends refused with EPIPE or ECONNRESET |
| `TcpConnections.SendTakesEffect` | src/TcpConnection.cc:106-157 | with nothing waiting a send goes to the socket first, and what that does not take waits; otherwise it waits behind what waits |
| `TcpConnections.WritableTakesEffect` | src/TcpConnection.cc:229-264 | a writable socket takes octets from the front of what waits; interest in writing ends, and a deferred FIN goes out, exactly with the last |
| `TcpConnections.ShutdownTakesEffect` | src/TcpConnection.cc:175-192 | shutting down refuses further sends; the FIN goes out at once exactly if nothing waits |
| `TcpConnections.CloseTakesEffect` | src/TcpConnection.cc:158-275 | what closing, forced closing and destruction do in each state |
| `TcpConnections.DrainDelivers` | src/TcpConnection.cc:229-264 | once writable events have taken as many octets as were waiting, in whatever portions, everything accepted is in the socket and a shutdown asked for is completed |
| `TcpConnections.ShutdownCompletes` | src/TcpConnection.cc:175-264 | in particular from the moment the shutdown is asked for |
| `TcpConnections.TcpConnection.SendData` | src/TcpConnection.cc:90-104 | the object's state after a send, over the real buffer |
| `TcpConnections.TcpConnection.SendDataInLoop` | src/TcpConnection.cc:106-157 | direct write, then the rest into the buffer |
| `TcpConnections.TcpConnection.OnWritable` | src/TcpConnection.cc:229-264 | a writable event sends from the buffer's front and completes a deferred shutdown when it empties |
| `TcpConnections.TcpConnection.Shutdown` | src/TcpConnection.cc:175-192 | FIN at once if nothing waits, otherwise deferred |
| `TcpConnections.TcpConnection.HandleClose` | src/TcpConnection.cc:265-276 | disconnected, no write interest, nothing else changed |
| `TcpConnections.TcpConnection.ForceClose` | src/TcpConnection.cc:158-173 | closes a connection that is connected or disconnecting |
| `TcpConnections.TcpConnection.ConnectDestroyed` | src/TcpConnection.cc:202-209 | closes a connection that is still connected |
| `TlvCodec.OnTlvMessage` | Codec/TLVCodec.cc:13-36 | the loop terminates, emits exactly the messages of the drained stream, leaves the unfinished rest, and asks to shut down exactly on a wrong magic number |
| `TlvCodec.Send` | Codec/TLVCodec.cc:38-51 | header in network order followed by the body |
| `TlvCodec.ServeIsDrain` | Codec/TLVCodec.cc:13-36 | any segmentation emits, keeps and reports what the whole stream does |
| `TlvCodec.FramesArrive` | Codec/TLVCodec.cc:13-36 | any frames with any version octets and the beginning of another, in any segmentation, arrive complete and in order, leaving that beginning |
| `TlvCodec.DrainConserves` | Codec/TLVCodec.cc:13-36 | every stream is the frames of the emitted messages followed by what is left |
| `TlvCodec.SendRoundTrip` | Codec/TLVCodec.cc:38-51 | what is sent decodes to itself if and only if its size fits 32 bits |
| `TlvCodec.BeRead32` | Codec/protocol.h:8-16 | every four octets are the network order of a unique 32-bit number |
| `TlvCodec.FrameLayout` | Codec/protocol.h:8-16 | the eleven header octets one by one: the magic number, the version, the length modulo 2^32 and the type in network order, then the body |
| `TlvCodec.NetworkOrder` | Codec/TLVCodec.cc:24-25 | numbers are read with the first octet counting most |
| `TlvCodec.ShutsExactly` | Codec/TLVCodec.cc:19-23 | the handler asks to shut down exactly if what it stops at holds a header that does not begin with 12 34 56 78 |

## Left out

- The SSE4.2 search `findchar_fast` and alignment: only the scalar paths are modelled.
- `Proxy/src/L7/picohttpparser.c`, a copy of the parser that is not built.
- `HttpParser::parseResponse` and the proxy's handling of response bodies: they add substring searches, not framing.
- The int cast of a parsed length and the ssize_t cast of a remainder: inputs of 2^31 octets or more in one buffer.
- The views in `header_.headers`: they point into the buffer and are stale once it moves, so requests are compared by
  method, path and body only. What an application's request callback does, and the log output, are not modelled.
- Clock values of 2^32 ms and more: token bucket runs are those whose clock stays below that, about 49 days.
- Memory ordering weaker than sequential consistency, `shared_ptr` internals and allocation failure.
- CopyOnWrite.Step: `use_count()` and the clone are steps under the mutex; a reader releases its pointer at any time.
- Cross-thread `send` racing with `shutdown`, water-mark and write-complete callbacks, and connectEstablished's callbacks.
- Buffers.Buffer.ReadFd: the failed `readv`, whose result is compared as an unsigned number, is not modelled.
- Selectors.Selector.GetNextServer: liveness does not change during the call; `total` and current weights are unbounded
  integers.
- `std::sort`, `std::map::lower_bound` and `std::unique`: modelled by what they deliver, not by their algorithms.
- Timers, event loop, connectors, acceptor, poller, channel, health checks and connection pool: dominated by system
  calls and callbacks.
