# HttpFaultInjector core, modelled in Dafny

HttpFaultInjector is an interactive forward proxy for fault injection. It relays each
incoming HTTP request to the server the request names and captures the whole upstream
response. An operator at the console then picks how much of that response the client
gets: the full response, half the body, or nothing. The operator also picks how the
connection ends: normal return, a wait meant to last forever, close, or reset. As
written, the wait throws instead of waiting (see "## Findings").

This project models the pure decisions inside the request handler. Both revisions of
the program are covered: `src/Program.cs` (line commands) and the earlier `Program.cs`
(key presses). Network effects are a trace of events.

- `Common`: `Option`, `Result`, and a `byte` type.
- `Seqs`: LINQ's `Where` as `Filter`, the first failing element of a `foreach` that
  throws, and lemmas on order (subsequence) and counts (multisets).
- `HeaderRules`: the `_excludedRequestHeaders` and `_contentRequestHeaders` lists. It
  has the three-way classification, ordinal and case-sensitive. It also has the ASCII
  ignore-case comparison used for `Transfer-Encoding`.
- `UpstreamRelay`: `SendUpstreamRequest`. This covers the upstream URL as a record of
  components, the split of request headers between the message and the content, the
  abort on a rejected add, and the capture of the response headers. The HTTP client
  is a parameter `send`.
- `Delivery`: `SendDownstreamResponse` and the finishing actions, as a `seq<Event>`.
  Kestrel's response header dictionary throws on a repeated name (ignoring case). The
  model records this as a `Failed` event that ends the trace.
- `Selection`: the `while (true)` re-prompt loop, shared by both revisions over a
  finite sequence of inputs.
- `LineCommands`: the seven-token `switch` of `src/Program.cs` and the handler built
  from it.
- `KeyCommands`: the two-key `switch` of `Program.cs` and its handler.

The two files hold the same text for the request and response header logic
(`src/Program.cs:116-203` and `Program.cs:86-173`). So `HeaderRules` and
`UpstreamRelay` model both files, and the rows below cite either one. Full delivery
in `Program.cs:175-193` is `SendDownstreamResponse` with no byte count.

Points where the code's behaviour is easy to misread:
- Request header names are matched case-sensitively (`string[].Contains` is
  ordinal). So `proxy-connection` is forwarded, and `content-length` is not matched
  by the content filter: it is offered to the outbound message instead. Whether the
  message takes it is the `acceptsMessage` parameter. .NET's message header
  collection refuses content-header names in any case, so the relay then fails with
  `HeaderRejected`. Kestrel normally presents these headers under their canonical
  spelling, so this case needs a lower-case key to reach the filter.
- `Transfer-Encoding` is removed only from the upstream message headers. Content
  headers are copied unfiltered. So the captured response is free of it only when the
  content headers carry none (`CaptureDropsTransferEncoding`).
- `n`, `nc` and `na` write no status and no headers: `SendDownstreamResponse` is
  not called for them.
- For an empty body, `p`, `pc` and `pa` still write the status and all headers,
  followed by an empty body write. They do not behave like `n`.
- The earlier revision's `a` calls `context.Abort()`. That is the same call the later
  revision's `Close` makes, so `a` is modelled as a close (`Closed` event), not a
  reset.
- `Task.Delay(TimeSpan.MaxValue)` throws: the delay is beyond the largest one
  `Task.Delay` accepts. The line-command handler takes the delay as a parameter:
  with `TimeSpan.MaxValue` it is the handler as written, and with the infinite delay
  it is the handler as intended (see "## Findings").
- A port above 65535 in the incoming `Host` makes the `UriBuilder.Port` setter
  throw. The relay then fails before any header is added and nothing is sent
  upstream (`PortOutOfRange`).

## Model

| member | source | states |
|---|---|---|
| Seqs.Filter | src/Program.cs:151 | `Where` keeps exactly the elements satisfying the predicate, every one of them, nothing else |
| Seqs.FilterIsSubsequence | src/Program.cs:144 | `Where` preserves the original relative order |
| Seqs.FilterCount | src/Program.cs:151 | each element occurs in the filtered list as often as in the input if it passes, and never otherwise |
| Seqs.FirstFailing | src/Program.cs:151-157 | the adding loop stops at the first rejected header; all earlier headers were accepted; no stop means every header was accepted |
| Seqs.FirstRefusedOfFilter | src/Program.cs:144-157 | the header a loop over a `Where` stops at is the first header of the unfiltered list that the filter selects and the add refuses |
| HeaderRules.Classify | src/Program.cs:23-32 | a name is hop-only iff it is exactly `Proxy-Connection`, content-descriptive iff exactly `Content-Length` or `Content-Type` |
| HeaderRules.RequestFiltersMatchClassify | src/Program.cs:144 | the content filter selects exactly the content-descriptive names and the message filter exactly the pass-through names; no name is selected by both |
| HeaderRules.IsContentRequestHeader | src/Program.cs:144 | the content filter selects exactly the names `Content-Length` and `Content-Type` |
| HeaderRules.IsForwardedRequestHeader | src/Program.cs:151 | the message filter selects exactly the names other than `Proxy-Connection`, `Content-Length` and `Content-Type` |
| HeaderRules.TransferEncodingMatch | src/Program.cs:175 | a name matches `Transfer-Encoding` iff it has the same length and agrees at every position up to the case of letters |
| HeaderRules.TransferEncodingSpellings | src/Program.cs:175 | instances: `transfer-encoding` matches, `Transfer_Encoding` does not |
| UpstreamRelay.HasPositiveContentLength | src/Program.cs:140 | a missing content length counts as not positive; a present one is positive iff above zero |
| UpstreamRelay.UpstreamUriOf | Program.cs:88-99 | scheme, host, path and query are copied; the port is set explicitly iff the incoming host has one, and to that value |
| UpstreamRelay.PortAccepted | src/Program.cs:126-129 | without a port the setter is not called; with one, it is accepted exactly from -1 through 65535 |
| UpstreamRelay.BuildUpstreamRequest | src/Program.cs:118-158 | a port the URL builder refuses fails first, naming the port; otherwise success iff every content header is accepted (when the length is positive) and every pass-through header is accepted; a refused content header wins over a refused pass-through header, and each error names the first refused header in request order; content exists iff the length is positive; message headers are all pass-through, content headers all content-descriptive; method, URL and body carried over |
| UpstreamRelay.ProxyConnectionNeverForwarded | src/Program.cs:151 | `Proxy-Connection` is on neither the outbound message nor its content |
| UpstreamRelay.MessageHeadersPlacedOnce | src/Program.cs:151-157 | every copy of a header is on the outbound message iff the independent `Destination` partition says message, else none is |
| UpstreamRelay.ContentHeadersPlacedOnce | src/Program.cs:140-148 | every copy of a header is on the outbound content iff `Destination` says content, else none is; with the message lemma each header lands in exactly one place |
| UpstreamRelay.OutboundHeadersKeepOrder | src/Program.cs:144-157 | outbound message and content headers are subsequences of the incoming ones, values unchanged, and no pass-through header is missing |
| UpstreamRelay.ContentHeadersDroppedWithoutBody | Program.cs:110-121 | without a positive length there is no content and `Content-Length`/`Content-Type` are forwarded nowhere |
| UpstreamRelay.CaptureHeaders | src/Program.cs:164-187 | the captured list consists of upstream headers only, ends with all content headers, contains every non-`Transfer-Encoding` message header |
| UpstreamRelay.CaptureKeepsOrder | src/Program.cs:169-181 | the message part of the captured list is an ordered subsequence of the upstream message headers, free of `Transfer-Encoding` |
| UpstreamRelay.CaptureHeaderCount | src/Program.cs:169-187 | each header's captured count is its message count (zero for `Transfer-Encoding`) plus its content count |
| UpstreamRelay.CaptureDropsTransferEncoding | Program.cs:139-157 | with no `Transfer-Encoding` among upstream content headers, the captured response has none |
| UpstreamRelay.Capture | src/Program.cs:191-196 | status and body are copied; the headers end with all upstream content headers and are bounded by the upstream headers |
| UpstreamRelay.Relay | src/Program.cs:136-201 | a capture exists exactly when the build and the send both succeed, and it is the capture of what the send returned; a rejected header yields the build's error and a failed send yields `Upstream` of the send's error |
| Delivery.AddHeaders | src/Program.cs:214-218 | the header events are the captured headers in order; every header added has a name new so far, ignoring case, and the failure, if any, falls on the first header whose name repeats an earlier one, naming it; without a failure every header is added |
| Delivery.AddTraceStep | src/Program.cs:214-218 | a new first header added in front of the adds of the remaining headers gives the adds of all headers, with the failure still at the first repeat |
| Delivery.RepeatsEarlierShift | src/Program.cs:214-218 | once the first header is added, header `k` repeats an earlier name iff header `k - 1` of the remaining headers does |
| Delivery.AddHeadersDistinct | src/Program.cs:214-218 | with distinct names (ignoring case) every header is added, in order, and nothing fails |
| Delivery.AddHeadersRepeated | src/Program.cs:214-218 | a name repeated (ignoring case) makes the adds throw |
| Delivery.AddHeadersReachName | src/Program.cs:214-218 | a header whose name was already added (ignoring case) makes the adds throw no later than that header |
| Delivery.SendDownstreamResponse | src/Program.cs:205-223 | the status comes first, the trace is bounded by the headers, and a body write, if any, is the last event |
| Delivery.TaskDelay | src/Program.cs:77 | `Task.Delay` waits forever iff given the infinite delay, and throws iff the delay is below it or above 4294967294 ms |
| Delivery.FinishWith | src/Program.cs:77-99 | close leaves exactly `Closed`, abort exactly `Reset`, waiting exactly the delay's events, returning leaves no event |
| Delivery.FinishEvents | src/Program.cs:74-100 | with the infinite delay: return leaves nothing, wait exactly `Waiting`, close exactly `Closed` (FIN), abort exactly `Reset` (RST) |
| Delivery.BodyCount | src/Program.cs:76 | the full count is the body length; the half count is the body length divided by two, rounded down |
| Delivery.DeliverWith | src/Program.cs:70-100 | a plan without a response yields only its finishing events; any other plan starts with the status |
| Delivery.ThenFinish | src/Program.cs:107-110 | an exception in the response part ends the trace there (the catch returns); otherwise the finishing events follow the part unchanged |
| Delivery.Deliver | src/Program.cs:70-100 | as `DeliverWith` with the infinite delay: only finishing events without a response, the status first otherwise |
| Delivery.DeliverAsWritten | src/Program.cs:70-100 | as `DeliverWith` with `TimeSpan.MaxValue` as the delay, as the code passes it |
| Delivery.ResponsePartWritten | src/Program.cs:205-223 | status, then one header event per captured header in order, then one write of the first `count` body bytes |
| Delivery.DeliverFull | src/Program.cs:70-73 | `f`: status, all headers in order, the whole body, nothing after |
| Delivery.DeliverHalf | src/Program.cs:74-88 | `p`/`pc`/`pa`: status, all headers, exactly the first `Length / 2` bytes (a prefix, empty for an empty body), then the finishing event |
| Delivery.DeliverNothing | src/Program.cs:89-100 | `n`/`nc`/`na`: a single finishing event with no status, header or body |
| Delivery.WaitAsWrittenThrows | src/Program.cs:77 | as written, a waiting plan's trace ends in the `Task.Delay` failure and never contains `Waiting` |
| Delivery.AddHeadersNeverWait | src/Program.cs:214-218 | header adds never produce a waiting event |
| Delivery.WaitForeverHangs | src/Program.cs:89-92 | as intended, a waiting plan whose response part succeeded ends its trace with `Waiting` |
| Delivery.AsWrittenAgreesBesidesWait | src/Program.cs:79-100 | for return, close and abort the written and intended deliveries are identical |
| Delivery.DeliverRepeatedHeader | src/Program.cs:214-218 | a repeated header name stops delivery before any body byte and before the finishing action |
| Selection.Select | src/Program.cs:64-104 | the rejected inputs are exactly the prefix before the chosen input, all unrecognised; the plan is the chosen input's; the rest follows it |
| Selection.SelectFirstRecognised | src/Program.cs:64-104 | the first recognised input decides the plan, whatever follows it |
| Selection.SelectExhaustedIff | src/Program.cs:64-104 | the loop finds no plan iff no input is recognised |
| Selection.Rejections | src/Program.cs:101-103 | one `Invalid selection` event per rejected line, in order |
| LineCommands.ParseSelection | src/Program.cs:68-104 | a line yields a plan iff it is one of the seven tokens exactly; the first letter names the body (`f` full, `p` half, `n` none), a second `c` closes, `a` aborts, none waits (except `f`, which returns) |
| LineCommands.TokenOf | src/Program.cs:55-62 | every reachable plan has a menu token |
| LineCommands.TokensRoundTrip | src/Program.cs:55-100 | menu token and switch are inverse: the token of a plan selects it, and a token selecting a plan is its token |
| LineCommands.HandleCaptured | src/Program.cs:64-105 | for any delay passed to `Task.Delay` (`TimeSpan.MaxValue` as written, infinite as intended): unread lines are a suffix of the console; with no token every line yields one rejection and nothing else |
| LineCommands.HandleRequest | src/Program.cs:46-111 | for any delay (`TimeSpan.MaxValue` as written, infinite as intended): the request fails with the relay's error iff the relay fails; otherwise the run is the console handling of the captured response with that delay |
| LineCommands.HandleFirstToken | src/Program.cs:64-104 | for every delay, so both as written and as intended: the trace is one rejection per line before the first token, then that token's delivery with that delay; later lines stay unread |
| LineCommands.TokenEndsConnection | src/Program.cs:74-100 | the last event of a non-`f` token's delivery is `Closed` iff the token ends in `c`, `Reset` iff it ends in `a`, and, as intended rather than as written, `Waiting` iff it has one letter (as written, `AsWrittenAgreesBesidesWait` carries only the close and reset cases over) |
| LineCommands.TokenEndsConnectionAsWritten | src/Program.cs:74-100 | as written, the last event of a non-`f` token's delivery is `Closed` iff the token ends in `c`, `Reset` iff it ends in `a`, and the delay failure iff it has one letter; no token ever leaves `Waiting` |
| LineCommands.OneLetterAsWritten | src/Program.cs:74-92 | as written, `p` and `n` end in the delay failure and never wait |
| LineCommands.TwoLettersAsWritten | src/Program.cs:79-98 | as written, `pc`, `pa`, `nc` and `na` end in `Closed` or `Reset` by their second letter and never wait |
| LineCommands.HandleNoToken | src/Program.cs:101-104 | a console without tokens yields only rejections |
| LineCommands.TokensAreCaseSensitive | src/Program.cs:68 | `F`, `PC`, `f ` and the empty line select nothing |
| LineCommands.StatusOkPartialScenario | src/Program.cs:46-111 | the whole handler on `GET /status/200` with a chunked `OK` answer and `p`: status 200, the kept headers, one byte, then waiting as intended, or the delay failure as written |
| LineCommands.ScenarioDelivery | src/Program.cs:74-78 | `p` on the scenario's two-byte capture writes status, both headers, the first byte, then waits as intended, or ends in the delay failure as written |
| LineCommands.ScenarioCapture | src/Program.cs:169-187 | the scenario's chunked `Transfer-Encoding` is dropped and its other headers kept in order |
| KeyCommands.ParseKey | Program.cs:62-73 | a key yields a plan iff it is `f` or `a` |
| KeyCommands.KeyRejections | Program.cs:70-72 | one `Invalid selection` event per rejected key |
| KeyCommands.HandleCaptured | Program.cs:58-75 | unread keys are a suffix of the input; with neither `f` nor `a` every key yields one rejection only |
| KeyCommands.HandleRequest | Program.cs:43-81 | the request fails with the relay's error iff the relay fails; otherwise the run is the key handling of the captured response |
| KeyCommands.AdvertisedKeysRejected | Program.cs:52-73 | keys before the first `f`/`a`, including the advertised `p` and `n`, yield one rejection each; then that key's delivery |
| KeyCommands.FullKeyDelivers | Program.cs:175-192 | `f`: status, all headers in order, the whole body; identical to the later revision's `f` |
| KeyCommands.AbortKeyOnlyCloses | Program.cs:67-69 | `a`: only the `context.Abort()` close, no status, header or body |

## Findings

| source | as written | input that shows it | evidently intended | confidence | as-written member | corrected member |
|---|---|---|---|---|---|---|
| src/Program.cs:77 | `await Task.Delay(TimeSpan.MaxValue)` throws because the delay is above the largest `Task.Delay` accepts (4294967294 ms); the catch at lines 107-110 logs it and the handler returns, so nothing hangs (same at line 91) | selection `p` or `n`, e.g. `p` on a 200 response with body `OK` | suspend forever, e.g. `Task.Delay(Timeout.InfiniteTimeSpan)` | not executed | Delivery.WaitAsWrittenThrows | Delivery.WaitForeverHangs |

## Left out

- Kestrel host setup, port binding and TLS certificate loading are not modelled. They
  are framework plumbing.
- `HttpClient.SendAsync` and `ReadAsByteArrayAsync` are foreign network calls. They
  are the `send` parameter, which returns the upstream status, message headers,
  content headers and body, or an upstream error.
- The validation inside `Content.Headers.Add` and `TryAddWithoutValidation` is
  library code. It is the two `accepts` parameters.
- The URL string produced by `UriBuilder` is not modelled. The URL is a record of its
  components.
- UpstreamRelay.BuildUpstreamRequest: models the port range check of the
  `UriBuilder.Port` setter, but not the host check of `UriBuilder.Uri`. That check
  throws `UriFormatException` for an empty or malformed host, for example an HTTP/1.0
  request without `Host`. The model builds the request for any host, because URI
  parsing is library code.
- UpstreamRelay.PortAccepted: a port of -1 means the scheme's default to `UriBuilder`,
  but the model records it as an explicit -1. `HostString.Port` parses digits only, so
  an incoming port is never negative.
- The socket behaviour of `Close` (FIN through `context.Abort()`) and `Abort` (RST
  through zero linger on the reflected `_socket`) is not modelled. They are the opaque
  events `Closed` and `Reset`.
- Timing is not modelled. The infinite delay is the terminal event `Waiting`. An
  out-of-range delay is the event `Failed(DelayOutOfRange)`.
- What the framework does after a handler returns is not modelled: completing the
  response, or sending an empty default response when nothing was written. This
  covers returns after a caught exception.
- Logging and timestamps are left out.
- The top-level `catch` is modelled only by its effect. The trace stops with `Failed`,
  or the outcome is `RelayFailed`.
- Concurrent connections sharing one console are not modelled. The model handles one
  request at a time and returns the unread console input.
- At end of input `Console.ReadLine` returns null, and the source then rejects forever.
  The model's finite input ends in `Exhausted` after rejecting every line.
- Kestrel's character validation of response header values is not modelled, and
  neither is its reaction to a `Content-Length` header that disagrees with the bytes
  written. Both are framework behaviour.
- The ignore-case comparison folds only ASCII letters. Header names are HTTP tokens,
  so they are ASCII.
- Integer widths (`long?` content length, `int` status and body length) are unbounded
  here. No value in the modelled code can overflow: the half count is at most the
  array length.
- Delivery.ResponsePartWritten: states the complete trace only for captured headers
  with distinct names (ignoring case). With a repeated name the source throws;
  `DeliverRepeatedHeader` states that case.
- Delivery.DeliverFull: states the trace only for distinct captured header names, for
  the same reason.
- Delivery.DeliverHalf: states the trace only for distinct captured header names, for
  the same reason.
- KeyCommands.FullKeyDelivers: states the trace only for distinct captured header
  names, for the same reason.
- UpstreamRelay.CaptureDropsTransferEncoding: requires that the upstream content
  headers have no `Transfer-Encoding`. The source does not filter content headers.
