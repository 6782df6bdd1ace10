/** Building the upstream request from an incoming one and capturing the
    upstream response (`SendUpstreamRequest`, identical in both revisions). */
module UpstreamRelay {
  import opened Common
  import opened Seqs
  import opened HeaderRules

  /** The parts of an incoming request the relay reads. `verb` is the HTTP
      method, `contentLength` is the
      nullable `ContentLength` property; `port` is the optional port of `Host`. */
  datatype IncomingRequest = IncomingRequest(
    verb: string,
    scheme: string,
    host: string,
    port: Option<int>,
    path: string,
    query: string,
    headers: seq<Header>,
    contentLength: Option<int>,
    body: seq<byte>)

  /** The port of the upstream URL: set explicitly, or left to the scheme's default. */
  datatype Port = SchemeDefault | Explicit(number: int)

  /** The upstream URL as the record of components given to `UriBuilder`. */
  datatype UpstreamUri = UpstreamUri(scheme: string, host: string, port: Port, path: string, query: string)

  /** The outbound body: the incoming body stream and the headers set on it. */
  datatype OutboundContent = OutboundContent(body: seq<byte>, headers: seq<Header>)

  /** The outbound `HttpRequestMessage`. `content` is absent unless the incoming
      request declared a positive length. */
  datatype OutboundRequest = OutboundRequest(
    verb: string,
    uri: UpstreamUri,
    headers: seq<Header>,
    content: Option<OutboundContent>)

  /** What the HTTP client hands back: status, message headers, content headers, body. */
  datatype UpstreamMessage = UpstreamMessage(
    status: int,
    headers: seq<Header>,
    contentHeaders: seq<Header>,
    body: seq<byte>)

  /** The fully read upstream response kept for delivery. */
  datatype CapturedResponse = CapturedResponse(status: int, headers: seq<Header>, body: seq<byte>)

  /** Failures of the HTTP client itself. */
  datatype UpstreamError = Unreachable | Timeout | ProtocolError

  /** Everything that stops the relay; the handler logs it and delivers nothing. */
  datatype RelayError =
    | PortOutOfRange(port: int)
    | ContentHeaderRejected(name: string)
    | HeaderRejected(name: string)
    | Upstream(cause: UpstreamError)

  /** `request.ContentLength > 0`, where a missing length compares false. */
  predicate HasPositiveContentLength(req: IncomingRequest): (b: bool)
    ensures req.contentLength.None? ==> !b
    ensures req.contentLength.Some? ==> (b <==> req.contentLength.value > 0)
  {
    req.contentLength.Some? && req.contentLength.value > 0
  }

  /** The largest port `UriBuilder.Port` accepts. */
  const MaxPort := 65535

  /** The `UriBuilder.Port` setter accepts -1 (the scheme's default) through
      `MaxPort` and throws for anything else; it is called only when the
      incoming host names a port. */
  predicate PortAccepted(req: IncomingRequest): (b: bool)
    ensures req.port.None? ==> b
    ensures req.port.Some? ==> (b <==> -1 <= req.port.value <= MaxPort)
  {
    req.port.None? || -1 <= req.port.value <= MaxPort
  }

  /** The upstream URL: every component copied, the port only when the incoming
      host names one. */
  function UpstreamUriOf(req: IncomingRequest): (u: UpstreamUri)
    ensures u.scheme == req.scheme && u.host == req.host
    ensures u.path == req.path && u.query == req.query
    ensures u.port.Explicit? <==> req.port.Some?
    ensures u.port.Explicit? ==> u.port.number == req.port.value
  {
    UpstreamUri(req.scheme, req.host,
                if req.port.Some? then Explicit(req.port.value) else SchemeDefault,
                req.path, req.query)
  }

  /** Where one request header ends up: the reference partition the relay must follow. */
  datatype Placement = OnMessage | OnContent | Dropped

  function Destination(hasContent: bool, name: string): Placement {
    match Classify(name)
    case HopOnly => Dropped
    case ContentDescriptive => if hasContent then OnContent else Dropped
    case PassThrough => OnMessage
  }

  /** The headers set on the outbound content, or none when there is no content. */
  function ContentHeadersOf(out: OutboundRequest): seq<Header> {
    if out.content.Some? then out.content.value.headers else []
  }

  /** The outbound request: the URL is built first, and a port `UriBuilder`
      refuses aborts; then the content headers are added (only with a
      positive length) and the first one `acceptsContent` refuses aborts; then
      the pass-through headers are added and the first one `acceptsMessage`
      refuses aborts. `acceptsContent` and `acceptsMessage` stand for the
      validation inside `Content.Headers.Add` and `TryAddWithoutValidation`. */
  function BuildUpstreamRequest(req: IncomingRequest, acceptsContent: Header -> bool, acceptsMessage: Header -> bool)
    : (r: Result<OutboundRequest, RelayError>)
    ensures !PortAccepted(req) ==> r == Err(PortOutOfRange(req.port.value))
    ensures r.Ok? <==>
              && PortAccepted(req)
              && (HasPositiveContentLength(req) ==>
                    forall i :: 0 <= i < |req.headers| && IsContentRequestHeader(req.headers[i]) ==> acceptsContent(req.headers[i]))
              && (forall i :: 0 <= i < |req.headers| && IsForwardedRequestHeader(req.headers[i]) ==> acceptsMessage(req.headers[i]))
    ensures r.Err? && r.error.ContentHeaderRejected? ==>
              HasPositiveContentLength(req) && r.error.name in ContentRequestHeaders
    ensures r.Err? && r.error.HeaderRejected? ==>
              Classify(r.error.name) == PassThrough
    // a refused content header wins over a refused message header, and each
    // error names the first refused header in request order
    ensures PortAccepted(req) && HasPositiveContentLength(req)
            && (exists i :: 0 <= i < |req.headers| && IsContentRequestHeader(req.headers[i]) && !acceptsContent(req.headers[i]))
            ==> r.Err? && r.error.ContentHeaderRejected?
    ensures r.Err? && r.error.ContentHeaderRejected? ==>
              exists i :: FirstRefused(req.headers, IsContentRequestHeader, acceptsContent, i)
                          && req.headers[i].name == r.error.name
    ensures r.Err? && r.error.HeaderRejected? ==>
              && PortAccepted(req)
              && (HasPositiveContentLength(req) ==>
                    forall i :: 0 <= i < |req.headers| && IsContentRequestHeader(req.headers[i]) ==> acceptsContent(req.headers[i]))
              && exists i :: FirstRefused(req.headers, IsForwardedRequestHeader, acceptsMessage, i)
                             && req.headers[i].name == r.error.name
    ensures r.Ok? ==> r.value.verb == req.verb && r.value.uri == UpstreamUriOf(req)
    ensures r.Ok? ==> (r.value.content.Some? <==> HasPositiveContentLength(req))
    ensures r.Ok? && r.value.content.Some? ==> r.value.content.value.body == req.body
    ensures r.Ok? ==> forall i :: 0 <= i < |r.value.headers| ==> Classify(r.value.headers[i].name) == PassThrough
    ensures r.Ok? ==> forall i :: 0 <= i < |ContentHeadersOf(r.value)| ==>
                        Classify(ContentHeadersOf(r.value)[i].name) == ContentDescriptive
  {
    var contentHeaders := Filter(req.headers, IsContentRequestHeader);
    var messageHeaders := Filter(req.headers, IsForwardedRequestHeader);
    var contentRejected := if HasPositiveContentLength(req) then FirstFailing(contentHeaders, acceptsContent) else None;
    var messageRejected := FirstFailing(messageHeaders, acceptsMessage);
    if !PortAccepted(req) then
      Err(PortOutOfRange(req.port.value))
    else if contentRejected.Some? then
      FirstFailingOfFilter(req.headers, IsContentRequestHeader, acceptsContent);
      Err(ContentHeaderRejected(contentHeaders[contentRejected.value].name))
    else if messageRejected.Some? then
      FirstFailingOfFilter(req.headers, IsForwardedRequestHeader, acceptsMessage);
      Err(HeaderRejected(messageHeaders[messageRejected.value].name))
    else
      Ok(OutboundRequest(
           req.verb,
           UpstreamUriOf(req),
           messageHeaders,
           if HasPositiveContentLength(req) then Some(OutboundContent(req.body, contentHeaders)) else None))
  }

  /** The captured header list: upstream message headers without any
      `Transfer-Encoding`, then every upstream content header. */
  function CaptureHeaders(msg: UpstreamMessage): (hs: seq<Header>)
    ensures forall i :: 0 <= i < |hs| ==> hs[i] in msg.headers || hs[i] in msg.contentHeaders
    ensures forall i :: 0 <= i < |hs| && hs[i] in msg.headers && hs[i] !in msg.contentHeaders ==> !IsTransferEncoding(hs[i])
    ensures forall i :: 0 <= i < |msg.contentHeaders| ==> msg.contentHeaders[i] in hs
    ensures forall i :: 0 <= i < |msg.headers| && !IsTransferEncoding(msg.headers[i]) ==> msg.headers[i] in hs
    ensures |msg.contentHeaders| <= |hs| <= |msg.headers| + |msg.contentHeaders|
    ensures hs[|hs| - |msg.contentHeaders|..] == msg.contentHeaders
  {
    Filter(msg.headers, IsKeptResponseHeader) + msg.contentHeaders
  }

  /** The capture of an upstream response. */
  function Capture(msg: UpstreamMessage): (c: CapturedResponse)
    ensures c.status == msg.status && c.body == msg.body
    ensures |msg.contentHeaders| <= |c.headers| <= |msg.headers| + |msg.contentHeaders|
    ensures c.headers[|c.headers| - |msg.contentHeaders|..] == msg.contentHeaders
  {
    CapturedResponse(msg.status, CaptureHeaders(msg), msg.body)
  }

  /** The whole relay: build the outbound request, send it through `send` (the
      HTTP client), capture what comes back. Any failure yields no capture. */
  function Relay(req: IncomingRequest, acceptsContent: Header -> bool, acceptsMessage: Header -> bool,
                 send: OutboundRequest -> Result<UpstreamMessage, UpstreamError>)
    : (r: Result<CapturedResponse, RelayError>)
    ensures BuildUpstreamRequest(req, acceptsContent, acceptsMessage).Err? ==>
              r == Err(BuildUpstreamRequest(req, acceptsContent, acceptsMessage).error)
    ensures r.Ok? ==> BuildUpstreamRequest(req, acceptsContent, acceptsMessage).Ok?
    ensures r.Ok? ==> var out := BuildUpstreamRequest(req, acceptsContent, acceptsMessage).value;
                      send(out).Ok? && r.value == Capture(send(out).value)
    ensures r.Ok? <==> BuildUpstreamRequest(req, acceptsContent, acceptsMessage).Ok? &&
                       send(BuildUpstreamRequest(req, acceptsContent, acceptsMessage).value).Ok?
    ensures BuildUpstreamRequest(req, acceptsContent, acceptsMessage).Ok? ==>
              var out := BuildUpstreamRequest(req, acceptsContent, acceptsMessage).value;
              send(out).Err? ==> r == Err(Upstream(send(out).error))
  {
    match BuildUpstreamRequest(req, acceptsContent, acceptsMessage)
    case Err(e) => Err(e)
    case Ok(out) =>
      match send(out)
      case Err(e) => Err(Upstream(e))
      case Ok(msg) => Ok(Capture(msg))
  }

  // ---------------------------------------------------------------------------
  // Properties of the request side
  // ---------------------------------------------------------------------------

  /** `Proxy-Connection`, spelled exactly so, reaches neither the outbound
      message nor its content. */
  lemma ProxyConnectionNeverForwarded(req: IncomingRequest, acceptsContent: Header -> bool, acceptsMessage: Header -> bool)
    requires BuildUpstreamRequest(req, acceptsContent, acceptsMessage).Ok?
    ensures var out := BuildUpstreamRequest(req, acceptsContent, acceptsMessage).value;
            && (forall i :: 0 <= i < |out.headers| ==> out.headers[i].name != ProxyConnection)
            && (forall i :: 0 <= i < |ContentHeadersOf(out)| ==> ContentHeadersOf(out)[i].name != ProxyConnection)
  {
  }

  /** Each incoming header goes to exactly one place. On the message side: every
      copy of a header is on the outbound message if `Destination` says so, and
      none is otherwise. */
  lemma MessageHeadersPlacedOnce(req: IncomingRequest, acceptsContent: Header -> bool, acceptsMessage: Header -> bool, h: Header)
    requires BuildUpstreamRequest(req, acceptsContent, acceptsMessage).Ok?
    ensures multiset(BuildUpstreamRequest(req, acceptsContent, acceptsMessage).value.headers)[h]
              == if Destination(HasPositiveContentLength(req), h.name) == OnMessage then multiset(req.headers)[h] else 0
  {
    RequestFiltersMatchClassify(h);
    FilterCount(req.headers, IsForwardedRequestHeader, h);
  }

  /** On the content side: every copy of a header is on the outbound content if
      `Destination` says so, and none is otherwise. With `MessageHeadersPlacedOnce`
      this puts each header in exactly one of message, content, nowhere. */
  lemma ContentHeadersPlacedOnce(req: IncomingRequest, acceptsContent: Header -> bool, acceptsMessage: Header -> bool, h: Header)
    requires BuildUpstreamRequest(req, acceptsContent, acceptsMessage).Ok?
    ensures multiset(ContentHeadersOf(BuildUpstreamRequest(req, acceptsContent, acceptsMessage).value))[h]
              == if Destination(HasPositiveContentLength(req), h.name) == OnContent then multiset(req.headers)[h] else 0
  {
    RequestFiltersMatchClassify(h);
    FilterCount(req.headers, IsContentRequestHeader, h);
  }

  /** The outbound message headers are exactly the pass-through incoming headers,
      in their original order and with their values unchanged; likewise the
      content headers are the content-descriptive ones. */
  lemma {:induction false} OutboundHeadersKeepOrder(req: IncomingRequest, acceptsContent: Header -> bool, acceptsMessage: Header -> bool)
    requires BuildUpstreamRequest(req, acceptsContent, acceptsMessage).Ok?
    ensures var out := BuildUpstreamRequest(req, acceptsContent, acceptsMessage).value;
            && IsSubsequence(out.headers, req.headers)
            && IsSubsequence(ContentHeadersOf(out), req.headers)
            && (forall i :: 0 <= i < |req.headers| && Classify(req.headers[i].name) == PassThrough ==> req.headers[i] in out.headers)
  {
    FilterIsSubsequence(req.headers, IsForwardedRequestHeader);
    FilterIsSubsequence(req.headers, IsContentRequestHeader);
    forall i | 0 <= i < |req.headers| && Classify(req.headers[i].name) == PassThrough
      ensures IsForwardedRequestHeader(req.headers[i])
    {
      RequestFiltersMatchClassify(req.headers[i]);
    }
  }

  /** Without a positive content length, `Content-Length` and `Content-Type` are
      forwarded nowhere. */
  lemma ContentHeadersDroppedWithoutBody(req: IncomingRequest, acceptsContent: Header -> bool, acceptsMessage: Header -> bool)
    requires BuildUpstreamRequest(req, acceptsContent, acceptsMessage).Ok?
    requires !HasPositiveContentLength(req)
    ensures var out := BuildUpstreamRequest(req, acceptsContent, acceptsMessage).value;
            && out.content.None?
            && forall i :: 0 <= i < |out.headers| ==> out.headers[i].name != ContentLength && out.headers[i].name != ContentType
  {
  }

  // ---------------------------------------------------------------------------
  // Properties of the capture
  // ---------------------------------------------------------------------------

  /** The captured list starts with the kept message headers, in their upstream
      order and with no `Transfer-Encoding` among them. */
  lemma CaptureKeepsOrder(msg: UpstreamMessage)
    ensures var hs := CaptureHeaders(msg);
            var kept := hs[..|hs| - |msg.contentHeaders|];
            && IsSubsequence(kept, msg.headers)
            && (forall i :: 0 <= i < |kept| ==> !IsTransferEncoding(kept[i]))
  {
    var kept := Filter(msg.headers, IsKeptResponseHeader);
    assert CaptureHeaders(msg)[..|CaptureHeaders(msg)| - |msg.contentHeaders|] == kept;
    FilterIsSubsequence(msg.headers, IsKeptResponseHeader);
  }

  /** Each header occurs in the captured list as often as among the upstream
      message headers (never, if it is a `Transfer-Encoding`) plus as often as
      among the upstream content headers. */
  lemma CaptureHeaderCount(msg: UpstreamMessage, h: Header)
    ensures multiset(CaptureHeaders(msg))[h]
              == (if IsTransferEncoding(h) then 0 else multiset(msg.headers)[h]) + multiset(msg.contentHeaders)[h]
  {
    FilterCount(msg.headers, IsKeptResponseHeader, h);
  }

  /** When the upstream content headers carry no `Transfer-Encoding` (the HTTP
      client never puts it there), the captured response carries none at all. */
  lemma CaptureDropsTransferEncoding(msg: UpstreamMessage)
    requires forall i :: 0 <= i < |msg.contentHeaders| ==> !IsTransferEncoding(msg.contentHeaders[i])
    ensures forall i :: 0 <= i < |Capture(msg).headers| ==> !IsTransferEncoding(Capture(msg).headers[i])
  {
    var kept := Filter(msg.headers, IsKeptResponseHeader);
    assert Capture(msg).headers == kept + msg.contentHeaders;
  }
}
