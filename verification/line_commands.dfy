/** The request handler of the current revision (`src/Program.cs`): relay,
    then read console lines until one of seven tokens names a plan, then deliver. */
module LineCommands {
  import opened Common
  import opened HeaderRules
  import opened UpstreamRelay
  import opened Delivery
  import opened Selection

  /** The tokens the menu offers, in menu order. */
  const Tokens: seq<string> := ["f", "p", "pc", "pa", "n", "nc", "na"]

  /** The `switch (selection)`: exact, case-sensitive match of the whole line. */
  function ParseSelection(line: string): (r: Option<Plan>)
    ensures r.Some? <==> line in Tokens
    ensures r.Some? ==> (r.value.body.Full? <==> r.value.finish.Return?)
    // The menu's spelling: the first letter names the body (`f`ull, `p`artial,
    // `n`o response), a second letter `c` closes, `a` aborts, none waits.
    ensures r.Some? ==> (r.value.body.Full? <==> line == "f")
    ensures r.Some? ==> (r.value.body.Half? <==> line[0] == 'p')
    ensures r.Some? ==> (r.value.body.NoResponse? <==> line[0] == 'n')
    ensures r.Some? ==> (r.value.finish.WaitForever? <==> |line| == 1 && line != "f")
    ensures r.Some? ==> (r.value.finish.Close? <==> |line| == 2 && line[1] == 'c')
    ensures r.Some? ==> (r.value.finish.Abort? <==> |line| == 2 && line[1] == 'a')
  {
    match line
    case "f" => Some(Plan(Full, Return))
    case "p" => Some(Plan(Half, WaitForever))
    case "pc" => Some(Plan(Half, Close))
    case "pa" => Some(Plan(Half, Abort))
    case "n" => Some(Plan(NoResponse, WaitForever))
    case "nc" => Some(Plan(NoResponse, Close))
    case "na" => Some(Plan(NoResponse, Abort))
    case _ => None
  }

  /** The plans the menu can reach: the full body with a normal return, or a
      half or absent body followed by waiting, closing or resetting. */
  predicate Reachable(plan: Plan) {
    plan.body.Full? <==> plan.finish.Return?
  }

  /** The menu token that selects a reachable plan. */
  function TokenOf(plan: Plan): (token: string)
    requires Reachable(plan)
    ensures token in Tokens
  {
    match plan
    case Plan(Full, _) => "f"
    case Plan(Half, WaitForever) => "p"
    case Plan(Half, Close) => "pc"
    case Plan(Half, Abort) => "pa"
    case Plan(NoResponse, WaitForever) => "n"
    case Plan(NoResponse, Close) => "nc"
    case Plan(NoResponse, Abort) => "na"
  }

  /** Menu and switch agree: each reachable plan has a token that selects it, and
      a token that selects a plan is that plan's token. The seven tokens are
      therefore the whole fault taxonomy, one plan each. */
  lemma TokensRoundTrip(plan: Plan, line: string)
    ensures Reachable(plan) ==> ParseSelection(TokenOf(plan)) == Some(plan)
    ensures ParseSelection(line) == Some(plan) ==> Reachable(plan) && TokenOf(plan) == line
  {
  }

  /** What one handled request did and which console lines remain. */
  datatype Run = Run(trace: seq<Event>, rest: seq<string>)

  /** Reading the console after a capture: one `Invalid selection` per rejected
      line, then the chosen plan's delivery, where waiting is `Task.Delay(delayMs)`.
      The handler as written passes `TimeSpanMaxValueMs`; as intended,
      `InfiniteDelayMs`. */
  function HandleCaptured(resp: CapturedResponse, console: seq<string>, delayMs: int): (run: Run)
    ensures |run.rest| <= |console| && run.rest == console[|console| - |run.rest|..]
    ensures Select(console, ParseSelection).Exhausted? ==>
              |run.trace| == |console| && forall i :: 0 <= i < |run.trace| ==> run.trace[i] == InvalidSelection(console[i])
  {
    match Select(console, ParseSelection)
    case Selected(rejected, plan, rest) => Run(Rejections(rejected) + DeliverWith(resp, plan, delayMs), rest)
    case Exhausted(rejected) => Run(Rejections(rejected), [])
  }

  /** The outcome of a whole request: the relay failed and nothing was written
      (the console untouched), or the captured response was handled. */
  datatype Outcome = RelayFailed(error: RelayError) | Handled(run: Run)

  function HandleRequest(req: IncomingRequest, acceptsContent: Header -> bool, acceptsMessage: Header -> bool,
                         send: OutboundRequest -> Result<UpstreamMessage, UpstreamError>,
                         console: seq<string>, delayMs: int): (o: Outcome)
    ensures o.RelayFailed? <==> Relay(req, acceptsContent, acceptsMessage, send).Err?
    ensures o.RelayFailed? ==> o.error == Relay(req, acceptsContent, acceptsMessage, send).error
    ensures o.Handled? ==> o.run == HandleCaptured(Relay(req, acceptsContent, acceptsMessage, send).value, console, delayMs)
  {
    match Relay(req, acceptsContent, acceptsMessage, send)
    case Err(e) => RelayFailed(e)
    case Ok(resp) => Handled(HandleCaptured(resp, console, delayMs))
  }

  // ---------------------------------------------------------------------------
  // Properties of the handler
  // ---------------------------------------------------------------------------

  /** The handled outcome is decided by the first line equal to a token: each
      earlier line yields one rejection and nothing else, then that token's
      plan is delivered, and the lines after it are left for later requests.
      This holds for every delay, so for the handler as written and as intended. */
  lemma HandleFirstToken(resp: CapturedResponse, before: seq<string>, token: string, after: seq<string>,
                         delayMs: int)
    requires forall i :: 0 <= i < |before| ==> before[i] !in Tokens
    requires token in Tokens
    ensures var run := HandleCaptured(resp, before + [token] + after, delayMs);
            && run.trace == Rejections(before) + DeliverWith(resp, ParseSelection(token).value, delayMs)
            && run.rest == after
  {
    SelectFirstRecognised(before, token, after, ParseSelection);
  }

  /** How a token ends the connection, read off its last letter: `c` leaves a
      final `Closed` (FIN), `a` a final `Reset` (RST), and the one-letter `p`
      and `n` a final `Waiting`. This is the intended delivery; as written the
      one-letter tokens end in `Failed(DelayOutOfRange)` instead. */
  lemma TokenEndsConnection(resp: CapturedResponse, token: string)
    requires token in Tokens && token != "f"
    requires token[0] == 'n' || DistinctNames(resp.headers)
    ensures var t := Deliver(resp, ParseSelection(token).value);
            && t != []
            && (t[|t| - 1] == Closed <==> token[|token| - 1] == 'c')
            && (t[|t| - 1] == Reset <==> token[|token| - 1] == 'a')
            && (t[|t| - 1] == Waiting <==> |token| == 1)
  {
    var plan := ParseSelection(token).value;
    if plan.body.Half? {
      DeliverHalf(resp, plan.finish);
    }
  }

  /** The same reading as written: closing and resetting are unchanged, and the
      one-letter `p` and `n` end in the failed delay instead of a wait, so no
      token ever leaves a `Waiting` event. */
  lemma TokenEndsConnectionAsWritten(resp: CapturedResponse, token: string)
    requires token in Tokens && token != "f"
    requires token[0] == 'n' || DistinctNames(resp.headers)
    ensures var t := DeliverAsWritten(resp, ParseSelection(token).value);
            && t != []
            && (t[|t| - 1] == Closed <==> token[|token| - 1] == 'c')
            && (t[|t| - 1] == Reset <==> token[|token| - 1] == 'a')
            && (t[|t| - 1] == Failed(DelayOutOfRange) <==> |token| == 1)
            && forall i :: 0 <= i < |t| ==> !t[i].Waiting?
  {
    if |token| == 1 {
      assert token == "p" || token == "n";
      OneLetterAsWritten(resp, token);
    } else {
      assert token in ["pc", "pa", "nc", "na"];
      TwoLettersAsWritten(resp, token);
    }
  }

  /** `pc`, `pa`, `nc` and `na` as written: the same close or reset as intended. */
  lemma TwoLettersAsWritten(resp: CapturedResponse, token: string)
    requires token in ["pc", "pa", "nc", "na"]
    requires token[0] == 'n' || DistinctNames(resp.headers)
    ensures var t := DeliverAsWritten(resp, ParseSelection(token).value);
            && t != []
            && (t[|t| - 1] == Closed <==> token[1] == 'c')
            && (t[|t| - 1] == Reset <==> token[1] == 'a')
            && forall i :: 0 <= i < |t| ==> !t[i].Waiting?
  {
    var plan := ParseSelection(token).value;
    AsWrittenAgreesBesidesWait(resp, plan);
    TokenEndsConnection(resp, token);
    if plan.body.Half? {
      DeliverHalf(resp, plan.finish);
      AddHeadersNeverWait([], resp.headers);
    }
  }

  /** `p` and `n` as written: the trace ends in the failed delay. */
  lemma OneLetterAsWritten(resp: CapturedResponse, token: string)
    requires token == "p" || token == "n"
    requires token[0] == 'n' || DistinctNames(resp.headers)
    ensures var t := DeliverAsWritten(resp, ParseSelection(token).value);
            && t != [] && t[|t| - 1] == Failed(DelayOutOfRange)
            && forall i :: 0 <= i < |t| ==> !t[i].Waiting?
  {
    var plan := ParseSelection(token).value;
    WaitAsWrittenThrows(resp, plan);
    assert MaxDelayMs < TimeSpanMaxValueMs;
    if token == "p" {
      ResponsePartWritten(resp, Half);
    }
  }

  /** Without any token on the console, only rejections are produced: no status,
      header, byte or finishing event. */
  lemma HandleNoToken(resp: CapturedResponse, console: seq<string>, delayMs: int)
    requires forall i :: 0 <= i < |console| ==> console[i] !in Tokens
    ensures var t := HandleCaptured(resp, console, delayMs).trace;
            |t| == |console| && forall i :: 0 <= i < |t| ==> t[i].InvalidSelection?
  {
  }

  /** Exact matching: the upper-case and padded spellings are rejected. */
  lemma TokensAreCaseSensitive()
    ensures ParseSelection("F").None? && ParseSelection("PC").None? && ParseSelection("f ").None?
    ensures ParseSelection("").None?
  {
  }

  // The scenario of a `GET /status/200` whose upstream answers 200 with a
  // chunked body `OK`, and an operator who selects `p`.

  const ScenarioRequest: IncomingRequest :=
    IncomingRequest("GET", "http", "localhost", Some(5000), "/status/200", "",
                    [Header("Host", ["localhost:5000"])], None, [])
  const DateHeader: Header := Header("Date", ["Sat, 10 Oct 2026 00:00:00 GMT"])
  const ChunkedHeader: Header := Header("Transfer-Encoding", ["chunked"])
  const TextHeader: Header := Header("Content-Type", ["text/plain"])
  const ScenarioUpstream: UpstreamMessage := UpstreamMessage(200, [DateHeader, ChunkedHeader], [TextHeader], [79, 75])

  function ScenarioSend(out: OutboundRequest): Result<UpstreamMessage, UpstreamError> {
    Ok(ScenarioUpstream)
  }

  function AcceptAll(h: Header): bool {
    true
  }

  /** The capture drops the chunked `Transfer-Encoding` and keeps the rest. */
  lemma ScenarioCapture()
    ensures Capture(ScenarioUpstream) == CapturedResponse(200, [DateHeader, TextHeader], [79, 75])
  {
    assert IsTransferEncoding(ChunkedHeader);
    assert !IsTransferEncoding(DateHeader);
    assert [DateHeader, ChunkedHeader][1..] == [ChunkedHeader];
    assert Seqs.Filter([DateHeader, ChunkedHeader], IsKeptResponseHeader) == [DateHeader];
  }

  /** Delivering `p` for the scenario's capture: status, both kept headers, the
      first of the two bytes, then waiting; as written, the failed delay in
      place of the wait. */
  lemma ScenarioDelivery()
    ensures Deliver(CapturedResponse(200, [DateHeader, TextHeader], [79, 75]), Plan(Half, WaitForever))
              == [SetStatus(200), AddHeader(DateHeader), AddHeader(TextHeader), WriteBody([79]), Waiting]
    ensures DeliverAsWritten(CapturedResponse(200, [DateHeader, TextHeader], [79, 75]), Plan(Half, WaitForever))
              == [SetStatus(200), AddHeader(DateHeader), AddHeader(TextHeader), WriteBody([79]), Failed(DelayOutOfRange)]
  {
    var resp := CapturedResponse(200, [DateHeader, TextHeader], [79, 75]);
    assert DistinctNames(resp.headers) by {
      assert ToUpperAscii(DateHeader.name) != ToUpperAscii(TextHeader.name);
    }
    DeliverHalf(resp, WaitForever);
    var t := Deliver(resp, Plan(Half, WaitForever));
    assert t[3].bytes == [79] by {
      assert |t[3].bytes| == 1 && t[3].bytes <= [79, 75];
    }
    assert MaxDelayMs < TimeSpanMaxValueMs;
  }

  /** After selecting `p` the client sees the status, the kept headers, one
      byte of the two, and then the connection hangs. As written, the delay
      throws instead and the handler returns after the byte. */
  lemma StatusOkPartialScenario()
    ensures HandleRequest(ScenarioRequest, AcceptAll, AcceptAll, ScenarioSend, ["p"], InfiniteDelayMs)
              == Handled(Run([SetStatus(200), AddHeader(DateHeader), AddHeader(TextHeader), WriteBody([79]), Waiting], []))
    ensures HandleRequest(ScenarioRequest, AcceptAll, AcceptAll, ScenarioSend, ["p"], TimeSpanMaxValueMs)
              == Handled(Run([SetStatus(200), AddHeader(DateHeader), AddHeader(TextHeader), WriteBody([79]),
                              Failed(DelayOutOfRange)], []))
  {
    ScenarioCapture();
    var resp := CapturedResponse(200, [DateHeader, TextHeader], [79, 75]);
    assert Relay(ScenarioRequest, AcceptAll, AcceptAll, ScenarioSend) == Ok(resp);
    ScenarioDelivery();
    assert [] + ["p"] + [] == ["p"];
    HandleFirstToken(resp, [], "p", [], InfiniteDelayMs);
    HandleFirstToken(resp, [], "p", [], TimeSpanMaxValueMs);
  }
}
