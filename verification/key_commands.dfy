/** The request handler of the earlier revision (`Program.cs`): the same relay
    and header handling, but one key press per choice and only two keys. */
module KeyCommands {
  import opened Common
  import opened HeaderRules
  import opened UpstreamRelay
  import opened Delivery
  import opened Selection
  import LineCommands

  /** The `switch (key.KeyChar)`: `f` delivers the whole response, `a` calls
      `context.Abort()`, the same call the later revision uses to close. The
      menu also advertises `p` and `n`, but the switch has no case for them. */
  function ParseKey(key: char): (r: Option<Plan>)
    ensures r.Some? <==> key == 'f' || key == 'a'
    ensures r.Some? ==> r.value.finish.Return? || r.value.body.NoResponse?
  {
    match key
    case 'f' => Some(Plan(Full, Return))
    case 'a' => Some(Plan(NoResponse, Close))
    case _ => None
  }

  /** What one handled request did and which key presses remain. */
  datatype KeyRun = KeyRun(trace: seq<Event>, rest: seq<char>)

  /** The `Invalid selection` messages for rejected keys. */
  function KeyRejections(keys: seq<char>): (t: seq<Event>)
    ensures |t| == |keys|
    ensures forall i :: 0 <= i < |t| ==> t[i] == InvalidSelection([keys[i]])
  {
    Rejections(seq(|keys|, i requires 0 <= i < |keys| => [keys[i]]))
  }

  /** Reading keys after a capture until `f` or `a`. */
  function HandleCaptured(resp: CapturedResponse, keys: seq<char>): (run: KeyRun)
    ensures |run.rest| <= |keys| && run.rest == keys[|keys| - |run.rest|..]
    ensures Select(keys, ParseKey).Exhausted? ==>
              |run.trace| == |keys| && forall i :: 0 <= i < |run.trace| ==> run.trace[i] == InvalidSelection([keys[i]])
  {
    match Select(keys, ParseKey)
    case Selected(rejected, plan, rest) => KeyRun(KeyRejections(rejected) + Deliver(resp, plan), rest)
    case Exhausted(rejected) => KeyRun(KeyRejections(rejected), [])
  }

  datatype Outcome = RelayFailed(error: RelayError) | Handled(run: KeyRun)

  function HandleRequest(req: IncomingRequest, acceptsContent: Header -> bool, acceptsMessage: Header -> bool,
                         send: OutboundRequest -> Result<UpstreamMessage, UpstreamError>,
                         keys: seq<char>): (o: Outcome)
    ensures o.RelayFailed? <==> Relay(req, acceptsContent, acceptsMessage, send).Err?
    ensures o.RelayFailed? ==> o.error == Relay(req, acceptsContent, acceptsMessage, send).error
    ensures o.Handled? ==> o.run == HandleCaptured(Relay(req, acceptsContent, acceptsMessage, send).value, keys)
  {
    match Relay(req, acceptsContent, acceptsMessage, send)
    case Err(e) => RelayFailed(e)
    case Ok(resp) => Handled(HandleCaptured(resp, keys))
  }

  // ---------------------------------------------------------------------------
  // Properties of the earlier handler
  // ---------------------------------------------------------------------------

  /** Every key but `f` and `a` is rejected and another is read, including the
      advertised `p` and `n`: each yields one rejection and nothing else. */
  lemma AdvertisedKeysRejected(resp: CapturedResponse, before: seq<char>, key: char, after: seq<char>)
    requires forall i :: 0 <= i < |before| ==> before[i] != 'f' && before[i] != 'a'
    requires key == 'f' || key == 'a'
    ensures var run := HandleCaptured(resp, before + [key] + after);
            && run.trace == KeyRejections(before) + Deliver(resp, ParseKey(key).value)
            && run.rest == after
    ensures ParseKey('p').None? && ParseKey('n').None?
  {
    SelectFirstRecognised(before, key, after, ParseKey);
  }

  /** Key `f`: the status, every captured header in order, then the whole body;
      the same trace the later revision produces for the line `f`. */
  lemma FullKeyDelivers(resp: CapturedResponse)
    requires DistinctNames(resp.headers)
    ensures var t := Deliver(resp, ParseKey('f').value);
            var n := |resp.headers|;
            && |t| == n + 2
            && t[0] == SetStatus(resp.status)
            && (forall i :: 0 <= i < n ==> t[i + 1] == AddHeader(resp.headers[i]))
            && t[n + 1] == WriteBody(resp.body)
    ensures Deliver(resp, ParseKey('f').value) == Deliver(resp, LineCommands.ParseSelection("f").value)
  {
    DeliverFull(resp);
  }

  /** Key `a`: no status, header or body; only the connection is closed. */
  lemma AbortKeyOnlyCloses(resp: CapturedResponse)
    ensures Deliver(resp, ParseKey('a').value) == [Closed]
  {
  }
}
