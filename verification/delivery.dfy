/** Writing a captured response to the client (`SendDownstreamResponse`) and
    finishing the connection, as a trace of observable events. */
module Delivery {
  import opened Common
  import opened HeaderRules
  import opened UpstreamRelay

  /** How much of the captured response reaches the client. `NoResponse` means
      not even the status line and headers. */
  datatype BodyChoice = Full | Half | NoResponse

  /** What the handler does after the body: return normally, wait
      (`await Task.Delay(…)`), close (`context.Abort()`), or reset the socket
      (zero linger, then dispose). */
  datatype Finish = Return | WaitForever | Close | Abort

  /** A delivery plan: the operator's decision for one request. */
  datatype Plan = Plan(body: BodyChoice, finish: Finish)

  /** Why a delivery stopped early: a header the response already holds, or a
      `Task.Delay` argument outside the range it accepts. */
  datatype DeliveryError = DuplicateHeader(name: string) | DelayOutOfRange

  /** The observable effects of handling one request, in order. */
  datatype Event =
    | InvalidSelection(input: string)
    | SetStatus(code: int)
    | AddHeader(header: Header)
    | WriteBody(bytes: seq<byte>)
    | Waiting
    | Closed
    | Reset
    | Failed(error: DeliveryError)

  /** A trace stopped by an exception, which the handler's `catch` swallows. */
  predicate Faulted(t: seq<Event>) {
    t != [] && t[|t| - 1].Failed?
  }

  /** Header `k` repeats a name added before it: one among `added`, or the
      name of an earlier header, ignoring case. */
  predicate RepeatsEarlier(added: seq<string>, hs: seq<Header>, k: nat)
    requires k < |hs|
  {
    ContainsIgnoreCase(added, hs[k].name)
    || exists i :: 0 <= i < k && EqualsIgnoreCase(hs[i].name, hs[k].name)
  }

  /** `response.Headers.Add` for each header in turn. The response header
      dictionary ignores case and `Add` throws on a key it already holds, so
      the first repeated name ends the trace with `Failed`. `added` holds the
      names added so far. */
  function AddHeaders(added: seq<string>, hs: seq<Header>): (t: seq<Event>)
    ensures AddTrace(added, hs, t)
    decreases |hs|
  {
    if hs == [] then []
    else if ContainsIgnoreCase(added, hs[0].name) then [Failed(DuplicateHeader(hs[0].name))]
    else
      var rest := AddHeaders(added + [hs[0].name], hs[1..]);
      AddTraceStep(added, hs, rest);
      [AddHeader(hs[0])] + rest
  }

  /** What a trace of header adds is: the headers in order, each with a name
      new so far, ending either after the last header or with the failure of
      the first header that repeats a name, which names it. */
  predicate AddTrace(added: seq<string>, hs: seq<Header>, t: seq<Event>) {
    && |t| <= |hs|
    && (forall i :: 0 <= i < |t| && !t[i].Failed? ==> t[i] == AddHeader(hs[i]))
    && (forall i :: 0 <= i < |t| - 1 ==> !t[i].Failed?)
    && (!Faulted(t) ==> |t| == |hs|)
    && (Faulted(t) ==> t[|t| - 1] == Failed(DuplicateHeader(hs[|t| - 1].name)))
    && (Faulted(t) ==> RepeatsEarlier(added, hs, |t| - 1))
    && (forall k :: 0 <= k < |t| && t[k].AddHeader? ==> !RepeatsEarlier(added, hs, k))
  }

  /** Adding a new first header in front of a trace for the remaining headers
      gives a trace for all of them. */
  lemma AddTraceStep(added: seq<string>, hs: seq<Header>, rest: seq<Event>)
    requires hs != [] && !ContainsIgnoreCase(added, hs[0].name)
    requires AddTrace(added + [hs[0].name], hs[1..], rest)
    ensures AddTrace(added, hs, [AddHeader(hs[0])] + rest)
  {
    AddTraceStepShape(hs, rest);
    AddTraceStepFailure(added, hs, rest);
    AddTraceStepNames(added, hs, rest);
  }

  /** The longer trace still follows the headers and fails only at its end. */
  lemma AddTraceStepShape(hs: seq<Header>, rest: seq<Event>)
    requires hs != [] && |rest| <= |hs[1..]|
    requires forall i :: 0 <= i < |rest| && !rest[i].Failed? ==> rest[i] == AddHeader(hs[1..][i])
    requires forall i :: 0 <= i < |rest| - 1 ==> !rest[i].Failed?
    requires !Faulted(rest) ==> |rest| == |hs[1..]|
    requires Faulted(rest) ==> rest[|rest| - 1] == Failed(DuplicateHeader(hs[1..][|rest| - 1].name))
    ensures var t := [AddHeader(hs[0])] + rest;
            && |t| <= |hs|
            && (forall i :: 0 <= i < |t| && !t[i].Failed? ==> t[i] == AddHeader(hs[i]))
            && (forall i :: 0 <= i < |t| - 1 ==> !t[i].Failed?)
            && (!Faulted(t) ==> |t| == |hs|)
            && (Faulted(t) ==> t[|t| - 1] == Failed(DuplicateHeader(hs[|t| - 1].name)))
  {
    var t := [AddHeader(hs[0])] + rest;
    assert forall k :: 0 < k < |t| ==> t[k] == rest[k - 1] && hs[k] == hs[1..][k - 1];
  }

  /** The failure at the end of the longer trace repeats an earlier name. */
  lemma AddTraceStepFailure(added: seq<string>, hs: seq<Header>, rest: seq<Event>)
    requires hs != [] && !ContainsIgnoreCase(added, hs[0].name)
    requires |rest| <= |hs[1..]|
    requires Faulted(rest) ==> RepeatsEarlier(added + [hs[0].name], hs[1..], |rest| - 1)
    ensures var t := [AddHeader(hs[0])] + rest;
            Faulted(t) ==> RepeatsEarlier(added, hs, |t| - 1)
  {
    var t := [AddHeader(hs[0])] + rest;
    if Faulted(t) {
      assert t[|t| - 1] == rest[|rest| - 1];
      RepeatsEarlierShift(added, hs, |t| - 1);
    }
  }

  /** Every header added in the longer trace has a name new so far. */
  lemma AddTraceStepNames(added: seq<string>, hs: seq<Header>, rest: seq<Event>)
    requires hs != [] && !ContainsIgnoreCase(added, hs[0].name)
    requires |rest| <= |hs[1..]|
    requires forall k :: 0 <= k < |rest| && rest[k].AddHeader? ==> !RepeatsEarlier(added + [hs[0].name], hs[1..], k)
    ensures var t := [AddHeader(hs[0])] + rest;
            forall k :: 0 <= k < |t| && t[k].AddHeader? ==> !RepeatsEarlier(added, hs, k)
  {
    var t := [AddHeader(hs[0])] + rest;
    forall k | 0 <= k < |t| && t[k].AddHeader?
      ensures !RepeatsEarlier(added, hs, k)
    {
      if 0 < k {
        assert t[k] == rest[k - 1];
        RepeatsEarlierShift(added, hs, k);
      }
    }
  }

  /** A name is among `added` extended by `n` exactly when it is among `added`
      or matches `n`. */
  lemma AddedNames(added: seq<string>, n: string, x: string)
    ensures ContainsIgnoreCase(added + [n], x) <==> ContainsIgnoreCase(added, x) || EqualsIgnoreCase(n, x)
  {
    if ContainsIgnoreCase(added + [n], x) {
      var i :| 0 <= i < |added + [n]| && EqualsIgnoreCase((added + [n])[i], x);
      if i < |added| {
        assert EqualsIgnoreCase(added[i], x);
      }
    }
    if EqualsIgnoreCase(n, x) {
      assert (added + [n])[|added|] == n;
    } else if ContainsIgnoreCase(added, x) {
      var i :| 0 <= i < |added| && EqualsIgnoreCase(added[i], x);
      assert (added + [n])[i] == added[i];
    }
  }

  /** Once the first header is added, header `k` repeats an earlier name exactly
      when header `k - 1` of the remaining headers does. */
  lemma RepeatsEarlierShift(added: seq<string>, hs: seq<Header>, k: nat)
    requires 0 < k < |hs|
    ensures RepeatsEarlier(added + [hs[0].name], hs[1..], k - 1) <==> RepeatsEarlier(added, hs, k)
  {
    var rest := hs[1..];
    assert rest[k - 1] == hs[k];
    AddedNames(added, hs[0].name, hs[k].name);
    if exists i :: 0 <= i < k - 1 && EqualsIgnoreCase(rest[i].name, rest[k - 1].name) {
      var i :| 0 <= i < k - 1 && EqualsIgnoreCase(rest[i].name, rest[k - 1].name);
      assert rest[i] == hs[i + 1];
    }
    if exists i :: 0 <= i < k && EqualsIgnoreCase(hs[i].name, hs[k].name) {
      var i :| 0 <= i < k && EqualsIgnoreCase(hs[i].name, hs[k].name);
      if 0 < i {
        assert rest[i - 1] == hs[i];
      }
    }
  }

  /** Names of distinct headers never collide with each other nor with earlier
      names, so every header is added and nothing fails. */
  lemma {:induction false} AddHeadersDistinct(added: seq<string>, hs: seq<Header>)
    requires DistinctNames(hs)
    requires forall i, j :: 0 <= i < |added| && 0 <= j < |hs| ==> !EqualsIgnoreCase(added[i], hs[j].name)
    ensures |AddHeaders(added, hs)| == |hs|
    ensures forall i :: 0 <= i < |hs| ==> AddHeaders(added, hs)[i] == AddHeader(hs[i])
    decreases |hs|
  {
    if hs != [] {
      var added' := added + [hs[0].name];
      forall i, j | 0 <= i < |added'| && 0 <= j < |hs[1..]|
        ensures !EqualsIgnoreCase(added'[i], hs[1..][j].name)
      {
        if i == |added| {
          assert !EqualsIgnoreCase(hs[0].name, hs[j + 1].name);
        } else {
          assert !EqualsIgnoreCase(added[i], hs[j + 1].name);
        }
      }
      AddHeadersDistinct(added', hs[1..]);
    }
  }

  /** A repeated name among the headers makes the adds fail before the end. */
  lemma AddHeadersRepeated(added: seq<string>, hs: seq<Header>)
    requires !DistinctNames(hs)
    ensures Faulted(AddHeaders(added, hs))
  {
    var i, j :| 0 <= i < j < |hs| && EqualsIgnoreCase(hs[i].name, hs[j].name);
    AddHeadersReachName(added, hs, j);
  }

  /** If header `j` repeats a name added before it, the adds fail no later
      than `j`. */
  lemma {:induction false} AddHeadersReachName(added: seq<string>, hs: seq<Header>, j: nat)
    requires j < |hs|
    requires RepeatsEarlier(added, hs, j)
    ensures Faulted(AddHeaders(added, hs))
    decreases |hs|
  {
    if !ContainsIgnoreCase(added, hs[0].name) {
      assert 0 < j;
      var added' := added + [hs[0].name];
      var rest := AddHeaders(added', hs[1..]);
      assert AddHeaders(added, hs) == [AddHeader(hs[0])] + rest;
      RepeatsEarlierShift(added, hs, j);
      AddHeadersReachName(added', hs[1..], j - 1);
      assert Faulted(rest);
    }
  }

  /** `SendDownstreamResponse`: set the status, add every header, then write the
      first `count` bytes of the body, where `count` is `contentBytes` if given
      and the whole body otherwise. A failed header add skips the write. */
  function SendDownstreamResponse(resp: CapturedResponse, contentBytes: Option<nat>): (t: seq<Event>)
    requires contentBytes.Some? ==> contentBytes.value <= |resp.body|
    ensures 1 <= |t| <= |resp.headers| + 2
    ensures t[0] == SetStatus(resp.status)
    ensures forall i :: 1 <= i < |t| && t[i].WriteBody? ==> i == |t| - 1
  {
    var headerEvents := AddHeaders([], resp.headers);
    var count := if contentBytes.Some? then contentBytes.value else |resp.body|;
    [SetStatus(resp.status)] + headerEvents
      + (if Faulted(headerEvents) then [] else [WriteBody(resp.body[..count])])
  }

  /** `Timeout.InfiniteTimeSpan` in milliseconds: the delay that never ends. */
  const InfiniteDelayMs: int := -1

  /** The largest finite delay `Task.Delay` accepts, in milliseconds (.NET 6 and
      later; earlier versions accept up to `Int32.MaxValue`). */
  const MaxDelayMs: int := 4294967294

  /** `TimeSpan.MaxValue` in whole milliseconds (`Int64.MaxValue` ticks of 100 ns). */
  const TimeSpanMaxValueMs: int := 922337203685477

  /** `await Task.Delay(delay)` as the last act of a handler. The infinite delay
      suspends forever; a delay below it or above `MaxDelayMs` throws before
      waiting at all; any other delay elapses and the handler returns. */
  function TaskDelay(ms: int): (t: seq<Event>)
    ensures ms == InfiniteDelayMs <==> t == [Waiting]
    ensures (ms < InfiniteDelayMs || MaxDelayMs < ms) <==> t == [Failed(DelayOutOfRange)]
  {
    if ms == InfiniteDelayMs then [Waiting]
    else if ms < InfiniteDelayMs || MaxDelayMs < ms then [Failed(DelayOutOfRange)]
    else []
  }

  /** The events of a finishing action when waiting means `Task.Delay(delayMs)`. */
  function FinishWith(f: Finish, delayMs: int): (t: seq<Event>)
    ensures |t| <= 1
    ensures f.Return? ==> t == []
    ensures f.Close? <==> t == [Closed]
    ensures f.Abort? <==> t == [Reset]
    ensures f.WaitForever? ==> t == TaskDelay(delayMs)
  {
    match f
    case Return => []
    case WaitForever => TaskDelay(delayMs)
    case Close => [Closed]
    case Abort => [Reset]
  }

  /** The event each finishing action leaves when waiting is the infinite delay:
      nothing for a return, `Waiting`, `Closed` (FIN) or `Reset` (RST). */
  function FinishEvents(f: Finish): (t: seq<Event>)
    ensures f.Return? <==> t == []
    ensures f.WaitForever? <==> t == [Waiting]
    ensures f.Close? <==> t == [Closed]
    ensures f.Abort? <==> t == [Reset]
  {
    FinishWith(f, InfiniteDelayMs)
  }

  /** The number of body bytes a plan writes for a body of `length` bytes. */
  function BodyCount(choice: BodyChoice, length: nat): (n: nat)
    requires !choice.NoResponse?
    ensures n <= length
    ensures choice.Full? ==> n == length
    ensures choice.Half? ==> n + n <= length <= n + n + 1
  {
    if choice.Full? then length else length / 2
  }

  /** Carrying out a plan when waiting means `Task.Delay(delayMs)`: the response
      part (skipped for `NoResponse`), then the finishing action unless an
      exception already ended the handler. */
  function DeliverWith(resp: CapturedResponse, plan: Plan, delayMs: int): (t: seq<Event>)
    ensures plan.body.NoResponse? ==> t == FinishWith(plan.finish, delayMs)
    ensures !plan.body.NoResponse? ==> t != [] && t[0] == SetStatus(resp.status)
  {
    match plan.body
    case NoResponse => FinishWith(plan.finish, delayMs)
    case Full => ThenFinish(SendDownstreamResponse(resp, None), FinishWith(plan.finish, delayMs))
    case Half => ThenFinish(SendDownstreamResponse(resp, Some(|resp.body| / 2)), FinishWith(plan.finish, delayMs))
  }

  /** The finishing events follow the response part unless the part ended in an
      exception, which the handler's `catch` turns into a plain return. */
  function ThenFinish(t: seq<Event>, finish: seq<Event>): (r: seq<Event>)
    ensures Faulted(t) ==> r == t
    ensures !Faulted(t) ==> |r| == |t| + |finish| && r[..|t|] == t && r[|t|..] == finish
  {
    if Faulted(t) then t else t + finish
  }

  /** Delivery as intended: waiting is the infinite delay. */
  function Deliver(resp: CapturedResponse, plan: Plan): (t: seq<Event>)
    ensures plan.body.NoResponse? ==> t == FinishEvents(plan.finish)
    ensures !plan.body.NoResponse? ==> t != [] && t[0] == SetStatus(resp.status)
  {
    DeliverWith(resp, plan, InfiniteDelayMs)
  }

  /** Delivery as `src/Program.cs` writes it: waiting is `Task.Delay(TimeSpan.MaxValue)`. */
  function DeliverAsWritten(resp: CapturedResponse, plan: Plan): (t: seq<Event>)
    ensures plan.body.NoResponse? ==> t == FinishWith(plan.finish, TimeSpanMaxValueMs)
    ensures !plan.body.NoResponse? ==> t != [] && t[0] == SetStatus(resp.status)
  {
    DeliverWith(resp, plan, TimeSpanMaxValueMs)
  }

  // ---------------------------------------------------------------------------
  // Properties of delivery
  // ---------------------------------------------------------------------------

  /** With header names distinct (as the HTTP client's collections keep them),
      a response part is: the status, every captured header in order, and one
      write of the first `BodyCount` bytes of the body. */
  lemma ResponsePartWritten(resp: CapturedResponse, choice: BodyChoice)
    requires DistinctNames(resp.headers)
    requires !choice.NoResponse?
    ensures var t := SendDownstreamResponse(resp, if choice.Full? then None else Some(|resp.body| / 2));
            var n := |resp.headers|;
            && |t| == n + 2
            && t[0] == SetStatus(resp.status)
            && (forall i :: 0 <= i < n ==> t[i + 1] == AddHeader(resp.headers[i]))
            && t[n + 1] == WriteBody(resp.body[..BodyCount(choice, |resp.body|)])
  {
    AddHeadersDistinct([], resp.headers);
  }

  /** Command `f`: the status, every captured header in order, the whole body,
      and nothing after it. */
  lemma DeliverFull(resp: CapturedResponse)
    requires DistinctNames(resp.headers)
    ensures var t := Deliver(resp, Plan(Full, Return));
            var n := |resp.headers|;
            && |t| == n + 2
            && t[0] == SetStatus(resp.status)
            && (forall i :: 0 <= i < n ==> t[i + 1] == AddHeader(resp.headers[i]))
            && t[n + 1] == WriteBody(resp.body)
  {
    ResponsePartWritten(resp, Full);
    assert resp.body[..|resp.body|] == resp.body;
  }

  /** Commands `p`, `pc`, `pa`: the status, every header in order, exactly the
      first half (rounded down) of the body, then the finishing event. */
  lemma DeliverHalf(resp: CapturedResponse, finish: Finish)
    requires DistinctNames(resp.headers)
    requires !finish.Return?
    ensures var t := Deliver(resp, Plan(Half, finish));
            var n := |resp.headers|;
            && |t| == n + 3
            && t[0] == SetStatus(resp.status)
            && (forall i :: 0 <= i < n ==> t[i + 1] == AddHeader(resp.headers[i]))
            && t[n + 1].WriteBody?
            && |t[n + 1].bytes| == |resp.body| / 2
            && t[n + 1].bytes <= resp.body
            && (resp.body == [] ==> t[n + 1].bytes == [])
            && [t[n + 2]] == FinishEvents(finish)
  {
    ResponsePartWritten(resp, Half);
  }

  /** Commands `n`, `nc`, `na`: no status, no header, no byte; only the
      finishing event. */
  lemma DeliverNothing(resp: CapturedResponse, finish: Finish)
    requires !finish.Return?
    ensures var t := Deliver(resp, Plan(NoResponse, finish));
            && |t| == 1
            && !t[0].SetStatus? && !t[0].AddHeader? && !t[0].WriteBody?
  {
  }

  /** A repeated header name (ignoring case) stops any response part before its
      body: no byte is written and the finishing action never happens. */
  lemma DeliverRepeatedHeader(resp: CapturedResponse, plan: Plan)
    requires !DistinctNames(resp.headers)
    requires !plan.body.NoResponse?
    ensures var t := Deliver(resp, plan);
            && Faulted(t)
            && forall i :: 0 <= i < |t| ==> !t[i].WriteBody? && !t[i].Waiting? && !t[i].Closed? && !t[i].Reset?
  {
    AddHeadersRepeated([], resp.headers);
    var adds := AddHeaders([], resp.headers);
    var part := SendDownstreamResponse(resp, if plan.body.Full? then None else Some(|resp.body| / 2));
    assert part == [SetStatus(resp.status)] + adds;
    assert Faulted(part);
    assert Deliver(resp, plan) == part;
    forall i | 0 <= i < |part|
      ensures !part[i].WriteBody? && !part[i].Waiting? && !part[i].Closed? && !part[i].Reset?
    {
      if 0 < i {
        assert part[i] == adds[i - 1];
      }
    }
  }

  // ---------------------------------------------------------------------------
  // The wait as written and as intended
  // ---------------------------------------------------------------------------

  /** As written, a plan that should wait forever never waits: `TimeSpan.MaxValue`
      is beyond what `Task.Delay` accepts, so the call throws, the handler's
      `catch` logs it, and the handler returns. The trace ends in that failure. */
  lemma WaitAsWrittenThrows(resp: CapturedResponse, plan: Plan)
    requires plan.finish.WaitForever?
    ensures var t := DeliverAsWritten(resp, plan);
            && Faulted(t)
            && forall i :: 0 <= i < |t| ==> !t[i].Waiting?
  {
    assert MaxDelayMs < TimeSpanMaxValueMs;
    var t := DeliverAsWritten(resp, plan);
    if !plan.body.NoResponse? {
      var part := SendDownstreamResponse(resp, if plan.body.Full? then None else Some(|resp.body| / 2));
      assert t == ThenFinish(part, [Failed(DelayOutOfRange)]);
      assert forall i :: 0 <= i < |part| ==> !part[i].Waiting? by {
        AddHeadersNeverWait([], resp.headers);
      }
    }
  }

  /** Header adds never produce a waiting event. */
  lemma {:induction false} AddHeadersNeverWait(added: seq<string>, hs: seq<Header>)
    ensures forall i :: 0 <= i < |AddHeaders(added, hs)| ==> !AddHeaders(added, hs)[i].Waiting?
    decreases |hs|
  {
    if hs != [] && !ContainsIgnoreCase(added, hs[0].name) {
      AddHeadersNeverWait(added + [hs[0].name], hs[1..]);
    }
  }

  /** As intended, a plan that waits forever ends its trace with `Waiting` when
      its response part (if any) was written without an exception. */
  lemma WaitForeverHangs(resp: CapturedResponse, plan: Plan)
    requires plan.finish.WaitForever?
    requires plan.body.NoResponse? || DistinctNames(resp.headers)
    ensures var t := Deliver(resp, plan);
            t != [] && t[|t| - 1] == Waiting
  {
    if !plan.body.NoResponse? {
      ResponsePartWritten(resp, plan.body);
    }
  }

  /** The two deliveries differ only in waiting: closing, resetting and plain
      returning are the same as written and as intended. */
  lemma AsWrittenAgreesBesidesWait(resp: CapturedResponse, plan: Plan)
    requires !plan.finish.WaitForever?
    ensures DeliverAsWritten(resp, plan) == Deliver(resp, plan)
  {
  }
}
