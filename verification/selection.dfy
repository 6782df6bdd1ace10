/** The re-prompt loop shared by both revisions: read inputs until one names a
    plan, rejecting each unrecognised input on the way. */
module Selection {
  import opened Common
  import opened Delivery

  /** The end of a selection loop: a plan found after some rejected inputs, with
      the inputs left unread; or the inputs ran out with every one rejected. */
  datatype Chosen<T> =
    | Selected(rejected: seq<T>, plan: Plan, rest: seq<T>)
    | Exhausted(rejected: seq<T>)

  /** The loop `while (true) { read; switch … default: reject }` over a finite
      input. Only the first recognised input decides the plan. */
  function Select<T>(inputs: seq<T>, parse: T -> Option<Plan>): (c: Chosen<T>)
    ensures forall i :: 0 <= i < |c.rejected| ==> parse(c.rejected[i]).None?
    ensures c.Selected? ==>
              var k := |c.rejected|;
              && k < |inputs|
              && c.rejected == inputs[..k]
              && parse(inputs[k]) == Some(c.plan)
              && c.rest == inputs[k + 1..]
    ensures c.Exhausted? ==> c.rejected == inputs
  {
    if inputs == [] then Exhausted([])
    else match parse(inputs[0])
      case Some(plan) => Selected([], plan, inputs[1..])
      case None =>
        match Select(inputs[1..], parse)
        case Selected(rejected, plan, rest) => Selected([inputs[0]] + rejected, plan, rest)
        case Exhausted(rejected) => Exhausted([inputs[0]] + rejected)
  }

  /** The loop's outcome is decided by the first recognisable input: a plan is
      chosen exactly when some input parses, and then it is that input's plan. */
  lemma {:induction false} SelectFirstRecognised<T>(prefix: seq<T>, x: T, suffix: seq<T>, parse: T -> Option<Plan>)
    requires forall i :: 0 <= i < |prefix| ==> parse(prefix[i]).None?
    requires parse(x).Some?
    ensures Select(prefix + [x] + suffix, parse) == Selected(prefix, parse(x).value, suffix)
    decreases |prefix|
  {
    if prefix == [] {
      assert prefix + [x] + suffix == [x] + suffix;
    } else {
      assert (prefix + [x] + suffix)[1..] == prefix[1..] + [x] + suffix;
      SelectFirstRecognised(prefix[1..], x, suffix, parse);
      assert [prefix[0]] + prefix[1..] == prefix;
    }
  }

  /** The inputs run out without a plan exactly when none of them is recognised. */
  lemma SelectExhaustedIff<T>(inputs: seq<T>, parse: T -> Option<Plan>)
    ensures Select(inputs, parse).Exhausted? <==> forall i :: 0 <= i < |inputs| ==> parse(inputs[i]).None?
  {
  }

  /** One `Invalid selection` message per rejected input. */
  function Rejections(rejected: seq<string>): (t: seq<Event>)
    ensures |t| == |rejected|
    ensures forall i :: 0 <= i < |t| ==> t[i] == InvalidSelection(rejected[i])
  {
    if rejected == [] then [] else [InvalidSelection(rejected[0])] + Rejections(rejected[1..])
  }
}
