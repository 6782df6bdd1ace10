/** Order-preserving filtering (LINQ's `Where`) and the facts about it that the
    header rules rely on. */
module Seqs {
  import opened Common

  /** The elements of `s` that satisfy `p`, in their original order. */
  function Filter<T>(s: seq<T>, p: T -> bool): (r: seq<T>)
    ensures |r| <= |s|
    ensures forall i :: 0 <= i < |r| ==> p(r[i])
    ensures forall i :: 0 <= i < |r| ==> r[i] in s
    ensures forall i :: 0 <= i < |s| && p(s[i]) ==> s[i] in r
  {
    if s == [] then []
    else if p(s[0]) then [s[0]] + Filter(s[1..], p)
    else Filter(s[1..], p)
  }

  /** `a` is obtained from `b` by deleting some elements, keeping the rest in order. */
  predicate IsSubsequence<T(==)>(a: seq<T>, b: seq<T>)
    decreases |b|
  {
    || a == []
    || (&& b != []
        && ((a[0] == b[0] && IsSubsequence(a[1..], b[1..])) || IsSubsequence(a, b[1..])))
  }

  /** Filtering keeps the survivors in the order they had. */
  lemma {:induction false} FilterIsSubsequence<T>(s: seq<T>, p: T -> bool)
    ensures IsSubsequence(Filter(s, p), s)
  {
    if s != [] {
      FilterIsSubsequence(s[1..], p);
    }
  }

  /** Every occurrence of `x` survives filtering if `p(x)`, and none does otherwise. */
  lemma {:induction false} FilterCount<T>(s: seq<T>, p: T -> bool, x: T)
    ensures multiset(Filter(s, p))[x] == if p(x) then multiset(s)[x] else 0
  {
    if s != [] {
      FilterCount(s[1..], p, x);
      assert s == [s[0]] + s[1..];
      assert multiset(s) == multiset([s[0]]) + multiset(s[1..]);
      if p(s[0]) {
        assert Filter(s, p) == [s[0]] + Filter(s[1..], p);
        assert multiset(Filter(s, p)) == multiset([s[0]]) + multiset(Filter(s[1..], p));
      } else {
        assert Filter(s, p) == Filter(s[1..], p);
      }
    }
  }

  /** `s[i]` is the first element selected by `p` that `q` refuses. */
  predicate FirstRefused<T>(s: seq<T>, p: T -> bool, q: T -> bool, i: int) {
    && 0 <= i < |s|
    && p(s[i]) && !q(s[i])
    && forall j :: 0 <= j < i && p(s[j]) ==> q(s[j])
  }

  /** The first failure among the filtered elements is the first element of the
      unfiltered sequence that is selected and refused: a `foreach` over a
      `Where` stops there. */
  lemma FirstFailingOfFilter<T>(s: seq<T>, p: T -> bool, q: T -> bool)
    requires FirstFailing(Filter(s, p), q).Some?
    ensures exists i :: FirstRefused(s, p, q, i) && s[i] == Filter(s, p)[FirstFailing(Filter(s, p), q).value]
  {
    var i := FirstRefusedOfFilter(s, p, q);
  }

  /** `FirstFailingOfFilter` with its witness. */
  lemma {:induction false} FirstRefusedOfFilter<T>(s: seq<T>, p: T -> bool, q: T -> bool) returns (i: nat)
    requires FirstFailing(Filter(s, p), q).Some?
    ensures FirstRefused(s, p, q, i) && s[i] == Filter(s, p)[FirstFailing(Filter(s, p), q).value]
    decreases |s|
  {
    if p(s[0]) && !q(s[0]) {
      FirstRefusedHead(s, p, q);
      i := 0;
    } else {
      FilterTailFails(s, p, q);
      var i' := FirstRefusedOfFilter(s[1..], p, q);
      FirstRefusedShift(s, p, q, i');
      var k := FirstFailing(Filter(s[1..], p), q).value;
      FilterIndexShift(s, p, k);
      if p(s[0]) {
        assert FirstFailing(Filter(s, p), q).value == k + 1;
        assert s[i' + 1] == Filter(s, p)[k + 1];
      } else {
        assert FirstFailing(Filter(s, p), q).value == k;
        assert s[i' + 1] == Filter(s, p)[k];
      }
      i := i' + 1;
    }
  }

  /** A selected and refused head is where the filtered sequence first fails. */
  lemma FirstRefusedHead<T>(s: seq<T>, p: T -> bool, q: T -> bool)
    requires s != [] && p(s[0]) && !q(s[0])
    ensures FirstFailing(Filter(s, p), q) == Some(0) && Filter(s, p)[0] == s[0]
    ensures FirstRefused(s, p, q, 0)
  {
    assert Filter(s, p) == [s[0]] + Filter(s[1..], p);
  }

  /** With the head not refused, a failure of the filtered sequence is a
      failure of the filtered tail. */
  lemma FilterTailFails<T>(s: seq<T>, p: T -> bool, q: T -> bool)
    requires s != [] && (p(s[0]) ==> q(s[0]))
    requires FirstFailing(Filter(s, p), q).Some?
    ensures FirstFailing(Filter(s[1..], p), q).Some?
    ensures FirstFailing(Filter(s, p), q).value
              == FirstFailing(Filter(s[1..], p), q).value + (if p(s[0]) then 1 else 0)
  {
    if p(s[0]) {
      assert Filter(s, p) == [s[0]] + Filter(s[1..], p);
      assert Filter(s, p)[1..] == Filter(s[1..], p);
    }
  }

  /** Filtering `s` keeps, after the head if it is selected, the filtered tail. */
  lemma FilterIndexShift<T>(s: seq<T>, p: T -> bool, k: nat)
    requires s != [] && k < |Filter(s[1..], p)|
    ensures p(s[0]) ==> k + 1 < |Filter(s, p)| && Filter(s, p)[k + 1] == Filter(s[1..], p)[k]
    ensures !p(s[0]) ==> k < |Filter(s, p)| && Filter(s, p)[k] == Filter(s[1..], p)[k]
  {
    if p(s[0]) {
      assert Filter(s, p) == [s[0]] + Filter(s[1..], p);
    }
  }

  /** An element refused first after `s[0]` is refused first in `s` too, when
      `s[0]` is not itself selected and refused. */
  lemma FirstRefusedShift<T>(s: seq<T>, p: T -> bool, q: T -> bool, i: nat)
    requires s != [] && FirstRefused(s[1..], p, q, i)
    requires p(s[0]) ==> q(s[0])
    ensures FirstRefused(s, p, q, i + 1) && s[i + 1] == s[1..][i]
  {
    forall j | 0 <= j < i + 1 && p(s[j])
      ensures q(s[j])
    {
      if j > 0 {
        assert s[j] == s[1..][j - 1];
      }
    }
  }

  /** The index of the first element of `s` that fails `p`, if there is one:
      the point at which a `foreach` that throws on a failing element stops. */
  function FirstFailing<T>(s: seq<T>, p: T -> bool): (r: Option<nat>)
    ensures r.Some? ==> r.value < |s| && !p(s[r.value])
    ensures r.Some? ==> forall j :: 0 <= j < r.value ==> p(s[j])
    ensures r.None? <==> forall i :: 0 <= i < |s| ==> p(s[i])
  {
    if s == [] then None
    else if !p(s[0]) then Some(0)
    else match FirstFailing(s[1..], p)
      case None => None
      case Some(k) => Some(k + 1)
  }
}
