/** First-match linear search over a list with a predicate (databankpy/utils.py). */
module Utils {
  import opened Wrappers

  /** The index of the first element of `s` that satisfies `p`, or None when no element
      does: the value `find_index` returns. */
  function FirstIndex<T>(s: seq<T>, p: T -> bool): (r: Option<nat>)
    ensures r.Some? ==> r.value < |s| && p(s[r.value])
    ensures r.Some? ==> forall k :: 0 <= k < r.value ==> !p(s[k])
    ensures r.None? <==> forall k :: 0 <= k < |s| ==> !p(s[k])
  {
    if |s| == 0 then None
    else if p(s[0]) then Some(0)
    else match FirstIndex(s[1..], p)
      case None => None
      case Some(i) => Some(i + 1)
  }

  /** The first element of `s` that satisfies `p`, or None: the value `find` returns. */
  function First<T>(s: seq<T>, p: T -> bool): (r: Option<T>)
    ensures r.Some? ==> r.value in s && p(r.value)
    ensures r.None? <==> forall k :: 0 <= k < |s| ==> !p(s[k])
  {
    if |s| == 0 then None
    else if p(s[0]) then Some(s[0])
    else First(s[1..], p)
  }

  /** `find` returns exactly the element at the index `find_index` returns. */
  lemma {:induction false} FirstIsAtFirstIndex<T>(s: seq<T>, p: T -> bool)
    ensures First(s, p) == match FirstIndex(s, p) case Some(i) => Some(s[i]) case None => None
  {
    if |s| > 0 && !p(s[0]) {
      FirstIsAtFirstIndex(s[1..], p);
    }
  }

  /** An index that satisfies `p` and has no satisfying element before it is the one
      `find_index` returns. */
  lemma FirstIndexIs<T>(s: seq<T>, p: T -> bool, i: nat)
    requires i < |s| && p(s[i])
    requires forall k :: 0 <= k < i ==> !p(s[k])
    ensures FirstIndex(s, p) == Some(i)
  {
  }

  /** The search depends only on which positions satisfy the predicate. */
  lemma FirstIndexCongruent<A, B>(s: seq<A>, p: A -> bool, t: seq<B>, q: B -> bool)
    requires |s| == |t|
    requires forall k :: 0 <= k < |s| ==> p(s[k]) == q(t[k])
    ensures FirstIndex(s, p) == FirstIndex(t, q)
  {
    match FirstIndex(s, p)
    case None =>
    case Some(i) => FirstIndexIs(t, q, i);
  }

  /** Elements appended after the first hit do not move it. */
  lemma FirstIndexPrefix<T>(s: seq<T>, t: seq<T>, p: T -> bool)
    requires FirstIndex(s, p).Some?
    ensures FirstIndex(s + t, p) == FirstIndex(s, p)
  {
    var i := FirstIndex(s, p).value;
    assert (s + t)[i] == s[i];
    FirstIndexIs(s + t, p, i);
  }

  /** find_index as the loop the source runs: scan left to right, stop at the first hit. */
  method FindIndex<T>(s: seq<T>, p: T -> bool) returns (r: Option<nat>)
    ensures r == FirstIndex(s, p)
  {
    var i := 0;
    while i < |s|
      invariant 0 <= i <= |s|
      invariant forall k :: 0 <= k < i ==> !p(s[k])
    {
      if p(s[i]) {
        FirstIndexIs(s, p, i);
        return Some(i);
      }
      i := i + 1;
    }
    return None;
  }

  /** find as the loop the source runs over the elements themselves. */
  method Find<T>(s: seq<T>, p: T -> bool) returns (r: Option<T>)
    ensures r == First(s, p)
  {
    FirstIsAtFirstIndex(s, p);
    var i := 0;
    while i < |s|
      invariant 0 <= i <= |s|
      invariant forall k :: 0 <= k < i ==> !p(s[k])
    {
      if p(s[i]) {
        FirstIndexIs(s, p, i);
        return Some(s[i]);
      }
      i := i + 1;
    }
    return None;
  }
}
