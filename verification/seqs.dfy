/** The two array operations the schedule is built from, as JavaScript's
    `Array.prototype.find` and `Array.prototype.filter` behave: a scan from the
    front that stops at the first match, and an order-preserving selection. */
module Seqs {
  import opened Wrappers

  /** `i` is the position of the first element of `s` that satisfies `p`. */
  predicate IsFirst<T>(s: seq<T>, p: T -> bool, i: int)
  {
    0 <= i < |s| && p(s[i]) && forall j :: 0 <= j < i ==> !p(s[j])
  }

  /** Position of the first element satisfying `p`, or None when no element does. */
  function FindIndex<T>(s: seq<T>, p: T -> bool): (r: Option<nat>)
    ensures r.None? <==> forall i :: 0 <= i < |s| ==> !p(s[i])
    ensures r.Some? ==> IsFirst(s, p, r.value)
  {
    if |s| == 0 then None
    else if p(s[0]) then Some(0)
    else
      match FindIndex(s[1..], p)
      case None => None
      case Some(k) => Some(k + 1)
  }

  /** `find`: the first element satisfying `p`, or None. */
  function Find<T>(s: seq<T>, p: T -> bool): (r: Option<T>)
    ensures r.None? <==> forall i :: 0 <= i < |s| ==> !p(s[i])
    ensures r.Some? ==> exists i :: IsFirst(s, p, i) && s[i] == r.value
  {
    match FindIndex(s, p)
    case None => None
    case Some(i) => Some(s[i])
  }

  /** Appending an element does not move an earlier first match; it becomes the
      first match only when there was none before. */
  lemma {:induction false} FindIndexSnoc<T>(s: seq<T>, x: T, p: T -> bool)
    ensures FindIndex(s + [x], p) ==
              if FindIndex(s, p).Some? then FindIndex(s, p)
              else if p(x) then Some(|s|) else None
  {
    var r := FindIndex(s + [x], p);
    if FindIndex(s, p).Some? {
      var k := FindIndex(s, p).value;
      assert IsFirst(s + [x], p, k);
    } else if p(x) {
      assert IsFirst(s + [x], p, |s|);
    } else {
      forall i | 0 <= i < |s| + 1 ensures !p((s + [x])[i]) {
        if i < |s| { assert (s + [x])[i] == s[i]; }
      }
    }
  }

  /** `b` contains the elements of `a` in the same order, possibly with others between them. */
  predicate IsSubsequence<T(==)>(a: seq<T>, b: seq<T>)
    decreases |b|
  {
    if |a| == 0 then true
    else if |b| == 0 then false
    else if a[0] == b[0] then IsSubsequence(a[1..], b[1..])
    else IsSubsequence(a, b[1..])
  }

  /** `filter`: the elements of `s` that satisfy `p`, every one of them, in their order. */
  function Filter<T(==,!new)>(s: seq<T>, p: T -> bool): (r: seq<T>)
    ensures |r| <= |s|
    ensures forall x :: x in r <==> x in s && p(x)
    ensures (forall i :: 0 <= i < |s| ==> p(s[i])) ==> r == s
  {
    if |s| == 0 then []
    else if p(s[0]) then [s[0]] + Filter(s[1..], p)
    else Filter(s[1..], p)
  }

  /** The filter keeps every occurrence of every element satisfying `p` and
      nothing else, in the order of `s`. */
  lemma {:induction false} FilterIsOrderedSelection<T(!new)>(s: seq<T>, p: T -> bool)
    ensures forall x :: multiset(Filter(s, p))[x] == if p(x) then multiset(s)[x] else 0
    ensures IsSubsequence(Filter(s, p), s)
  {
    if |s| > 0 {
      FilterIsOrderedSelection(s[1..], p);
      assert s == [s[0]] + s[1..];
      var r := Filter(s, p);
      if !p(s[0]) && |r| > 0 {
        assert r[0] in r;
      }
    }
  }

  /** Filtering a concatenation filters each part. */
  lemma {:induction false} FilterConcat<T(!new)>(a: seq<T>, b: seq<T>, p: T -> bool)
    ensures Filter(a + b, p) == Filter(a, p) + Filter(b, p)
  {
    if |a| > 0 {
      assert (a + b)[1..] == a[1..] + b;
      FilterConcat(a[1..], b, p);
    } else {
      assert a + b == b;
    }
  }

  /** Filtering by `q` after `p`, when `q` implies `p`, is filtering by `q` alone. */
  lemma {:induction false} FilterOfFilter<T(!new)>(s: seq<T>, p: T -> bool, q: T -> bool)
    requires forall x :: q(x) ==> p(x)
    ensures Filter(Filter(s, p), q) == Filter(s, q)
  {
    if |s| > 0 {
      FilterOfFilter(s[1..], p, q);
      if p(s[0]) {
        assert Filter(s, p)[1..] == Filter(s[1..], p);
      }
    }
  }

  /** A filter and its complement split the sequence: their lengths add up to its length. */
  lemma {:induction false} FilterComplementLength<T(!new)>(s: seq<T>, p: T -> bool, q: T -> bool)
    requires forall x :: q(x) <==> !p(x)
    ensures |Filter(s, p)| + |Filter(s, q)| == |s|
  {
    if |s| > 0 {
      FilterComplementLength(s[1..], p, q);
    }
  }
}
