/** Order-preserving filtering of sequences: Python's list comprehension
    `[x for x in xs if keep(x)]`, which the text cleaner uses twice (to drop
    punctuation characters and to drop stopword tokens). */
module Sequences {

  /** `r` can be obtained from `s` by deleting elements, the rest kept in order.
      Matching greedily against the first element of `s` is complete. */
  predicate IsSubsequence<T(==)>(r: seq<T>, s: seq<T>)
    decreases |s|
  {
    if r == [] then true
    else if s == [] then false
    else if r[0] == s[0] then IsSubsequence(r[1..], s[1..])
    else IsSubsequence(r, s[1..])
  }

  /** The elements of `s` that satisfy `keep`, in their original order. */
  function Filter<T>(s: seq<T>, keep: T -> bool): (r: seq<T>)
    ensures |r| <= |s|
    ensures forall x :: x in r ==> x in s && keep(x)
  {
    if s == [] then []
    else if keep(s[0]) then [s[0]] + Filter(s[1..], keep)
    else Filter(s[1..], keep)
  }

  /** The filtered sequence is an order-preserving subsequence of the input. */
  lemma {:induction false} FilterIsSubsequence<T>(s: seq<T>, keep: T -> bool)
    ensures IsSubsequence(Filter(s, keep), s)
  {
    if s != [] {
      FilterIsSubsequence(s[1..], keep);
      var r := Filter(s, keep);
      if keep(s[0]) {
        assert r[1..] == Filter(s[1..], keep);
      } else if r != [] {
        assert r[0] in r;
      }
    }
  }

  /** Every element that satisfies `keep` is kept as often as it occurs, and
      every element that does not is dropped entirely. */
  lemma {:induction false} FilterCounts<T>(s: seq<T>, keep: T -> bool)
    ensures forall x :: multiset(Filter(s, keep))[x] == if keep(x) then multiset(s)[x] else 0
  {
    if s != [] {
      FilterCounts(s[1..], keep);
      assert s == [s[0]] + s[1..];
      assert multiset(s) == multiset{s[0]} + multiset(s[1..]);
    }
  }

  /** Filtering distributes over concatenation. */
  lemma {:induction false} FilterAppend<T>(a: seq<T>, b: seq<T>, keep: T -> bool)
    ensures Filter(a + b, keep) == Filter(a, keep) + Filter(b, keep)
  {
    if a != [] {
      FilterAppend(a[1..], b, keep);
      assert (a + b)[1..] == a[1..] + b;
    } else {
      assert a + b == b;
    }
  }

  /** A sequence all of whose elements satisfy `keep` passes unchanged. */
  lemma {:induction false} FilterKeepsAll<T>(s: seq<T>, keep: T -> bool)
    requires forall i :: 0 <= i < |s| ==> keep(s[i])
    ensures Filter(s, keep) == s
  {
    if s != [] {
      FilterKeepsAll(s[1..], keep);
    }
  }

  /** Filtering twice with the same predicate is filtering once. */
  lemma FilterIdempotent<T>(s: seq<T>, keep: T -> bool)
    ensures Filter(Filter(s, keep), keep) == Filter(s, keep)
  {
    var r := Filter(s, keep);
    forall i | 0 <= i < |r| ensures keep(r[i]) {
      assert r[i] in r;
    }
    FilterKeepsAll(r, keep);
  }

  /** No subsequence made only of kept elements is longer than the filter. */
  lemma {:induction false} FilterIsLongest<T>(r: seq<T>, s: seq<T>, keep: T -> bool)
    requires IsSubsequence(r, s)
    requires forall i :: 0 <= i < |r| ==> keep(r[i])
    ensures |r| <= |Filter(s, keep)|
    decreases |s|
  {
    if r != [] && s != [] {
      if r[0] == s[0] {
        FilterIsLongest(r[1..], s[1..], keep);
      } else {
        FilterIsLongest(r, s[1..], keep);
      }
    }
  }

  /** The filter is the ONLY longest subsequence made of kept elements: any
      such subsequence of the same length is the filter itself. So filtering
      removes exactly the rejected elements and nothing else. */
  lemma {:induction false} FilterIsUnique<T>(r: seq<T>, s: seq<T>, keep: T -> bool)
    requires IsSubsequence(r, s)
    requires forall i :: 0 <= i < |r| ==> keep(r[i])
    requires |r| == |Filter(s, keep)|
    ensures r == Filter(s, keep)
    decreases |s|
  {
    if s == [] {
    } else if r == [] {
    } else if r[0] == s[0] {
      FilterIsUnique(r[1..], s[1..], keep);
      assert r == [r[0]] + r[1..];
    } else {
      // r skips s[0]; were s[0] kept, r would be longer than the filter of s[1..].
      FilterIsLongest(r, s[1..], keep);
      if !keep(s[0]) {
        FilterIsUnique(r, s[1..], keep);
      }
    }
  }
}
