/** The Kotlin collection operations the app uses, `filter` and `find`, and the index search `find` performs. */
module Seqs {
  import opened Wrappers

  /** `a` is `b` with some elements left out, the order of the rest kept. */
  predicate IsSubsequence<T(==)>(a: seq<T>, b: seq<T>)
    decreases |b|
  {
    || |a| == 0
    || (&& |b| > 0
        && ((a[0] == b[0] && IsSubsequence(a[1..], b[1..])) || IsSubsequence(a, b[1..])))
  }

  /**
    `s.filter(keep)`: the elements of `s` that `keep` accepts, in their
    order, each as many times as it occurs in `s`.
   */
  function Filter<T(==, !new)>(s: seq<T>, keep: T -> bool): (r: seq<T>)
    ensures IsSubsequence(r, s)
    ensures forall x :: x in r <==> x in s && keep(x)
    ensures forall x :: multiset(r)[x] == if keep(x) then multiset(s)[x] else 0
    decreases |s|
  {
    if |s| == 0 then []
    else
      assert s == [s[0]] + s[1..];
      if keep(s[0]) then [s[0]] + Filter(s[1..], keep) else Filter(s[1..], keep)
  }

  /** Filtering by a predicate that accepts every element returns the sequence itself. */
  lemma {:induction false} FilterKeepsAll<T(!new)>(s: seq<T>, keep: T -> bool)
    requires forall i :: 0 <= i < |s| ==> keep(s[i])
    ensures Filter(s, keep) == s
    decreases |s|
  {
    if |s| > 0 {
      FilterKeepsAll(s[1..], keep);
      assert s == [s[0]] + s[1..];
    }
  }

  /** Filtering by two predicates in turn is filtering once by their conjunction. */
  lemma {:induction false} FilterTwice<T(!new)>(s: seq<T>, first: T -> bool, second: T -> bool, both: T -> bool)
    requires forall x :: both(x) == (first(x) && second(x))
    ensures Filter(Filter(s, first), second) == Filter(s, both)
    decreases |s|
  {
    if |s| > 0 {
      FilterTwice(s[1..], first, second, both);
    }
  }

  /** Filtering depends only on the values the predicate takes. */
  lemma {:induction false} FilterSameVerdicts<T(!new)>(s: seq<T>, keep1: T -> bool, keep2: T -> bool)
    requires forall i :: 0 <= i < |s| ==> keep1(s[i]) == keep2(s[i])
    ensures Filter(s, keep1) == Filter(s, keep2)
    decreases |s|
  {
    if |s| > 0 {
      FilterSameVerdicts(s[1..], keep1, keep2);
    }
  }

  /** A subsequence holds each element at most as often as the sequence it is taken from. */
  lemma {:induction false} SubsequenceCounts<T>(a: seq<T>, b: seq<T>)
    requires IsSubsequence(a, b)
    ensures multiset(a) <= multiset(b)
    decreases |b|
  {
    if |a| > 0 {
      assert b == [b[0]] + b[1..];
      if a[0] == b[0] && IsSubsequence(a[1..], b[1..]) {
        SubsequenceCounts(a[1..], b[1..]);
        assert a == [a[0]] + a[1..];
      } else {
        SubsequenceCounts(a, b[1..]);
      }
    }
  }

  /**
    `Filter` is the only subsequence of `s` that holds every kept element
    as often as `s` does and no other element.
   */
  lemma {:induction false} FilterIsTheOnlyKeepingSubsequence<T(!new)>(s: seq<T>, keep: T -> bool, r: seq<T>)
    requires IsSubsequence(r, s)
    requires forall x :: multiset(r)[x] == if keep(x) then multiset(s)[x] else 0
    ensures r == Filter(s, keep)
    decreases |s|
  {
    if |s| > 0 {
      assert s == [s[0]] + s[1..];
      if keep(s[0]) {
        if !(|r| > 0 && r[0] == s[0] && IsSubsequence(r[1..], s[1..])) {
          SubsequenceCounts(r, s[1..]);
          assert false;
        }
        assert r == [r[0]] + r[1..];
        FilterIsTheOnlyKeepingSubsequence(s[1..], keep, r[1..]);
      } else {
        if |r| > 0 {
          assert r == [r[0]] + r[1..];
          assert r[0] in multiset(r);
        }
        assert IsSubsequence(r, s[1..]);
        FilterIsTheOnlyKeepingSubsequence(s[1..], keep, r);
      }
    }
  }

  /** The search behind `find`: the lowest index whose element matches, if any. */
  function FirstIndex<T>(s: seq<T>, matches: T -> bool): (r: Option<nat>)
    ensures r.None? <==> forall i :: 0 <= i < |s| ==> !matches(s[i])
    ensures r.Some? ==> r.value < |s| && matches(s[r.value])
    ensures r.Some? ==> forall j :: 0 <= j < r.value ==> !matches(s[j])
    decreases |s|
  {
    if |s| == 0 then None
    else if matches(s[0]) then Some(0)
    else
      match FirstIndex(s[1..], matches)
      case None => None
      case Some(i) => Some(i + 1)
  }

  /** `s.find(matches)`: the first element that matches, if any. */
  function Find<T>(s: seq<T>, matches: T -> bool): (r: Option<T>)
    ensures r.None? <==> forall i :: 0 <= i < |s| ==> !matches(s[i])
    ensures r.Some? ==> exists i :: 0 <= i < |s| && s[i] == r.value && matches(s[i])
                                    && forall j :: 0 <= j < i ==> !matches(s[j])
  {
    match FirstIndex(s, matches)
    case None => None
    case Some(i) => Some(s[i])
  }
}
