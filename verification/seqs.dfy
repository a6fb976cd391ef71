/**
 Order-preserving filtering, the model of LINQ's `Where` followed by
 enumeration, and the subsequence relation it produces.
 */
module Seqs {

  lemma ConcatAssoc<T>(a: seq<T>, b: seq<T>, c: seq<T>)
    ensures a + b + c == a + (b + c)
  {
  }

  lemma FrontAndLastTwo<T>(h: T, a: seq<T>, x: T, y: T)
    ensures [h] + (a + [x] + [y]) == [h] + a + [x, y]
  {
  }

  lemma ConsButLast<T>(h: T, s: seq<T>)
    requires |s| > 0
    ensures ([h] + s)[..|s|] == [h] + s[..|s| - 1] && ([h] + s)[|s|] == s[|s| - 1]
  {
  }

  /** `sub` can be obtained from `s` by deleting elements. */
  predicate IsSubsequence<T(==,!new)>(sub: seq<T>, s: seq<T>)
    decreases |s|
  {
    if |sub| == 0 then true
    else if |s| == 0 then false
    else if sub[0] == s[0] then IsSubsequence(sub[1..], s[1..])
    else IsSubsequence(sub, s[1..])
  }

  /**
   `s.Where(keep)`: the elements of `s` that satisfy `keep`, in their order in
   `s`, each as many times as it occurs there.
   */
  function Filter<T(==,!new)>(s: seq<T>, keep: T -> bool): (r: seq<T>)
    ensures forall i :: 0 <= i < |r| ==> keep(r[i])
    ensures IsSubsequence(r, s)
    ensures forall x :: multiset(r)[x] == if keep(x) then multiset(s)[x] else 0
    ensures forall x :: x in r <==> x in s && keep(x)
    decreases |s|
  {
    if |s| == 0 then []
    else
      var rest := Filter(s[1..], keep);
      assert s == [s[0]] + s[1..];
      assert forall x :: x in s <==> x == s[0] || x in s[1..];
      if keep(s[0]) then
        var r := [s[0]] + rest;
        assert r[1..] == rest;
        r
      else rest
  }

  /** Keeping what was already kept removes nothing more. */
  lemma {:induction false} FilterIdempotent<T(!new)>(s: seq<T>, keep: T -> bool)
    ensures Filter(Filter(s, keep), keep) == Filter(s, keep)
    decreases |s|
  {
    if |s| > 0 {
      FilterIdempotent(s[1..], keep);
      var rest := Filter(s[1..], keep);
      if keep(s[0]) {
        assert ([s[0]] + rest)[1..] == rest;
      }
    }
  }

  /** A filter that every element passes returns its input. */
  lemma {:induction false} FilterAllKept<T(!new)>(s: seq<T>, keep: T -> bool)
    requires forall i :: 0 <= i < |s| ==> keep(s[i])
    ensures Filter(s, keep) == s
    decreases |s|
  {
    if |s| > 0 {
      FilterAllKept(s[1..], keep);
      assert s == [s[0]] + s[1..];
    }
  }

  /** Two filters in a row keep what passes both. */
  lemma {:induction false} FilterFilter<T(!new)>(s: seq<T>, p: T -> bool, q: T -> bool, both: T -> bool)
    requires forall x :: both(x) == (p(x) && q(x))
    ensures Filter(Filter(s, p), q) == Filter(s, both)
    decreases |s|
  {
    if |s| > 0 {
      FilterFilter(s[1..], p, q, both);
      var rest := Filter(s[1..], p);
      if p(s[0]) {
        assert ([s[0]] + rest)[1..] == rest;
      }
    }
  }

  /** One step of the filter: the first element, if kept, then the filtered rest. */
  lemma FilterStep<T(!new)>(s: seq<T>, keep: T -> bool)
    requires |s| > 0
    ensures Filter(s, keep) == if keep(s[0]) then [s[0]] + Filter(s[1..], keep) else Filter(s[1..], keep)
  {
  }

  /** No subsequence of `s` whose elements all pass `keep` is longer than the filter's result. */
  lemma {:induction false} FilterIsLongest<T(!new)>(r: seq<T>, s: seq<T>, keep: T -> bool)
    requires IsSubsequence(r, s)
    requires forall i :: 0 <= i < |r| ==> keep(r[i])
    ensures |r| <= |Filter(s, keep)|
    decreases |s|
  {
    if |r| > 0 {
      FilterStep(s, keep);
      if r[0] == s[0] {
        FilterIsLongest(r[1..], s[1..], keep);
      } else {
        FilterIsLongest(r, s[1..], keep);
      }
    }
  }

  /**
   The filter's result is the only subsequence of `s` whose elements all pass
   `keep` and that is as long as the filter's result.
   */
  lemma {:induction false} FilterIsTheLongest<T(!new)>(r: seq<T>, s: seq<T>, keep: T -> bool)
    requires IsSubsequence(r, s)
    requires forall i :: 0 <= i < |r| ==> keep(r[i])
    requires |r| == |Filter(s, keep)|
    ensures r == Filter(s, keep)
    decreases |s|
  {
    if |r| > 0 {
      FilterStep(s, keep);
      var rest := Filter(s[1..], keep);
      if r[0] == s[0] {
        FilterIsTheLongest(r[1..], s[1..], keep);
        assert r == [r[0]] + r[1..];
      } else if !keep(s[0]) {
        FilterIsTheLongest(r, s[1..], keep);
      } else {
        FilterIsLongest(r, s[1..], keep);
        assert false;
      }
    }
  }
}
