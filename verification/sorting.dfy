/**
 LINQ's `OrderBy(key)` on string keys: a stable sort, modelled as an insertion
 sort under ordinal (character code) lexicographic order. The main results are
 that the sort returns a permutation of its input ordered by key, that elements
 with equal keys keep their input order, and that these properties determine
 the result completely.
 */
module Sorting {

  // ---------------------------------------------------------------------------
  // Ordinal string order
  // ---------------------------------------------------------------------------

  /** `a` sorts no later than `b`: ordinal comparison, a proper prefix first. */
  predicate Leq(a: string, b: string)
    decreases |a|
  {
    |a| == 0 || (|b| > 0 && (a[0] < b[0] || (a[0] == b[0] && Leq(a[1..], b[1..]))))
  }

  lemma {:induction false} LeqReflexive(a: string)
    ensures Leq(a, a)
    decreases |a|
  {
    if |a| > 0 {
      LeqReflexive(a[1..]);
    }
  }

  lemma {:induction false} LeqTotal(a: string, b: string)
    ensures Leq(a, b) || Leq(b, a)
    decreases |a|
  {
    if |a| > 0 && |b| > 0 && a[0] == b[0] {
      LeqTotal(a[1..], b[1..]);
    }
  }

  lemma {:induction false} LeqAntisymmetric(a: string, b: string)
    requires Leq(a, b) && Leq(b, a)
    ensures a == b
    decreases |a|
  {
    if |a| > 0 {
      LeqAntisymmetric(a[1..], b[1..]);
      assert a == [a[0]] + a[1..];
      assert b == [b[0]] + b[1..];
    }
  }

  lemma {:induction false} LeqTransitive(a: string, b: string, c: string)
    requires Leq(a, b) && Leq(b, c)
    ensures Leq(a, c)
    decreases |a|
  {
    if |a| > 0 && a[0] == b[0] && b[0] == c[0] {
      LeqTransitive(a[1..], b[1..], c[1..]);
    }
  }

  // ---------------------------------------------------------------------------
  // Sortedness and stability
  // ---------------------------------------------------------------------------

  /** Every element's key is no later than the keys of the elements after it. */
  predicate SortedBy<T>(s: seq<T>, key: T -> string) {
    forall i, j :: 0 <= i < j < |s| ==> Leq(key(s[i]), key(s[j]))
  }

  /** The elements of `s` whose key is `k`, in their order in `s`. */
  function WithKey<T>(s: seq<T>, key: T -> string, k: string): (r: seq<T>)
    ensures forall i :: 0 <= i < |r| ==> key(r[i]) == k && r[i] in s
    decreases |s|
  {
    if |s| == 0 then []
    else if key(s[0]) == k then [s[0]] + WithKey(s[1..], key, k)
    else WithKey(s[1..], key, k)
  }

  lemma WithKeyOfFirst<T>(s: seq<T>, key: T -> string)
    requires |s| > 0
    ensures WithKey(s, key, key(s[0])) != []
  {
  }

  /**
   `t` keeps the relative order that `s` gives to the elements of each key:
   the elements sharing a key appear in `t` exactly as they do in `s`.
   */
  ghost predicate SameKeyOrder<T>(t: seq<T>, s: seq<T>, key: T -> string) {
    forall k :: WithKey(t, key, k) == WithKey(s, key, k)
  }

  /**
   Puts `x` in front of the first element whose key is not earlier than its
   own, so that `x` precedes every element of equal key.
   */
  function Insert<T(==)>(x: T, s: seq<T>, key: T -> string): (r: seq<T>)
    requires SortedBy(s, key)
    ensures multiset(r) == multiset(s) + multiset{x}
    ensures SortedBy(r, key)
    ensures forall k :: WithKey(r, key, k) == if key(x) == k then [x] + WithKey(s, key, k) else WithKey(s, key, k)
    decreases |s|
  {
    if |s| == 0 || Leq(key(x), key(s[0])) then
      InsertFrontSorted(x, s, key);
      WithKeyCons(x, s, key);
      [x] + s
    else
      var rest := Insert(x, s[1..], key);
      LeqTotal(key(x), key(s[0]));
      LeqReflexive(key(x));
      InsertLaterSorted(x, s, rest, key);
      WithKeyCons(s[0], rest, key);
      WithKeyCons(s[0], s[1..], key);
      assert s == [s[0]] + s[1..];
      [s[0]] + rest
  }

  /** The elements of one key in a sequence with `y` in front. */
  lemma WithKeyCons<T>(y: T, s: seq<T>, key: T -> string)
    ensures forall k :: WithKey([y] + s, key, k) == if key(y) == k then [y] + WithKey(s, key, k) else WithKey(s, key, k)
  {
    assert ([y] + s)[1..] == s;
  }

  /** An element whose key is no later than the first key of a sorted sequence can go in front. */
  lemma InsertFrontSorted<T>(x: T, s: seq<T>, key: T -> string)
    requires SortedBy(s, key)
    requires |s| > 0 ==> Leq(key(x), key(s[0]))
    ensures SortedBy([x] + s, key)
  {
    var r := [x] + s;
    forall i, j | 0 <= i < j < |r|
      ensures Leq(key(r[i]), key(r[j]))
    {
      if i == 0 && j > 1 {
        LeqTransitive(key(x), key(s[0]), key(s[j - 1]));
      }
    }
  }

  /**
   The first element of a sorted `s` can go in front of `rest`, the tail of
   `s` with `x` inserted, when `x`'s key is later than the first key.
   */
  lemma InsertLaterSorted<T>(x: T, s: seq<T>, rest: seq<T>, key: T -> string)
    requires SortedBy(s, key) && |s| > 0 && Leq(key(s[0]), key(x))
    requires SortedBy(rest, key) && multiset(rest) == multiset(s[1..]) + multiset{x}
    ensures SortedBy([s[0]] + rest, key)
  {
    forall j | 0 <= j < |rest|
      ensures Leq(key(s[0]), key(rest[j]))
    {
      assert rest[j] in multiset(rest);
      if rest[j] != x {
        assert rest[j] in multiset(s[1..]);
        var m :| 0 <= m < |s[1..]| && s[1..][m] == rest[j];
        assert s[m + 1] == rest[j];
      }
    }
    var r := [s[0]] + rest;
    forall i, j | 0 <= i < j < |r|
      ensures Leq(key(r[i]), key(r[j]))
    {
      if i > 0 {
        assert r[i] == rest[i - 1] && r[j] == rest[j - 1];
      }
    }
  }

  /**
   `OrderBy(key)`: a permutation of `s`, ordered by key, with equal keys in
   their order in `s`.
   */
  function SortBy<T(==)>(s: seq<T>, key: T -> string): (r: seq<T>)
    ensures multiset(r) == multiset(s)
    ensures SortedBy(r, key)
    ensures SameKeyOrder(r, s, key)
    decreases |s|
  {
    if |s| == 0 then []
    else
      var rest := SortBy(s[1..], key);
      assert s == [s[0]] + s[1..];
      Insert(s[0], rest, key)
  }

  /** Sorting depends on the keys only: two key functions that agree everywhere sort alike. */
  lemma {:induction false} SortByDependsOnKeysOnly<T>(s: seq<T>, key: T -> string, key': T -> string)
    requires forall x :: key(x) == key'(x)
    ensures SortBy(s, key) == SortBy(s, key')
  {
    var r := SortBy(s, key);
    assert SortedBy(r, key');
    forall k
      ensures WithKey(r, key', k) == WithKey(s, key', k)
    {
      WithKeyDependsOnKeysOnly(r, key, key', k);
      WithKeyDependsOnKeysOnly(s, key, key', k);
    }
    SortByIsTheStableSort(s, r, key');
  }

  lemma {:induction false} WithKeyDependsOnKeysOnly<T>(s: seq<T>, key: T -> string, key': T -> string, k: string)
    requires forall x :: key(x) == key'(x)
    ensures WithKey(s, key, k) == WithKey(s, key', k)
    decreases |s|
  {
    if |s| > 0 {
      WithKeyDependsOnKeysOnly(s[1..], key, key', k);
    }
  }

  // ---------------------------------------------------------------------------
  // Uniqueness: any stable sort gives the same sequence
  // ---------------------------------------------------------------------------

  /**
   Two sequences ordered by the same key, whose elements of each key appear in
   the same order, are equal.
   */
  lemma {:induction false} SortedSameKeyOrderUnique<T>(a: seq<T>, b: seq<T>, key: T -> string)
    requires SortedBy(a, key) && SortedBy(b, key)
    requires SameKeyOrder(a, b, key)
    ensures a == b
    decreases |a| + |b|
  {
    if |a| == 0 || |b| == 0 {
      if |a| > 0 {
        WithKeyOfFirst(a, key);
      } else if |b| > 0 {
        WithKeyOfFirst(b, key);
      }
    } else {
      var ka, kb := key(a[0]), key(b[0]);
      // a[0] has the least key of a, b[0] the least of b; each key occurs in both.
      var wa := WithKey(a, key, kb);
      assert wa == WithKey(b, key, kb) && wa[0] == b[0];
      var ia :| 0 <= ia < |a| && a[ia] == wa[0];
      if ia > 0 {
        assert Leq(ka, key(a[ia]));
      } else {
        LeqReflexive(ka);
      }
      var wb := WithKey(b, key, ka);
      assert wb == WithKey(a, key, ka) && wb[0] == a[0];
      var ib :| 0 <= ib < |b| && b[ib] == wb[0];
      if ib > 0 {
        assert Leq(kb, key(b[ib]));
      } else {
        LeqReflexive(kb);
      }
      LeqAntisymmetric(ka, kb);
      assert a[0] == b[0];
      assert SameKeyOrder(a[1..], b[1..], key) by {
        forall k
          ensures WithKey(a[1..], key, k) == WithKey(b[1..], key, k)
        {
          var ta, tb := WithKey(a[1..], key, k), WithKey(b[1..], key, k);
          assert WithKey(a, key, k) == WithKey(b, key, k);
          if k == ka {
            assert ([a[0]] + ta)[1..] == ta;
            assert ([b[0]] + tb)[1..] == tb;
          }
        }
      }
      SortedSameKeyOrderUnique(a[1..], b[1..], key);
      assert a == [a[0]] + a[1..];
      assert b == [b[0]] + b[1..];
    }
  }

  /**
   `SortBy` is the only stable sort: any sequence that is ordered by key and
   keeps the input order within each key is `SortBy`'s result.
   */
  lemma SortByIsTheStableSort<T>(s: seq<T>, t: seq<T>, key: T -> string)
    requires SortedBy(t, key)
    requires SameKeyOrder(t, s, key)
    ensures t == SortBy(s, key)
  {
    SortedSameKeyOrderUnique(t, SortBy(s, key), key);
  }
}
