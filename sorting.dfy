/**
 * The stable sort `Array.prototype.sort` performs with a numeric comparator
 * (`(a, b) => key(a) - key(b)`): ascending by key, equal keys in input order.
 */
module Sorting {

  /** Ascending by `key`. */
  predicate SortedBy<T>(xs: seq<T>, key: T -> int) {
    forall i, j :: 0 <= i < j < |xs| ==> key(xs[i]) <= key(xs[j])
  }

  /** The elements of `xs` whose key is `t`, in order. */
  function WithKey<T>(xs: seq<T>, key: T -> int, t: int): seq<T>
  {
    if xs == [] then []
    else (if key(xs[0]) == t then [xs[0]] else []) + WithKey(xs[1..], key, t)
  }

  /** `x` placed before the first element whose key is not below its own. */
  function Insert<T>(x: T, s: seq<T>, key: T -> int): seq<T>
  {
    if s == [] || key(x) <= key(s[0]) then [x] + s
    else [s[0]] + Insert(x, s[1..], key)
  }

  /** Insertion sort: the stable sort by `key`. */
  function SortBy<T>(xs: seq<T>, key: T -> int): seq<T>
  {
    if xs == [] then [] else Insert(xs[0], SortBy(xs[1..], key), key)
  }

  lemma {:induction false} InsertCount<T>(x: T, s: seq<T>, key: T -> int)
    ensures multiset(Insert(x, s, key)) == multiset{x} + multiset(s)
    decreases |s|
  {
    if s != [] && key(x) > key(s[0]) {
      InsertCount(x, s[1..], key);
      assert s == [s[0]] + s[1..];
    }
  }

  /** Every key of the result is at least `b` when every key going in is. */
  lemma {:induction false} InsertAbove<T>(x: T, s: seq<T>, key: T -> int, b: int)
    requires key(x) >= b && forall j :: 0 <= j < |s| ==> key(s[j]) >= b
    ensures forall j :: 0 <= j < |Insert(x, s, key)| ==> key(Insert(x, s, key)[j]) >= b
    decreases |s|
  {
    if s != [] && key(x) > key(s[0]) {
      InsertAbove(x, s[1..], key, b);
    }
  }

  lemma {:induction false} InsertSorted<T>(x: T, s: seq<T>, key: T -> int)
    requires SortedBy(s, key)
    ensures SortedBy(Insert(x, s, key), key)
    decreases |s|
  {
    if s != [] && key(x) > key(s[0]) {
      InsertSorted(x, s[1..], key);
      InsertAbove(x, s[1..], key, key(s[0]));
    }
  }

  lemma {:induction false} InsertWithKey<T>(x: T, s: seq<T>, key: T -> int, t: int)
    ensures WithKey(Insert(x, s, key), key, t) == (if key(x) == t then [x] else []) + WithKey(s, key, t)
    decreases |s|
  {
    if s != [] && key(x) > key(s[0]) {
      InsertWithKey(x, s[1..], key, t);
      var rest := Insert(x, s[1..], key);
      var r := [s[0]] + rest;
      assert r[1..] == rest;
      var hx, h0, w := if key(x) == t then [x] else [], if key(s[0]) == t then [s[0]] else [], WithKey(s[1..], key, t);
      assert WithKey(r, key, t) == h0 + (hx + w);
      assert WithKey(s, key, t) == h0 + w;
      if key(x) == t {
        assert h0 == [];
        assert h0 + (hx + w) == hx + (h0 + w);
      } else {
        assert hx == [];
        assert h0 + (hx + w) == hx + (h0 + w);
      }
    } else {
      assert ([x] + s)[1..] == s;
    }
  }

  /**
   * The sort is ascending, a permutation of its input, and stable: the
   * elements of each key keep their input order.
   */
  lemma {:induction false} SortByCorrect<T>(xs: seq<T>, key: T -> int)
    ensures SortedBy(SortBy(xs, key), key)
    ensures multiset(SortBy(xs, key)) == multiset(xs)
    ensures forall t :: WithKey(SortBy(xs, key), key, t) == WithKey(xs, key, t)
    decreases |xs|
  {
    if xs != [] {
      SortByCorrect(xs[1..], key);
      InsertSorted(xs[0], SortBy(xs[1..], key), key);
      InsertCount(xs[0], SortBy(xs[1..], key), key);
      assert xs == [xs[0]] + xs[1..];
      forall t ensures WithKey(SortBy(xs, key), key, t) == WithKey(xs, key, t) {
        InsertWithKey(xs[0], SortBy(xs[1..], key), key, t);
      }
    }
  }

  /** Sorting a sorted sequence leaves it as it is. */
  lemma {:induction false} SortBySorted<T>(xs: seq<T>, key: T -> int)
    requires SortedBy(xs, key)
    ensures SortBy(xs, key) == xs
    decreases |xs|
  {
    if xs != [] {
      assert SortedBy(xs[1..], key);
      SortBySorted(xs[1..], key);
      assert xs == [xs[0]] + xs[1..];
    }
  }

  /**
   * Sorting twice sorts once: re-sorting the shared bucket in place changes
   * nothing further.
   */
  lemma SortByIdempotent<T>(xs: seq<T>, key: T -> int)
    ensures SortBy(SortBy(xs, key), key) == SortBy(xs, key)
  {
    SortByCorrect(xs, key);
    SortBySorted(SortBy(xs, key), key);
  }
}
