/**
 * Grouping a sequence by a string key, as the calendar does with its `Map`
 * buckets filled in one pass: a bucket per key that occurs, each holding the
 * elements with that key in input order, and the keys in the order in which
 * they were first seen.
 */
module Grouping {

  /** Some element of `xs` has key `k`. */
  ghost predicate Occurs<T>(xs: seq<T>, key: T -> string, k: string) {
    exists x :: x in xs && key(x) == k
  }

  /** The elements of `xs` whose key is `k`, in order: the reference for every bucket. */
  function Bucket<T>(xs: seq<T>, key: T -> string, k: string): seq<T>
    decreases |xs|
  {
    if xs == [] then []
    else Bucket(xs[..|xs| - 1], key, k) + if key(xs[|xs| - 1]) == k then [xs[|xs| - 1]] else []
  }

  /**
   * The map a one-pass bucketing leaves: each element appended to the bucket
   * of its key, the bucket created on first use.
   */
  function Buckets<T>(xs: seq<T>, key: T -> string): map<string, seq<T>>
    decreases |xs|
  {
    if xs == [] then map[]
    else
      var m := Buckets(xs[..|xs| - 1], key);
      var x := xs[|xs| - 1];
      if key(x) in m then m[key(x) := m[key(x)] + [x]] else m[key(x) := [x]]
  }

  /** `xs.map(f)`. */
  function MapSeq<T, U>(xs: seq<T>, f: T -> U): (ys: seq<U>)
    ensures |ys| == |xs| && forall i :: 0 <= i < |xs| ==> ys[i] == f(xs[i])
  {
    seq(|xs|, i requires 0 <= i < |xs| => f(xs[i]))
  }

  /** The same bucketing, filing `f(x)` under the key of `x`. */
  function MappedBuckets<T, U>(xs: seq<T>, key: T -> string, f: T -> U): map<string, seq<U>>
    decreases |xs|
  {
    if xs == [] then map[]
    else
      var m := MappedBuckets(xs[..|xs| - 1], key, f);
      var x := xs[|xs| - 1];
      if key(x) in m then m[key(x) := m[key(x)] + [f(x)]] else m[key(x) := [f(x)]]
  }

  /** The keys in the order in which they first occur. */
  function KeyOrder<T>(xs: seq<T>, key: T -> string): seq<string>
    decreases |xs|
  {
    if xs == [] then []
    else
      var order := KeyOrder(xs[..|xs| - 1], key);
      var k := key(xs[|xs| - 1]);
      if k in order then order else order + [k]
  }

  /** The index of the first element with key `k`. */
  ghost function FirstWithKey<T>(xs: seq<T>, key: T -> string, k: string): (i: nat)
    requires Occurs(xs, key, k)
    ensures i < |xs| && key(xs[i]) == k
    ensures forall j :: 0 <= j < i ==> key(xs[j]) != k
  {
    if key(xs[0]) == k then 0
    else
      assert Occurs(xs[1..], key, k) by {
        var y :| y in xs && key(y) == k;
        var p :| 0 <= p < |xs| && xs[p] == y;
        assert xs[1..][p - 1] == y;
      }
      1 + FirstWithKey(xs[1..], key, k)
  }

  lemma OccursSnoc<T>(xs: seq<T>, x: T, key: T -> string, k: string)
    ensures Occurs(xs + [x], key, k) <==> Occurs(xs, key, k) || key(x) == k
  {
    if Occurs(xs + [x], key, k) {
      var y :| y in xs + [x] && key(y) == k;
      var p :| 0 <= p < |xs + [x]| && (xs + [x])[p] == y;
      if p < |xs| {
        assert xs[p] == y;
      }
    }
    if Occurs(xs, key, k) {
      var y :| y in xs && key(y) == k;
      assert y in xs + [x];
    }
    assert x in xs + [x];
  }

  lemma BucketSnoc<T>(xs: seq<T>, x: T, key: T -> string, k: string)
    ensures Bucket(xs + [x], key, k) == Bucket(xs, key, k) + if key(x) == k then [x] else []
  {
    assert (xs + [x])[..|xs|] == xs;
  }

  /** Every element of a bucket has the bucket's key and comes from the input. */
  lemma {:induction false} BucketMembers<T>(xs: seq<T>, key: T -> string, k: string)
    ensures forall y :: y in Bucket(xs, key, k) ==> y in xs && key(y) == k
    decreases |xs|
  {
    if xs != [] {
      BucketMembers(xs[..|xs| - 1], key, k);
      assert xs == xs[..|xs| - 1] + [xs[|xs| - 1]];
    }
  }

  /** Each copy of an element goes to the bucket of its own key and to no other. */
  lemma {:induction false} BucketCount<T>(xs: seq<T>, key: T -> string, k: string, y: T)
    ensures multiset(Bucket(xs, key, k))[y] == if key(y) == k then multiset(xs)[y] else 0
    decreases |xs|
  {
    if xs != [] {
      var init, last := xs[..|xs| - 1], xs[|xs| - 1];
      BucketCount(init, key, k, y);
      assert xs == init + [last];
    }
  }

  /** A bucket is empty exactly when no element has its key. */
  lemma BucketEmpty<T>(xs: seq<T>, key: T -> string, k: string)
    ensures Bucket(xs, key, k) == [] <==> !Occurs(xs, key, k)
  {
    BucketMembers(xs, key, k);
    if Occurs(xs, key, k) {
      var x :| x in xs && key(x) == k;
      BucketCount(xs, key, k, x);
    }
  }

  /** The bucketing keeps a bucket exactly for each key that occurs, holding that key's elements in order. */
  lemma {:induction false} BucketsSpec<T>(xs: seq<T>, key: T -> string, k: string)
    ensures k in Buckets(xs, key) <==> Occurs(xs, key, k)
    ensures k in Buckets(xs, key) ==> Buckets(xs, key)[k] == Bucket(xs, key, k)
    decreases |xs|
  {
    if xs == [] {
      assert !Occurs(xs, key, k);
    } else {
      var init, x := xs[..|xs| - 1], xs[|xs| - 1];
      BucketsSpec(init, key, k);
      assert init + [x] == xs;
      OccursSnoc(init, x, key, k);
      BucketSnoc(init, x, key, k);
      BucketEmpty(init, key, k);
    }
  }

  /** The projected bucketing has the same keys, each holding the images of that key's elements. */
  lemma {:induction false} MappedBucketsSpec<T, U>(xs: seq<T>, key: T -> string, f: T -> U, k: string)
    ensures k in MappedBuckets(xs, key, f) <==> Occurs(xs, key, k)
    ensures k in MappedBuckets(xs, key, f) ==> MappedBuckets(xs, key, f)[k] == MapSeq(Bucket(xs, key, k), f)
    decreases |xs|
  {
    if xs == [] {
      assert !Occurs(xs, key, k);
    } else {
      var init, x := xs[..|xs| - 1], xs[|xs| - 1];
      MappedBucketsSpec(init, key, f, k);
      assert init + [x] == xs;
      OccursSnoc(init, x, key, k);
      BucketSnoc(init, x, key, k);
      BucketEmpty(init, key, k);
    }
  }

  /**
   * The buckets partition the input: a bucket exists exactly for the keys that
   * occur, is never empty, and is that key's reference bucket, which by
   * BucketCount holds every copy of each element with its key and nothing else.
   */
  lemma BucketsPartition<T>(xs: seq<T>, key: T -> string)
    ensures forall k :: k in Buckets(xs, key) <==> Occurs(xs, key, k)
    ensures forall k :: k in Buckets(xs, key) ==> Buckets(xs, key)[k] == Bucket(xs, key, k) != []
  {
    forall k ensures k in Buckets(xs, key) <==> Occurs(xs, key, k) {
      BucketsSpec(xs, key, k);
    }
    forall k | k in Buckets(xs, key) ensures Buckets(xs, key)[k] == Bucket(xs, key, k) != [] {
      BucketsSpec(xs, key, k);
      BucketEmpty(xs, key, k);
    }
  }

  /** The bucketing loop: one pass over `xs` filling a map. */
  method GroupBy<T>(xs: seq<T>, key: T -> string) returns (m: map<string, seq<T>>)
    ensures m == Buckets(xs, key)
  {
    m := map[];
    for i := 0 to |xs|
      invariant m == Buckets(xs[..i], key)
    {
      var x := xs[i];
      var k := key(x);
      if k !in m {
        m := m[k := []];
      }
      m := m[k := m[k] + [x]];
      assert [] + [x] == [x];
      assert xs[..i + 1][..i] == xs[..i];
    }
    assert xs[..|xs|] == xs;
  }

  /** The projecting bucketing loop: one pass over `xs` filing `f(x)` under the key of `x`. */
  method GroupMapBy<T, U>(xs: seq<T>, key: T -> string, f: T -> U) returns (m: map<string, seq<U>>)
    ensures m == MappedBuckets(xs, key, f)
  {
    m := map[];
    for i := 0 to |xs|
      invariant m == MappedBuckets(xs[..i], key, f)
    {
      var x := xs[i];
      var k := key(x);
      if k !in m {
        m := m[k := []];
      }
      m := m[k := m[k] + [f(x)]];
      assert [] + [f(x)] == [f(x)];
      assert xs[..i + 1][..i] == xs[..i];
    }
    assert xs[..|xs|] == xs;
  }

  lemma FirstSnoc<T>(xs: seq<T>, x: T, key: T -> string, k: string)
    requires Occurs(xs, key, k)
    ensures Occurs(xs + [x], key, k) && FirstWithKey(xs + [x], key, k) == FirstWithKey(xs, key, k)
  {
    OccursSnoc(xs, x, key, k);
    var i, i' := FirstWithKey(xs, key, k), FirstWithKey(xs + [x], key, k);
    assert (xs + [x])[i] == xs[i];
  }

  lemma FirstNew<T>(xs: seq<T>, x: T, key: T -> string)
    requires !Occurs(xs, key, key(x))
    ensures Occurs(xs + [x], key, key(x)) && FirstWithKey(xs + [x], key, key(x)) == |xs|
  {
    OccursSnoc(xs, x, key, key(x));
    var i := FirstWithKey(xs + [x], key, key(x));
    assert (xs + [x])[|xs|] == x;
  }

  /**
   * The key order lists exactly the keys that occur, each once, ordered by
   * their first occurrence.
   */
  lemma {:induction false} KeyOrderSpec<T>(xs: seq<T>, key: T -> string)
    ensures forall k :: k in KeyOrder(xs, key) <==> Occurs(xs, key, k)
    ensures forall i, j :: 0 <= i < j < |KeyOrder(xs, key)| ==> KeyOrder(xs, key)[i] != KeyOrder(xs, key)[j]
    ensures forall i, j :: 0 <= i < j < |KeyOrder(xs, key)| ==>
      FirstWithKey(xs, key, KeyOrder(xs, key)[i]) < FirstWithKey(xs, key, KeyOrder(xs, key)[j])
    decreases |xs|
  {
    if xs == [] {
      forall k ensures !Occurs(xs, key, k) { }
    } else {
      var init, x := xs[..|xs| - 1], xs[|xs| - 1];
      KeyOrderSpec(init, key);
      assert init + [x] == xs;
      var o, ks := KeyOrder(init, key), KeyOrder(xs, key);
      assert ks == if key(x) in o then o else o + [key(x)];
      forall k ensures k in ks <==> Occurs(xs, key, k) {
        OccursSnoc(init, x, key, k);
      }
      forall i, j | 0 <= i < j < |ks| ensures ks[i] != ks[j] {
        assert ks[i] == o[i];
        if j < |o| {
          assert ks[j] == o[j];
        }
      }
      forall i, j | 0 <= i < j < |ks| ensures FirstWithKey(xs, key, ks[i]) < FirstWithKey(xs, key, ks[j]) {
        assert ks[i] == o[i] && o[i] in o;
        FirstSnoc(init, x, key, o[i]);
        if j < |o| {
          assert ks[j] == o[j] && o[j] in o;
          FirstSnoc(init, x, key, o[j]);
        } else {
          FirstNew(init, x, key);
        }
      }
    }
  }

  /**
   * The groups of a `Map` filled in one pass, read back as its entries: one
   * per key in order of first occurrence, with that key's bucket.
   */
  function OrderedBuckets<T>(xs: seq<T>, key: T -> string): seq<(string, seq<T>)>
  {
    var ks := KeyOrder(xs, key);
    seq(|ks|, j requires 0 <= j < |ks| => (ks[j], Bucket(xs, key, ks[j])))
  }

  /** The map and the order of its keys describe the same keys. */
  lemma OrderMatchesBuckets<T>(xs: seq<T>, key: T -> string)
    ensures forall k :: k in KeyOrder(xs, key) <==> k in Buckets(xs, key)
    ensures forall k :: k in Buckets(xs, key) ==> Buckets(xs, key)[k] == Bucket(xs, key, k)
  {
    KeyOrderSpec(xs, key);
    forall k ensures (k in Buckets(xs, key) <==> Occurs(xs, key, k))
      && (k in Buckets(xs, key) ==> Buckets(xs, key)[k] == Bucket(xs, key, k))
    {
      BucketsSpec(xs, key, k);
    }
  }

  /**
   * Filling an insertion-ordered `Map` from `xs` and reading back its
   * entries: the map is kept beside the order in which its keys were set.
   */
  method GroupInOrder<T>(xs: seq<T>, key: T -> string) returns (groups: seq<(string, seq<T>)>)
    ensures groups == OrderedBuckets(xs, key)
  {
    var m: map<string, seq<T>> := map[];
    var order: seq<string> := [];
    for i := 0 to |xs|
      invariant m == Buckets(xs[..i], key)
      invariant order == KeyOrder(xs[..i], key)
    {
      var x := xs[i];
      var k := key(x);
      OrderMatchesBuckets(xs[..i], key);
      if k !in m {
        m := m[k := []];
        order := order + [k];
      }
      m := m[k := m[k] + [x]];
      assert [] + [x] == [x];
      assert xs[..i + 1][..i] == xs[..i];
    }
    assert xs[..|xs|] == xs;
    OrderMatchesBuckets(xs, key);
    groups := seq(|order|, j requires 0 <= j < |order| => (order[j], m[order[j]]));
  }

  /**
   * The ordered groups partition the input: their keys are distinct, in order
   * of first occurrence and exactly the keys that occur; no group is empty,
   * and each holds every copy of the elements with its key and nothing else.
   */
  lemma OrderedBucketsPartition<T>(xs: seq<T>, key: T -> string)
    ensures var gs := OrderedBuckets(xs, key);
      && (forall j :: 0 <= j < |gs| ==> Occurs(xs, key, gs[j].0))
      && (forall k :: Occurs(xs, key, k) <==> exists j :: 0 <= j < |gs| && gs[j].0 == k)
      && (forall i, j :: 0 <= i < j < |gs| ==> gs[i].0 != gs[j].0)
      && (forall i, j :: 0 <= i < j < |gs| ==>
            FirstWithKey(xs, key, gs[i].0) < FirstWithKey(xs, key, gs[j].0))
      && (forall j :: 0 <= j < |gs| ==> gs[j].1 != [])
      && (forall j, y :: 0 <= j < |gs| ==>
            multiset(gs[j].1)[y] == if key(y) == gs[j].0 then multiset(xs)[y] else 0)
  {
    OrderedKeys(xs, key);
    OrderedContents(xs, key);
  }

  /** The keys half of OrderedBucketsPartition. */
  lemma OrderedKeys<T>(xs: seq<T>, key: T -> string)
    ensures var gs := OrderedBuckets(xs, key);
      && (forall j :: 0 <= j < |gs| ==> Occurs(xs, key, gs[j].0))
      && (forall k :: Occurs(xs, key, k) <==> exists j :: 0 <= j < |gs| && gs[j].0 == k)
      && (forall i, j :: 0 <= i < j < |gs| ==> gs[i].0 != gs[j].0)
      && (forall i, j :: 0 <= i < j < |gs| ==>
            FirstWithKey(xs, key, gs[i].0) < FirstWithKey(xs, key, gs[j].0))
  {
    var ks := KeyOrder(xs, key);
    var gs := OrderedBuckets(xs, key);
    KeyOrderSpec(xs, key);
    forall k | Occurs(xs, key, k) ensures exists j :: 0 <= j < |gs| && gs[j].0 == k {
      var j :| 0 <= j < |ks| && ks[j] == k;
      assert gs[j].0 == k;
    }
  }

  /** The contents half of OrderedBucketsPartition. */
  lemma OrderedContents<T>(xs: seq<T>, key: T -> string)
    ensures var gs := OrderedBuckets(xs, key);
      && (forall j :: 0 <= j < |gs| ==> gs[j].1 != [])
      && (forall j, y :: 0 <= j < |gs| ==>
            multiset(gs[j].1)[y] == if key(y) == gs[j].0 then multiset(xs)[y] else 0)
  {
    var ks := KeyOrder(xs, key);
    var gs := OrderedBuckets(xs, key);
    KeyOrderSpec(xs, key);
    forall j | 0 <= j < |gs| ensures gs[j].1 != [] {
      assert ks[j] in ks;
      BucketEmpty(xs, key, gs[j].0);
    }
    forall j, y | 0 <= j < |gs|
      ensures multiset(gs[j].1)[y] == if key(y) == gs[j].0 then multiset(xs)[y] else 0
    {
      BucketCount(xs, key, gs[j].0, y);
    }
  }

  /** An element lands in the bucket of its own key. */
  lemma InOwnBucket<T>(xs: seq<T>, key: T -> string, x: T)
    requires x in xs
    ensures x in Bucket(xs, key, key(x))
  {
    BucketCount(xs, key, key(x), x);
    assert multiset(Bucket(xs, key, key(x)))[x] > 0;
  }

  /** The image of an element is filed under the element's key. */
  lemma MappedBucketsMember<T, U>(xs: seq<T>, key: T -> string, f: T -> U, x: T)
    requires x in xs
    ensures key(x) in MappedBuckets(xs, key, f) && f(x) in MappedBuckets(xs, key, f)[key(x)]
  {
    MappedBucketsSpec(xs, key, f, key(x));
    InOwnBucket(xs, key, x);
    var b := Bucket(xs, key, key(x));
    var i :| 0 <= i < |b| && b[i] == x;
    assert MapSeq(b, f)[i] == f(x);
  }

  /** An element is in the group of its key. */
  lemma OrderedBucketsMember<T>(xs: seq<T>, key: T -> string, x: T)
    requires x in xs
    ensures exists j :: 0 <= j < |OrderedBuckets(xs, key)| && OrderedBuckets(xs, key)[j].0 == key(x) && x in OrderedBuckets(xs, key)[j].1
  {
    var gs := OrderedBuckets(xs, key);
    OrderedBucketsPartition(xs, key);
    assert Occurs(xs, key, key(x));
    var j :| 0 <= j < |gs| && gs[j].0 == key(x);
    InOwnBucket(xs, key, x);
  }
}
