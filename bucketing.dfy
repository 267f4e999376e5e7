/**
 Grouping a sequence into buckets by a key, the way a loop of
 `m[key(x)].push_back(x)` over an `unordered_map<K, vector<T>>` does it:
 every bucket holds the elements with its key, in their original order.
 Both grouping stages of the duplicate finder (by size, by partial hash)
 are instances of this.
 */
module Bucketing {

  /** The elements of `xs` whose key is `k`, in the order they have in `xs`. */
  function Bucket<T, K(==)>(xs: seq<T>, key: T -> K, k: K): (b: seq<T>)
    ensures |b| <= |xs|
    ensures forall i :: 0 <= i < |b| ==> key(b[i]) == k
  {
    if xs == [] then []
    else Bucket(xs[..|xs| - 1], key, k) + (if key(xs[|xs| - 1]) == k then [xs[|xs| - 1]] else [])
  }

  /** The keys that occur in `xs`. */
  function KeySet<T, K>(xs: seq<T>, key: T -> K): set<K>
  {
    set i | 0 <= i < |xs| :: key(xs[i])
  }

  /** The bucket under `k`, or the empty one (what `operator[]` default-constructs). */
  function Get<T, K>(m: map<K, seq<T>>, k: K): seq<T>
  {
    if k in m then m[k] else []
  }

  /** `m[k].push_back(x)`. */
  function Push<T, K>(m: map<K, seq<T>>, k: K, x: T): (m': map<K, seq<T>>)
    ensures m'.Keys == m.Keys + {k}
    ensures m'[k] == Get(m, k) + [x]
    ensures forall j :: j in m && j != k ==> m'[j] == m[j]
  {
    m[k := Get(m, k) + [x]]
  }

  /**
   The grouping the push_back loop builds: each element, in order, pushed
   onto the bucket of its key.
   */
  function GroupBy<T, K>(xs: seq<T>, key: T -> K): (m: map<K, seq<T>>)
    ensures xs == [] <==> m == map[]
  {
    if xs == [] then map[]
    else Push(GroupBy(xs[..|xs| - 1], key), key(xs[|xs| - 1]), xs[|xs| - 1])
  }

  /** The buckets of `m` under the keys `ks`, one after the other. */
  function Concat<T, K>(m: map<K, seq<T>>, ks: seq<K>): seq<T>
    requires forall i :: 0 <= i < |ks| ==> ks[i] in m
  {
    if ks == [] then [] else Concat(m, ks[..|ks| - 1]) + m[ks[|ks| - 1]]
  }

  ghost predicate Distinct<K>(ks: seq<K>)
  {
    forall i, j :: 0 <= i < j < |ks| ==> ks[i] != ks[j]
  }

  /** `ks` lists every element of `s` exactly once: one possible iteration order of `s`. */
  ghost predicate Enumerates<K>(ks: seq<K>, s: set<K>)
  {
    && Distinct(ks)
    && (forall i :: 0 <= i < |ks| ==> ks[i] in s)
    && (forall k :: k in s ==> exists i :: 0 <= i < |ks| && ks[i] == k)
  }

  /** Taking one more element out of `rest` extends an enumeration of what was already taken. */
  lemma {:induction false} EnumeratesStep<K>(ks: seq<K>, s: set<K>, rest: set<K>, k: K)
    requires rest <= s && k in rest
    requires Enumerates(ks, s - rest)
    ensures Enumerates(ks + [k], s - (rest - {k}))
  {
    var ks' := ks + [k];
    forall x | x in s - (rest - {k})
      ensures exists i :: 0 <= i < |ks'| && ks'[i] == x
    {
      if x == k {
        assert ks'[|ks|] == x;
      } else {
        assert x in s - rest;
        var i :| 0 <= i < |ks| && ks[i] == x;
        assert ks'[i] == x;
      }
    }
  }

  /** Appending one element extends exactly the bucket of its key. */
  lemma BucketSnoc<T, K>(xs: seq<T>, key: T -> K, k: K, x: T)
    ensures Bucket(xs + [x], key, k) == Bucket(xs, key, k) + (if key(x) == k then [x] else [])
  {
    assert (xs + [x])[..|xs|] == xs;
  }

  /** Filtering distributes over concatenation. */
  lemma {:induction false} BucketConcat<T, K>(xs: seq<T>, ys: seq<T>, key: T -> K, k: K)
    ensures Bucket(xs + ys, key, k) == Bucket(xs, key, k) + Bucket(ys, key, k)
    decreases |ys|
  {
    if ys == [] {
      assert xs + ys == xs;
    } else {
      var ys', y := ys[..|ys| - 1], ys[|ys| - 1];
      assert ys == ys' + [y];
      assert xs + ys == (xs + ys') + [y];
      BucketSnoc(xs + ys', key, k, y);
      BucketConcat(xs, ys', key, k);
      BucketSnoc(ys', key, k, y);
    }
  }

  /** A bucket is non-empty exactly when its key occurs. */
  lemma {:induction false} BucketNonEmpty<T, K>(xs: seq<T>, key: T -> K, k: K)
    ensures Bucket(xs, key, k) != [] <==> k in KeySet(xs, key)
    decreases |xs|
  {
    if xs != [] {
      var xs', x := xs[..|xs| - 1], xs[|xs| - 1];
      BucketNonEmpty(xs', key, k);
      assert KeySet(xs, key) == KeySet(xs', key) + {key(x)} by {
        forall j | j in KeySet(xs, key) ensures j in KeySet(xs', key) + {key(x)} {
          var i :| 0 <= i < |xs| && key(xs[i]) == j;
          if i < |xs| - 1 { assert xs'[i] == xs[i]; }
        }
        forall j | j in KeySet(xs', key) ensures j in KeySet(xs, key) {
          var i :| 0 <= i < |xs'| && key(xs'[i]) == j;
          assert xs[i] == xs'[i];
        }
      }
    }
  }

  /** Each element occurs in the bucket of its own key as often as in the input, and in no other bucket. */
  lemma {:induction false} BucketCount<T, K>(xs: seq<T>, key: T -> K, k: K, x: T)
    ensures multiset(Bucket(xs, key, k))[x] == if key(x) == k then multiset(xs)[x] else 0
    decreases |xs|
  {
    if xs != [] {
      var xs', y := xs[..|xs| - 1], xs[|xs| - 1];
      assert xs == xs' + [y];
      BucketCount(xs', key, k, x);
    }
  }

  /** A bucket holds exactly the input elements with its key. */
  lemma BucketMembers<T, K>(xs: seq<T>, key: T -> K, k: K, x: T)
    ensures x in Bucket(xs, key, k) <==> x in xs && key(x) == k
  {
    BucketCount(xs, key, k, x);
  }

  /** Filtering by two keys gives the same result in either order. */
  lemma {:induction false} BucketCommutes<T, K1, K2>(xs: seq<T>, key1: T -> K1, k1: K1, key2: T -> K2, k2: K2)
    ensures Bucket(Bucket(xs, key1, k1), key2, k2) == Bucket(Bucket(xs, key2, k2), key1, k1)
    decreases |xs|
  {
    if xs != [] {
      var xs', x := xs[..|xs| - 1], xs[|xs| - 1];
      BucketCommutes(xs', key1, k1, key2, k2);
      var b1 := if key1(x) == k1 then [x] else [];
      var b2 := if key2(x) == k2 then [x] else [];
      BucketConcat(Bucket(xs', key1, k1), b1, key2, k2);
      BucketConcat(Bucket(xs', key2, k2), b2, key1, k1);
      assert Bucket(b1, key2, k2) == Bucket(b2, key1, k1) by {
        if key1(x) == k1 { BucketSnoc([], key2, k2, x); assert [] + [x] == [x]; }
        if key2(x) == k2 { BucketSnoc([], key1, k1, x); assert [] + [x] == [x]; }
      }
    }
  }

  /** When every element has key `k`, its bucket is the whole input; a key no element has gets nothing. */
  lemma {:induction false} BucketUniformKey<T, K>(xs: seq<T>, key: T -> K, k: K, j: K)
    requires forall i :: 0 <= i < |xs| ==> key(xs[i]) == k
    ensures Bucket(xs, key, j) == if j == k then xs else []
    decreases |xs|
  {
    if xs != [] {
      var xs' := xs[..|xs| - 1];
      BucketUniformKey(xs', key, k, j);
      assert xs == xs' + [xs[|xs| - 1]];
    }
  }

  /** Grouping one more element pushes it onto the bucket of its key. */
  lemma GroupBySnoc<T, K>(xs: seq<T>, key: T -> K, x: T)
    ensures GroupBy(xs + [x], key) == Push(GroupBy(xs, key), key(x), x)
  {
    assert (xs + [x])[..|xs|] == xs;
  }

  /** The step of a loop that pushes the elements of `ys`, one by one, after those of `xs`. */
  lemma GroupByStep<T, K>(xs: seq<T>, ys: seq<T>, j: nat, key: T -> K)
    requires j < |ys|
    ensures GroupBy(xs + ys[..j + 1], key) == Push(GroupBy(xs + ys[..j], key), key(ys[j]), ys[j])
  {
    assert xs + ys[..j + 1] == (xs + ys[..j]) + [ys[j]];
    GroupBySnoc(xs + ys[..j], key, ys[j]);
  }

  /** Appending one element adds its key to the keys that occur. */
  lemma KeySetSnoc<T, K>(xs: seq<T>, key: T -> K, x: T)
    ensures KeySet(xs + [x], key) == KeySet(xs, key) + {key(x)}
  {
    forall j | j in KeySet(xs + [x], key) ensures j in KeySet(xs, key) + {key(x)} {
      var i :| 0 <= i < |xs| + 1 && key((xs + [x])[i]) == j;
      if i < |xs| { assert (xs + [x])[i] == xs[i]; }
    }
    forall j | j in KeySet(xs, key) ensures j in KeySet(xs + [x], key) {
      var i :| 0 <= i < |xs| && key(xs[i]) == j;
      assert (xs + [x])[i] == xs[i];
    }
    assert (xs + [x])[|xs|] == x;
  }

  /**
   The push_back loop groups by filtering: it has one bucket per key that
   occurs and no other, and the bucket of `k` is the input filtered to key
   `k`, in input order.
   */
  lemma {:induction false} GroupByIsFilter<T, K>(xs: seq<T>, key: T -> K)
    ensures GroupBy(xs, key).Keys == KeySet(xs, key)
    ensures forall k :: k in GroupBy(xs, key) ==> GroupBy(xs, key)[k] == Bucket(xs, key, k)
    decreases |xs|
  {
    if xs != [] {
      var xs', x := xs[..|xs| - 1], xs[|xs| - 1];
      assert xs == xs' + [x];
      GroupByIsFilter(xs', key);
      KeySetSnoc(xs', key, x);
      forall k | k in GroupBy(xs, key) ensures GroupBy(xs, key)[k] == Bucket(xs, key, k) {
        BucketSnoc(xs', key, k, x);
        BucketNonEmpty(xs', key, k);
      }
    }
  }

  /** Looking a key up in the grouping, with the empty bucket for a missing key, is filtering by that key. */
  lemma GetGroupBy<T, K>(xs: seq<T>, key: T -> K, k: K)
    ensures Get(GroupBy(xs, key), k) == Bucket(xs, key, k)
  {
    GroupByIsFilter(xs, key);
    BucketNonEmpty(xs, key, k);
  }

  /** Every bucket is non-empty, holds only elements of its key, and each input element sits in its key's bucket. */
  lemma GroupByBuckets<T, K>(xs: seq<T>, key: T -> K)
    ensures forall k :: k in GroupBy(xs, key) <==> exists i :: 0 <= i < |xs| && key(xs[i]) == k
    ensures forall k :: k in GroupBy(xs, key) ==> GroupBy(xs, key)[k] != []
    ensures forall x :: x in xs ==> key(x) in GroupBy(xs, key) && x in GroupBy(xs, key)[key(x)]
  {
    GroupByIsFilter(xs, key);
    forall k | k in GroupBy(xs, key) ensures GroupBy(xs, key)[k] != [] {
      BucketNonEmpty(xs, key, k);
    }
    forall x | x in xs ensures key(x) in GroupBy(xs, key) && x in GroupBy(xs, key)[key(x)] {
      var i :| 0 <= i < |xs| && xs[i] == x;
      assert key(xs[i]) in KeySet(xs, key);
      BucketMembers(xs, key, key(x), x);
    }
  }

  /**
   Concatenating the buckets under distinct keys counts every element once
   if its key is among them and not at all otherwise.
   */
  lemma {:induction false} ConcatCount<T, K>(xs: seq<T>, key: T -> K, ks: seq<K>, x: T)
    requires Distinct(ks)
    requires forall i :: 0 <= i < |ks| ==> ks[i] in GroupBy(xs, key)
    ensures multiset(Concat(GroupBy(xs, key), ks))[x] == if key(x) in ks then multiset(xs)[x] else 0
    decreases |ks|
  {
    if ks != [] {
      var m, ks', k := GroupBy(xs, key), ks[..|ks| - 1], ks[|ks| - 1];
      assert ks == ks' + [k];
      ConcatCount(xs, key, ks', x);
      assert multiset(Concat(m, ks))[x] == multiset(Concat(m, ks'))[x] + multiset(m[k])[x];
      GetGroupBy(xs, key, k);
      BucketCount(xs, key, k, x);
      assert key(x) in ks <==> key(x) in ks' || key(x) == k;
      assert key(x) == k ==> key(x) !in ks';
    }
  }

  /**
   No element is lost or duplicated: the buckets, taken in any order of the
   keys, are a permutation of the input, so their lengths add up to its length.
   */
  lemma GroupByPartition<T, K>(xs: seq<T>, key: T -> K, ks: seq<K>)
    requires Enumerates(ks, GroupBy(xs, key).Keys)
    ensures multiset(Concat(GroupBy(xs, key), ks)) == multiset(xs)
    ensures |Concat(GroupBy(xs, key), ks)| == |xs|
  {
    var c := Concat(GroupBy(xs, key), ks);
    forall x ensures multiset(c)[x] == multiset(xs)[x] {
      ConcatCount(xs, key, ks, x);
      if x in xs {
        GroupByBuckets(xs, key);
        assert key(x) in GroupBy(xs, key);
      }
    }
    SameCounts(c, xs);
    assert |multiset(c)| == |c|;
  }

  lemma SameCounts<T>(a: seq<T>, b: seq<T>)
    requires forall x :: multiset(a)[x] == multiset(b)[x]
    ensures multiset(a) == multiset(b)
  {
  }
}
