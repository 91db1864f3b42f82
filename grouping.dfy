/** Order-preserving grouping: what a loop of dict.setdefault(key, []).append(v)
    builds, and the per-key filter it amounts to. */
module Grouping {
  import opened Sorting

  /** Whether an element's key is k. */
  function KeyIs<K(==), V>(key: V -> K, k: K): V -> bool {
    (v: V) => key(v) == k
  }

  /** The elements of s whose key is k, in their original order. */
  function Select<K(==), V>(s: seq<V>, key: V -> K, k: K): (r: seq<V>)
    ensures |r| <= |s|
    ensures forall i :: 0 <= i < |r| ==> key(r[i]) == k && r[i] in s
  {
    Filter(s, KeyIs(key, k))
  }

  /** Every element is in the selection for its own key. */
  lemma {:induction false} SelectHas<K, V>(s: seq<V>, key: V -> K, i: nat)
    requires i < |s|
    ensures s[i] in Select(s, key, key(s[i]))
  {
    var n := |s| - 1;
    if i < n {
      SelectHas(s[..n], key, i);
      assert s[..n][i] == s[i];
    }
  }

  /** The dictionary built by appending each element of s, in turn, to the list
      under its own key. */
  function GroupBy<K(==), V>(s: seq<V>, key: V -> K): map<K, seq<V>> {
    if s == [] then map[]
    else
      var g := GroupBy(s[..|s| - 1], key);
      var v := s[|s| - 1];
      g[key(v) := (if key(v) in g then g[key(v)] else []) + [v]]
  }

  /** The buckets of the keys ks, one after the other, each recomputed from s.
      This is the specification side; Concat below reads the same buckets out
      of the dictionary the loop built, and ConcatIsGather equates the two. */
  function Gather<K(==), V>(s: seq<V>, key: V -> K, ks: seq<K>): seq<V> {
    if ks == [] then [] else Select(s, key, ks[0]) + Gather(s, key, ks[1..])
  }

  /** Every element's key is a key of the grouping; every bucket is non-empty and
      holds exactly the elements with its key, in input order. */
  lemma {:induction false} GroupByBuckets<K, V>(s: seq<V>, key: V -> K)
    ensures forall i :: 0 <= i < |s| ==> key(s[i]) in GroupBy(s, key)
    ensures forall k :: k in GroupBy(s, key) ==> GroupBy(s, key)[k] == Select(s, key, k) != []
  {
    if s != [] {
      var p := s[..|s| - 1];
      GroupByBuckets(p, key);
      forall i | 0 <= i < |s| ensures key(s[i]) in GroupBy(s, key) {
        if i < |p| {
          assert key(p[i]) in GroupBy(p, key);
        }
      }
      forall k | k in GroupBy(s, key) ensures GroupBy(s, key)[k] == Select(s, key, k) != [] {
        if k !in GroupBy(p, key) {
          forall i | 0 <= i < |p| ensures key(p[i]) != k {
            assert key(p[i]) in GroupBy(p, key);
          }
          SelectNone(p, key, k);
        }
      }
    }
  }

  lemma {:induction false} SelectNone<K, V>(s: seq<V>, key: V -> K, k: K)
    requires forall i :: 0 <= i < |s| ==> key(s[i]) != k
    ensures Select(s, key, k) == []
  {
    if s != [] {
      SelectNone(s[..|s| - 1], key, k);
    }
  }

  /** Adding one element at the end adds it to exactly one bucket of ks. */
  lemma {:induction false} GatherAppend<K, V>(s: seq<V>, v: V, key: V -> K, ks: seq<K>)
    requires Distinct(ks)
    ensures multiset(Gather(s + [v], key, ks))
            == multiset(Gather(s, key, ks)) + (if key(v) in ks then multiset{v} else multiset{})
  {
    if ks != [] {
      assert (s + [v])[..|s + [v]| - 1] == s;
      assert Distinct(ks[1..]);
      GatherAppend(s, v, key, ks[1..]);
      assert key(v) in ks <==> key(v) == ks[0] || key(v) in ks[1..];
      if key(v) == ks[0] {
        assert key(v) !in ks[1..];
      }
    }
  }

  /** Visiting the buckets of every key once, in any order, gives back every
      element exactly once: the bucket sizes add up to |s|. */
  lemma {:induction false} GatherPermutation<K, V>(s: seq<V>, key: V -> K, ks: seq<K>)
    requires Distinct(ks)
    requires forall i :: 0 <= i < |s| ==> key(s[i]) in ks
    ensures multiset(Gather(s, key, ks)) == multiset(s)
    ensures |Gather(s, key, ks)| == |s|
  {
    if s != [] {
      var p := s[..|s| - 1];
      GatherPermutation(p, key, ks);
      assert s == p + [s[|s| - 1]];
      GatherAppend(p, s[|s| - 1], key, ks);
    } else {
      GatherEmpty(key, ks);
    }
    assert |multiset(Gather(s, key, ks))| == |Gather(s, key, ks)|;
  }

  lemma {:induction false} GatherEmpty<K, V>(key: V -> K, ks: seq<K>)
    ensures Gather([], key, ks) == []
  {
    if ks != [] {
      GatherEmpty(key, ks[1..]);
    }
  }

  /** The buckets of g under the keys ks, end to end (a missing key adds
      nothing): the lists of the built dictionary, in the order they are visited. */
  function Concat<K(==), V>(g: map<K, seq<V>>, ks: seq<K>): seq<V> {
    if ks == [] then [] else (if ks[0] in g then g[ks[0]] else []) + Concat(g, ks[1..])
  }

  lemma {:induction false} ConcatIsGather<K, V>(s: seq<V>, key: V -> K, ks: seq<K>)
    requires forall k :: k in ks ==> k in GroupBy(s, key)
    ensures Concat(GroupBy(s, key), ks) == Gather(s, key, ks)
  {
    if ks != [] {
      GroupByBuckets(s, key);
      ConcatIsGather(s, key, ks[1..]);
    }
  }

  /** Visiting every bucket of the grouping once, in any order, gives back
      every element exactly once. */
  lemma ConcatBuckets<K, V>(s: seq<V>, key: V -> K, ks: seq<K>)
    requires Distinct(ks)
    requires forall k :: k in ks ==> k in GroupBy(s, key)
    requires forall k :: k in GroupBy(s, key) ==> k in ks
    ensures multiset(Concat(GroupBy(s, key), ks)) == multiset(s)
    ensures |Concat(GroupBy(s, key), ks)| == |s|
  {
    GroupByBuckets(s, key);
    forall i | 0 <= i < |s| ensures key(s[i]) in ks {
      assert key(s[i]) in GroupBy(s, key);
    }
    ConcatIsGather(s, key, ks);
    GatherPermutation(s, key, ks);
  }

  /** The elements of s that satisfy p, in their order in s. */
  function Filter<T>(s: seq<T>, p: T -> bool): (r: seq<T>)
    ensures |r| <= |s|
    ensures forall i :: 0 <= i < |r| ==> r[i] in s && p(r[i])
    ensures forall i :: 0 <= i < |s| && p(s[i]) ==> s[i] in r
  {
    if s == [] then []
    else
      var n := |s| - 1;
      assert s == s[..n] + [s[n]];
      Filter(s[..n], p) + (if p(s[n]) then [s[n]] else [])
  }

  /** Filtering a prefix one element longer. */
  lemma FilterStep<T>(s: seq<T>, i: nat, p: T -> bool)
    requires i < |s|
    ensures Filter(s[..i + 1], p) == Filter(s[..i], p) + (if p(s[i]) then [s[i]] else [])
  {
    assert s[..i + 1][..i] == s[..i];
  }

  /** Filtering keeps a strictly ascending sequence strictly ascending. */
  lemma {:induction false} FilterAscending<T>(s: seq<T>, p: T -> bool, lt: (T, T) -> bool)
    requires forall i, j :: 0 <= i < j < |s| ==> lt(s[i], s[j])
    ensures forall i, j :: 0 <= i < j < |Filter(s, p)| ==> lt(Filter(s, p)[i], Filter(s, p)[j])
  {
    if s != [] {
      var n := |s| - 1;
      FilterAscending(s[..n], p, lt);
      var r, q := Filter(s, p), Filter(s[..n], p);
      assert r == q + (if p(s[n]) then [s[n]] else []);
      forall i, j | 0 <= i < j < |r| ensures lt(r[i], r[j]) {
        if j < |q| {
          assert r[i] == q[i] && r[j] == q[j];
          assert lt(q[i], q[j]);
        } else {
          assert r[i] == q[i] && q[i] in q;
          var k :| 0 <= k < n && s[..n][k] == r[i];
          assert s[k] == r[i] && r[j] == s[n];
          assert lt(s[k], s[n]);
        }
      }
    }
  }
}
