/** Python's sorted() on a sequence of keys.  Python uses a stable merge sort;
    this module uses insertion sort and proves that, under a strict total order,
    there is only one sorted permutation, so the two agree. */
module Sorting {

  ghost predicate StrictTotalOrder<T(!new)>(lt: (T, T) -> bool) {
    && (forall a :: !lt(a, a))
    && (forall a, b, c :: lt(a, b) && lt(b, c) ==> lt(a, c))
    && (forall a, b :: a != b ==> lt(a, b) || lt(b, a))
  }

  predicate Distinct<T(==)>(s: seq<T>) {
    forall i, j :: 0 <= i < j < |s| ==> s[i] != s[j]
  }

  ghost predicate Sorted<T>(s: seq<T>, lt: (T, T) -> bool) {
    forall i, j :: 0 <= i < j < |s| ==> !lt(s[j], s[i])
  }

  function Insert<T>(x: T, s: seq<T>, lt: (T, T) -> bool): (r: seq<T>)
    ensures multiset(r) == multiset(s) + multiset{x}
  {
    if s == [] || !lt(s[0], x) then [x] + s
    else
      assert s == [s[0]] + s[1..];
      [s[0]] + Insert(x, s[1..], lt)
  }

  function Sort<T>(s: seq<T>, lt: (T, T) -> bool): (r: seq<T>)
    ensures multiset(r) == multiset(s)
  {
    if s == [] then []
    else
      assert s == [s[0]] + s[1..];
      Insert(s[0], Sort(s[1..], lt), lt)
  }

  lemma {:induction false} InsertSorted<T(!new)>(x: T, s: seq<T>, lt: (T, T) -> bool)
    requires StrictTotalOrder(lt) && Sorted(s, lt)
    ensures Sorted(Insert(x, s, lt), lt)
  {
    if s != [] && lt(s[0], x) {
      var t := Insert(x, s[1..], lt);
      InsertSorted(x, s[1..], lt);
      forall j | 0 <= j < |t| ensures !lt(t[j], s[0]) {
        assert t[j] in multiset(t);
        if t[j] != x {
          assert t[j] in multiset(s[1..]);
          var k :| 0 <= k < |s[1..]| && s[1..][k] == t[j];
          assert s[k + 1] == t[j];
        }
      }
    } else if s != [] {
      forall j | 0 <= j < |s| ensures !lt(s[j], x) {
        if j > 0 {
          assert !lt(s[j], s[0]);
        }
      }
    }
  }

  /** The result of Sort is sorted and a permutation of its input. */
  lemma {:induction false} SortSorted<T(!new)>(s: seq<T>, lt: (T, T) -> bool)
    requires StrictTotalOrder(lt)
    ensures Sorted(Sort(s, lt), lt) && multiset(Sort(s, lt)) == multiset(s)
  {
    if s != [] {
      SortSorted(s[1..], lt);
      InsertSorted(s[0], Sort(s[1..], lt), lt);
    }
  }

  /** Two sorted permutations of one multiset are equal: every correct sort,
      Python's included, returns the same sequence. */
  lemma {:induction false} SortedUnique<T(!new)>(a: seq<T>, b: seq<T>, lt: (T, T) -> bool)
    requires StrictTotalOrder(lt)
    requires Sorted(a, lt) && Sorted(b, lt) && multiset(a) == multiset(b)
    ensures a == b
  {
    if a != [] {
      assert |b| == |a| by {
        assert |multiset(a)| == |a| && |multiset(b)| == |b|;
      }
      assert a[0] in multiset(b) && b[0] in multiset(a);
      SortedHead(a, lt, b[0]);
      SortedHead(b, lt, a[0]);
      assert a[0] == b[0];
      MultisetTail(a);
      MultisetTail(b);
      SortedUnique(a[1..], b[1..], lt);
    }
  }

  lemma MultisetTail<T>(s: seq<T>)
    requires s != []
    ensures multiset(s[1..]) == multiset(s) - multiset{s[0]}
  {
    assert s == [s[0]] + s[1..];
  }

  /** Nothing in a sorted sequence is below its head. */
  lemma SortedHead<T(!new)>(s: seq<T>, lt: (T, T) -> bool, x: T)
    requires StrictTotalOrder(lt) && Sorted(s, lt) && x in multiset(s)
    ensures !lt(x, s[0])
  {
    var i :| 0 <= i < |s| && s[i] == x;
    if i > 0 {
      assert !lt(s[i], s[0]);
    }
  }

  lemma {:induction false} InsertDistinct<T>(x: T, s: seq<T>, lt: (T, T) -> bool)
    requires Distinct(s) && x !in s
    ensures Distinct(Insert(x, s, lt))
  {
    if s != [] && lt(s[0], x) {
      InsertDistinct(x, s[1..], lt);
      var t := Insert(x, s[1..], lt);
      assert s[0] !in multiset(s[1..]) + multiset{x};
      assert s[0] !in multiset(t);
    }
  }

  /** Sorting a sequence without repetitions keeps it without repetitions. */
  lemma {:induction false} SortDistinct<T>(s: seq<T>, lt: (T, T) -> bool)
    requires Distinct(s)
    ensures Distinct(Sort(s, lt))
  {
    if s != [] {
      SortDistinct(s[1..], lt);
      assert s[0] !in multiset(s[1..]);
      assert s[0] !in multiset(Sort(s[1..], lt));
      InsertDistinct(s[0], Sort(s[1..], lt), lt);
    }
  }

  /** Sorted without repetitions means strictly ascending. */
  lemma SortStrict<T(!new)>(s: seq<T>, lt: (T, T) -> bool)
    requires StrictTotalOrder(lt) && Distinct(s)
    ensures forall i, j :: 0 <= i < j < |Sort(s, lt)| ==> lt(Sort(s, lt)[i], Sort(s, lt)[j])
  {
    SortSorted(s, lt);
    SortDistinct(s, lt);
  }
}
