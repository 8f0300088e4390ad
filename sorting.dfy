/** The stable sort behind `Array.prototype.sort` with a comparator of the
    form `(a, b) => key(b) - key(a)`: largest key first, and elements with
    equal keys in their original order. */
module Sorting {
  import opened Text

  predicate SortedDesc<T>(key: T -> int, xs: seq<T>) {
    forall i, j | 0 <= i < j < |xs| :: key(xs[i]) >= key(xs[j])
  }

  /** `x` placed after the elements with a larger key and before the rest. */
  function Insert<T>(key: T -> int, x: T, xs: seq<T>): (r: seq<T>)
    ensures multiset(r) == multiset(xs) + multiset{x}
    ensures |r| == |xs| + 1
  {
    if xs == [] || key(xs[0]) <= key(x) then [x] + xs
    else
      SeqCons(xs);
      [xs[0]] + Insert(key, x, xs[1..])
  }

  /** Insertion sort, largest key first. */
  function SortDesc<T>(key: T -> int, xs: seq<T>): (r: seq<T>)
    ensures multiset(r) == multiset(xs) && |r| == |xs|
  {
    if xs == [] then []
    else
      SeqCons(xs);
      Insert(key, xs[0], SortDesc(key, xs[1..]))
  }

  lemma {:induction false} InsertSorted<T>(key: T -> int, x: T, xs: seq<T>)
    requires SortedDesc(key, xs)
    ensures SortedDesc(key, Insert(key, x, xs))
  {
    if xs != [] && key(xs[0]) > key(x) {
      InsertSorted(key, x, xs[1..]);
      var t := Insert(key, x, xs[1..]);
      forall k | 0 <= k < |t|
        ensures key(xs[0]) >= key(t[k])
      {
        assert t[k] in multiset(xs[1..]) + multiset{x};
        if t[k] != x {
          var m :| 0 <= m < |xs[1..]| && xs[1..][m] == t[k];
          assert xs[m + 1] == t[k];
        }
      }
      ConsSorted(key, xs[0], t);
    }
  }

  lemma ConsSorted<T>(key: T -> int, y: T, t: seq<T>)
    requires SortedDesc(key, t)
    requires forall k | 0 <= k < |t| :: key(y) >= key(t[k])
    ensures SortedDesc(key, [y] + t)
  {
    forall i, j | 0 <= i < j < |[y] + t|
      ensures key(([y] + t)[i]) >= key(([y] + t)[j])
    {
      assert ([y] + t)[j] == t[j - 1];
      if i > 0 {
        assert ([y] + t)[i] == t[i - 1];
      }
    }
  }

  /** The result is sorted, largest key first, and is a permutation of the input. */
  lemma {:induction false} SortDescSorted<T>(key: T -> int, xs: seq<T>)
    ensures SortedDesc(key, SortDesc(key, xs))
    ensures multiset(SortDesc(key, xs)) == multiset(xs)
  {
    if xs != [] {
      SortDescSorted(key, xs[1..]);
      InsertSorted(key, xs[0], SortDesc(key, xs[1..]));
    }
  }

  /** The elements with key `k`, in order. */
  function WithKey<T>(key: T -> int, xs: seq<T>, k: int): (r: seq<T>)
    ensures |r| <= |xs|
  {
    if xs == [] then []
    else (if key(xs[0]) == k then [xs[0]] else []) + WithKey(key, xs[1..], k)
  }

  lemma {:induction false} WithKeyAppend<T>(key: T -> int, a: seq<T>, b: seq<T>, k: int)
    ensures WithKey(key, a + b, k) == WithKey(key, a, k) + WithKey(key, b, k)
  {
    if a == [] {
      AppendEmpty(b);
      AppendEmpty(WithKey(key, b, k));
    } else {
      DropPrefix([a[0]], a[1..] + b);
      SeqCons(a);
      Associative([a[0]], a[1..], b);
      WithKeyAppend(key, a[1..], b, k);
      Associative(if key(a[0]) == k then [a[0]] else [], WithKey(key, a[1..], k), WithKey(key, b, k));
    }
  }

  lemma WithKeyOne<T>(key: T -> int, x: T, k: int)
    ensures WithKey(key, [x], k) == if key(x) == k then [x] else []
  {
    assert [x][1..] == [];
    AppendEmpty(if key(x) == k then [x] else []);
  }

  /** Inserting `x` in front of the elements whose key is not larger than its
      own puts it first among the elements with its key. */
  lemma {:induction false} InsertWithKey<T>(key: T -> int, x: T, xs: seq<T>, k: int)
    ensures WithKey(key, Insert(key, x, xs), k) == WithKey(key, [x], k) + WithKey(key, xs, k)
  {
    if xs == [] || key(xs[0]) <= key(x) {
      WithKeyAppend(key, [x], xs, k);
    } else {
      var y := xs[0];
      var t := Insert(key, x, xs[1..]);
      InsertWithKey(key, x, xs[1..], k);
      WithKeyAppend(key, [y], t, k);
      SeqCons(xs);
      WithKeyAppend(key, [y], xs[1..], k);
      WithKeyOne(key, x, k);
      WithKeyOne(key, y, k);
      if key(x) == k {
        assert key(y) != k;
        AppendEmpty(WithKey(key, t, k));
      } else {
        AppendEmpty(WithKey(key, xs[1..], k));
        AppendEmpty(WithKey(key, xs, k));
      }
    }
  }

  /** The sort is stable: for every key, the elements with that key appear in
      the same order as in the input. */
  lemma {:induction false} SortDescStable<T>(key: T -> int, xs: seq<T>, k: int)
    ensures WithKey(key, SortDesc(key, xs), k) == WithKey(key, xs, k)
  {
    if xs != [] {
      SortDescStable(key, xs[1..], k);
      InsertWithKey(key, xs[0], SortDesc(key, xs[1..]), k);
      SeqCons(xs);
      WithKeyAppend(key, [xs[0]], xs[1..], k);
    }
  }
}
