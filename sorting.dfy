/**
 * Python's `list.sort(key=...)` as the pass uses it: keys are compared as
 * tuples, lexicographically, and the sort is stable. Update buckets are
 * sorted by `order` alone (python/generate_form.py:529-532) and radio groups
 * by `(order, y0, x0, xref)` (python/generate_form.py:577-584).
 */
module Sorting {
  /** A sort key; a key made of `order` alone has zeros in the other places. */
  datatype SortKey = SortKey(order: int, y0: real, x0: real, xref: int)

  /** Strict lexicographic order on keys, as Python compares tuples. */
  predicate KeyLt(a: SortKey, b: SortKey) {
    a.order < b.order
    || (a.order == b.order && a.y0 < b.y0)
    || (a.order == b.order && a.y0 == b.y0 && a.x0 < b.x0)
    || (a.order == b.order && a.y0 == b.y0 && a.x0 == b.x0 && a.xref < b.xref)
  }

  predicate KeyLe(a: SortKey, b: SortKey) {
    KeyLt(a, b) || a == b
  }

  /** Any two keys compare one way or the other, and the order is transitive. */
  lemma KeyOrderTotal(a: SortKey, b: SortKey, c: SortKey)
    ensures KeyLe(a, b) || KeyLt(b, a)
    ensures KeyLe(a, b) && KeyLe(b, c) ==> KeyLe(a, c)
    ensures KeyLt(a, b) ==> !KeyLe(b, a)
  {
  }

  predicate SortedBy<T>(xs: seq<T>, key: T -> SortKey) {
    forall i, j :: 0 <= i < j < |xs| ==> KeyLe(key(xs[i]), key(xs[j]))
  }

  /** The elements of `xs` whose key is `k`, in their order in `xs`. */
  function KeyClass<T>(xs: seq<T>, key: T -> SortKey, k: SortKey): seq<T> {
    if xs == [] then []
    else (if key(xs[0]) == k then [xs[0]] else []) + KeyClass(xs[1..], key, k)
  }

  /** Places `x` in front of the first element whose key is not smaller than its own. */
  function Insert<T>(x: T, ys: seq<T>, key: T -> SortKey): (r: seq<T>)
    ensures multiset(r) == multiset(ys) + multiset{x}
  {
    if ys == [] || !KeyLt(key(ys[0]), key(x)) then [x] + ys
    else
      assert ys == [ys[0]] + ys[1..];
      [ys[0]] + Insert(x, ys[1..], key)
  }

  /**
   * The stable sort: elements are inserted from the back, so of two elements
   * with equal keys the earlier one ends up in front.
   */
  function SortBy<T>(xs: seq<T>, key: T -> SortKey): (r: seq<T>)
    ensures multiset(r) == multiset(xs) && |r| == |xs|
  {
    if xs == [] then []
    else
      assert xs == [xs[0]] + xs[1..];
      Insert(xs[0], SortBy(xs[1..], key), key)
  }

  lemma SortedTail<T>(ys: seq<T>, key: T -> SortKey)
    requires ys != [] && SortedBy(ys, key)
    ensures SortedBy(ys[1..], key)
    ensures forall j :: 0 <= j < |ys| ==> KeyLe(key(ys[0]), key(ys[j]))
  {
    forall j | 0 < j < |ys|
      ensures KeyLe(key(ys[0]), key(ys[j]))
    {
    }
  }

  lemma SortedCons<T>(y: T, ys: seq<T>, key: T -> SortKey)
    requires SortedBy(ys, key)
    requires forall z :: z in multiset(ys) ==> KeyLe(key(y), key(z))
    ensures SortedBy([y] + ys, key)
  {
    var r := [y] + ys;
    forall i, j | 0 <= i < j < |r|
      ensures KeyLe(key(r[i]), key(r[j]))
    {
      if i == 0 {
        assert r[j] == ys[j - 1];
        assert r[j] in multiset(ys);
      } else {
        assert r[i] == ys[i - 1] && r[j] == ys[j - 1];
      }
    }
  }

  lemma {:induction false} InsertSorted<T>(x: T, ys: seq<T>, key: T -> SortKey)
    requires SortedBy(ys, key)
    ensures SortedBy(Insert(x, ys, key), key)
    decreases |ys|
  {
    if ys == [] {
    } else if !KeyLt(key(ys[0]), key(x)) {
      SortedTail(ys, key);
      forall z | z in multiset(ys)
        ensures KeyLe(key(x), key(z))
      {
        var j :| 0 <= j < |ys| && ys[j] == z;
        KeyOrderTotal(key(x), key(ys[0]), key(z));
      }
      SortedCons(x, ys, key);
    } else {
      SortedTail(ys, key);
      InsertSorted(x, ys[1..], key);
      var rest := Insert(x, ys[1..], key);
      forall z | z in multiset(rest)
        ensures KeyLe(key(ys[0]), key(z))
      {
        if z != x {
          assert z in multiset(ys[1..]);
          var j :| 0 <= j < |ys[1..]| && ys[1..][j] == z;
          assert ys[j + 1] == z;
        }
      }
      SortedCons(ys[0], rest, key);
    }
  }

  lemma {:induction false} InsertKeyClass<T>(x: T, ys: seq<T>, key: T -> SortKey, k: SortKey)
    ensures KeyClass(Insert(x, ys, key), key, k) == (if key(x) == k then [x] else []) + KeyClass(ys, key, k)
    decreases |ys|
  {
    if ys == [] || !KeyLt(key(ys[0]), key(x)) {
      assert ([x] + ys)[1..] == ys;
    } else {
      InsertKeyClass(x, ys[1..], key, k);
      var r := Insert(x, ys[1..], key);
      assert ([ys[0]] + r)[1..] == r;
    }
  }

  /** The sort puts the elements in key order. */
  lemma {:induction false} SortBySorted<T>(xs: seq<T>, key: T -> SortKey)
    ensures SortedBy(SortBy(xs, key), key)
    decreases |xs|
  {
    if xs != [] {
      SortBySorted(xs[1..], key);
      InsertSorted(xs[0], SortBy(xs[1..], key), key);
    }
  }

  /** The sort is stable: elements with equal keys keep their relative order. */
  lemma {:induction false} SortByStable<T>(xs: seq<T>, key: T -> SortKey, k: SortKey)
    ensures KeyClass(SortBy(xs, key), key, k) == KeyClass(xs, key, k)
    decreases |xs|
  {
    if xs != [] {
      SortByStable(xs[1..], key, k);
      InsertKeyClass(xs[0], SortBy(xs[1..], key), key, k);
    }
  }
}
