/**
 Array.prototype.sort with a numeric comparator: an ascending sort that keeps
 equal elements in their original order, together with sums over sequences,
 which do not depend on the order of their terms.
 */
module Sorting {

  ghost predicate SortedBy<T>(key: T -> int, xs: seq<T>) {
    forall i, j :: 0 <= i < j < |xs| ==> key(xs[i]) <= key(xs[j])
  }

  /** No two elements have the same key. */
  ghost predicate DistinctBy<T>(key: T -> int, xs: seq<T>) {
    forall i, j :: 0 <= i < j < |xs| ==> key(xs[i]) != key(xs[j])
  }

  ghost predicate Distinct<T>(xs: seq<T>) {
    forall i, j :: 0 <= i < j < |xs| ==> xs[i] != xs[j]
  }

  /** Puts x in front of the first element whose key is not smaller. */
  function Insert<T>(key: T -> int, x: T, xs: seq<T>): (r: seq<T>)
    ensures |r| == |xs| + 1
  {
    if xs == [] || key(x) <= key(xs[0]) then [x] + xs
    else [xs[0]] + Insert(key, x, xs[1..])
  }

  function Sort<T>(key: T -> int, xs: seq<T>): (r: seq<T>)
    ensures |r| == |xs|
  {
    if xs == [] then [] else Insert(key, xs[0], Sort(key, xs[1..]))
  }

  /** The elements with key k, in order. */
  ghost function WithKey<T>(key: T -> int, k: int, xs: seq<T>): seq<T> {
    if xs == [] then []
    else if key(xs[0]) == k then [xs[0]] + WithKey(key, k, xs[1..])
    else WithKey(key, k, xs[1..])
  }

  lemma {:induction false} InsertIsPermutation<T>(key: T -> int, x: T, xs: seq<T>)
    ensures multiset(Insert(key, x, xs)) == multiset{x} + multiset(xs)
  {
    if xs != [] && key(x) > key(xs[0]) {
      InsertIsPermutation(key, x, xs[1..]);
      assert xs == [xs[0]] + xs[1..];
    }
  }

  lemma {:induction false} InsertKeepsSorted<T>(key: T -> int, x: T, xs: seq<T>)
    requires SortedBy(key, xs)
    ensures SortedBy(key, Insert(key, x, xs))
  {
    if xs != [] && key(x) > key(xs[0]) {
      var rest := Insert(key, x, xs[1..]);
      InsertKeepsSorted(key, x, xs[1..]);
      forall i | 0 <= i < |rest|
        ensures key(xs[0]) <= key(rest[i])
      {
        InsertHas(key, x, xs[1..], rest[i]);
      }
    }
  }

  lemma InsertHas<T>(key: T -> int, x: T, xs: seq<T>, y: T)
    ensures y in Insert(key, x, xs) <==> y == x || y in xs
  {
    InsertIsPermutation(key, x, xs);
    assert y in Insert(key, x, xs) <==> y in multiset(Insert(key, x, xs));
    assert y in xs <==> y in multiset(xs);
  }

  lemma {:induction false} InsertIsStable<T>(key: T -> int, x: T, xs: seq<T>, k: int)
    ensures WithKey(key, k, Insert(key, x, xs)) == WithKey(key, k, [x] + xs)
  {
    if xs != [] && key(x) > key(xs[0]) {
      var rest := Insert(key, x, xs[1..]);
      InsertIsStable(key, x, xs[1..], k);
      assert ([xs[0]] + rest)[1..] == rest;
      assert ([x] + xs)[1..] == xs;
      assert ([x] + xs[1..])[1..] == xs[1..];
    }
  }

  /** The result is ascending and is a permutation of the input. */
  lemma {:induction false} SortSorts<T>(key: T -> int, xs: seq<T>)
    ensures SortedBy(key, Sort(key, xs))
    ensures multiset(Sort(key, xs)) == multiset(xs)
  {
    if xs != [] {
      SortSorts(key, xs[1..]);
      InsertKeepsSorted(key, xs[0], Sort(key, xs[1..]));
      InsertIsPermutation(key, xs[0], Sort(key, xs[1..]));
      assert xs == [xs[0]] + xs[1..];
    }
  }

  /** Elements with equal keys keep their order. */
  lemma {:induction false} SortIsStable<T>(key: T -> int, xs: seq<T>, k: int)
    ensures WithKey(key, k, Sort(key, xs)) == WithKey(key, k, xs)
  {
    if xs != [] {
      SortIsStable(key, xs[1..], k);
      InsertIsStable(key, xs[0], Sort(key, xs[1..]), k);
      assert ([xs[0]] + Sort(key, xs[1..]))[1..] == Sort(key, xs[1..]);
    }
  }

  lemma SortHas<T>(key: T -> int, xs: seq<T>, y: T)
    ensures y in Sort(key, xs) <==> y in xs
  {
    SortSorts(key, xs);
    assert y in Sort(key, xs) <==> y in multiset(Sort(key, xs));
    assert y in xs <==> y in multiset(xs);
  }

  lemma {:induction false} InsertKeepsDistinct<T>(key: T -> int, x: T, xs: seq<T>)
    requires DistinctBy(key, xs)
    requires forall y :: y in xs ==> key(y) != key(x)
    ensures DistinctBy(key, Insert(key, x, xs))
  {
    if xs != [] && key(x) > key(xs[0]) {
      InsertKeepsDistinct(key, x, xs[1..]);
      var rest := Insert(key, x, xs[1..]);
      forall i | 0 <= i < |rest|
        ensures key(xs[0]) != key(rest[i])
      {
        InsertHas(key, x, xs[1..], rest[i]);
      }
    }
  }

  lemma {:induction false} SortKeepsDistinct<T>(key: T -> int, xs: seq<T>)
    requires DistinctBy(key, xs)
    ensures DistinctBy(key, Sort(key, xs))
  {
    if xs != [] {
      SortKeepsDistinct(key, xs[1..]);
      forall y | y in Sort(key, xs[1..])
        ensures key(y) != key(xs[0])
      {
        SortHas(key, xs[1..], y);
      }
      InsertKeepsDistinct(key, xs[0], Sort(key, xs[1..]));
    }
  }

  lemma Snoc<T>(xs: seq<T>, x: T)
    ensures multiset(xs + [x]) == multiset(xs) + multiset{x}
  {
  }

  lemma RemoveAt<T>(xs: seq<T>, j: nat)
    requires j < |xs|
    ensures multiset(xs) == multiset{xs[j]} + multiset(xs[..j] + xs[j + 1..])
  {
    assert xs == xs[..j] + [xs[j]] + xs[j + 1..];
  }

  /** An element added to both sides of a permutation may be taken away again. */
  lemma RemoveOne<T>(xs: seq<T>, ys: seq<T>, x: T)
    requires multiset{x} + multiset(xs) == multiset{x} + multiset(ys)
    ensures multiset(xs) == multiset(ys)
  {
    assert (multiset{x} + multiset(xs)) - multiset{x} == multiset(xs);
    assert (multiset{x} + multiset(ys)) - multiset{x} == multiset(ys);
  }

  /** Two sorted arrangements of the same elements with distinct keys are equal. */
  lemma {:induction false} SortedIsUnique<T>(key: T -> int, xs: seq<T>, ys: seq<T>)
    requires SortedBy(key, xs) && SortedBy(key, ys)
    requires DistinctBy(key, xs)
    requires multiset(xs) == multiset(ys)
    ensures xs == ys
  {
    assert |multiset(xs)| == |multiset(ys)|;
    if xs != [] {
      SameFirst(key, xs, ys);
      assert xs == [xs[0]] + xs[1..] && ys == [ys[0]] + ys[1..];
      RemoveOne(xs[1..], ys[1..], xs[0]);
      SortedIsUnique(key, xs[1..], ys[1..]);
    }
  }

  lemma SameFirst<T>(key: T -> int, xs: seq<T>, ys: seq<T>)
    requires SortedBy(key, xs) && SortedBy(key, ys)
    requires DistinctBy(key, xs)
    requires multiset(xs) == multiset(ys) && xs != [] && ys != []
    ensures xs[0] == ys[0]
  {
    assert xs[0] in multiset(ys) && ys[0] in multiset(xs);
    var i :| 0 <= i < |xs| && xs[i] == ys[0];
    var j :| 0 <= j < |ys| && ys[j] == xs[0];
    assert key(xs[i]) == key(ys[0]) <= key(ys[j]) == key(xs[0]);
  }

  /** The sum of f over xs. */
  ghost function Sum<T>(f: T -> int, xs: seq<T>): int {
    if xs == [] then 0 else Sum(f, xs[..|xs| - 1]) + f(xs[|xs| - 1])
  }

  lemma {:induction false} SumConcat<T>(f: T -> int, xs: seq<T>, ys: seq<T>)
    ensures Sum(f, xs + ys) == Sum(f, xs) + Sum(f, ys)
  {
    if ys == [] {
      assert xs + ys == xs;
    } else {
      var n := |ys| - 1;
      assert (xs + ys)[..|xs + ys| - 1] == xs + ys[..n];
      SumConcat(f, xs, ys[..n]);
    }
  }

  lemma {:induction false} SumPermutation<T>(f: T -> int, xs: seq<T>, ys: seq<T>)
    requires multiset(xs) == multiset(ys)
    ensures Sum(f, xs) == Sum(f, ys)
  {
    assert |multiset(xs)| == |multiset(ys)|;
    if xs != [] {
      var front, last := xs[..|xs| - 1], xs[|xs| - 1];
      assert xs == front + [last];
      assert last in multiset(ys);
      var j :| 0 <= j < |ys| && ys[j] == last;
      RemoveAt(ys, j);
      assert ys == ys[..j] + ([last] + ys[j + 1..]);
      RemoveOne(front, ys[..j] + ys[j + 1..], last);
      SumPermutation(f, front, ys[..j] + ys[j + 1..]);
      SumConcat(f, ys[..j], ys[j + 1..]);
      SumConcat(f, ys[..j], [last] + ys[j + 1..]);
      SumConcat(f, [last], ys[j + 1..]);
      assert Sum(f, [last]) == f(last) by { assert [last][..0] == []; }
    }
  }
}
