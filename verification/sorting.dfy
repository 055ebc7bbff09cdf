/** The `ORDER BY` clauses of the queries, modelled as a stable insertion sort
    on a two-part sort key. Every ordering the services use (one column
    ascending or descending, NULLs placed as Postgres places them, or one
    column and a tie-break) is expressed as ascending order on a `Key`;
    a descending column contributes its negation. */
module Sorting {

  /** A lexicographic sort key: `major` first, `minor` breaks ties. */
  datatype Key = Key(major: real, minor: real)

  /** Lexicographic, non-strict order on keys. */
  predicate KeyLe(a: Key, b: Key)
  {
    a.major < b.major || (a.major == b.major && a.minor <= b.minor)
  }

  /** Every earlier element has a key no greater than every later one. */
  predicate SortedBy<T>(xs: seq<T>, key: T -> Key)
  {
    forall i, j :: 0 <= i < j < |xs| ==> KeyLe(key(xs[i]), key(xs[j]))
  }

  /** Inserts `x` in front of the first element whose key is not smaller. */
  function Insert<T>(x: T, xs: seq<T>, key: T -> Key): (r: seq<T>)
    requires SortedBy(xs, key)
    ensures SortedBy(r, key)
    ensures multiset(r) == multiset(xs) + multiset{x}
  {
    if |xs| == 0 then [x]
    else if KeyLe(key(x), key(xs[0])) then
      assert forall k :: 0 <= k < |xs| ==> KeyLe(key(xs[0]), key(xs[k]));
      [x] + xs
    else
      var rest := Insert(x, xs[1..], key);
      assert xs == [xs[0]] + xs[1..];
      HeadBelowRest(xs[0], x, xs[1..], rest, key);
      [xs[0]] + rest
  }

  /** The head that `Insert` keeps in front is below everything after it. */
  lemma HeadBelowRest<T>(h: T, x: T, tail: seq<T>, rest: seq<T>, key: T -> Key)
    requires KeyLe(key(h), key(x))
    requires forall k :: 0 <= k < |tail| ==> KeyLe(key(h), key(tail[k]))
    requires multiset(rest) == multiset(tail) + multiset{x}
    requires SortedBy(rest, key)
    ensures SortedBy([h] + rest, key)
  {
    forall k | 0 <= k < |rest|
      ensures KeyLe(key(h), key(rest[k]))
    {
      assert rest[k] in multiset(rest);
      if rest[k] != x {
        assert rest[k] in multiset(tail);
        var m :| 0 <= m < |tail| && tail[m] == rest[k];
      }
    }
    var r := [h] + rest;
    forall i, j | 0 <= i < j < |r|
      ensures KeyLe(key(r[i]), key(r[j]))
    {
      if i > 0 {
        assert r[i] == rest[i - 1] && r[j] == rest[j - 1];
      } else {
        assert r[j] == rest[j - 1];
      }
    }
  }

  /** Insertion sort: a permutation of `xs` in ascending key order. Elements
      with equal keys keep their relative order from `xs`, which is one of the
      tie orders SQL allows; no property below relies on that choice. */
  function SortBy<T>(xs: seq<T>, key: T -> Key): (r: seq<T>)
    ensures SortedBy(r, key)
    ensures multiset(r) == multiset(xs)
    ensures |r| == |xs|
  {
    if |xs| == 0 then []
    else
      assert xs == [xs[0]] + xs[1..];
      Insert(xs[0], SortBy(xs[1..], key), key)
  }

  /** Dropping the head of a sequence removes one copy of it from the bag. */
  lemma TailMultiset<T>(a: seq<T>)
    requires |a| > 0
    ensures multiset(a[1..]) == multiset(a) - multiset{a[0]}
  {
    assert a == [a[0]] + a[1..];
  }

  /** Two sorted permutations start with elements of equal key. */
  lemma SortedHeadsShareKey<T>(a: seq<T>, b: seq<T>, key: T -> Key)
    requires |a| > 0 && multiset(a) == multiset(b)
    requires SortedBy(a, key) && SortedBy(b, key)
    ensures |b| > 0 && b[0] in a && key(a[0]) == key(b[0])
  {
    assert a[0] in multiset(b);
    assert |b| > 0;
    assert b[0] in multiset(a);
    var i :| 0 <= i < |b| && b[i] == a[0];
    var j :| 0 <= j < |a| && a[j] == b[0];
    assert KeyLe(key(b[0]), key(b[i]));
    assert KeyLe(key(a[0]), key(a[j]));
  }

  /** When no two distinct elements share a key, there is exactly one sorted
      arrangement of a collection: any two sorted permutations coincide.
      This is why the `id DESC` listing pages partition the matches however
      the store arranges them, while ties on price or rating do not. */
  lemma {:induction false} SortedPermutationUnique<T>(a: seq<T>, b: seq<T>, key: T -> Key)
    requires multiset(a) == multiset(b)
    requires SortedBy(a, key) && SortedBy(b, key)
    requires forall x, y :: x in a && y in a && key(x) == key(y) ==> x == y
    ensures a == b
  {
    assert |a| == |multiset(a)| == |b|;
    if |a| > 0 {
      HeadsAgree(a, b, key);
      SortedPermutationUnique(a[1..], b[1..], key);
      assert a == [a[0]] + a[1..] && b == [b[0]] + b[1..];
    }
  }

  /** The step of `SortedPermutationUnique`: the heads coincide, and the
      tails again meet its requirements. */
  lemma HeadsAgree<T>(a: seq<T>, b: seq<T>, key: T -> Key)
    requires |a| > 0 && multiset(a) == multiset(b)
    requires SortedBy(a, key) && SortedBy(b, key)
    requires forall x, y :: x in a && y in a && key(x) == key(y) ==> x == y
    ensures |b| > 0 && a[0] == b[0]
    ensures multiset(a[1..]) == multiset(b[1..])
    ensures SortedBy(a[1..], key) && SortedBy(b[1..], key)
    ensures forall x, y :: x in a[1..] && y in a[1..] && key(x) == key(y) ==> x == y
  {
    SortedHeadsShareKey(a, b, key);
    assert a[0] == b[0];
    TailMultiset(a);
    TailMultiset(b);
    SortedTail(a, key);
    SortedTail(b, key);
    DistinctKeysTail(a, key);
  }

  /** The tail of a sorted sequence is sorted. */
  lemma SortedTail<T>(a: seq<T>, key: T -> Key)
    requires |a| > 0 && SortedBy(a, key)
    ensures SortedBy(a[1..], key)
  {
    var t := a[1..];
    forall i, j | 0 <= i < j < |t|
      ensures KeyLe(key(t[i]), key(t[j]))
    {
      assert t[i] == a[i + 1] && t[j] == a[j + 1];
    }
  }

  /** Keys that tell a sequence's elements apart tell its tail's apart. */
  lemma DistinctKeysTail<T>(a: seq<T>, key: T -> Key)
    requires |a| > 0
    requires forall x, y :: x in a && y in a && key(x) == key(y) ==> x == y
    ensures forall x, y :: x in a[1..] && y in a[1..] && key(x) == key(y) ==> x == y
  {
    forall x, y | x in a[1..] && y in a[1..] && key(x) == key(y)
      ensures x == y
    {
      assert x in a && y in a;
    }
  }

  /** The first `n` elements of a sorted sequence are its `n` best: an element
      ranked strictly before the one at position `k < n` already appears
      before position `k`. */
  lemma TopOfSorted<T>(xs: seq<T>, key: T -> Key, x: T, k: nat)
    requires SortedBy(xs, key)
    requires x in xs && k < |xs| && !KeyLe(key(xs[k]), key(x))
    ensures x in xs[..k]
  {
    var j :| 0 <= j < |xs| && xs[j] == x;
    assert j < k;
    assert xs[..k][j] == x;
  }
}

