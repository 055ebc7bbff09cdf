/** Small vocabulary shared by every module: optional values, results with an
    error, and JavaScript truthiness of the values that reach the services. */
module Common {

  /** A value that may be absent (SQL NULL, a missing query parameter, `null`). */
  datatype Option<+T> = None | Some(value: T)

  /** Either a value or the reason the store refused the request. */
  datatype Result<+T, +E> = Success(value: T) | Failure(error: E)

  /** JavaScript truthiness of an optional string: present and not empty. */
  predicate Truthy(o: Option<string>)
  {
    o.Some? && |o.value| > 0
  }

  /** JavaScript truthiness of an optional number: present and not zero. */
  predicate TruthyInt(o: Option<int>)
  {
    o.Some? && o.value != 0
  }

  /** The elements of `xs` that satisfy `p`, in their original order: a
      `WHERE` clause over a table kept in insertion order. */
  function Filter<T>(xs: seq<T>, p: T -> bool): (r: seq<T>)
    ensures |r| <= |xs|
    ensures forall i :: 0 <= i < |r| ==> p(r[i]) && r[i] in xs
    ensures forall i :: 0 <= i < |xs| && p(xs[i]) ==> xs[i] in r
  {
    if |xs| == 0 then []
    else if p(xs[0]) then [xs[0]] + Filter(xs[1..], p)
    else Filter(xs[1..], p)
  }

  /** Nothing is selected exactly when no element meets the condition. */
  lemma FilterEmpty<T>(xs: seq<T>, p: T -> bool)
    ensures |Filter(xs, p)| == 0 <==> forall k :: 0 <= k < |xs| ==> !p(xs[k])
  {
    var r := Filter(xs, p);
    if |r| > 0 {
      assert p(r[0]) && r[0] in xs;
    }
  }

  /** The elements of `xs` have pairwise distinct keys. */
  predicate DistinctKeys<T, K(==)>(xs: seq<T>, key: T -> K)
  {
    forall i, j :: 0 <= i < j < |xs| ==> key(xs[i]) != key(xs[j])
  }

  /** Filtering keeps keys distinct. */
  lemma {:induction false} FilterKeepsDistinct<T, K>(xs: seq<T>, p: T -> bool, key: T -> K)
    requires DistinctKeys(xs, key)
    ensures DistinctKeys(Filter(xs, p), key)
  {
    if |xs| > 0 {
      var tail := xs[1..];
      assert DistinctKeys(tail, key) by {
        forall i, j | 0 <= i < j < |tail| ensures key(tail[i]) != key(tail[j]) {
          assert tail[i] == xs[i + 1] && tail[j] == xs[j + 1];
        }
      }
      FilterKeepsDistinct(tail, p, key);
      if p(xs[0]) {
        var rest := Filter(tail, p);
        forall k | 0 <= k < |rest| ensures key(rest[k]) != key(xs[0]) {
          var m :| 0 <= m < |tail| && tail[m] == rest[k];
          assert xs[m + 1] == rest[k];
        }
        var r := [xs[0]] + rest;
        forall i, j | 0 <= i < j < |r| ensures key(r[i]) != key(r[j]) {
          assert r[j] == rest[j - 1];
          if i > 0 {
            assert r[i] == rest[i - 1];
          }
        }
      }
    }
  }

  /** Filtering distributes over concatenation. */
  lemma {:induction false} FilterAppend<T>(a: seq<T>, b: seq<T>, p: T -> bool)
    ensures Filter(a + b, p) == Filter(a, p) + Filter(b, p)
  {
    if |a| == 0 {
      assert a + b == b;
    } else {
      assert (a + b)[1..] == a[1..] + b;
      FilterAppend(a[1..], b, p);
    }
  }

  /** Filtering keeps every copy of a selected element and no copy of a
      rejected one. */
  lemma {:induction false} FilterMultiset<T>(xs: seq<T>, p: T -> bool, x: T)
    ensures multiset(Filter(xs, p))[x] == if p(x) then multiset(xs)[x] else 0
  {
    if |xs| > 0 {
      FilterMultiset(xs[1..], p, x);
      assert xs == [xs[0]] + xs[1..];
    }
  }

  /** The count form of `FilterMultiset`, for every element at once. */
  lemma FilterCounts<T>(xs: seq<T>, p: T -> bool)
    ensures forall x :: multiset(Filter(xs, p))[x] == if p(x) then multiset(xs)[x] else 0
  {
    forall x
      ensures multiset(Filter(xs, p))[x] == if p(x) then multiset(xs)[x] else 0
    {
      FilterMultiset(xs, p, x);
    }
  }

  /** Two conditions that agree on every element select the same rows. */
  lemma {:induction false} FilterCongruent<T>(xs: seq<T>, p: T -> bool, q: T -> bool)
    requires forall i :: 0 <= i < |xs| ==> p(xs[i]) == q(xs[i])
    ensures Filter(xs, p) == Filter(xs, q)
  {
    if |xs| > 0 {
      assert p(xs[0]) == q(xs[0]);
      FilterCongruent(xs[1..], p, q);
    }
  }

  /** A condition every element meets removes nothing. */
  lemma {:induction false} FilterKeepsAll<T>(xs: seq<T>, p: T -> bool)
    requires forall i :: 0 <= i < |xs| ==> p(xs[i])
    ensures Filter(xs, p) == xs
  {
    if |xs| > 0 {
      assert p(xs[0]);
      FilterKeepsAll(xs[1..], p);
    }
  }

  /** A condition no element meets selects nothing. */
  lemma FilterNone<T>(xs: seq<T>, p: T -> bool)
    requires forall i :: 0 <= i < |xs| ==> !p(xs[i])
    ensures Filter(xs, p) == []
  {
  }

  /** A condition exactly one element meets selects that element alone. */
  lemma {:induction false} FilterOneHit<T>(xs: seq<T>, p: T -> bool, i: nat)
    requires i < |xs| && p(xs[i])
    requires forall j :: 0 <= j < |xs| && j != i ==> !p(xs[j])
    ensures Filter(xs, p) == [xs[i]]
  {
    if i == 0 {
      assert forall j :: 0 <= j < |xs[1..]| ==> !p(xs[1..][j]) by {
        forall j | 0 <= j < |xs[1..]| ensures !p(xs[1..][j]) {
          assert xs[1..][j] == xs[j + 1];
        }
      }
      FilterNone(xs[1..], p);
    } else {
      assert !p(xs[0]);
      assert forall j :: 0 <= j < |xs[1..]| && j != i - 1 ==> !p(xs[1..][j]) by {
        forall j | 0 <= j < |xs[1..]| && j != i - 1 ensures !p(xs[1..][j]) {
          assert xs[1..][j] == xs[j + 1];
        }
      }
      FilterOneHit(xs[1..], p, i - 1);
    }
  }
}
