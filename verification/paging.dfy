/** `LIMIT $n OFFSET $m` and the `pages: Math.ceil(total / limit)` arithmetic
    shared by the vehicle listing and the review listing. */
module Paging {
  import opened Common

  /** Why Postgres refuses a `LIMIT`/`OFFSET` pair. The offset is evaluated
      first, so a query with both negative reports the offset. */
  datatype PageError = NegativeOffset | NegativeLimit

  /** `Math.ceil(total / limit)` for a positive limit: the least number of
      `limit`-sized pages that hold `total` rows. */
  function CeilDiv(total: nat, limit: nat): (r: nat)
    requires limit > 0
    ensures r * limit >= total
    ensures r == 0 || (r - 1) * limit < total
    ensures r == 0 <==> total == 0
  {
    var q := (total + limit - 1) / limit;
    assert q * limit + (total + limit - 1) % limit == total + limit - 1;
    q
  }

  /** The offset `(page - 1) * limit` computed by both listing services. */
  function Offset(page: int, limit: int): int
  {
    (page - 1) * limit
  }

  /** The rows a `LIMIT count OFFSET offset` clause keeps. */
  function Window<T>(xs: seq<T>, offset: nat, count: nat): (r: seq<T>)
    ensures |r| <= count
    ensures |r| == if offset >= |xs| then 0
                   else if |xs| - offset < count then |xs| - offset else count
    ensures forall k :: 0 <= k < |r| ==> r[k] == xs[offset + k]
  {
    if offset >= |xs| then []
    else if offset + count <= |xs| then xs[offset..offset + count]
    else xs[offset..]
  }

  /** A window takes each row at most as often as the listing holds it. */
  lemma WindowWithin<T>(xs: seq<T>, offset: nat, count: nat)
    ensures multiset(Window(xs, offset, count)) <= multiset(xs)
  {
    var r := Window(xs, offset, count);
    if offset < |xs| {
      var e := offset + |r|;
      assert xs == xs[..offset] + r + xs[e..];
      assert multiset(xs) == multiset(xs[..offset]) + multiset(r) + multiset(xs[e..]);
    }
  }

  /** `LIMIT limit OFFSET offset` as Postgres evaluates it: a negative offset
      or limit is an error, otherwise the window. */
  function LimitOffset<T>(xs: seq<T>, limit: int, offset: int): (r: Result<seq<T>, PageError>)
    ensures r == Failure(NegativeOffset) <==> offset < 0
    ensures r == Failure(NegativeLimit) <==> offset >= 0 && limit < 0
    ensures r.Success? ==> offset >= 0 && limit >= 0 && r.value == Window(xs, offset, limit)
  {
    if offset < 0 then Failure(NegativeOffset)
    else if limit < 0 then Failure(NegativeLimit)
    else Success(Window(xs, offset, limit))
  }

  /** `Math.ceil(total / limit)` for the limits that reach it (a negative
      limit has already failed the query). `None` stands for the non-finite
      quotient of a zero limit (`Infinity`, or `NaN` when `total` is 0). */
  function PageCount(total: nat, limit: nat): (r: Option<nat>)
    ensures r.None? <==> limit == 0
    ensures r.Some? ==> r.value * limit >= total && (r.value == 0 || (r.value - 1) * limit < total)
  {
    if limit == 0 then None else Some(CeilDiv(total, limit))
  }

  /** The whole result split into consecutive pages of `limit` rows: what the
      client sees when it walks page 1, 2, ... */
  function Pages<T>(xs: seq<T>, limit: nat): seq<seq<T>>
    requires limit > 0
    decreases |xs|
  {
    if |xs| == 0 then []
    else if |xs| <= limit then [xs]
    else [xs[..limit]] + Pages(xs[limit..], limit)
  }

  /** Concatenation of a sequence of pages. */
  function Flatten<T>(pages: seq<seq<T>>): seq<T>
  {
    if |pages| == 0 then [] else pages[0] + Flatten(pages[1..])
  }

  /** Walking every page yields every row once, in order. */
  lemma {:induction false} PagesPartition<T>(xs: seq<T>, limit: nat)
    requires limit > 0
    ensures Flatten(Pages(xs, limit)) == xs
    decreases |xs|
  {
    var ps := Pages(xs, limit);
    if |xs| == 0 {
    } else if |xs| <= limit {
      assert Flatten(ps) == xs + Flatten(ps[1..]);
    } else {
      var rest := xs[limit..];
      PagesPartition(rest, limit);
      assert ps[1..] == Pages(rest, limit);
      assert xs[..limit] + rest == xs;
    }
  }

  /** There are exactly `ceil(|xs| / limit)` pages: the listing's `pages`
      counts the pages a client can walk. */
  lemma {:induction false} PagesCount<T>(xs: seq<T>, limit: nat)
    requires limit > 0
    ensures |Pages(xs, limit)| == CeilDiv(|xs|, limit)
    decreases |xs|
  {
    if |xs| == 0 {
    } else if |xs| <= limit {
      CeilDivSmall(|xs|, limit);
    } else {
      var rest := xs[limit..];
      PagesCount(rest, limit);
      assert |Pages(xs, limit)| == 1 + |Pages(rest, limit)|;
      CeilDivStep(|rest|, limit);
      assert |rest| + limit == |xs|;
    }
  }

  /** Page `p` of the walk is the window at offset `(p - 1) * limit`: the
      page the listing services return for `page = p`. */
  lemma {:induction false} PagesAreWindows<T>(xs: seq<T>, limit: nat, p: nat)
    requires limit > 0
    requires 1 <= p <= |Pages(xs, limit)|
    ensures Pages(xs, limit)[p - 1] == Window(xs, Offset(p, limit), limit)
    decreases |xs|
  {
    var ps := Pages(xs, limit);
    if p == 1 {
      assert Offset(p, limit) == 0;
      if |xs| > limit {
        assert ps[0] == xs[..limit];
      }
    } else {
      var rest := xs[limit..];
      assert |xs| > limit;
      assert ps[1..] == Pages(rest, limit);
      assert ps[p - 1] == Pages(rest, limit)[p - 2];
      PagesAreWindows(rest, limit, p - 1);
      OffsetStep(p - 1, limit);
      MulNonNegative(p - 2, limit);
      WindowShift(xs, limit, Offset(p - 1, limit), limit);
    }
  }

  /** The next page starts one page further on. */
  lemma OffsetStep(p: int, limit: int)
    ensures Offset(p + 1, limit) == Offset(p, limit) + limit
  {
    assert p * limit == (p - 1) * limit + limit;
  }

  /** One more page's worth of rows takes exactly one more page. */
  lemma CeilDivStep(n: nat, limit: nat)
    requires limit > 0
    ensures CeilDiv(n + limit, limit) == CeilDiv(n, limit) + 1
  {
    assert n + limit + limit - 1 == (n + limit - 1) + limit;
    DivPlusDivisor(n + limit - 1, limit);
  }

  /** Up to one full page of rows fills one page. */
  lemma CeilDivSmall(n: nat, limit: nat)
    requires 0 < n <= limit
    ensures CeilDiv(n, limit) == 1
  {
    var q := (n - 1) / limit;
    assert q * limit + (n - 1) % limit == n - 1;
    if q >= 1 {
      MulAtLeast(q, limit);
    }
    assert (n - 1) + limit == n + limit - 1;
    DivPlusDivisor(n - 1, limit);
  }

  /** Adding the divisor adds one to the quotient. */
  lemma DivPlusDivisor(a: nat, d: nat)
    requires d > 0
    ensures (a + d) / d == a / d + 1
  {
    var q, r := a / d, a % d;
    var q', r' := (a + d) / d, (a + d) % d;
    assert q' * d + r' == (q + 1) * d + r;
    assert (q' - q - 1) * d == r - r';
    if q' > q + 1 {
      MulAtLeast(q' - q - 1, d);
    } else if q' < q + 1 {
      MulAtLeast(q + 1 - q', d);
    }
  }

  lemma MulAtLeast(x: int, d: nat)
    requires x >= 1
    ensures x * d >= d
  {
  }

  /** A window of the rows after the first `skip` is a window of the whole. */
  lemma WindowShift<T>(xs: seq<T>, skip: nat, offset: int, count: nat)
    requires skip <= |xs| && offset >= 0
    ensures Window(xs[skip..], offset, count) == Window(xs, skip + offset, count)
  {
    var a := Window(xs[skip..], offset, count);
    var b := Window(xs, skip + offset, count);
    assert |a| == |b|;
    forall k | 0 <= k < |a| ensures a[k] == b[k] {
      assert a[k] == xs[skip..][offset + k] == xs[skip + offset + k];
    }
  }

  /** What the listing services return for page `p >= 1` with a positive
      limit: the `p`-th page of the walk, or nothing past the last page. */
  lemma WindowIsPage<T>(xs: seq<T>, limit: nat, p: int)
    requires limit > 0 && p >= 1
    ensures Offset(p, limit) >= 0
    ensures p <= |Pages(xs, limit)| ==> Window(xs, Offset(p, limit), limit) == Pages(xs, limit)[p - 1]
    ensures p > |Pages(xs, limit)| ==> Window(xs, Offset(p, limit), limit) == []
  {
    var n := |Pages(xs, limit)|;
    MulNonNegative(p - 1, limit);
    if p <= n {
      PagesAreWindows(xs, limit, p);
    } else {
      PagesCount(xs, limit);
      MulMonotone(p - 1, n, limit);
    }
  }

  lemma MulNonNegative(a: int, b: int)
    requires a >= 0 && b >= 0
    ensures a * b >= 0
  {
  }

  lemma MulMonotone(a: int, b: int, c: nat)
    requires a >= b
    ensures a * c >= b * c
  {
    assert a * c - b * c == (a - b) * c;
    MulNonNegative(a - b, c);
  }
}

