/** `OFFSET`/`LIMIT` pagination as the services apply it:
    offset = (page - 1) * pageSize in Go's 64-bit `int`, at most pageSize
    rows. */
module Paging {

  function Min(a: int, b: int): int { if a <= b then a else b }

  const Two63 := 0x8000_0000_0000_0000
  const Two64 := 0x1_0000_0000_0000_0000

  /** Go's 64-bit `int` arithmetic: the result is taken modulo 2^64 into
      the range -2^63 .. 2^63 - 1. */
  function Wrap64(x: int): (r: int)
    ensures -Two63 <= r < Two63
    ensures (x - r) % Two64 == 0
    ensures -Two63 <= x < Two63 ==> r == x
  {
    var k := (x + Two63) / Two64;
    assert x + Two63 == k * Two64 + (x + Two63) % Two64;
    (x + Two63) % Two64 - Two63
  }

  /** Rows `offset .. offset + limit` of `xs`, clipped to its end. */
  function Window<T>(xs: seq<T>, offset: nat, limit: nat): (r: seq<T>)
    ensures |r| <= limit
    ensures |r| == if offset >= |xs| then 0 else Min(limit, |xs| - offset)
    ensures forall i :: 0 <= i < |r| ==> r[i] == xs[offset + i]
  {
    if offset >= |xs| then [] else xs[offset .. Min(offset + limit, |xs|)]
  }

  /** The rows skipped for a 1-based page: `(page - 1) * pageSize` computed
      in 64-bit `int`, and, since the ORM writes an `OFFSET` clause only for
      a positive offset, none at all when that product wraps to zero or
      below. */
  function Offset(page: nat, pageSize: nat): (r: nat)
    requires page >= 1
    ensures r < Two63
    ensures (page - 1) * pageSize < Two63 ==> r == (page - 1) * pageSize
    ensures r == 0 <==> Wrap64((page - 1) * pageSize) <= 0
    ensures r > 0 ==> r == Wrap64((page - 1) * pageSize)
  {
    var o := Wrap64((page - 1) * pageSize);
    if o > 0 then o else 0
  }

  /** Without wrap-around, the first page alone has offset zero. */
  lemma OffsetZeroIffFirstPage(page: nat, pageSize: nat)
    requires page >= 1 && pageSize >= 1
    requires (page - 1) * pageSize < Two63
    ensures Offset(page, pageSize) == 0 <==> page == 1
  {
    if page > 1 {
      assert (page - 1) * pageSize >= pageSize;
    }
  }

  /** A page number large enough to wrap the product serves the first page
      (2^62 * 4 = 2^64 wraps to 0), and one just past it serves the second. */
  lemma OffsetWraps()
    ensures Offset(0x4000_0000_0000_0001, 4) == 0
    ensures Offset(0x4000_0000_0000_0002, 4) == 4
  {
  }

  /** Pages 1..n of size `size`, one after another. */
  function FirstPages<T>(xs: seq<T>, size: nat, n: nat): seq<T> {
    if n == 0 then [] else FirstPages(xs, size, n - 1) + Window(xs, Offset(n, size), size)
  }

  /** Reading pages 1..n in turn yields exactly the first n * size rows, each
      once and in order, as long as no offset wraps around. */
  lemma {:induction false} FirstPagesArePrefix<T>(xs: seq<T>, size: nat, n: nat)
    requires size > 0
    requires n * size <= Two63
    ensures FirstPages(xs, size, n) == xs[..Min(n * size, |xs|)]
  {
    if n > 0 {
      assert n * size == (n - 1) * size + size;
      FirstPagesArePrefix(xs, size, n - 1);
      var lo := Min((n - 1) * size, |xs|);
      var hi := Min(n * size, |xs|);
      assert Offset(n, size) == (n - 1) * size;
      var w := Window(xs, Offset(n, size), size);
      assert w == xs[lo..hi];
      assert xs[..lo] + xs[lo..hi] == xs[..hi];
    }
  }

  /** Pages 1..n as a reader fetches them, one request per page. */
  function ReadPages<T>(page: nat -> seq<T>, n: nat): seq<T> {
    if n == 0 then [] else ReadPages(page, n - 1) + page(n)
  }

  /** A reader whose page k is the k-th window reads the first pages. */
  lemma {:induction false} ReadPagesAreFirstPages<T>(xs: seq<T>, size: nat, page: nat -> seq<T>, n: nat)
    requires forall k :: 1 <= k <= n ==> page(k) == Window(xs, Offset(k, size), size)
    ensures ReadPages(page, n) == FirstPages(xs, size, n)
  {
    if n > 0 {
      ReadPagesAreFirstPages(xs, size, page, n - 1);
    }
  }

  /** The number of pages needed for `total` rows: ceil(total / size). */
  function PageCount(total: nat, size: nat): nat
    requires size > 0
  {
    (total + size - 1) / size
  }

  /** With ceil(|xs| / size) pages every row is returned exactly once. */
  lemma AllPagesCoverList<T>(xs: seq<T>, size: nat)
    requires size > 0
    requires |xs| + size <= Two63
    ensures FirstPages(xs, size, PageCount(|xs|, size)) == xs
  {
    var n := PageCount(|xs|, size);
    assert n * size >= |xs| && n * size <= |xs| + size - 1 by {
      assert (|xs| + size - 1) == n * size + (|xs| + size - 1) % size;
    }
    FirstPagesArePrefix(xs, size, n);
  }
}
