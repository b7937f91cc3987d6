/**
  The tail shared by both listing handlers: count the filtered, sorted rows,
  cut out the requested page with `Skip((page - 1) * pageSize).Take(pageSize)`,
  and describe the neighbouring pages with `self`, `next` and `prev` links.

  A link is modelled by the query it encodes: the page number, the page size
  and the handler's other query parameters `P`, carried through unchanged.
*/
module Paging {
  import opened Wrappers
  import opened Query

  function Min(a: int, b: int): int { if a <= b then a else b }
  function Max(a: int, b: int): int { if a <= b then b else a }

  /** Number of rows before page `page`: `(page - 1) * pageSize`. */
  function Offset(page: int, pageSize: int): (n: int)
    requires page >= 1 && pageSize >= 1
    ensures n >= 0
    ensures n + pageSize == page * pageSize
  {
    assert (page - 1) * pageSize >= 0 by {
      assert page - 1 >= 0;
    }
    (page - 1) * pageSize
  }

  /** `q.Skip((page - 1) * pageSize).Take(pageSize)`: the contiguous run of at most
      `pageSize` rows that starts right after the earlier pages. */
  function Window<T>(s: seq<T>, page: int, pageSize: int): (r: seq<T>)
    requires page >= 1 && pageSize >= 1
    ensures |r| <= pageSize
    ensures |r| == Min(pageSize, Max(0, |s| - Offset(page, pageSize)))
    ensures forall i :: 0 <= i < |r| ==> r[i] == s[Offset(page, pageSize) + i]
  {
    Take(Skip(s, Offset(page, pageSize)), pageSize)
  }

  datatype Link<P> = Link(page: int, pageSize: int, params: P)

  datatype Links<P> = Links(self: Link<P>, next: Option<Link<P>>, prev: Option<Link<P>>)

  /** The response body `{ total, page, pageSize, items, links }`. */
  datatype PageResult<T, P> = PageResult(total: int, page: int, pageSize: int, items: seq<T>, links: Links<P>)

  /** The guard of the `next` link, in exact arithmetic. */
  predicate HasNext(page: int, pageSize: int, total: int)
  {
    page * pageSize < total
  }

  /** The `links` object: the current page, and its neighbours when they exist. */
  function PageLinks<P>(page: int, pageSize: int, total: int, params: P): Links<P>
  {
    Links(
      Link(page, pageSize, params),
      if HasNext(page, pageSize, total) then Some(Link(page + 1, pageSize, params)) else None,
      if page > 1 then Some(Link(page - 1, pageSize, params)) else None)
  }

  /** Count, window and links over the already filtered and sorted rows `q`. */
  function Paginate<T, P>(q: seq<T>, page: int, pageSize: int, params: P): (r: PageResult<T, P>)
    requires page >= 1 && pageSize >= 1
    ensures r.total == |q| && r.page == page && r.pageSize == pageSize
    ensures |r.items| <= pageSize
    ensures |r.items| == Min(pageSize, Max(0, r.total - Offset(page, pageSize)))
    ensures forall i :: 0 <= i < |r.items| ==> r.items[i] == q[Offset(page, pageSize) + i]
    ensures r.links.self == Link(page, pageSize, params)
    ensures r.links.next.Some? <==> page * pageSize < r.total
    ensures r.links.next.Some? ==> r.links.next.value == Link(page + 1, pageSize, params)
    ensures r.links.prev.Some? <==> page > 1
    ensures r.links.prev.Some? ==> r.links.prev.value == Link(page - 1, pageSize, params)
  {
    var links := PageLinks(page, pageSize, |q|, params);
    PageResult(|q|, page, pageSize, Window(q, page, pageSize), links)
  }

  /** Every item on a page is one of the rows being paged. */
  lemma PageItemsAreRows<T, P>(q: seq<T>, page: int, pageSize: int, params: P)
    requires page >= 1 && pageSize >= 1
    ensures forall x :: x in Paginate(q, page, pageSize, params).items ==> x in q
  {
    var w := Paginate(q, page, pageSize, params).items;
    forall x | x in w ensures x in q {
      var k :| 0 <= k < |w| && w[k] == x;
      assert x == q[Offset(page, pageSize) + k];
    }
  }

  /** A page of sorted rows is sorted. */
  lemma PageSorted<T, P>(le: (T, T) -> bool, q: seq<T>, page: int, pageSize: int, params: P)
    requires page >= 1 && pageSize >= 1 && SortedBy(le, q)
    ensures SortedBy(le, Paginate(q, page, pageSize, params).items)
  {
    var w := Window(q, page, pageSize);
    if w != [] {
      var lo := Offset(page, pageSize);
      assert w == q[lo..lo + |w|];
      SliceSorted(le, q, lo, lo + |w|);
    }
  }

  /** The `next` link is present exactly when the page it points to holds a row. */
  lemma NextLinkIffNextPageNonEmpty<T, P>(q: seq<T>, page: int, pageSize: int, params: P)
    requires page >= 1 && pageSize >= 1
    ensures Paginate(q, page, pageSize, params).links.next.Some? <==> Window(q, page + 1, pageSize) != []
  {
    assert Offset(page + 1, pageSize) == page * pageSize;
  }

  /** A `prev` link never points below the first page, and the first page has none. */
  lemma PrevLinkIsAValidPage<T, P>(q: seq<T>, page: int, pageSize: int, params: P)
    requires page >= 1 && pageSize >= 1
    ensures var prev := Paginate(q, page, pageSize, params).links.prev;
      (page == 1 <==> prev.None?) && (prev.Some? ==> prev.value.page >= 1)
  {
  }

  /** Rows that fit on one page are listed whole, with neither a `next` nor a `prev` link. */
  lemma OnePageHasNoNeighbours<T, P>(q: seq<T>, pageSize: int, params: P)
    requires pageSize >= 1 && |q| <= pageSize
    ensures var r := Paginate(q, 1, pageSize, params);
      r.items == q && r.links.next.None? && r.links.prev.None?
  {
    var r := Paginate(q, 1, pageSize, params);
    assert |r.items| == |q|;
    assert forall i :: 0 <= i < |q| ==> r.items[i] == q[i];
  }

  /** Page 2 of size 2 over five rows: the third and fourth rows, a total of 5, and
      both a `next` and a `prev` link. */
  lemma SecondPageOfFive<T, P>(q: seq<T>, params: P)
    requires |q| == 5
    ensures var r := Paginate(q, 2, 2, params);
      && r.total == 5 && r.items == [q[2], q[3]]
      && r.links.next == Some(Link(3, 2, params)) && r.links.prev == Some(Link(1, 2, params))
  {
    var r := Paginate(q, 2, 2, params);
    assert |r.items| == 2;
    assert r.items[0] == q[2] && r.items[1] == q[3];
  }

  /** Row `k` of one fixed row order is item `k % pageSize` of page `k / pageSize + 1`
      cut from that same order. */
  lemma {:induction false} EveryRowOnItsPage<T>(q: seq<T>, pageSize: int, k: int)
    requires pageSize >= 1 && 0 <= k < |q|
    ensures var w := Window(q, k / pageSize + 1, pageSize);
      k % pageSize < |w| && w[k % pageSize] == q[k]
  {
    var page := k / pageSize + 1;
    assert k == (k / pageSize) * pageSize + k % pageSize;
    assert Offset(page, pageSize) == (k / pageSize) * pageSize;
    assert Offset(page, pageSize) + k % pageSize == k;
  }

  // ---- The `next` guard as the handlers compute it: in 32-bit `int` ----

  const Int32Min: int := -0x8000_0000
  const Int32Max: int := 0x7FFF_FFFF

  predicate IsInt32(x: int) { Int32Min <= x <= Int32Max }

  /** Two's-complement wrap-around of an unchecked C# `int` result. */
  function Wrap32(x: int): (r: int)
    ensures IsInt32(r)
    ensures (r - x) % 0x1_0000_0000 == 0
    ensures IsInt32(x) ==> r == x
  {
    (x - Int32Min) % 0x1_0000_0000 + Int32Min
  }

  /** `page * pageSize < total` evaluated on `int` operands: the product wraps. */
  predicate HasNextAsWritten(page: int, pageSize: int, total: int)
    requires IsInt32(page) && IsInt32(pageSize) && IsInt32(total)
  {
    Wrap32(page * pageSize) < total
  }

  /** Without overflow the written guard is the intended one. */
  lemma AsWrittenAgreesWhenProductFits(page: int, pageSize: int, total: int)
    requires IsInt32(page) && IsInt32(pageSize) && IsInt32(total)
    requires IsInt32(page * pageSize)
    ensures HasNextAsWritten(page, pageSize, total) <==> HasNext(page, pageSize, total)
  {
  }

  /** Page 65536 of size 32768 over an empty collection: the product 2^31 wraps to
      -2^31, which is below the total 0, so a `next` link is produced although
      neither this page nor the next holds a row. */
  lemma AsWrittenNextLinkOnEmptyCollection<T>(q: seq<T>)
    requires q == []
    ensures HasNextAsWritten(65536, 32768, |q|)
    ensures !HasNext(65536, 32768, |q|)
    ensures Window(q, 65537, 32768) == []
  {
    assert 65536 * 32768 == 0x8000_0000;
    assert Wrap32(0x8000_0000) == Int32Min;
  }
}
