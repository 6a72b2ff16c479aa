/**
 * Pages by page number (backend/internal/api/handlers.go): cut from one answer of the indexer
 * (backend/internal/publicapi/handlers.go) or asked for by number
 * (backend/internal/api/indexerclient/handlers_extended.go).
 */
module OffsetPaging {
  import opened Decimal
  import opened Pagination
  import opened Wrappers

  const TWO_31: int := 0x8000_0000
  const TWO_32: int := 0x1_0000_0000
  const TWO_62: int := 0x4000_0000_0000_0000
  const TWO_63: int := 0x8000_0000_0000_0000

  // ----- Pages cut from one answer -----

  /** The least number of pages that hold total rows. */
  function ComputeTotalPages(total: int, pageSize: int): (pages: int)
    ensures pageSize <= 0 || total <= 0 ==> pages == 0
    ensures pageSize > 0 && total > 0 ==> (pages - 1) * pageSize < total <= pages * pageSize
  {
    if pageSize <= 0 || total <= 0 then 0
    else
      var pages := total / pageSize;
      if total % pageSize != 0 then pages + 1 else pages
  }

  /** Go's int arithmetic on a 64-bit platform. */
  function Wrap64(n: int): (w: int)
    ensures -TWO_63 <= w < TWO_63
    ensures -TWO_63 <= n < TWO_63 ==> w == n
  {
    (n + TWO_63) % TWO_64 - TWO_63
  }

  /** The provider sends the indexer 32-bit numbers. */
  function Narrow32(n: int): (w: int)
    ensures -TWO_31 <= w < TWO_31
    ensures -TWO_31 <= n < TWO_31 ==> w == n
  {
    (n + TWO_31) % TWO_32 - TWO_31
  }

  /** A negative row count makes the indexer fail, a negative offset the slicing. */
  datatype Outcome = Served(page: Page<Row>) | Failed

  function OffsetOf(page: int, pageSize: int): int {
    Wrap64(Wrap64(page - 1) * pageSize)
  }

  /** The number of rows the indexer is asked for. */
  function CountFor(page: int, pageSize: int): int {
    Narrow32(Wrap64(Wrap64(OffsetOf(page, pageSize) + pageSize) + 1))
  }

  /** handleGetAddressTransfers: all are the address's transfers, newest first. */
  function GetTransfers(all: seq<Row>, page: int, pageSize: int, server: Server): Outcome {
    var offset, count := OffsetOf(page, pageSize), CountFor(page, pageSize);
    if count < 0 then Failed
    else
      var transfers := all[..Min(RowsFor(count, server), |all|)];
      if offset < 0 then Failed
      else
        var rest := if offset < |transfers| then transfers[offset..] else [];
        if pageSize < 0 then Failed else Served(Paginate(rest, pageSize, (r: Row) => Itoa(r.block)))
  }

  /** The page-th slice of pageSize rows, and whether any row follows it. */
  predicate IsSlice(all: seq<Row>, page: int, pageSize: int, o: Outcome)
    requires page >= 1 && pageSize >= 1
  {
    var from := Min((page - 1) * pageSize, |all|);
    var upto := Min(page * pageSize, |all|);
    0 <= from <= upto && o.Served? && o.page.data == all[from..upto] && (o.page.hasMore <==> page * pageSize < |all|)
  }

  lemma MulStep(page: int, pageSize: int)
    requires page >= 1 && pageSize >= 1
    ensures page * pageSize == (page - 1) * pageSize + pageSize && (page - 1) * pageSize >= 0
  {
  }

  /** The fetched rows without the first offset, cut to a page. */
  lemma Skipped(all: seq<Row>, m: nat, offset: nat, pageSize: nat)
    requires m <= |all|
    ensures var transfers := all[..m];
            var rest := if offset < |transfers| then transfers[offset..] else [];
            && |rest| == m - Min(offset, m)
            && rest[..Min(pageSize, |rest|)] == all[Min(offset, m)..Min(offset + pageSize, m)]
  {
    var transfers := all[..m];
    var rest := if offset < |transfers| then transfers[offset..] else [];
    assert rest == all[Min(offset, m)..m];
  }

  lemma ServedIs(all: seq<Row>, page: int, pageSize: int, server: Server)
    requires 1 <= pageSize <= 100
    ensures var o, offset, count := GetTransfers(all, page, pageSize, server), OffsetOf(page, pageSize),
                                    CountFor(page, pageSize);
            && (o.Served? <==> 0 <= offset && 0 <= count)
            && (o.Served? ==>
                  var m := Min(RowsFor(count, server), |all|);
                  && o.page.data == all[Min(offset, m)..Min(offset + pageSize, m)]
                  && (o.page.hasMore <==> offset + pageSize < m))
  {
    hide OffsetOf, CountFor, RowsFor;
    var offset, count := OffsetOf(page, pageSize), CountFor(page, pageSize);
    if 0 <= count && 0 <= offset {
      Skipped(all, Min(RowsFor(count, server), |all|), offset, pageSize);
    }
  }

  lemma OffsetIs(page: int, pageSize: int)
    requires 1 <= page < TWO_63 && 1 <= pageSize <= 100
    ensures OffsetOf(page, pageSize) == Wrap64((page - 1) * pageSize)
    ensures OffsetOf(page, pageSize) == (page - 1) * pageSize || (page - 1) * pageSize >= TWO_63
  {
    MulStep(page, pageSize);
    assert Wrap64(page - 1) == page - 1;
    NoWrapOr((page - 1) * pageSize);
    hide Wrap64;
  }

  lemma NoWrapOr(n: nat)
    ensures Wrap64(n) == n || n >= TWO_63
  {
  }

  /**
   * The transfers endpoint serves page n exactly if neither the offset nor the 32-bit row count has turned negative,
   * and the indexer returns the rows up to and including the first after the page, or all there are; for a page past
   * the end it is enough that the offset, which may have wrapped, is past the rows returned.
   */
  lemma TransfersExactly(all: seq<Row>, page: int, pageSize: int, server: Server)
    requires 1 <= page < TWO_63 && 1 <= pageSize <= 100 && |all| < TWO_63
    ensures var offset, count, o := OffsetOf(page, pageSize), CountFor(page, pageSize), (page - 1) * pageSize;
            IsSlice(all, page, pageSize, GetTransfers(all, page, pageSize, server))
            <==> 0 <= offset && 0 <= count
                 && if o < |all| then RowsFor(count, server) >= Min(|all|, o + pageSize + 1)
                    else offset >= Min(RowsFor(count, server), |all|)
  {
    MulStep(page, pageSize);
    OffsetIs(page, pageSize);
    ServedIs(all, page, pageSize, server);
    hide OffsetOf, CountFor, GetTransfers, RowsFor, Wrap64;
    var offset, count, o := OffsetOf(page, pageSize), CountFor(page, pageSize), (page - 1) * pageSize;
    if 0 <= offset && 0 <= count {
      SliceExactly(all, offset, Min(RowsFor(count, server), |all|), o, pageSize);
    }
  }

  /** When a page cut from the first m rows at offset is the page at o of the table. */
  lemma SliceExactly(all: seq<Row>, offset: nat, m: nat, o: nat, pageSize: nat)
    requires m <= |all| && pageSize >= 1 && (o < |all| ==> offset == o)
    ensures var data := all[Min(offset, m)..Min(offset + pageSize, m)];
            (data == all[Min(o, |all|)..Min(o + pageSize, |all|)] && (offset + pageSize < m <==> o + pageSize < |all|))
            <==> if o < |all| then m >= Min(|all|, o + pageSize + 1) else offset >= m
  {
    var data, slice := all[Min(offset, m)..Min(offset + pageSize, m)], all[Min(o, |all|)..Min(o + pageSize, |all|)];
    assert |data| == Min(offset + pageSize, m) - Min(offset, m);
    assert |slice| == Min(o + pageSize, |all|) - Min(o, |all|);
  }

  /** A page number that wraps the offset to 0 is served page 1. */
  lemma WrappedPage(r: Row, server: Server)
    requires server.pageCap >= 1
    ensures GetTransfers([r], TWO_62 + 1, 4, server) == GetTransfers([r], 1, 4, server)
    ensures !IsSlice([r], TWO_62 + 1, 4, GetTransfers([r], TWO_62 + 1, 4, server))
  {
    assert OffsetOf(TWO_62 + 1, 4) == 0 == OffsetOf(1, 4);
    TransfersExactly([r], TWO_62 + 1, 4, server);
  }

  /** A page number for which nothing wraps in 64 bits, but the row count does in 32, fails on every table. */
  lemma NarrowedCount(all: seq<Row>, server: Server)
    ensures OffsetOf(21474837, 100) == 21474836 * 100 && CountFor(21474837, 100) < 0
    ensures GetTransfers(all, 21474837, 100, server) == Failed
  {
  }

  /** Past the indexer's cap pages come out empty or cut short, with no more promised. */
  lemma CappedPage(all: seq<Row>, page: int, pageSize: int, server: Server)
    requires 1 <= page && 1 <= pageSize <= 100 && page * pageSize + 1 < TWO_31 && |all| < TWO_63
    requires server.pageCap <= page * pageSize < |all|
    ensures !IsSlice(all, page, pageSize, GetTransfers(all, page, pageSize, server))
  {
    Fits(page, pageSize);
    MulStep(page, pageSize);
    TransfersExactly(all, page, pageSize, server);
  }

  function PagesUpTo(all: seq<Row>, pages: nat, pageSize: int, server: Server): seq<Page<Row>> {
    if pages == 0 then []
    else
      PagesUpTo(all, pages - 1, pageSize, server)
      + match GetTransfers(all, pages, pageSize, server) case Served(p) => [p] case Failed => []
  }

  /**
   * As long as the row count fits 32 bits and the indexer's cap, the pages up to any number together are the front of
   * the table.
   */
  lemma {:induction false} PagesCover(all: seq<Row>, pages: nat, pageSize: int, server: Server)
    requires 1 <= pageSize <= 100 && pages * pageSize + 1 < TWO_31 && pages * pageSize + 1 <= server.pageCap
    ensures 0 <= pages * pageSize
    ensures Concat(PagesUpTo(all, pages, pageSize, server)) == all[..Min(pages * pageSize, |all|)]
  {
    if pages > 0 {
      MulStep(pages, pageSize);
      PagesCover(all, pages - 1, pageSize, server);
      Fits(pages, pageSize);
      var offset := (pages - 1) * pageSize;
      ServedIs(all, pages, pageSize, server);
      hide GetTransfers, OffsetOf, CountFor;
      var page := GetTransfers(all, pages, pageSize, server).page;
      assert PagesUpTo(all, pages, pageSize, server) == PagesUpTo(all, pages - 1, pageSize, server) + [page];
      hide PagesUpTo, Concat;
      ConcatLast(PagesUpTo(all, pages - 1, pageSize, server), page);
      FrontGrows(all, offset, pageSize);
    }
  }

  lemma FrontGrows(all: seq<Row>, offset: nat, pageSize: nat)
    ensures all[..Min(offset, |all|)] + all[Min(offset, |all|)..Min(offset + pageSize, |all|)]
            == all[..Min(offset + pageSize, |all|)]
  {
  }

  lemma Fits(page: int, pageSize: int)
    requires 1 <= page && 1 <= pageSize <= 100 && page * pageSize + 1 < TWO_31
    ensures page < TWO_31 && OffsetOf(page, pageSize) == (page - 1) * pageSize
    ensures CountFor(page, pageSize) == page * pageSize + 1
  {
    hide Wrap64, Narrow32;
    MulStep(page, pageSize);
    assert page * pageSize - page == page * (pageSize - 1);
    assert page * (pageSize - 1) >= 0;
    OffsetIs(page, pageSize);
  }

  lemma {:induction false} ConcatLast(pages: seq<Page<Row>>, page: Page<Row>)
    ensures Concat(pages + [page]) == Concat(pages) + page.data
  {
    if pages == [] {
      assert [] + [page] == [page] && Concat([page]) == page.data + Concat([]);
    } else {
      assert (pages + [page])[1..] == pages[1..] + [page];
      ConcatLast(pages[1..], page);
    }
  }

  // ----- Pages with a total -----

  /** The response of offsetPaginated. */
  datatype OffsetPage = OffsetPage(data: seq<Row>, total: int, page: int, pageSize: int, totalPages: int)

  /** The indexer's page: the first for 0, an error for a negative number. */
  function IndexerSlice(all: seq<Row>, page: int, pageSize: nat): Option<seq<Row>> {
    if page < 0 then None
    else
      var p := if page == 0 then 1 else page;
      Some(Slice(all, p, pageSize))
  }

  function Slice(all: seq<Row>, page: nat, pageSize: nat): seq<Row>
    requires page >= 1
  {
    SliceFrom(all, (page - 1) * pageSize, pageSize)
  }

  function SliceFrom(all: seq<Row>, from: int, pageSize: nat): seq<Row> {
    if 0 <= from <= |all| then all[from..Min(from + pageSize, |all|)] else []
  }

  /** handleGetTransactionsPaginated. */
  function GetTransactionsPage(all: seq<Row>, page: int, pageSize: nat): Option<OffsetPage> {
    match IndexerSlice(all, Narrow32(page), pageSize)
    case None => None
    case Some(data) => Some(OffsetPage(data, |all|, page, pageSize, ComputeTotalPages(|all|, pageSize)))
  }

  function ConcatData(all: seq<Row>, pages: nat, pageSize: nat): seq<Row> {
    if pages == 0 then []
    else
      ConcatData(all, pages - 1, pageSize)
      + match GetTransactionsPage(all, pages, pageSize) case Some(p) => p.data case None => []
  }

  lemma {:induction false} DataCovers(all: seq<Row>, pages: nat, pageSize: nat)
    requires pageSize >= 1 && pages < TWO_31
    ensures 0 <= pages * pageSize && ConcatData(all, pages, pageSize) == all[..Min(pages * pageSize, |all|)]
  {
    if pages > 0 {
      DataCovers(all, pages - 1, pageSize);
      MulStep(pages, pageSize);
      assert GetTransactionsPage(all, pages, pageSize).value.data == Slice(all, pages, pageSize);
      hide GetTransactionsPage;
      FrontGrows(all, (pages - 1) * pageSize, pageSize);
      assert ConcatData(all, pages, pageSize) == ConcatData(all, pages - 1, pageSize) + Slice(all, pages, pageSize);
    }
  }

  /**
   * The total number of pages that a page announces is right: the pages up to it are the whole table, each of them has
   * rows, and the next has none. Page numbers have to fit 32 bits.
   */
  lemma TotalPagesReached(all: seq<Row>, pageSize: nat)
    requires 1 <= pageSize <= 100 && ComputeTotalPages(|all|, pageSize) + 1 < TWO_31
    ensures var pages := ComputeTotalPages(|all|, pageSize);
            && 0 <= pages && ConcatData(all, pages, pageSize) == all
            && forall p :: 1 <= p <= pages + 1 ==>
                 var r := GetTransactionsPage(all, p, pageSize);
                 r.Some? && r.value.totalPages == pages && (r.value.data != [] <==> p <= pages)
  {
    var n := ComputeTotalPages(|all|, pageSize);
    TotalFits(|all|, pageSize);
    hide ComputeTotalPages, ConcatData;
    DataCovers(all, n, pageSize);
    assert all[..|all|] == all;
    forall p | 1 <= p <= n + 1
      ensures var r := GetTransactionsPage(all, p, pageSize);
              r.Some? && r.value.totalPages == n && (r.value.data != [] <==> p <= n)
    {
      SliceEmpty(all, p, n, pageSize);
    }
  }

  lemma TotalFits(total: nat, pageSize: int)
    requires pageSize >= 1
    ensures var n := ComputeTotalPages(total, pageSize);
            0 <= n && total <= n * pageSize < total + pageSize && (n > 0 ==> (n - 1) * pageSize < total)
  {
    var n := ComputeTotalPages(total, pageSize);
    if total > 0 {
      MulPositive(n, pageSize);
      MulStep(n, pageSize);
    }
  }

  lemma SliceEmpty(all: seq<Row>, p: nat, n: nat, pageSize: nat)
    requires 1 <= p <= n + 1 && pageSize >= 1
    requires |all| <= n * pageSize && (n > 0 ==> (n - 1) * pageSize < |all|)
    ensures Slice(all, p, pageSize) != [] <==> p <= n
  {
    MulStep(p, pageSize);
    if p <= n {
      MulOrder(p - 1, n - 1, pageSize);
    }
  }

  /** The slices of two page numbers agree exactly if the numbers do or both are past the end. */
  lemma SlicesAgree(all: seq<Row>, p: nat, q: nat, pageSize: nat)
    requires Distinct(all) && p >= 1 && q >= 1 && pageSize >= 1
    ensures Slice(all, p, pageSize) == Slice(all, q, pageSize)
            <==> p == q || ((p - 1) * pageSize >= |all| && (q - 1) * pageSize >= |all|)
  {
    MulStep(p, pageSize);
    MulStep(q, pageSize);
    if p < q {
      MulOrder(p - 1, q - 1, pageSize);
      StartsDiffer(all, (p - 1) * pageSize, (q - 1) * pageSize, pageSize);
    } else if q < p {
      MulOrder(q - 1, p - 1, pageSize);
      StartsDiffer(all, (q - 1) * pageSize, (p - 1) * pageSize, pageSize);
    }
  }

  lemma StartsDiffer(all: seq<Row>, i: nat, j: nat, pageSize: nat)
    requires Distinct(all) && i < j && pageSize >= 1
    ensures SliceFrom(all, i, pageSize) == SliceFrom(all, j, pageSize) <==> i >= |all|
  {
    if j < |all| {
      assert SliceFrom(all, i, pageSize)[0] == all[i] && SliceFrom(all, j, pageSize)[0] == all[j];
    } else if i < |all| {
      assert SliceFrom(all, i, pageSize)[0] == all[i];
    }
  }

  /**
   * The transactions endpoint serves page n its own slice exactly if the number it is narrowed to is not negative, and
   * is n itself, or both numbers (0 standing for 1) are past the end.
   */
  lemma TransactionsPageExactly(all: seq<Row>, page: int, pageSize: nat)
    requires Distinct(all) && 1 <= page < TWO_63 && 1 <= pageSize <= MAX_LIMIT
    ensures var r, w := GetTransactionsPage(all, page, pageSize), Narrow32(page);
            (r.Some? && r.value.data == Slice(all, page, pageSize))
            <==> 0 <= w && (w == page || ((page - 1) * pageSize >= |all|
                                          && ((if w == 0 then 1 else w) - 1) * pageSize >= |all|))
    ensures var r := GetTransactionsPage(all, page, pageSize);
            r.Some? ==> r.value.page == page && r.value.pageSize == pageSize && r.value.total == |all|
                        && r.value.totalPages == ComputeTotalPages(|all|, pageSize)
  {
    var w := Narrow32(page);
    assert page == 1 ==> w == 1;
    hide Narrow32, Slice;
    if 0 <= w {
      SlicesAgree(all, if w == 0 then 1 else w, page, pageSize);
    }
  }

  /** The page number is narrowed as well: 2^32 + 1 is served page 1. */
  lemma NarrowedPage(all: seq<Row>, pageSize: nat)
    ensures GetTransactionsPage(all, TWO_32 + 1, pageSize).Some?
    ensures GetTransactionsPage(all, TWO_32 + 1, pageSize).value.data == Slice(all, 1, pageSize)
    ensures Distinct(all) && all != [] && 1 <= pageSize <= MAX_LIMIT ==>
              Slice(all, 1, pageSize) != Slice(all, TWO_32 + 1, pageSize)
  {
    if Distinct(all) && all != [] && 1 <= pageSize <= MAX_LIMIT {
      TransactionsPageExactly(all, TWO_32 + 1, pageSize);
    }
  }

  lemma MulPositive(n: int, pageSize: int)
    requires pageSize >= 1 && n * pageSize > 0
    ensures n > 0
  {
    assert n <= 0 ==> n * pageSize <= 0;
  }

  lemma MulOrder(p: int, n: int, pageSize: int)
    requires p <= n && pageSize >= 1
    ensures p * pageSize <= n * pageSize && (p < n ==> p * pageSize <= (n - 1) * pageSize)
  {
    assert (n - p) * pageSize >= 0;
    if p < n { assert (n - 1 - p) * pageSize >= 0; }
  }
}
