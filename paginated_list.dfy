// PaginatedList<T>: one page of an ordered source, cut by a 1-based page
// index and a page size, together with the total count, the page count and
// the previous/next flags.

module Pagination {
  import opened Linq

  /** Page count: the integer form of Math.Ceiling(count / (double) size). */
  function CeilDiv(count: nat, size: int): (p: nat)
    requires size > 0
    ensures p * size >= count
    ensures p == 0 || (p - 1) * size < count
    ensures p == 0 <==> count == 0
  {
    var q := (count + size - 1) / size;
    assert q * size + (count + size - 1) % size == count + size - 1;
    q
  }

  /** No smaller page count covers the source: CeilDiv is the least such count. */
  lemma CeilDivIsLeast(count: nat, size: int, q: nat)
    requires size > 0
    requires q * size >= count
    ensures CeilDiv(count, size) <= q
  {
    var p := CeilDiv(count, size);
    if p > q {
      MulMonotone(q, p - 1, size);
    }
  }

  /** Items of the requested page, with the source's redundant page-1 branch. */
  function PageItems<T>(source: seq<T>, pageIndex: int, pageSize: int): (r: seq<T>)
    ensures |r| <= Max(pageSize, 0) && |r| <= |source|
  {
    if pageIndex == 1 then Take(Skip(source, 0), pageSize)
    else Take(Skip(source, (pageIndex - 1) * pageSize), pageSize)
  }

  /** The flag as written: PageIndex > 0. */
  function HasPreviousPageFlag(pageIndex: int): bool
  {
    pageIndex > 0
  }

  /** The flag as written: PageIndex + 1 < TotalPages. */
  function HasNextPageFlag(pageIndex: int, totalPages: int): bool
  {
    pageIndex + 1 < totalPages
  }

  class PaginatedList<T> {
    const PageIndex: int
    const PageSize: int
    const TotalCount: nat
    const TotalPages: nat
    // The source this page was cut from (the list is built once from it).
    ghost const Source: seq<T>
    // The elements held by the inherited List<T>.
    var Items: seq<T>

    ghost predicate Valid()
      reads this
    {
      PageSize > 0 &&
      TotalCount == |Source| &&
      TotalPages == CeilDiv(TotalCount, PageSize) &&
      Items == PageItems(Source, PageIndex, PageSize)
    }

    constructor (source: seq<T>, pageIndex: int, pageSize: int)
      requires pageSize > 0
      ensures Valid() && Source == source
      ensures PageIndex == pageIndex && PageSize == pageSize
      ensures TotalCount == |source| && TotalPages == CeilDiv(|source|, pageSize)
      ensures Items == PageItems(source, pageIndex, pageSize)
    {
      PageIndex := pageIndex;
      PageSize := pageSize;
      TotalCount := |source|;
      TotalPages := CeilDiv(|source|, pageSize);
      Source := source;
      Items := [];
      new;
      // AddRange on the freshly created, empty list
      Items := Items + PageItems(source, pageIndex, pageSize);
    }

    function HasPreviousPage(): bool
    {
      HasPreviousPageFlag(PageIndex)
    }

    function HasNextPage(): bool
    {
      HasNextPageFlag(PageIndex, TotalPages)
    }

    /** What every constructed page satisfies: at most PageSize items, and
        nothing (and no next page) once PageIndex is past TotalPages. */
    lemma PageShape()
      requires Valid()
      ensures |Items| <= PageSize
      ensures PageIndex > TotalPages ==> Items == [] && !HasNextPage()
    {
      if PageIndex > TotalPages {
        PastLastPage(Source, PageIndex, PageSize);
      }
    }

    /** On a constructed page with an index of -1 or more, the next flag tells
        whether page PageIndex + 2 has items (the 0-based test). */
    lemma NextFlagMeaning()
      requires Valid() && PageIndex >= -1
      ensures HasNextPage() <==> PageItems(Source, PageIndex + 2, PageSize) != []
    {
      HasNextPageFlagMeaning(Source, PageIndex, PageSize);
    }

    /** On a constructed page of a non-empty source, the previous flag tells
        whether some index from 0 below PageIndex gives items (the 0-based test). */
    lemma PreviousFlagMeaning()
      requires Valid() && |Source| > 0
      ensures HasPreviousPage() <==> exists q :: 0 <= q < PageIndex && PageItems(Source, q, PageSize) != []
    {
      HasPreviousPageFlagMeaning(Source, PageIndex, PageSize);
    }
  }

  /** The zero-based offset of a page's first element, negative offsets clamped. */
  function PageStart(pageIndex: int, pageSize: int): (start: nat)
    requires pageSize > 0
    ensures start == Max(if pageIndex == 1 then 0 else (pageIndex - 1) * pageSize, 0)
  {
    if pageIndex <= 0 then MulMonotone(pageIndex - 1, 0, pageSize); 0
    else (pageIndex - 1) * pageSize
  }

  /** A page is the window of at most pageSize elements starting at PageStart. */
  lemma PageItemsAreWindow<T>(source: seq<T>, pageIndex: int, pageSize: int)
    requires pageSize > 0
    ensures var start, r := PageStart(pageIndex, pageSize), PageItems(source, pageIndex, pageSize);
            |r| == Min(pageSize, Max(0, |source| - start)) &&
            forall j :: 0 <= j < |r| ==> r[j] == source[start + j]
  {
    var start := PageStart(pageIndex, pageSize);
    var k := if pageIndex == 1 then 0 else (pageIndex - 1) * pageSize;
    var rest := Skip(source, k);
    assert rest == source[Min(start, |source|)..];
    assert PageItems(source, pageIndex, pageSize) == Take(rest, pageSize);
  }

  /** The page-1 branch gives what the general branch would have given. */
  lemma FirstPageBranchRedundant<T>(source: seq<T>, pageIndex: int, pageSize: int)
    ensures PageItems(source, pageIndex, pageSize) == Take(Skip(source, (pageIndex - 1) * pageSize), pageSize)
  {
  }

  /** Every page index up to 1 yields the first window. */
  lemma UpToPageOneIsFirstWindow<T>(source: seq<T>, pageIndex: int, pageSize: int)
    requires pageSize > 0
    requires pageIndex <= 1
    ensures PageItems(source, pageIndex, pageSize) == Take(source, pageSize)
  {
    assert (pageIndex - 1) * pageSize <= 0 by {
      assert (1 - pageIndex) * pageSize >= 0;
    }
  }

  /** For a positive page size, a page is empty exactly when the source is
      empty or the page lies past the last one. */
  lemma PageEmptyIff<T>(source: seq<T>, pageIndex: int, pageSize: int)
    requires pageSize > 0
    ensures PageItems(source, pageIndex, pageSize) == [] <==>
            (|source| == 0 || pageIndex > CeilDiv(|source|, pageSize))
  {
    var total := CeilDiv(|source|, pageSize);
    PageItemsAreWindow(source, pageIndex, pageSize);
    if pageIndex >= 1 {
      if pageIndex - 1 >= total {
        MulMonotone(total, pageIndex - 1, pageSize);
      } else if (pageIndex - 1) * pageSize >= |source| {
        CeilDivIsLeast(|source|, pageSize, pageIndex - 1);
      }
    }
  }

  /** A page past the last one is empty and reports no next page. */
  lemma PastLastPage<T>(source: seq<T>, pageIndex: int, pageSize: int)
    requires pageSize > 0
    requires pageIndex > CeilDiv(|source|, pageSize)
    ensures PageItems(source, pageIndex, pageSize) == []
    ensures !HasNextPageFlag(pageIndex, CeilDiv(|source|, pageSize))
  {
    PageEmptyIff(source, pageIndex, pageSize);
  }

  /** Pages 1..count, concatenated in order. */
  function PagesUpTo<T>(source: seq<T>, pageSize: int, count: nat): seq<T>
  {
    if count == 0 then [] else PagesUpTo(source, pageSize, count - 1) + PageItems(source, count, pageSize)
  }

  /** The first count pages together are the first count * pageSize elements. */
  lemma {:induction false} PagesUpToIsPrefix<T>(source: seq<T>, pageSize: int, count: nat)
    requires pageSize > 0
    ensures PagesUpTo(source, pageSize, count) == Take(source, count * pageSize)
  {
    if count > 0 {
      var m := PageStart(count, pageSize);
      PagesUpToIsPrefix(source, pageSize, count - 1);
      NextPageExtendsPrefix(source, pageSize, count, m);
    }
  }

  /** Page count follows the first (count - 1) * pageSize elements, so
      appending it extends that prefix to count * pageSize elements. */
  lemma NextPageExtendsPrefix<T>(source: seq<T>, pageSize: int, count: nat, m: nat)
    requires pageSize > 0 && count > 0 && m == (count - 1) * pageSize
    ensures Take(source, m) + PageItems(source, count, pageSize) == Take(source, count * pageSize)
  {
    assert m + pageSize == count * pageSize by { MulDistributes(count, 1, pageSize); }
    assert PageItems(source, count, pageSize) == Take(Skip(source, m), pageSize);
    TakeThenNextWindow(source, m, pageSize);
  }

  /** Any number of pages that covers the source reproduces it. */
  lemma PagesCoveringSource<T>(source: seq<T>, pageSize: int, count: nat)
    requires pageSize > 0 && count * pageSize >= |source|
    ensures PagesUpTo(source, pageSize, count) == source
  {
    PagesUpToIsPrefix(source, pageSize, count);
  }

  /** Pages 1..TotalPages partition the source: their concatenation is the source. */
  lemma PagesPartitionSource<T>(source: seq<T>, pageSize: int)
    requires pageSize > 0
    ensures PagesUpTo(source, pageSize, CeilDiv(|source|, pageSize)) == source
  {
    PagesCoveringSource(source, pageSize, CeilDiv(|source|, pageSize));
  }

  /** Slot j of page q holds source element (q - 1) * pageSize + j, and that
      element's page and slot are q and j again: no element is on two pages. */
  lemma PageSlotIsUnique<T>(source: seq<T>, pageSize: int, q: int, j: int)
    requires pageSize > 0
    requires q >= 1 && 0 <= j < |PageItems(source, q, pageSize)|
    ensures var i := (q - 1) * pageSize + j;
            i < |source| && PageItems(source, q, pageSize)[j] == source[i] &&
            i / pageSize + 1 == q && i % pageSize == j
  {
    PageItemsAreWindow(source, q, pageSize);
    DivModUnique((q - 1) * pageSize + j, pageSize, q - 1, j);
  }

  /** Every source element sits on page i / pageSize + 1, at slot i % pageSize. */
  lemma ElementPage<T>(source: seq<T>, pageSize: int, i: int)
    requires pageSize > 0
    requires 0 <= i < |source|
    ensures var q, j := i / pageSize + 1, i % pageSize;
            1 <= q <= CeilDiv(|source|, pageSize) &&
            j < |PageItems(source, q, pageSize)| && PageItems(source, q, pageSize)[j] == source[i]
  {
    var q0, j := i / pageSize, i % pageSize;
    assert q0 * pageSize + j == i;
    var total := CeilDiv(|source|, pageSize);
    if total <= q0 {
      MulMonotone(total, q0, pageSize);
    }
    assert PageStart(q0 + 1, pageSize) == q0 * pageSize;
    PageItemsAreWindow(source, q0 + 1, pageSize);
  }

  // The two flags test a 0-based page index (previous page exists from
  // index 1 on, next page up to TotalPages - 2), while the items are cut for a
  // 1-based one. The lemmas below exhibit the mismatch; PreviousPageExists and
  // NextPageExists are the flags the 1-based slicing calls for.

  /** As written, page 1 of 2 reports no next page although page 2 holds items. */
  lemma HasNextPageMissesLastPage<T>(source: seq<T>)
    requires |source| == 4
    ensures CeilDiv(|source|, 2) == 2
    ensures !HasNextPageFlag(1, CeilDiv(|source|, 2))
    ensures PageItems(source, 2, 2) == source[2..4] != []
  {
    assert (4 + 2 - 1) / 2 == 2;
  }

  /** As written, whenever there are at least 2 pages, the page before the last
      one reports no next page although the last page holds items. */
  lemma NextFlagFalseBeforeLastPage<T>(source: seq<T>, pageSize: int)
    requires pageSize > 0 && CeilDiv(|source|, pageSize) >= 2
    ensures var total := CeilDiv(|source|, pageSize);
            !HasNextPageFlag(total - 1, total) && PageItems(source, total, pageSize) != []
  {
    PageEmptyIff(source, CeilDiv(|source|, pageSize), pageSize);
  }

  /** On every input, the next flag as written tells whether page
      pageIndex + 2 has items: the test for 0-based page indices. */
  lemma HasNextPageFlagMeaning<T>(source: seq<T>, pageIndex: int, pageSize: int)
    requires pageSize > 0 && pageIndex >= -1
    ensures HasNextPageFlag(pageIndex, CeilDiv(|source|, pageSize)) <==>
            PageItems(source, pageIndex + 2, pageSize) != []
  {
    PageEmptyIff(source, pageIndex + 2, pageSize);
  }

  /** For a non-empty source, the previous flag as written holds exactly when
      some page index from 0 up to, but not including, pageIndex has items:
      the test for 0-based page indices. */
  lemma HasPreviousPageFlagMeaning<T>(source: seq<T>, pageIndex: int, pageSize: int)
    requires pageSize > 0 && |source| > 0
    ensures HasPreviousPageFlag(pageIndex) <==>
            exists q :: 0 <= q < pageIndex && PageItems(source, q, pageSize) != []
  {
    if pageIndex > 0 {
      UpToPageOneIsFirstWindow(source, 0, pageSize);
      assert PageItems(source, 0, pageSize) != [];
    }
  }

  /** As written, page 1 reports a previous page, yet no page numbered from 1
      comes before it, and stepping back to index 0 gives page 1 again. */
  lemma HasPreviousPageOnFirstPage<T>(source: seq<T>, pageSize: int)
    requires pageSize > 0
    ensures HasPreviousPageFlag(1)
    ensures !PreviousPageExists(1)
    ensures PageItems(source, 0, pageSize) == PageItems(source, 1, pageSize)
  {
    UpToPageOneIsFirstWindow(source, 0, pageSize);
  }

  /** Whether a page after pageIndex exists, for 1-based page indices. */
  function NextPageExists(pageIndex: int, totalPages: int): bool
  {
    pageIndex < totalPages
  }

  /** Whether a page before pageIndex exists, for 1-based page indices. */
  function PreviousPageExists(pageIndex: int): bool
  {
    pageIndex > 1
  }

  /** The corrected next flag holds exactly when the following page has items. */
  lemma NextPageExistsIff<T>(source: seq<T>, pageIndex: int, pageSize: int)
    requires pageSize > 0 && pageIndex >= 1
    ensures NextPageExists(pageIndex, CeilDiv(|source|, pageSize)) <==>
            PageItems(source, pageIndex + 1, pageSize) != []
  {
    PageEmptyIff(source, pageIndex + 1, pageSize);
  }

  /** For a non-empty source, the corrected previous flag holds exactly when
      some page numbered from 1 up to, but not including, pageIndex has items. */
  lemma PreviousPageExistsIff<T>(source: seq<T>, pageIndex: int, pageSize: int)
    requires pageSize > 0 && |source| > 0
    ensures PreviousPageExists(pageIndex) <==>
            exists q :: 1 <= q < pageIndex && PageItems(source, q, pageSize) != []
  {
    if pageIndex > 1 {
      PageEmptyIff(source, 1, pageSize);
      assert PageItems(source, 1, pageSize) != [];
    }
  }

  /** The demo call: 4 items, page 2 of size 2, gives the 3rd and 4th items,
      2 pages and no next page. */
  lemma DemoPage<T>(four: seq<T>)
    requires |four| == 4
    ensures CeilDiv(|four|, 2) == 2 && PageItems(four, 2, 2) == [four[2], four[3]]
    ensures !HasNextPageFlag(2, CeilDiv(|four|, 2))
  {
    assert CeilDiv(4, 2) == (4 + 2 - 1) / 2 == 2;
    assert PageItems(four, 2, 2) == Take(Skip(four, 2), 2) == four[2..];
  }

  /** 5 items, page 1 of size 2: 3 pages, the first two items, a next page. */
  lemma FiveItemsFirstPage<T>(five: seq<T>)
    requires |five| == 5
    ensures CeilDiv(|five|, 2) == 3 && PageItems(five, 1, 2) == [five[0], five[1]]
    ensures HasNextPageFlag(1, CeilDiv(|five|, 2))
  {
    assert CeilDiv(5, 2) == (5 + 2 - 1) / 2 == 3;
    assert PageItems(five, 1, 2) == Take(five, 2) == five[..2];
  }

  /** An empty source has 0 pages and empty pages; the next flag as written
      still holds for page indices below -1. */
  lemma EmptySourcePages<T>(empty: seq<T>, pageIndex: int)
    requires |empty| == 0
    ensures CeilDiv(|empty|, 10) == 0 && PageItems(empty, pageIndex, 10) == []
    ensures HasNextPageFlag(pageIndex, CeilDiv(|empty|, 10)) <==> pageIndex < -1
  {
  }

  lemma DivModUnique(x: int, b: int, d: int, m: int)
    requires b > 0 && 0 <= m < b && x == d * b + m
    ensures x / b == d && x % b == m
  {
    var d', m' := x / b, x % b;
    assert x == d' * b + m';
    var k := d' - d;
    assert k * b == m - m' by { MulDistributes(d', d, b); }
    if k >= 1 {
      MulMonotone(1, k, b);
    } else if k <= -1 {
      MulMonotone(k, -1, b);
    }
  }

  lemma MulDistributes(a: int, c: int, b: int)
    ensures (a - c) * b == a * b - c * b
  {
  }

  lemma MulMonotone(a: int, c: int, b: int)
    requires a <= c && b >= 0
    ensures a * b <= c * b
  {
    assert (c - a) * b >= 0;
    MulDistributes(c, a, b);
  }
}
