/** The pagination hook of src/hooks/use-pagination.tsx and the list view that
    consumes it in src/components/news/PaginatedNewsList.tsx.

    The hook owns one piece of state, `currentPage`; `totalItems` and
    `itemsPerPage` are props that the hosting view may change at any time.
    Everything else (page count, slice window, page-number links) is derived on
    every read. */
module Pagination {
  import opened Common

  /** Every call site passes a positive page size (6, 8 or 10). */
  type PageSize = n: nat | n > 0 witness 1

  /** `currentPage` starts at 1 and no operation moves it below 1. */
  type PageNumber = p: int | p >= 1 witness 1

  const MaxVisiblePages: nat := 5
  const DefaultItemsPerPage: PageSize := 6

  datatype Pager = Pager(currentPage: PageNumber, totalItems: nat, itemsPerPage: PageSize)

  /** A fresh hook: `initialPage` defaults to 1. */
  function NewPager(totalItems: nat, itemsPerPage: PageSize): (p: Pager)
    ensures p.currentPage == 1
  {
    Pager(1, totalItems, itemsPerPage)
  }

  /** `Math.ceil(totalItems / itemsPerPage)`: the fewest pages that hold every item. */
  function TotalPages(totalItems: nat, itemsPerPage: PageSize): (r: nat)
    ensures r * itemsPerPage >= totalItems
    ensures r == 0 || (r - 1) * itemsPerPage < totalItems
  {
    var q := (totalItems + itemsPerPage - 1) / itemsPerPage;
    assert q * itemsPerPage + (totalItems + itemsPerPage - 1) % itemsPerPage == totalItems + itemsPerPage - 1;
    q
  }

  function Total(p: Pager): nat {
    TotalPages(p.totalItems, p.itemsPerPage)
  }

  /** The page count of a few examples. */
  lemma TotalPagesExamples()
    ensures TotalPages(0, 10) == 0
    ensures TotalPages(20, 10) == 2
    ensures TotalPages(25, 10) == 3
    ensures TotalPages(47, 10) == 5
  {
  }

  /** The page count is zero exactly when there is nothing to show. */
  lemma NoPagesIffNoItems(totalItems: nat, itemsPerPage: PageSize)
    ensures TotalPages(totalItems, itemsPerPage) == 0 <==> totalItems == 0
  {
  }

  // ---------------------------------------------------------------------------
  // Slice window
  // ---------------------------------------------------------------------------

  /** The half-open interval `[startIndex, endIndex)` of the current page. */
  datatype Window = Window(startIndex: nat, endIndex: nat)

  /** `paginatedData`: never clamped against `totalItems`. */
  function PageWindow(currentPage: PageNumber, itemsPerPage: PageSize): (w: Window)
    ensures w.endIndex - w.startIndex == itemsPerPage
  {
    var start := (currentPage - 1) * itemsPerPage;
    Window(start, start + itemsPerPage)
  }

  lemma MulMonotone(a: int, b: int, c: nat)
    requires a <= b
    ensures a * c <= b * c
  {
  }

  /** Item `i` lies in the window of exactly one page, and that page is in range
      whenever the item exists: the windows tile the collection. */
  lemma {:induction false} ItemOnExactlyOnePage(i: nat, page: PageNumber, totalItems: nat, itemsPerPage: PageSize)
    ensures var w := PageWindow(page, itemsPerPage);
      w.startIndex <= i < w.endIndex <==> page == i / itemsPerPage + 1
    ensures i < totalItems ==> i / itemsPerPage + 1 <= TotalPages(totalItems, itemsPerPage)
  {
    var q := i / itemsPerPage;
    assert i == q * itemsPerPage + i % itemsPerPage;
    var w := PageWindow(page, itemsPerPage);
    assert w.startIndex == (page - 1) * itemsPerPage;
    assert w.endIndex == (page - 1) * itemsPerPage + itemsPerPage;
    if page <= q {
      MulMonotone(page, q, itemsPerPage);
      assert (page - 1) * itemsPerPage + itemsPerPage == page * itemsPerPage;
    } else if page >= q + 2 {
      MulMonotone(q + 1, page - 1, itemsPerPage);
      assert (q + 1) * itemsPerPage == q * itemsPerPage + itemsPerPage;
    }
    if i < totalItems {
      var t := TotalPages(totalItems, itemsPerPage);
      if t <= q {
        MulMonotone(t, q, itemsPerPage);
      }
    }
  }

  /** Consecutive pages have adjacent windows. */
  lemma AdjacentWindows(page: PageNumber, itemsPerPage: PageSize)
    ensures PageWindow(page + 1, itemsPerPage).startIndex == PageWindow(page, itemsPerPage).endIndex
  {
  }

  // ---------------------------------------------------------------------------
  // Navigation
  // ---------------------------------------------------------------------------

  predicate HasNextPage(p: Pager) {
    p.currentPage < Total(p)
  }

  predicate HasPreviousPage(p: Pager) {
    p.currentPage > 1
  }

  /** The state invariant the hook hopes for but does not enforce. */
  predicate InRange(p: Pager) {
    1 <= p.currentPage <= Total(p)
  }

  /** `goToPage`: out-of-range requests are silently ignored. */
  function GoToPage(p: Pager, page: int): (r: Pager)
    ensures r.totalItems == p.totalItems && r.itemsPerPage == p.itemsPerPage
    ensures r.currentPage == page <==> 1 <= page <= Total(p) || page == p.currentPage
    ensures r.currentPage != page ==> r == p
  {
    if 1 <= page <= Total(p) then p.(currentPage := page) else p
  }

  /** `goToNextPage`. */
  function GoToNextPage(p: Pager): (r: Pager)
    ensures r.totalItems == p.totalItems && r.itemsPerPage == p.itemsPerPage
    ensures HasNextPage(p) ==> r.currentPage == p.currentPage + 1
    ensures !HasNextPage(p) ==> r == p
  {
    if p.currentPage < Total(p) then p.(currentPage := p.currentPage + 1) else p
  }

  /** `goToPreviousPage`. */
  function GoToPreviousPage(p: Pager): (r: Pager)
    ensures r.totalItems == p.totalItems && r.itemsPerPage == p.itemsPerPage
    ensures HasPreviousPage(p) ==> r.currentPage == p.currentPage - 1
    ensures !HasPreviousPage(p) ==> r == p
  {
    if p.currentPage > 1 then p.(currentPage := p.currentPage - 1) else p
  }

  /** The hosting view re-renders with a new item count (after a filter, say):
      the prop changes and `currentPage` is left as it was. */
  function SetTotalItems(p: Pager, totalItems: nat): (r: Pager)
    ensures r.currentPage == p.currentPage && r.itemsPerPage == p.itemsPerPage
    ensures r.totalItems == totalItems
  {
    p.(totalItems := totalItems)
  }

  /** Navigation keeps a valid page valid. */
  lemma NavigationPreservesRange(p: Pager, page: int)
    requires InRange(p)
    ensures InRange(GoToPage(p, page))
    ensures InRange(GoToNextPage(p))
    ensures InRange(GoToPreviousPage(p))
  {
  }

  /** ... but nothing re-clamps the page when the item count shrinks: page 3 of
      25 items stays page 3 when only 5 items remain, and shows nothing. */
  lemma StalePageAfterShrink()
    ensures var p := Pager(3, 25, 10);
      InRange(p) && !InRange(SetTotalItems(p, 5))
      && PageWindow(3, 10).startIndex >= 5
  {
  }

  /** At either end the corresponding step is a no-op. */
  lemma NavigationStopsAtEnds(p: Pager)
    ensures p.currentPage >= Total(p) ==> GoToNextPage(p) == p
    ensures p.currentPage == 1 ==> GoToPreviousPage(p) == p
  {
  }

  /** Going to the page one is already on changes nothing, in range or not. */
  lemma GoToCurrentPageIsNoOp(p: Pager)
    ensures GoToPage(p, p.currentPage) == p
  {
  }

  /** From page 3 of 5, `goToPage(99)` and then `goToPage(0)` leave page 3. */
  lemma OutOfRangeRequestsIgnored()
    ensures var p := Pager(3, 47, 10);
      GoToPage(GoToPage(p, 99), 0).currentPage == 3
  {
  }

  /** A step forward is undone by a step back, and a step back (from a valid
      page) by a step forward. */
  lemma StepsAreInverse(p: Pager)
    ensures HasNextPage(p) ==> GoToPreviousPage(GoToNextPage(p)) == p
    ensures HasPreviousPage(p) && p.currentPage <= Total(p) ==> GoToNextPage(GoToPreviousPage(p)) == p
  {
  }

  function NextSteps(p: Pager, k: nat): Pager
    decreases k
  {
    if k == 0 then p else NextSteps(GoToNextPage(p), k - 1)
  }

  /** `k` presses of Next from a valid page land on `min(page + k, totalPages)`. */
  lemma {:induction false} NextStepsClamp(p: Pager, k: nat)
    requires InRange(p)
    ensures NextSteps(p, k).currentPage == Min(p.currentPage + k, Total(p))
    ensures NextSteps(p, k).totalItems == p.totalItems
    ensures NextSteps(p, k).itemsPerPage == p.itemsPerPage
    decreases k
  {
    if k > 0 {
      NextStepsClamp(GoToNextPage(p), k - 1);
    }
  }

  /** 47 items at 10 per page give 5 pages whose windows are [0,10), [10,20),
      [20,30), [30,40), [40,50) and whose slices hold 10, 10, 10, 10 and 7 items. */
  lemma FortySevenItemsScenario(items: seq<int>)
    requires |items| == 47
    ensures TotalPages(47, 10) == 5
    ensures forall page: PageNumber :: page <= 5 ==> PageWindow(page, 10) == Window((page - 1) * 10, page * 10)
    ensures forall page: PageNumber :: page <= 4 ==> |CurrentItems(items, Pager(page, 47, 10))| == 10
    ensures |CurrentItems(items, Pager(5, 47, 10))| == 7
  {
  }

  // ---------------------------------------------------------------------------
  // Page-number links
  // ---------------------------------------------------------------------------

  /** `[lo, lo + 1, ..., hi - 1]`. */
  function Range(lo: int, hi: int): (r: seq<int>)
    ensures |r| == if hi <= lo then 0 else hi - lo
    ensures forall k :: 0 <= k < |r| ==> r[k] == lo + k
    decreases hi - lo
  {
    if hi <= lo then [] else [lo] + Range(lo + 1, hi)
  }

  /** `getPageNumbers`: all pages when there are at most five, otherwise a run of
      five centred on the current page and shifted back inside `[1, totalPages]`. */
  function PageNumbers(currentPage: int, totalPages: nat): seq<int> {
    if totalPages <= MaxVisiblePages then Range(1, totalPages + 1)
    else
      var halfVisible := MaxVisiblePages / 2;
      var startPage := Max(currentPage - halfVisible, 1);
      var endPage := Min(startPage + MaxVisiblePages - 1, totalPages);
      var startPage' := if endPage - startPage < MaxVisiblePages - 1
        then Max(endPage - MaxVisiblePages + 1, 1) else startPage;
      Range(startPage', endPage + 1)
  }

  function PageLinks(p: Pager): seq<int> {
    PageNumbers(p.currentPage, Total(p))
  }

  /** With at most five pages: every page, in order; nothing when there are no pages. */
  lemma PageNumbersWhenFew(currentPage: int, totalPages: nat)
    requires totalPages <= MaxVisiblePages
    ensures PageNumbers(currentPage, totalPages) == Range(1, totalPages + 1)
    ensures totalPages == 0 ==> PageNumbers(currentPage, totalPages) == []
  {
  }

  /** With more than five pages: five consecutive increasing pages inside `[1, totalPages]`,
      containing the current page whenever that page is valid. */
  lemma PageNumbersWhenMany(currentPage: int, totalPages: nat)
    requires totalPages > MaxVisiblePages
    ensures var r := PageNumbers(currentPage, totalPages);
      && |r| == MaxVisiblePages
      && (forall k :: 0 < k < |r| ==> r[k] == r[k - 1] + 1)
      && 1 <= r[0] && r[|r| - 1] <= totalPages
      && (1 <= currentPage <= totalPages ==> currentPage in r)
  {
    var r := PageNumbers(currentPage, totalPages);
    if 1 <= currentPage <= totalPages {
      assert r[currentPage - r[0]] == currentPage;
    }
  }

  /** Away from both ends the current page sits in the middle of the run. */
  lemma PageNumbersCentred(currentPage: int, totalPages: nat)
    requires totalPages > MaxVisiblePages
    requires 3 <= currentPage <= totalPages - 2
    ensures PageNumbers(currentPage, totalPages) == Range(currentPage - 2, currentPage + 3)
  {
  }

  /** The documented windows for twelve pages. */
  lemma PageNumbersExamples()
    ensures PageNumbers(7, 12) == [5, 6, 7, 8, 9]
    ensures PageNumbers(11, 12) == [8, 9, 10, 11, 12]
    ensures PageNumbers(1, 12) == [1, 2, 3, 4, 5]
    ensures PageNumbers(2, 3) == [1, 2, 3]
  {
    assert Range(5, 10) == [5, 6, 7, 8, 9];
    assert Range(8, 13) == [8, 9, 10, 11, 12];
    assert Range(1, 6) == [1, 2, 3, 4, 5];
    assert Range(1, 4) == [1, 2, 3];
  }

  /** Every page link is a target `goToPage` accepts, so clicking a link always
      moves to that page. */
  lemma PageLinksAreReachable(p: Pager)
    ensures forall k :: 0 <= k < |PageLinks(p)| ==> GoToPage(p, PageLinks(p)[k]).currentPage == PageLinks(p)[k]
  {
    if Total(p) > MaxVisiblePages {
      PageNumbersWhenMany(p.currentPage, Total(p));
    }
  }

  // ---------------------------------------------------------------------------
  // The list view (PaginatedNewsList)
  // ---------------------------------------------------------------------------

  /** `items.slice(startIndex, endIndex)` for the current page. */
  function CurrentItems<T>(items: seq<T>, p: Pager): (r: seq<T>)
    ensures |r| <= p.itemsPerPage
    ensures var w := PageWindow(p.currentPage, p.itemsPerPage);
      |r| == if |items| <= w.startIndex then 0 else Min(w.endIndex, |items|) - w.startIndex
    ensures var w := PageWindow(p.currentPage, p.itemsPerPage);
      forall k :: 0 <= k < |r| ==> r[k] == items[w.startIndex + k]
  {
    var w := PageWindow(p.currentPage, p.itemsPerPage);
    Slice(items, w.startIndex, w.endIndex)
  }

  /** The trailing "…" of the list: shown when there are more than five pages and
      the current page is more than two from the end. */
  predicate ShowEllipsis(currentPage: int, totalPages: nat) {
    totalPages > MaxVisiblePages && currentPage < totalPages - 2
  }

  /** The hand-written ellipsis condition agrees with the page-number run: it
      holds exactly when the run stops short of the last page. */
  lemma EllipsisMatchesLinks(currentPage: int, totalPages: nat)
    requires totalPages >= 1
    ensures var r := PageNumbers(currentPage, totalPages);
      |r| > 0 && (ShowEllipsis(currentPage, totalPages) <==> r[|r| - 1] < totalPages)
  {
  }

  /** "Showing X to Y of N". */
  datatype Controls = Controls(
    showingFrom: int,
    showingTo: int,
    ofTotal: nat,
    links: seq<int>,
    activePage: int,
    ellipsis: bool,
    previousEnabled: bool,
    nextEnabled: bool)

  datatype ListView<T> = EmptyState | Listing(items: seq<T>, controls: Option<Controls>)

  /** `startIndex + 1` and `min(endIndex, length)`, as every paginated table prints them. */
  function ShowingRange(p: Pager, length: nat): (r: (int, int))
    ensures r.0 == PageWindow(p.currentPage, p.itemsPerPage).startIndex + 1
    ensures r.1 == Min(PageWindow(p.currentPage, p.itemsPerPage).endIndex, length)
    ensures r.1 <= length
  {
    var w := PageWindow(p.currentPage, p.itemsPerPage);
    (w.startIndex + 1, Min(w.endIndex, length))
  }

  /** On a page in range the window starts inside the list. */
  lemma {:induction false} StartInsideList(p: Pager)
    requires InRange(p)
    ensures PageWindow(p.currentPage, p.itemsPerPage).startIndex < p.totalItems
  {
    var t := Total(p);
    MulMonotone(p.currentPage - 1, t - 1, p.itemsPerPage);
  }

  /** On a valid page of a non-empty list the first shown position does not
      pass the last. */
  lemma {:induction false} ShowingRangeOrdered(p: Pager)
    requires InRange(p)
    ensures var r := ShowingRange(p, p.totalItems); 1 <= r.0 <= r.1
  {
    StartInsideList(p);
  }

  /** On a valid page "Showing X to Y" names exactly the rows on screen: Y - X + 1
      of them, and X is the position of the first. */
  lemma {:induction false} ShowingRangeCountsRows<T>(items: seq<T>, p: Pager)
    requires p.totalItems == |items| && InRange(p)
    ensures var r := ShowingRange(p, |items|);
      r.1 - r.0 + 1 == |CurrentItems(items, p)| && CurrentItems(items, p)[0] == items[r.0 - 1]
  {
    StartInsideList(p);
  }

  /** The page size `PaginatedNewsList` uses: its `itemsPerPage` prop, six when absent. */
  function ListPageSize(itemsPerPage: Option<PageSize>): (n: PageSize)
    ensures itemsPerPage.Some? ==> n == itemsPerPage.value
    ensures itemsPerPage.None? ==> n == DefaultItemsPerPage
  {
    itemsPerPage.GetOr(DefaultItemsPerPage)
  }

  /** What `PaginatedNewsList` renders for a list, its optional `itemsPerPage`
      prop and the hook's current page. */
  function RenderList<T>(articles: seq<T>, itemsPerPage: Option<PageSize>, currentPage: PageNumber): (v: ListView<T>)
    ensures v.EmptyState? <==> |articles| == 0
    ensures var p := Pager(currentPage, |articles|, ListPageSize(itemsPerPage));
      v.Listing? ==> v.items == CurrentItems(articles, p) && (v.controls.Some? <==> Total(p) > 1)
    ensures var p := Pager(currentPage, |articles|, ListPageSize(itemsPerPage));
      var w := PageWindow(currentPage, p.itemsPerPage);
      v.Listing? && v.controls.Some? ==>
      && v.controls.value.showingFrom == w.startIndex + 1
      && v.controls.value.showingTo == Min(w.endIndex, |articles|)
      && v.controls.value.ofTotal == |articles|
      && v.controls.value.links == PageLinks(p)
      && v.controls.value.activePage == currentPage
      && v.controls.value.ellipsis == ShowEllipsis(currentPage, Total(p))
      && (v.controls.value.previousEnabled <==> HasPreviousPage(p))
      && (v.controls.value.nextEnabled <==> HasNextPage(p))
  {
    if |articles| == 0 then EmptyState
    else
      var p := Pager(currentPage, |articles|, ListPageSize(itemsPerPage));
      var items := CurrentItems(articles, p);
      if Total(p) > 1 then
        var (from, to) := ShowingRange(p, |articles|);
        Listing(items, Some(Controls(from, to, |articles|, PageLinks(p), currentPage,
          ShowEllipsis(currentPage, Total(p)), HasPreviousPage(p), HasNextPage(p))))
      else Listing(items, None)
  }

  /** Without the prop the first page of a list of at least six shows its first
      six articles, under controls that count from 1 to 6; a list of six or fewer
      has a single page and no controls. */
  lemma {:induction false} DefaultListShowsSix<T>(articles: seq<T>)
    requires |articles| > 0
    ensures var v := RenderList(articles, None, 1);
      && v.Listing?
      && (|articles| >= 6 ==> v.items == articles[..6])
      && (|articles| > 6 ==> v.controls.Some? && v.controls.value.showingFrom == 1 && v.controls.value.showingTo == 6)
      && (|articles| <= 6 ==> v.items == articles && v.controls.None?)
  {
    var v := RenderList(articles, None, 1);
    var p := Pager(1, |articles|, DefaultItemsPerPage);
    assert v.items == CurrentItems(articles, p);
    if |articles| <= 6 {
      assert Total(p) == 1;
    } else {
      assert Total(p) > 1;
    }
  }

  /** On a valid page the counts under a rendered list describe the rows above them. */
  lemma {:induction false} RenderedCountsMatchRows<T>(articles: seq<T>, itemsPerPage: Option<PageSize>, currentPage: PageNumber)
    requires currentPage <= TotalPages(|articles|, ListPageSize(itemsPerPage))
    ensures var v := RenderList(articles, itemsPerPage, currentPage);
      v.Listing? && v.controls.Some? ==>
      v.controls.value.showingTo - v.controls.value.showingFrom + 1 == |v.items|
  {
    var p := Pager(currentPage, |articles|, ListPageSize(itemsPerPage));
    if |articles| > 0 {
      ShowingRangeCountsRows(articles, p);
    }
  }
}
