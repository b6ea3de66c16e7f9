/**
 * The paginated search-results overlay: the results gathered from the
 * sidebar panel are shown twenty per page, with a row of at most ten page
 * buttons around the current page, "Previous"/"Next" buttons and a
 * trailing ellipsis when pages lie beyond the row.
 */
module Pagination {
  import opened Wrappers
  import opened JsString

  const ResultsPerPage: nat := 20
  const MaxVisible: nat := 10

  /** A result as read back from the sidebar panel. */
  datatype Post = Post(url: string, title: string, content: string)

  datatype PageButton = PageButton(page: int, active: bool)

  /** The controls row: its markup reduced to what each element shows. */
  datatype Controls = Controls(prevDisabled: bool, pages: seq<PageButton>, ellipsis: bool, nextDisabled: bool)

  /** What the overlay shows: the result count, this page's results, the controls. */
  datatype View = View(resultCount: nat, shown: seq<Post>, controls: Controls)

  function Max(a: int, b: int): int { if a >= b then a else b }
  function Min(a: int, b: int): int { if a <= b then a else b }

  /**
   * The first and last page of the button row: start two pages before the
   * current one, run for ten pages, and slide back when the row would pass
   * the last page. With at least one page the row lies within the pages and
   * holds at most ten, exactly ten when there are that many, all of them
   * when there are fewer, and always the current page when it exists.
   */
  function PageWindow(currentPage: int, totalPages: int): (r: (int, int))
    ensures totalPages >= 1 ==> 1 <= r.0 <= r.1 <= totalPages && r.1 - r.0 + 1 <= MaxVisible
    ensures totalPages >= MaxVisible ==> r.1 - r.0 + 1 == MaxVisible
    ensures 1 <= totalPages < MaxVisible ==> r == (1, totalPages)
    ensures 1 <= currentPage <= totalPages ==> r.0 <= currentPage <= r.1
  {
    var start := Max(1, currentPage - 2);
    var end := Min(totalPages, start + MaxVisible - 1);
    if end - start < MaxVisible - 1 then (Max(1, end - MaxVisible + 1), end) else (start, end)
  }

  /** The buttons for pages `s` to `e`, in order; only `currentPage`'s is active. */
  function Buttons(s: int, e: int, currentPage: int): seq<PageButton>
    decreases e - s
  {
    if e < s then [] else Buttons(s, e - 1, currentPage) + [PageButton(e, e == currentPage)]
  }

  lemma {:induction false} ButtonsFacts(s: int, e: int, currentPage: int)
    ensures |Buttons(s, e, currentPage)| == Max(0, e - s + 1)
    ensures forall k :: 0 <= k < |Buttons(s, e, currentPage)| ==>
      Buttons(s, e, currentPage)[k] == PageButton(s + k, s + k == currentPage)
    decreases e - s
  {
    if e >= s {
      ButtonsFacts(s, e - 1, currentPage);
    }
  }

  /** `generatePaginationControls(totalPages)`, read as data. */
  function PaginationControls(currentPage: int, totalPages: int): (c: Controls)
    ensures totalPages >= 1 ==> 1 <= |c.pages| <= MaxVisible
    ensures forall k :: 0 <= k < |c.pages| ==> 1 <= c.pages[k].page && (totalPages >= 1 ==> c.pages[k].page <= totalPages)
    ensures forall k :: 0 <= k < |c.pages| ==> (c.pages[k].active <==> c.pages[k].page == currentPage)
  {
    var (s, e) := PageWindow(currentPage, totalPages);
    ButtonsFacts(s, e, currentPage);
    Controls(currentPage == 1, Buttons(s, e, currentPage), e < totalPages, currentPage == totalPages)
  }

  /**
   * The controls: one button per page of the row, in order, the current
   * page's alone active; "Previous" disabled exactly on the first page,
   * "Next" exactly on the last, and the ellipsis exactly when the row
   * stops before the last page.
   */
  lemma ControlsMeaning(currentPage: int, totalPages: int)
    requires 1 <= currentPage <= totalPages
    ensures var c := PaginationControls(currentPage, totalPages);
      var (s, e) := PageWindow(currentPage, totalPages);
      |c.pages| == e - s + 1 &&
      (forall k :: 0 <= k < |c.pages| ==> c.pages[k].page == s + k) &&
      (forall k :: 0 <= k < |c.pages| ==> (c.pages[k].active <==> c.pages[k].page == currentPage)) &&
      (exists k :: 0 <= k < |c.pages| && c.pages[k].active) &&
      (c.prevDisabled <==> currentPage == 1) &&
      (c.nextDisabled <==> currentPage == totalPages) &&
      (c.ellipsis <==> e < totalPages)
  {
    var (s, e) := PageWindow(currentPage, totalPages);
    ButtonsFacts(s, e, currentPage);
    var c := PaginationControls(currentPage, totalPages);
    assert c.pages[currentPage - s].active;
  }

  /** The loop of `generatePaginationControls` that builds the page buttons. */
  method GeneratePaginationControls(currentPage: int, totalPages: int) returns (c: Controls)
    ensures c == PaginationControls(currentPage, totalPages)
  {
    var (start, end) := PageWindow(currentPage, totalPages);
    var pages: seq<PageButton> := [];
    var i := start;
    while i <= end
      invariant i == start || start <= i <= end + 1
      invariant pages == Buttons(start, i - 1, currentPage)
      decreases end - i
    {
      pages := pages + [PageButton(i, i == currentPage)];
      i := i + 1;
    }
    c := Controls(currentPage == 1, pages, end < totalPages, currentPage == totalPages);
  }

  /** `Math.ceil(resultCount / RESULTS_PER_PAGE)`: the fewest pages of twenty that hold every result. */
  function TotalPages(resultCount: nat): (r: nat)
    ensures r * ResultsPerPage >= resultCount
    ensures r > 0 ==> (r - 1) * ResultsPerPage < resultCount
  {
    (resultCount + ResultsPerPage - 1) / ResultsPerPage
  }

  /**
   * `Math.max(1, Math.min(currentPage, totalPages))`: with at least one
   * page, a page that exists; a page that exists is left as it is.
   */
  function ClampPage(currentPage: int, totalPages: int): (r: int)
    ensures totalPages >= 1 ==> 1 <= r <= totalPages
    ensures 1 <= currentPage <= totalPages ==> r == currentPage
    ensures totalPages >= 1 && currentPage > totalPages ==> r == totalPages
    ensures totalPages >= 1 && currentPage < 1 ==> r == 1
  {
    Max(1, Min(currentPage, totalPages))
  }

  /**
   * `fullSearchResults.slice((p - 1) * 20, (p - 1) * 20 + 20)` for a page
   * that exists: between one and twenty results, twenty on every page but
   * the last, the k-th being result `(p - 1) * 20 + k`.
   */
  function PageOf(results: seq<Post>, p: int): (r: seq<Post>)
    requires 1 <= p <= TotalPages(|results|)
    ensures 1 <= |r| <= ResultsPerPage
    ensures p < TotalPages(|results|) ==> |r| == ResultsPerPage
    ensures (p - 1) * ResultsPerPage + |r| <= |results|
    ensures forall k :: 0 <= k < |r| ==> r[k] == results[(p - 1) * ResultsPerPage + k]
  {
    var start := (p - 1) * ResultsPerPage;
    results[start..Min(start + ResultsPerPage, |results|)]
  }

  /** The first `p` pages put together are the first results, so all pages together are all results, in order. */
  lemma {:induction false} PagesCover(results: seq<Post>, p: nat)
    requires p <= TotalPages(|results|)
    ensures Concat(results, p) == results[..Min(p * ResultsPerPage, |results|)]
    decreases p
  {
    if p > 0 {
      PagesCover(results, p - 1);
      var a := (p - 1) * ResultsPerPage;
      assert results[..a] + results[a..Min(a + ResultsPerPage, |results|)] == results[..Min(p * ResultsPerPage, |results|)];
    }
  }

  /** The first `p` pages, one after the other. */
  function Concat(results: seq<Post>, p: nat): seq<Post>
    requires p <= TotalPages(|results|)
    decreases p
  {
    if p == 0 then [] else Concat(results, p - 1) + PageOf(results, p)
  }

  lemma AllPages(results: seq<Post>)
    ensures Concat(results, TotalPages(|results|)) == results
  {
    PagesCover(results, TotalPages(|results|));
  }

  /** The overlay's state: the closure variables of the pagination script. */
  class SearchOverlay {
    var currentPage: int
    var fullSearchResults: seq<Post>
    var isSearchActive: bool
    /** `overlay.style.display === "block"`. */
    var visible: bool
    /** What `overlay.innerHTML` shows; `None` before the first rendering. */
    var view: Option<View>

    /** The overlay is displayed exactly while a search is active; every handler keeps this. */
    ghost predicate Synced()
      reads this
    {
      visible == isSearchActive
    }

    constructor ()
      ensures currentPage == 1 && fullSearchResults == [] && !isSearchActive && !visible && view == None
      ensures Synced()
    {
      currentPage, fullSearchResults, isSearchActive, visible, view := 1, [], false, false, None;
    }

    /**
     * `updateSearchResults`: with no results nothing changes; otherwise
     * the current page is clamped into range and that page is shown.
     */
    method UpdateSearchResults()
      modifies this
      ensures old(Synced()) ==> Synced()
      ensures fullSearchResults == old(fullSearchResults)
      ensures old(fullSearchResults) == [] ==>
        currentPage == old(currentPage) && view == old(view) && visible == old(visible) && isSearchActive == old(isSearchActive)
      ensures old(fullSearchResults) != [] ==>
        var tp := TotalPages(|fullSearchResults|);
        currentPage == ClampPage(old(currentPage), tp) && 1 <= currentPage <= tp &&
        view == Some(View(|fullSearchResults|, PageOf(fullSearchResults, currentPage), PaginationControls(currentPage, tp))) &&
        visible && isSearchActive
    {
      var resultCount := |fullSearchResults|;
      var totalPages := TotalPages(resultCount);
      if resultCount == 0 {
        return;
      }
      currentPage := ClampPage(currentPage, totalPages);
      var start := (currentPage - 1) * ResultsPerPage;
      var end := start + ResultsPerPage;
      var pageResults := fullSearchResults[start..Min(end, resultCount)];
      var controls := GeneratePaginationControls(currentPage, totalPages);
      view := Some(View(resultCount, pageResults, controls));
      visible := true;
      isSearchActive := true;
    }

    /** The overlay shows page `currentPage` of the results, with its controls, and is active. */
    ghost predicate Showing()
      reads this
    {
      fullSearchResults != [] &&
      1 <= currentPage <= TotalPages(|fullSearchResults|) &&
      view == Some(View(|fullSearchResults|, PageOf(fullSearchResults, currentPage),
                        PaginationControls(currentPage, TotalPages(|fullSearchResults|)))) &&
      visible && isSearchActive
    }

    /** A page-number button: go to that page. */
    method ShowPage(page: int)
      modifies this
      ensures old(Synced()) ==> Synced()
      ensures fullSearchResults == old(fullSearchResults)
      ensures fullSearchResults != [] ==>
        currentPage == ClampPage(page, TotalPages(|fullSearchResults|)) && Showing()
      ensures fullSearchResults == [] ==>
        currentPage == page && view == old(view) && visible == old(visible) && isSearchActive == old(isSearchActive)
    {
      currentPage := page;
      UpdateSearchResults();
    }

    /** "Next": one page on, staying on the last page. */
    method NextPage()
      modifies this
      ensures old(Synced()) ==> Synced()
      ensures fullSearchResults == old(fullSearchResults)
      ensures fullSearchResults != [] ==>
        currentPage == ClampPage(old(currentPage) + 1, TotalPages(|fullSearchResults|)) && Showing()
      ensures fullSearchResults == [] ==>
        currentPage == old(currentPage) + 1 && view == old(view) && visible == old(visible) && isSearchActive == old(isSearchActive)
    {
      currentPage := currentPage + 1;
      UpdateSearchResults();
    }

    /** "Previous": one page back, staying on the first page. */
    method PrevPage()
      modifies this
      ensures old(Synced()) ==> Synced()
      ensures fullSearchResults == old(fullSearchResults)
      ensures fullSearchResults != [] ==>
        currentPage == ClampPage(old(currentPage) - 1, TotalPages(|fullSearchResults|)) && Showing()
      ensures fullSearchResults == [] ==>
        currentPage == old(currentPage) - 1 && view == old(view) && visible == old(visible) && isSearchActive == old(isSearchActive)
    {
      currentPage := currentPage - 1;
      UpdateSearchResults();
    }

    /** The sidebar panel showed new results: take them and start on page 1. */
    method ResultsChanged(results: seq<Post>)
      modifies this
      ensures old(Synced()) ==> Synced()
      ensures fullSearchResults == results
      ensures results != [] ==> currentPage == 1 && Showing()
      ensures results == [] ==>
        currentPage == 1 && view == old(view) && visible == old(visible) && isSearchActive == old(isSearchActive)
    {
      fullSearchResults := results;
      currentPage := 1;
      UpdateSearchResults();
    }

    /** Typing in the search box: back to page 1, and a blank query hides the overlay. */
    method QueryInput(value: string)
      modifies this
      ensures old(Synced()) ==> Synced()
      ensures currentPage == 1 && fullSearchResults == old(fullSearchResults) && view == old(view)
      ensures Trim(value) == "" ==> !visible && !isSearchActive
      ensures Trim(value) != "" ==> visible == old(visible) && isSearchActive == old(isSearchActive)
    {
      currentPage := 1;
      var query := Trim(value);
      if query == "" {
        visible := false;
        isSearchActive := false;
      }
    }

    /**
     * `closeOverlayAndResetSearch`, run by the sidebar's own clear button:
     * the overlay is hidden and inactive, and nothing else changes.
     */
    method CloseOverlay()
      modifies this
      ensures old(Synced()) ==> Synced()
      ensures !visible && !isSearchActive
      ensures currentPage == old(currentPage) && fullSearchResults == old(fullSearchResults) && view == old(view)
    {
      visible := false;
      isSearchActive := false;
    }

    /**
     * A click in the sidebar: on a link while the overlay is active, the
     * overlay is hidden and inactive; any other click changes nothing.
     */
    method SidebarClick(onLink: bool)
      modifies this
      ensures old(Synced()) ==> Synced()
      ensures onLink && old(isSearchActive) ==> !visible && !isSearchActive
      ensures !(onLink && old(isSearchActive)) ==> visible == old(visible) && isSearchActive == old(isSearchActive)
      ensures currentPage == old(currentPage) && fullSearchResults == old(fullSearchResults) && view == old(view)
    {
      if onLink && isSearchActive {
        visible := false;
        isSearchActive := false;
      }
    }
  }
}
