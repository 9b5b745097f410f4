/** The pagination bar of the search and dashboard pages: the previous and next
    handlers, their disabled flags, and the row of page numbers with ellipses. */
module SearchPagination {
  import opened Wrappers

  /** handlePrevious: the page asked for, if any; page 1 asks for nothing. */
  function PreviousTarget(currentPage: int): (r: Option<int>)
    ensures r.Some? <==> currentPage > 1
    ensures r.Some? ==> r.value == currentPage - 1 && r.value >= 1
  {
    if currentPage > 1 then Some(currentPage - 1) else None
  }

  /** handleNext asks for the following page unconditionally; only the disabled
      flag stands between it and the user. */
  function NextTarget(currentPage: int): (r: int)
    ensures r > currentPage
    ensures r == currentPage + 1
  {
    currentPage + 1
  }

  /** Next then previous comes back to the page it started from. */
  lemma NextThenPrevious(currentPage: int)
    requires currentPage >= 1
    ensures PreviousTarget(NextTarget(currentPage)) == Some(currentPage)
  {
  }

  /** isPrevDisabled: the server's has_prev when given, else whether this is page 1. */
  function PrevDisabled(hasPrev: Option<bool>, currentPage: int): (r: bool)
    ensures hasPrev.Some? ==> r == !hasPrev.value
    ensures hasPrev.None? ==> (r <==> currentPage == 1)
  {
    match hasPrev
    case Some(h) => !h
    case None => currentPage == 1
  }

  /** isNextDisabled: the server's has_next when given, else never. */
  function NextDisabled(hasNext: Option<bool>): (r: bool)
    ensures r <==> hasNext == Some(false)
  {
    match hasNext
    case Some(h) => !h
    case None => false
  }

  /** The links only react when neither their flag nor the loading state disables them. */
  predicate Clickable(disabled: bool, isLoading: bool) {
    !disabled && !isLoading
  }

  /** With the server's flags, previous is clickable exactly when there is a page
      before, and then it asks for a page from 1 on. */
  lemma PreviousFollowsServer(page: int, isLoading: bool)
    requires page >= 1
    ensures Clickable(PrevDisabled(Some(page > 1), page), isLoading) ==> PreviousTarget(page) == Some(page - 1)
    ensures PrevDisabled(Some(page > 1), page) <==> PreviousTarget(page).None?
  {
  }

  /** The filter on the page numbers: every page when there are at most seven,
      otherwise the first, the last and the current page with its two neighbours. */
  predicate Keep(pageNum: int, totalPages: int, currentPage: int) {
    totalPages <= 7 || pageNum == 1 || pageNum == totalPages || (currentPage - 1 <= pageNum <= currentPage + 1)
  }

  /** Array.from({ length: totalPages }, (_, i) => i + 1): 1 .. totalPages (none for a
      length below one). */
  function AllPages(totalPages: int): (r: seq<int>)
    ensures |r| == if totalPages < 0 then 0 else totalPages
    ensures forall k :: 0 <= k < |r| ==> r[k] == k + 1
    ensures forall x :: x in r <==> 1 <= x <= totalPages
  {
    var r := if totalPages <= 0 then [] else seq(totalPages, k => k + 1);
    forall x | 1 <= x <= totalPages ensures x in r {
      assert r[x - 1] == x;
    }
    r
  }

  predicate StrictlyIncreasing(s: seq<int>) {
    forall k, l :: 0 <= k < l < |s| ==> s[k] < s[l]
  }

  /** The filter, in order. */
  function KeepPages(s: seq<int>, totalPages: int, currentPage: int): (r: seq<int>)
    ensures forall x :: x in r <==> x in s && Keep(x, totalPages, currentPage)
    ensures StrictlyIncreasing(s) ==> StrictlyIncreasing(r)
    ensures |r| <= |s|
  {
    if s == [] then []
    else
      var rest := KeepPages(s[1..], totalPages, currentPage);
      assert forall x :: x in s <==> x == s[0] || x in s[1..];
      assert StrictlyIncreasing(s) ==> StrictlyIncreasing(s[1..]);
      if Keep(s[0], totalPages, currentPage) then
        assert StrictlyIncreasing(s) ==> StrictlyIncreasing([s[0]] + rest) by {
          if StrictlyIncreasing(s) {
            forall k, l | 0 <= k < l < |rest| + 1 ensures ([s[0]] + rest)[k] < ([s[0]] + rest)[l] {
              assert rest[l - 1] in rest;
              if k > 0 { assert ([s[0]] + rest)[k] == rest[k - 1]; }
            }
          }
        }
        [s[0]] + rest
      else rest
  }

  /** The page numbers shown. */
  function VisiblePages(totalPages: int, currentPage: int): (r: seq<int>)
    ensures StrictlyIncreasing(r)
    ensures forall x :: x in r <==> 1 <= x <= totalPages && Keep(x, totalPages, currentPage)
  {
    KeepPages(AllPages(totalPages), totalPages, currentPage)
  }

  /** Beyond seven pages at most five numbers show: the first, the last and the
      current page with its neighbours. */
  lemma AtMostFive(totalPages: int, currentPage: int)
    requires totalPages > 7
    ensures |VisiblePages(totalPages, currentPage)| <= 5
  {
    var r := VisiblePages(totalPages, currentPage);
    if |r| >= 3 {
      var last := |r| - 1;
      assert r[0] in r && r[1] in r && r[last - 1] in r && r[last] in r;
      assert 1 <= r[0] < r[1] && r[last - 1] < r[last] <= totalPages;
      Spread(r, 1, last - 1);
    }
  }

  /** Strictly increasing integers spread at least one apart. */
  lemma {:induction false} Spread(r: seq<int>, i: nat, j: nat)
    requires StrictlyIncreasing(r) && i <= j < |r|
    ensures r[j] - r[i] >= j - i
    decreases j - i
  {
    if i < j {
      Spread(r, i + 1, j);
    }
  }

  /** The first page, the last page and the current page (when it exists) are always
      shown, and so is every page when there are at most seven. */
  lemma AlwaysShown(totalPages: int, currentPage: int)
    requires totalPages >= 1
    ensures 1 in VisiblePages(totalPages, currentPage) && totalPages in VisiblePages(totalPages, currentPage)
    ensures 1 <= currentPage <= totalPages ==> currentPage in VisiblePages(totalPages, currentPage)
    ensures totalPages <= 7 ==> VisiblePages(totalPages, currentPage) == AllPages(totalPages)
  {
    if totalPages <= 7 {
      KeepEverything(AllPages(totalPages), totalPages, currentPage);
    }
  }

  /** At most seven pages, the filter keeps everything. */
  lemma {:induction false} KeepEverything(s: seq<int>, totalPages: int, currentPage: int)
    requires totalPages <= 7
    ensures KeepPages(s, totalPages, currentPage) == s
  {
    if s != [] {
      KeepEverything(s[1..], totalPages, currentPage);
      assert s == [s[0]] + s[1..];
    }
  }

  /** What the bar shows between its two arrows. */
  datatype PageItem = Ellipsis | PageLink(pageNum: int, isActive: bool)

  /** The k-th shown page, preceded by an ellipsis when it does not follow the
      page shown before it. */
  function ItemsAt(pages: seq<int>, k: nat, currentPage: int): seq<PageItem>
    requires k < |pages|
  {
    (if k > 0 && pages[k] - pages[k - 1] > 1 then [Ellipsis] else [])
    + [PageLink(pages[k], currentPage == pages[k])]
  }

  /** Every ellipsis stands between two links whose pages are more than one apart. */
  predicate EllipsesBridgeGaps(items: seq<PageItem>) {
    forall i :: 0 <= i < |items| && items[i].Ellipsis? ==>
      0 < i < |items| - 1 && items[i - 1].PageLink? && items[i + 1].PageLink?
      && items[i + 1].pageNum - items[i - 1].pageNum > 1
  }

  /** Two links side by side show pages at most one apart. */
  predicate NoUnmarkedGap(items: seq<PageItem>) {
    forall i :: 0 < i < |items| && items[i].PageLink? && items[i - 1].PageLink? ==>
      items[i].pageNum - items[i - 1].pageNum <= 1
  }

  /** A link is active exactly when it shows the current page. */
  predicate ActiveMarksCurrent(items: seq<PageItem>, currentPage: int) {
    forall i :: 0 <= i < |items| && items[i].PageLink? ==> (items[i].isActive <==> items[i].pageNum == currentPage)
  }

  /** The rendered row for the shown pages: the pages as links in order, one ellipsis
      exactly where two consecutive pages are more than one apart, and the current
      page's link active. */
  function Items(pages: seq<int>, currentPage: int): (r: seq<PageItem>)
    ensures Links(r) == pages
    ensures EllipsisCount(r) == Gaps(pages)
    ensures ActiveLinks(r) == Count(pages, currentPage)
    ensures pages != [] ==> r != [] && r[|r| - 1] == PageLink(pages[|pages| - 1], currentPage == pages[|pages| - 1])
    ensures EllipsesBridgeGaps(r) && NoUnmarkedGap(r) && ActiveMarksCurrent(r, currentPage)
    decreases |pages|
  {
    if pages == [] then []
    else
      var prefix := Items(pages[..|pages| - 1], currentPage);
      AppendLinks(prefix, pages, currentPage);
      AppendEllipses(prefix, pages, currentPage);
      AppendActive(prefix, pages, currentPage);
      AppendPlaced(prefix, pages, currentPage);
      prefix + ItemsAt(pages, |pages| - 1, currentPage)
  }

  /** The next page's items keep every ellipsis between a gap and every link marked. */
  lemma AppendPlaced(prefix: seq<PageItem>, pages: seq<int>, currentPage: int)
    requires pages != []
    requires |pages| == 1 ==> prefix == []
    requires |pages| > 1 ==> prefix != [] && prefix[|prefix| - 1] == PageLink(pages[|pages| - 2], currentPage == pages[|pages| - 2])
    requires EllipsesBridgeGaps(prefix) && NoUnmarkedGap(prefix) && ActiveMarksCurrent(prefix, currentPage)
    ensures var r := prefix + ItemsAt(pages, |pages| - 1, currentPage);
      EllipsesBridgeGaps(r) && NoUnmarkedGap(r) && ActiveMarksCurrent(r, currentPage)
  {
    var n := |pages| - 1;
    var link := PageLink(pages[n], currentPage == pages[n]);
    if n > 0 && pages[n] - pages[n - 1] > 1 {
      assert ItemsAt(pages, n, currentPage) == [Ellipsis, link];
      AppendGap(prefix, pages[n - 1], link, currentPage);
    } else {
      assert ItemsAt(pages, n, currentPage) == [link];
      AppendAdjacent(prefix, link, currentPage);
    }
  }

  /** A link after an ellipsis after a link more than one page before it. */
  lemma AppendGap(prefix: seq<PageItem>, before: int, link: PageItem, currentPage: int)
    requires prefix != [] && prefix[|prefix| - 1] == PageLink(before, currentPage == before)
    requires link.PageLink? && link.pageNum - before > 1 && (link.isActive <==> link.pageNum == currentPage)
    requires EllipsesBridgeGaps(prefix) && NoUnmarkedGap(prefix) && ActiveMarksCurrent(prefix, currentPage)
    ensures var r := prefix + [Ellipsis, link];
      EllipsesBridgeGaps(r) && NoUnmarkedGap(r) && ActiveMarksCurrent(r, currentPage)
  {
    GapBridged(prefix, before, link, currentPage);
    var r := prefix + [Ellipsis, link];
    var m := |prefix|;
    assert forall i :: 0 <= i < m ==> r[i] == prefix[i];
    assert r[m] == Ellipsis && r[m + 1] == link;
  }

  /** The new ellipsis stands between the two links of the gap. */
  lemma GapBridged(prefix: seq<PageItem>, before: int, link: PageItem, currentPage: int)
    requires prefix != [] && prefix[|prefix| - 1] == PageLink(before, currentPage == before)
    requires link.PageLink? && link.pageNum - before > 1
    requires EllipsesBridgeGaps(prefix)
    ensures EllipsesBridgeGaps(prefix + [Ellipsis, link])
  {
    var r := prefix + [Ellipsis, link];
    var m := |prefix|;
    forall i | 0 <= i < |r| && r[i].Ellipsis?
      ensures 0 < i < |r| - 1 && r[i - 1].PageLink? && r[i + 1].PageLink? && r[i + 1].pageNum - r[i - 1].pageNum > 1
    {
      if i < m {
        assert r[i] == prefix[i] && r[i - 1] == prefix[i - 1];
        assert i + 1 < m ==> r[i + 1] == prefix[i + 1];
      } else {
        assert i == m && r[i - 1] == prefix[m - 1] && r[i + 1] == link;
      }
    }
  }

  /** A link right after the previous one, or first of all. */
  lemma AppendAdjacent(prefix: seq<PageItem>, link: PageItem, currentPage: int)
    requires link.PageLink? && (link.isActive <==> link.pageNum == currentPage)
    requires prefix != [] ==> prefix[|prefix| - 1].PageLink? && link.pageNum - prefix[|prefix| - 1].pageNum <= 1
    requires EllipsesBridgeGaps(prefix) && NoUnmarkedGap(prefix) && ActiveMarksCurrent(prefix, currentPage)
    ensures var r := prefix + [link];
      EllipsesBridgeGaps(r) && NoUnmarkedGap(r) && ActiveMarksCurrent(r, currentPage)
  {
    var r := prefix + [link];
    assert forall i :: 0 <= i < |prefix| ==> r[i] == prefix[i];
  }

  /** The row grows by one page's items at a time: its links by the page, */
  lemma AppendLinks(prefix: seq<PageItem>, pages: seq<int>, currentPage: int)
    requires pages != [] && Links(prefix) == pages[..|pages| - 1]
    ensures Links(prefix + ItemsAt(pages, |pages| - 1, currentPage)) == pages
  {
    var n := |pages| - 1;
    LinksAppend(prefix, ItemsAt(pages, n, currentPage));
    ItemsAtCounts(pages, n, currentPage);
    assert pages == pages[..n] + [pages[n]];
  }

  /** its ellipses by the gap before the page, */
  lemma AppendEllipses(prefix: seq<PageItem>, pages: seq<int>, currentPage: int)
    requires pages != [] && EllipsisCount(prefix) == Gaps(pages[..|pages| - 1])
    ensures EllipsisCount(prefix + ItemsAt(pages, |pages| - 1, currentPage)) == Gaps(pages)
  {
    var n := |pages| - 1;
    LinksAppend(prefix, ItemsAt(pages, n, currentPage));
    ItemsAtCounts(pages, n, currentPage);
    GapsLast(pages);
  }

  /** and its active links by the page's occurrence of the current one. */
  lemma AppendActive(prefix: seq<PageItem>, pages: seq<int>, currentPage: int)
    requires pages != [] && ActiveLinks(prefix) == Count(pages[..|pages| - 1], currentPage)
    ensures ActiveLinks(prefix + ItemsAt(pages, |pages| - 1, currentPage)) == Count(pages, currentPage)
  {
    var n := |pages| - 1;
    LinksAppend(prefix, ItemsAt(pages, n, currentPage));
    ItemsAtCounts(pages, n, currentPage);
    CountLast(pages, currentPage);
  }

  /** Gaps grows by the last step's gap. */
  lemma GapsLast(pages: seq<int>)
    requires pages != []
    ensures Gaps(pages) == Gaps(pages[..|pages| - 1])
      + (if |pages| > 1 && pages[|pages| - 1] - pages[|pages| - 2] > 1 then 1 else 0)
  {
  }

  /** Count grows by the last element's occurrence. */
  lemma CountLast(pages: seq<int>, x: int)
    requires pages != []
    ensures Count(pages, x) == Count(pages[..|pages| - 1], x) + (if pages[|pages| - 1] == x then 1 else 0)
  {
  }

  lemma ItemsAtCounts(pages: seq<int>, k: nat, currentPage: int)
    requires k < |pages|
    ensures Links(ItemsAt(pages, k, currentPage)) == [pages[k]]
    ensures EllipsisCount(ItemsAt(pages, k, currentPage)) == if k > 0 && pages[k] - pages[k - 1] > 1 then 1 else 0
    ensures ActiveLinks(ItemsAt(pages, k, currentPage)) == if currentPage == pages[k] then 1 else 0
  {
    var link := PageLink(pages[k], currentPage == pages[k]);
    assert [link][..0] == [];
    if k > 0 && pages[k] - pages[k - 1] > 1 {
      assert [Ellipsis, link][..1] == [Ellipsis];
      assert [Ellipsis][..0] == [];
    }
  }

  /** What the bar shows between its arrows: the filtered page links when page
      numbers are asked for and the total is truthy (given and not 0), otherwise the
      current page alone as the active link. Either way at most one link is active. */
  function Bar(showPageNumbers: bool, totalPages: Option<int>, currentPage: int): (r: seq<PageItem>)
    ensures !(showPageNumbers && totalPages.Some? && totalPages.value != 0) ==> r == [PageLink(currentPage, true)]
    ensures showPageNumbers && totalPages.Some? && totalPages.value != 0 ==>
      Links(r) == VisiblePages(totalPages.value, currentPage)
    ensures ActiveLinks(r) <= 1
    ensures EllipsesBridgeGaps(r) && NoUnmarkedGap(r) && ActiveMarksCurrent(r, currentPage)
  {
    if showPageNumbers && totalPages.Some? && totalPages.value != 0 then
      CountOnce(VisiblePages(totalPages.value, currentPage), currentPage);
      Items(VisiblePages(totalPages.value, currentPage), currentPage)
    else
      [PageLink(currentPage, true)]
  }

  /** The page numbers of the links, in order. */
  function Links(items: seq<PageItem>): seq<int> {
    if items == [] then []
    else Links(items[..|items| - 1]) + (if items[|items| - 1].PageLink? then [items[|items| - 1].pageNum] else [])
  }

  function EllipsisCount(items: seq<PageItem>): nat {
    if items == [] then 0
    else EllipsisCount(items[..|items| - 1]) + (if items[|items| - 1].Ellipsis? then 1 else 0)
  }

  function ActiveLinks(items: seq<PageItem>): nat {
    if items == [] then 0
    else ActiveLinks(items[..|items| - 1]) + (if items[|items| - 1].PageLink? && items[|items| - 1].isActive then 1 else 0)
  }

  /** How many consecutive shown pages are not adjacent. */
  function Gaps(pages: seq<int>): nat {
    if |pages| <= 1 then 0
    else Gaps(pages[..|pages| - 1]) + (if pages[|pages| - 1] - pages[|pages| - 2] > 1 then 1 else 0)
  }

  function Count(pages: seq<int>, x: int): nat {
    if pages == [] then 0
    else Count(pages[..|pages| - 1], x) + (if pages[|pages| - 1] == x then 1 else 0)
  }

  lemma {:induction false} LinksAppend(a: seq<PageItem>, b: seq<PageItem>)
    ensures Links(a + b) == Links(a) + Links(b)
    ensures EllipsisCount(a + b) == EllipsisCount(a) + EllipsisCount(b)
    ensures ActiveLinks(a + b) == ActiveLinks(a) + ActiveLinks(b)
    decreases |b|
  {
    if b == [] {
      assert a + b == a;
    } else {
      var n := |b| - 1;
      assert (a + b)[..|a + b| - 1] == a + b[..n];
      assert (a + b)[|a + b| - 1] == b[n];
      LinksAppend(a, b[..n]);
    }
  }

  /** At most seven pages there is no ellipsis, and beyond that at most two: one
      after the first page and one before the last. */
  lemma EllipsesShown(totalPages: int, currentPage: int)
    ensures totalPages <= 7 ==> Gaps(VisiblePages(totalPages, currentPage)) == 0
    ensures Gaps(VisiblePages(totalPages, currentPage)) <= 2
  {
    var r := VisiblePages(totalPages, currentPage);
    if totalPages <= 7 {
      NoEllipsisUpToSeven(totalPages, currentPage);
    } else if |r| >= 3 {
      var last := |r| - 1;
      InnerPagesAdjacent(totalPages, currentPage);
      GapsFrom(r[..last], 2);
      assert r[..last][..last - 1] == r[..last - 1];
    } else {
      GapsFrom(r, 2);
    }
  }

  lemma NoEllipsisUpToSeven(totalPages: int, currentPage: int)
    requires totalPages <= 7
    ensures Gaps(VisiblePages(totalPages, currentPage)) == 0
  {
    KeepEverything(AllPages(totalPages), totalPages, currentPage);
    GapsFrom(AllPages(totalPages), 1);
  }

  /** Between the first and the last shown page the shown pages are consecutive. */
  lemma InnerPagesAdjacent(totalPages: int, currentPage: int)
    ensures var r := VisiblePages(totalPages, currentPage);
      forall k :: 2 <= k < |r| - 1 ==> r[k] - r[k - 1] <= 1
  {
    var r := VisiblePages(totalPages, currentPage);
    forall k | 2 <= k < |r| - 1 ensures r[k] - r[k - 1] <= 1 {
      var last := |r| - 1;
      var x := r[k - 1] + 1;
      assert r[0] in r && r[last] in r && r[k - 1] in r && r[k] in r;
      assert r[0] < r[k - 1] < r[k] < r[last];
      assert x in r;
      var j :| 0 <= j < |r| && r[j] == x;
      assert j == k;
    }
  }

  /** When no step from index m on is more than one, only the steps before m can
      be gaps. */
  lemma {:induction false} GapsFrom(s: seq<int>, m: nat)
    requires 1 <= m
    requires forall k :: m <= k < |s| ==> s[k] - s[k - 1] <= 1
    ensures Gaps(s) <= m - 1
    decreases |s|
  {
    if |s| > 1 {
      var n := |s| - 1;
      forall k | m <= k < n ensures s[..n][k] - s[..n][k - 1] <= 1 {
        assert s[..n][k] == s[k] && s[..n][k - 1] == s[k - 1];
      }
      GapsFrom(s[..n], m);
      if n < m {
        GapsAtMost(s[..n]);
      }
    }
  }

  lemma {:induction false} GapsAtMost(s: seq<int>)
    ensures Gaps(s) <= if |s| == 0 then 0 else |s| - 1
    decreases |s|
  {
    if |s| > 1 {
      GapsAtMost(s[..|s| - 1]);
    }
  }

  /** The current page, when it exists, is the one active link. */
  lemma OneActiveLink(totalPages: int, currentPage: int)
    requires 1 <= currentPage <= totalPages
    ensures ActiveLinks(Items(VisiblePages(totalPages, currentPage), currentPage)) == 1
  {
    AlwaysShown(totalPages, currentPage);
    CountOnce(VisiblePages(totalPages, currentPage), currentPage);
  }

  /** A member of a strictly increasing sequence occurs once. */
  lemma {:induction false} CountOnce(s: seq<int>, x: int)
    requires StrictlyIncreasing(s)
    ensures Count(s, x) == if x in s then 1 else 0
    decreases |s|
  {
    if s != [] {
      var n := |s| - 1;
      assert StrictlyIncreasing(s[..n]);
      CountOnce(s[..n], x);
      assert s == s[..n] + [s[n]];
      if s[n] == x {
        assert forall k :: 0 <= k < n ==> s[..n][k] < x;
      }
    }
  }
}
