/**
 * kompas.py: the Kompas crawler over the site's search pages.
 *
 * Pages 1, 2, ... are loaded one after the other. On each page every result
 * anchor is read; an anchor is kept when its link and title are non-empty,
 * its link was not already kept on this page, and it is not a tag page. The
 * set of kept links starts empty on every page, so the same link on two
 * pages is kept twice. After a page the page counter is incremented, then the
 * cap is checked, then the page source is searched for "tidak ada hasil";
 * a page without anchors does not by itself end the crawl. driver.get is
 * outside any `try`: a page that fails to load ends fetch_news with the
 * exception, the entries collected so far are lost and driver.quit() is not
 * reached.
 */
module Kompas {
  import opened Common

  // ------------------------------------------------------------------
  // The date in an article URL
  // ------------------------------------------------------------------

  /**
   * extract_date_from_url: None for a missing or empty URL or one without a
   * /YYYY/MM/DD/ segment; otherwise the leftmost segment's fields rewritten
   * "DD-MM-YYYY", with no check that they form a calendar date.
   */
  function ExtractDate(url: Option<string>): (r: Option<string>)
    ensures r.None? <==> url.None? || url.value == [] || forall j :: !SegmentAt(url.value, j)
    ensures r.Some? ==> |r.value| == 10 && r.value[2] == '-' && r.value[5] == '-'
  {
    if url.None? || url.value == [] then None
    else
      match FirstDateSegment(url.value)
      case None => None
      case Some(p) => Some(DayMonthYear(p))
  }

  /** A returned date holds the day, month and year digits of the leftmost /YYYY/MM/DD/ segment. */
  lemma ExtractDateSpec(url: string)
    requires ExtractDate(Some(url)).Some?
    ensures var t := ExtractDate(Some(url)).value;
            exists i :: SegmentAt(url, i) && (forall j :: 0 <= j < i ==> !SegmentAt(url, j))
                        && t[..2] == url[i + 9..i + 11] && t[3..5] == url[i + 6..i + 8] && t[6..] == url[i + 1..i + 5]
  {
    var p := FirstDateSegment(url).value;
    var i :| SegmentAt(url, i) && p == PartsAt(url, i) && forall j :: 0 <= j < i ==> !SegmentAt(url, j);
    DayMonthYearFields(p);
  }

  /** Month 13 and day 45 pass through: the fields are digits, not a checked date. */
  lemma NoCalendarCheck()
    ensures ExtractDate(Some("/2024/13/45/")) == Some("45-13-2024")
  {
    var u := "/2024/13/45/";
    assert u[1..5] == "2024" && u[6..8] == "13" && u[9..11] == "45";
    assert AllDigits("2024") && AllDigits("13") && AllDigits("45");
    assert SegmentAt(u, 0);
    assert SegmentFrom(u, 0) == Some(0);
    var p := DateParts("2024", "13", "45");
    assert FirstDateSegment(u) == Some(p);
    assert DayMonthYear(p) == "45-13-2024";
  }

  // ------------------------------------------------------------------
  // One result anchor
  // ------------------------------------------------------------------

  /**
   * One '.gs-title .gs-title' element: reading it raised (a stale element), or
   * its href and textContent attributes, each None when absent.
   */
  datatype Item = Stale | Element(href: Option<string>, textContent: Option<string>)

  /**
   * A search page: driver.get raised (a timeout, a WebDriverException), or the
   * page's result anchors and its source once they are read.
   */
  datatype Page = LoadFailed | Loaded(items: seq<Item>, source: string)

  /** One entry of news_data. */
  datatype News = News(title: string, link: string, date: Option<string>)

  const TagPrefix := "https://www.kompas.com/tag/"

  /** `"tidak ada hasil" in driver.page_source`. */
  predicate NoResults(source: string)
  {
    Contains(source, "tidak ada hasil")
  }

  /**
   * The body of the `for` loop, on the page's kept links: a stale element or
   * a missing textContent raises and is passed over; an anchor is kept when
   * its link and stripped title are non-empty, the link is new on this page
   * and is not a tag page.
   */
  function Visit(seen: set<string>, it: Item): (r: (set<string>, Option<News>))
    ensures r.1.None? ==> r.0 == seen
    ensures r.1.Some? ==> r.0 == seen + {r.1.value.link} && r.1.value.link !in seen
  {
    if it.Stale? || it.textContent.None? then (seen, None)
    else
      var link := it.href;
      var title := Strip(it.textContent.value);
      var date := ExtractDate(link);
      if link.Some? && link.value != [] && title != [] && link.value !in seen && !StartsWith(link.value, TagPrefix) then
        (seen + {link.value}, Some(News(title, link.value, date)))
      else (seen, None)
  }

  /** What a kept entry holds: a non-empty link that is not a tag page, the non-empty stripped title, and the URL's date. */
  predicate Admitted(n: News)
  {
    n.link != [] && n.title != [] && !StartsWith(n.link, TagPrefix) && n.date == ExtractDate(Some(n.link))
  }

  /** An anchor is kept exactly when it is read, its link and title are non-empty, new on the page, and not a tag page. */
  lemma VisitKeeps(seen: set<string>, it: Item)
    ensures Visit(seen, it).1.Some? <==>
              it.Element? && it.textContent.Some? && it.href.Some? && it.href.value != []
              && Strip(it.textContent.value) != [] && it.href.value !in seen && !StartsWith(it.href.value, TagPrefix)
    ensures Visit(seen, it).1.Some? ==>
              Admitted(Visit(seen, it).1.value) && Visit(seen, it).1.value.link == it.href.value
              && Visit(seen, it).1.value.title == Strip(it.textContent.value)
  {
  }

  // ------------------------------------------------------------------
  // The crawl
  // ------------------------------------------------------------------

  datatype Halt = PageCap | NoResultsFound | Raised

  /** The crawl's variables: news_data, page, and why the loop ended. */
  datatype Walker = Walker(news: seq<News>, page: nat, halt: Option<Halt>)

  const Init := Walker([], 1, None)

  /** What the loop body does to the page's kept links and which entry it appends. */
  type Visitor = (set<string>, Item) -> (set<string>, Option<News>)

  /** The loop body of the source. */
  function Visits(): Visitor
  {
    (seen, it) => Visit(seen, it)
  }

  lemma VisitOf(seen: set<string>, it: Item)
    ensures Visits()(seen, it) == Visit(seen, it)
  {
  }

  /** The `for` loop over one page's anchors: the page's kept links at the end, and the entries appended. */
  function PageNews(visit: Visitor, seen: set<string>, items: seq<Item>): (r: (set<string>, seq<News>))
    decreases |items|
  {
    if items == [] then (seen, [])
    else
      var v := visit(seen, items[0]);
      var rest := PageNews(visit, v.0, items[1..]);
      (rest.0, (if v.1.Some? then [v.1.value] else []) + rest.1)
  }

  /** `if max_pages and page >= max_pages`: None and 0 mean no cap. */
  predicate Capped(maxPages: Option<int>, page: int)
  {
    maxPages.Some? && maxPages.value != 0 && page >= maxPages.value
  }

  /**
   * The `while True` loop from a state, with the pages still to load. A page
   * past the end of the input has no anchors and shows "tidak ada hasil"; a
   * page that fails to load ends the loop with the exception, before the page
   * counter moves.
   */
  function WalkPages(visit: Visitor, maxPages: Option<int>, s: Walker, pages: seq<Page>): (w: Walker)
    ensures w.page >= s.page
    decreases |pages|
  {
    if s.halt.Some? then s
    else if pages == [] then
      var s1 := s.(page := s.page + 1);
      s1.(halt := Some(if Capped(maxPages, s1.page) then PageCap else NoResultsFound))
    else if pages[0].LoadFailed? then s.(halt := Some(Raised))
    else
      var s1 := Walker(s.news + PageNews(visit, {}, pages[0].items).1, s.page + 1, None);
      if Capped(maxPages, s1.page) then s1.(halt := Some(PageCap))
      else if NoResults(pages[0].source) then s1.(halt := Some(NoResultsFound))
      else WalkPages(visit, maxPages, s1, pages[1..])
  }

  function Crawl(maxPages: Option<int>, pages: seq<Page>): Walker
  {
    WalkPages(Visits(), maxPages, Init, pages)
  }

  /**
   * fetch_news: news_data, or None where the exception of a page load leaves
   * the function; and the final page counter (pages loaded + 1).
   */
  method FetchNews(maxPages: Option<int>, pages: seq<Page>) returns (news: Option<seq<News>>, page: nat)
    ensures news.None? <==> Crawl(maxPages, pages).halt == Some(Raised)
    ensures news.None? <==> exists k :: LoadFailsAt(maxPages, 1, pages, k)
    ensures news.Some? ==> news.value == Crawl(maxPages, pages).news && forall n :: n in news.value ==> Admitted(n)
    ensures page == Crawl(maxPages, pages).page
  {
    ghost var goal := Crawl(maxPages, pages);
    var collected := [];
    page := 1;
    var k := 0;
    var halt: Option<Halt> := None;
    while halt.None?
      invariant k <= |pages|
      invariant WalkPages(Visits(), maxPages, Walker(collected, page, halt), pages[k..]) == goal
      decreases |pages| - k, halt.None?
    {
      if k < |pages| && pages[k].LoadFailed? {
        assert pages[k..][0] == pages[k];
        halt := Some(Raised);   // driver.get raised
      } else {
        var items := if k < |pages| then pages[k].items else [];
        collected := ScanItems(items, collected);
        page := page + 1;
        if Capped(maxPages, page) {
          halt := Some(PageCap);
        } else if k == |pages| || NoResults(pages[k].source) {
          halt := Some(NoResultsFound);
        } else {
          assert pages[k..][1..] == pages[k + 1..];
          k := k + 1;
        }
      }
    }
    news := if halt == Some(Raised) then None else Some(collected);
    CrawlAdmitted(maxPages, pages);
    CrawlRaises(maxPages, pages);
  }

  /** The `try` block for one anchor. */
  method VisitItem(seen: set<string>, it: Item) returns (r: (set<string>, Option<News>))
    ensures r == Visits()(seen, it)
  {
    r := Visit(seen, it);
    VisitOf(seen, it);
  }

  /** The `for` loop over one page's anchors, with seen_links created empty for the page. */
  method ScanItems(items: seq<Item>, news0: seq<News>) returns (news: seq<News>)
    ensures news == news0 + PageNews(Visits(), {}, items).1
  {
    var seen := {};
    news := news0;
    for i := 0 to |items|
      invariant news + PageNews(Visits(), seen, items[i..]).1 == news0 + PageNews(Visits(), {}, items).1
    {
      var r := VisitItem(seen, items[i]);
      ScanStep(Visits(), seen, items, i, news);
      seen := r.0;
      if r.1.Some? {
        news := news + [r.1.value];
      }
    }
  }

  /** One turn of the `for` loop moves the anchor's entry, if any, from the rest of the page to news_data. */
  lemma ScanStep(visit: Visitor, seen: set<string>, items: seq<Item>, i: nat, news: seq<News>)
    requires i < |items|
    ensures var r := visit(seen, items[i]);
            news + PageNews(visit, seen, items[i..]).1
            == (if r.1.Some? then news + [r.1.value] else news) + PageNews(visit, r.0, items[i + 1..]).1
  {
    assert items[i..][0] == items[i] && items[i..][1..] == items[i + 1..];
    var r := visit(seen, items[i]);
    var rest := PageNews(visit, r.0, items[i + 1..]).1;
    if r.1.Some? {
      assert news + ([r.1.value] + rest) == (news + [r.1.value]) + rest;
    } else {
      assert [] + rest == rest;
    }
  }

  // ------------------------------------------------------------------
  // Properties
  // ------------------------------------------------------------------

  /** The kept links only grow; an appended entry is admitted, its link was new on the page and is now kept. */
  ghost predicate Kept(seen: set<string>, r: (set<string>, Option<News>))
  {
    (r.1.None? ==> r.0 == seen)
    && (r.1.Some? ==> r.0 == seen + {r.1.value.link} && r.1.value.link !in seen && Admitted(r.1.value))
  }

  /** A loop body that keeps only admitted entries with links new on the page. */
  ghost predicate Filters(visit: Visitor)
  {
    forall seen, it :: Kept(seen, visit(seen, it))
  }

  lemma VisitsFilter()
    ensures Filters(Visits())
  {
    forall seen, it
      ensures Kept(seen, Visits()(seen, it))
    {
      VisitOf(seen, it);
      VisitKeeps(seen, it);
    }
  }

  /**
   * What one page appends: admitted entries whose links are pairwise different
   * and were not kept before on the page, and which end up kept.
   */
  lemma {:induction false} PageAdds(visit: Visitor, seen: set<string>, items: seq<Item>)
    requires Filters(visit)
    ensures var r := PageNews(visit, seen, items);
            && seen <= r.0
            && (forall k :: 0 <= k < |r.1| ==> Admitted(r.1[k]) && r.1[k].link !in seen && r.1[k].link in r.0)
            && (forall i, j :: 0 <= i < j < |r.1| ==> r.1[i].link != r.1[j].link)
    decreases |items|
  {
    if items != [] {
      var v := visit(seen, items[0]);
      assert Kept(seen, v);
      PageAdds(visit, v.0, items[1..]);
      var rest := PageNews(visit, v.0, items[1..]);
      if v.1.Some? {
        var added := [v.1.value] + rest.1;
        assert PageNews(visit, seen, items) == (rest.0, added);
        forall k | 0 < k < |added| ensures added[k].link != added[0].link && added[k].link !in seen {
          assert added[k] == rest.1[k - 1];
        }
      } else {
        assert [] + rest.1 == rest.1;
        assert PageNews(visit, seen, items) == (rest.0, rest.1);
      }
    }
  }

  ghost predicate AllAdmitted(news: seq<News>)
  {
    forall k :: 0 <= k < |news| ==> Admitted(news[k])
  }

  /** Every entry of news_data passed the filters of its page. */
  lemma {:induction false} PagesAdmitted(visit: Visitor, maxPages: Option<int>, s: Walker, pages: seq<Page>)
    requires Filters(visit) && AllAdmitted(s.news)
    ensures AllAdmitted(WalkPages(visit, maxPages, s, pages).news)
    decreases |pages|
  {
    if s.halt.None? && pages != [] && pages[0].Loaded? {
      var added := PageNews(visit, {}, pages[0].items).1;
      PageAdds(visit, {}, pages[0].items);
      var s1 := Walker(s.news + added, s.page + 1, None);
      forall k | 0 <= k < |s1.news| ensures Admitted(s1.news[k]) {
        if k >= |s.news| {
          assert s1.news[k] == added[k - |s.news|];
        }
      }
      if !Capped(maxPages, s1.page) && !NoResults(pages[0].source) {
        assert WalkPages(visit, maxPages, s, pages) == WalkPages(visit, maxPages, s1, pages[1..]);
        PagesAdmitted(visit, maxPages, s1, pages[1..]);
      } else {
        assert WalkPages(visit, maxPages, s, pages).news == s1.news;
      }
    }
  }

  lemma CrawlAdmitted(maxPages: Option<int>, pages: seq<Page>)
    ensures forall n :: n in Crawl(maxPages, pages).news ==> Admitted(n)
  {
    VisitsFilter();
    PagesAdmitted(Visits(), maxPages, Init, pages);
    var news := Crawl(maxPages, pages).news;
    forall n | n in news ensures Admitted(n) {
      var k :| 0 <= k < |news| && news[k] == n;
    }
  }

  /** Within one page no link is kept twice, and no tag page, empty link or empty title is kept. */
  lemma PageDistinct(items: seq<Item>)
    ensures var added := PageNews(Visits(), {}, items).1;
            && (forall i, j :: 0 <= i < j < |added| ==> added[i].link != added[j].link)
            && (forall k :: 0 <= k < |added| ==> Admitted(added[k]))
  {
    VisitsFilter();
    PageAdds(Visits(), {}, items);
  }

  /** seen_links is per page: the same anchor on two consecutive pages is kept on both. */
  lemma DuplicateAcrossPages(it: Item, source: string)
    requires it.Element? && it.textContent.Some? && it.href.Some? && it.href.value != []
    requires Strip(it.textContent.value) != [] && !StartsWith(it.href.value, TagPrefix)
    requires !NoResults(source)
    ensures var news := Crawl(None, [Loaded([it], source), Loaded([it], source)]).news;
            |news| == 2 && news[0] == news[1] && news[0].link == it.href.value
  {
    VisitKeeps({}, it);
    VisitOf({}, it);
    var v := Visit({}, it);
    KeptOnEachPage(Visits(), it, source, v.0, v.1.value);
  }

  /** The walk behind DuplicateAcrossPages, for any loop body that keeps the anchor on a fresh page. */
  lemma KeptOnEachPage(visit: Visitor, it: Item, source: string, seen: set<string>, x: News)
    requires visit({}, it) == (seen, Some(x)) && !NoResults(source)
    ensures WalkPages(visit, None, Init, [Loaded([it], source), Loaded([it], source)]).news == [x, x]
  {
    assert [it][0] == it && [it][1..] == [];
    assert PageNews(visit, seen, []) == (seen, []);
    assert [x] + [] == [x];
    assert PageNews(visit, {}, [it]) == (seen, [x]);
    var page := Loaded([it], source);
    var pages := [page, page];
    assert pages[0] == page && pages[1..] == [page];
    var s1 := Walker([] + [x], 2, None);
    assert WalkPages(visit, None, Init, pages) == WalkPages(visit, None, s1, [page]);
    assert [page][0] == page && [page][1..] == [];
    var s2 := Walker(s1.news + [x], 3, None);
    assert WalkPages(visit, None, s1, [page]) == WalkPages(visit, None, s2, []);
  }

  /** A page with no anchors whose source lacks "tidak ada hasil" does not end the crawl. */
  lemma EmptyPageContinues(visit: Visitor, maxPages: Option<int>, s: Walker, source: string, rest: seq<Page>)
    requires s.halt.None? && !NoResults(source) && !Capped(maxPages, s.page + 1)
    ensures WalkPages(visit, maxPages, s, [Loaded([], source)] + rest) == WalkPages(visit, maxPages, s.(page := s.page + 1), rest)
  {
    assert ([Loaded([], source)] + rest)[1..] == rest;
    assert s.news + [] == s.news;
  }

  /** The number of pages loaded under a cap m ≠ 0: max(1, m − 1), as the counter is checked after it is bumped. */
  function PageLimit(m: int): (n: nat)
    ensures n >= 1 && (m > 2 ==> n == m - 1)
  {
    if m > 2 then m - 1 else 1
  }

  /** Under a cap m ≠ 0 at most PageLimit(m) pages are loaded. */
  lemma {:induction false} PagesWithinLimit(visit: Visitor, m: int, s: Walker, pages: seq<Page>)
    requires m != 0 && s.halt.None? && 1 <= s.page <= PageLimit(m)
    ensures WalkPages(visit, Some(m), s, pages).page <= PageLimit(m) + 1
    decreases |pages|
  {
    if pages != [] && pages[0].Loaded? {
      var s1 := Walker(s.news + PageNews(visit, {}, pages[0].items).1, s.page + 1, None);
      if !Capped(Some(m), s1.page) && !NoResults(pages[0].source) {
        PagesWithinLimit(visit, m, s1, pages[1..]);
      }
    }
  }

  /**
   * The first n pages of the input, as far as it goes, load, and none but the
   * n-th shows "tidak ada hasil".
   */
  predicate LoadsClear(pages: seq<Page>, n: int)
  {
    forall j :: 0 <= j < |pages| && j < n ==> pages[j].Loaded? && (j < n - 1 ==> !NoResults(pages[j].source))
  }

  /**
   * When the pages up to the limit load and none before it shows "tidak ada
   * hasil", exactly PageLimit(m) pages are loaded and the cap ends the crawl.
   */
  lemma {:induction false} PagesReachLimit(visit: Visitor, m: int, s: Walker, pages: seq<Page>)
    requires m != 0 && s.halt.None? && 1 <= s.page <= PageLimit(m)
    requires |pages| >= PageLimit(m) - s.page && LoadsClear(pages, PageLimit(m) - s.page + 1)
    ensures WalkPages(visit, Some(m), s, pages).page == PageLimit(m) + 1
    ensures WalkPages(visit, Some(m), s, pages).halt == Some(PageCap)
    decreases |pages|
  {
    if pages != [] {
      assert pages[0].Loaded?;
      var s1 := Walker(s.news + PageNews(visit, {}, pages[0].items).1, s.page + 1, None);
      if !Capped(Some(m), s1.page) {
        assert !NoResults(pages[0].source);
        assert LoadsClear(pages[1..], PageLimit(m) - s1.page + 1) by {
          forall j | 0 <= j < |pages[1..]| && j < PageLimit(m) - s1.page + 1
            ensures pages[1..][j].Loaded? && (j < PageLimit(m) - s1.page ==> !NoResults(pages[1..][j].source))
          {
            assert pages[1..][j] == pages[j + 1];
          }
        }
        PagesReachLimit(visit, m, s1, pages[1..]);
      }
    }
  }

  lemma CrawlPageCount(m: int, pages: seq<Page>)
    requires m != 0
    ensures Crawl(Some(m), pages).page - 1 <= PageLimit(m)
    ensures |pages| >= PageLimit(m) - 1 && LoadsClear(pages, PageLimit(m))
            ==> Crawl(Some(m), pages).page - 1 == PageLimit(m) && Crawl(Some(m), pages).halt == Some(PageCap)
  {
    PagesWithinLimit(Visits(), m, Init, pages);
    if |pages| >= PageLimit(m) - 1 && LoadsClear(pages, PageLimit(m)) {
      PagesReachLimit(Visits(), m, Init, pages);
    }
  }

  /** Without a cap the crawl ends at the first page showing "tidak ada hasil", having loaded it, when every page before it loads. */
  lemma {:induction false} StopsAtNoResults(visit: Visitor, s: Walker, pages: seq<Page>, k: nat)
    requires s.halt.None? && k < |pages| && pages[k].Loaded? && NoResults(pages[k].source)
    requires forall j :: 0 <= j < k ==> pages[j].Loaded? && !NoResults(pages[j].source)
    ensures WalkPages(visit, None, s, pages).page == s.page + k + 1
    ensures WalkPages(visit, None, s, pages).halt == Some(NoResultsFound)
    decreases k
  {
    var s1 := Walker(s.news + PageNews(visit, {}, pages[0].items).1, s.page + 1, None);
    if k > 0 {
      assert !NoResults(pages[0].source);
      StopsAtNoResults(visit, s1, pages[1..], k - 1);
    }
  }

  /** A page that loads, shows no "tidak ada hasil" and leaves the counter below the cap lets the loop go on. */
  predicate GoesOn(maxPages: Option<int>, page: Page, counter: int)
  {
    page.Loaded? && !NoResults(page.source) && !Capped(maxPages, counter)
  }

  /**
   * Page k of the input is requested and fails to load: every page before it
   * let the loop go on, with the counter starting at p.
   */
  predicate LoadFailsAt(maxPages: Option<int>, p: int, pages: seq<Page>, k: int)
  {
    && 0 <= k < |pages| && pages[k].LoadFailed?
    && forall j :: 0 <= j < k ==> GoesOn(maxPages, pages[j], p + j + 1)
  }

  /** A failing page after the first is a failing page of the rest, one position earlier. */
  lemma LoadFailsEarlier(maxPages: Option<int>, p: int, pages: seq<Page>, k: int)
    requires pages != [] && LoadFailsAt(maxPages, p, pages, k) && k > 0
    ensures LoadFailsAt(maxPages, p + 1, pages[1..], k - 1)
  {
    var rest := pages[1..];
    assert rest[k - 1] == pages[k];
    forall j | 0 <= j < k - 1 ensures GoesOn(maxPages, rest[j], p + 1 + j + 1) {
      assert rest[j] == pages[j + 1];
      assert GoesOn(maxPages, pages[j + 1], p + (j + 1) + 1);
    }
  }

  /** A failing page of the rest, after a first page that lets the loop go on, is a failing page one position later. */
  lemma LoadFailsLater(maxPages: Option<int>, p: int, pages: seq<Page>, k: int)
    requires pages != [] && GoesOn(maxPages, pages[0], p + 1) && LoadFailsAt(maxPages, p + 1, pages[1..], k)
    ensures LoadFailsAt(maxPages, p, pages, k + 1)
  {
    var rest := pages[1..];
    assert pages[k + 1] == rest[k];
    forall j | 0 <= j < k + 1 ensures GoesOn(maxPages, pages[j], p + j + 1) {
      if j > 0 {
        assert pages[j] == rest[j - 1];
        assert GoesOn(maxPages, rest[j - 1], p + 1 + (j - 1) + 1);
      }
    }
  }

  /** The walk raises exactly when a page it reaches fails to load. */
  lemma {:induction false} WalkRaises(visit: Visitor, maxPages: Option<int>, s: Walker, pages: seq<Page>)
    requires s.halt.None?
    ensures WalkPages(visit, maxPages, s, pages).halt == Some(Raised) <==> exists k :: LoadFailsAt(maxPages, s.page, pages, k)
    decreases |pages|
  {
    if pages == [] {
    } else if pages[0].LoadFailed? {
      assert LoadFailsAt(maxPages, s.page, pages, 0);
    } else {
      var s1 := Walker(s.news + PageNews(visit, {}, pages[0].items).1, s.page + 1, None);
      if !GoesOn(maxPages, pages[0], s1.page) {
        assert WalkPages(visit, maxPages, s, pages).halt != Some(Raised);
        forall k | 0 <= k < |pages| ensures !LoadFailsAt(maxPages, s.page, pages, k) {
          if k > 0 {
            assert !GoesOn(maxPages, pages[0], s.page + 0 + 1);
          }
        }
      } else {
        var rest := pages[1..];
        assert WalkPages(visit, maxPages, s, pages) == WalkPages(visit, maxPages, s1, rest);
        WalkRaises(visit, maxPages, s1, rest);
        if exists k :: LoadFailsAt(maxPages, s.page, pages, k) {
          var k :| LoadFailsAt(maxPages, s.page, pages, k);
          LoadFailsEarlier(maxPages, s.page, pages, k);
        }
        if exists k :: LoadFailsAt(maxPages, s1.page, rest, k) {
          var k :| LoadFailsAt(maxPages, s1.page, rest, k);
          LoadFailsLater(maxPages, s.page, pages, k);
        }
      }
    }
  }

  /** fetch_news raises exactly when a page it requests fails to load. */
  lemma CrawlRaises(maxPages: Option<int>, pages: seq<Page>)
    ensures Crawl(maxPages, pages).halt == Some(Raised) <==> exists k :: LoadFailsAt(maxPages, 1, pages, k)
  {
    WalkRaises(Visits(), maxPages, Init, pages);
  }
}
