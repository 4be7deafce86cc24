/**
 * rev/tribun.py: the Tribunnews crawler over the site's search results.
 *
 * Result pages 1, 2, ... are loaded in order until the page cap is passed, a
 * page has no result anchors, or loading a page raises. Every anchor with a
 * non-empty href and stripped title, a (title, link) pair not seen before, a
 * link outside '/tag/' and '/topic/', and a /YYYY/MM/DD/ date in the link is
 * appended with its date as "DD-MM-YYYY". An exception on one anchor skips
 * only that anchor. The driver is quit however the loop ends.
 */
module RevTribun {
  import opened Common

  // ------------------------------------------------------------------
  // extract_date_from_url
  // ------------------------------------------------------------------

  /** The date of a URL: no /YYYY/MM/DD/ segment, a first segment strptime rejects (it raises), or "DD-MM-YYYY". */
  datatype UrlDate = NoMatch | Invalid | Dated(text: string)

  /**
   * The first /YYYY/MM/DD/ segment of the URL, validated as a calendar date
   * and rewritten day first.
   */
  function ExtractDate(url: string): (r: UrlDate)
    ensures r == NoMatch <==> forall j :: !SegmentAt(url, j)
    ensures r == Invalid <==> FirstDateSegment(url).Some? && !ValidCalendarDate(FirstDateSegment(url).value)
    ensures r.Dated? ==> ValidCalendarDate(FirstDateSegment(url).value)
  {
    match FirstDateSegment(url)
    case None => NoMatch
    case Some(p) => if ValidCalendarDate(p) then Dated(DayMonthYear(p)) else Invalid
  }

  /**
   * A returned date is "DD-MM-YYYY" with the day, month and year digits of the
   * leftmost /YYYY/MM/DD/ segment of the URL.
   */
  lemma ExtractDateSpec(url: string)
    requires ExtractDate(url).Dated?
    ensures var t := ExtractDate(url).text;
            && |t| == 10 && t[2] == '-' && t[5] == '-'
            && exists i :: SegmentAt(url, i) && (forall j :: 0 <= j < i ==> !SegmentAt(url, j))
                           && t[..2] == url[i + 9..i + 11] && t[3..5] == url[i + 6..i + 8] && t[6..] == url[i + 1..i + 5]
  {
    var p := FirstDateSegment(url).value;
    var i :| SegmentAt(url, i) && p == PartsAt(url, i) && forall j :: 0 <= j < i ==> !SegmentAt(url, j);
    DayMonthYearFields(p);
  }

  // ------------------------------------------------------------------
  // One result anchor
  // ------------------------------------------------------------------

  /**
   * One 'a.gs-title' element: reading it raised (a stale element), or its href
   * and textContent attributes, each possibly absent.
   */
  datatype Item = Stale | Anchor(href: Option<string>, textContent: Option<string>)

  /** A result page: loading it raised, or its result anchors. */
  datatype Listing = LoadFailed | Items(items: seq<Item>)

  datatype News = News(title: string, link: string, date: string)

  function Key(n: News): (string, string) { (n.title, n.link) }

  const TagPath := "/tag/"
  const TopicPath := "/topic/"

  /** The link is not a tag or topic page. */
  predicate ArticleLink(link: string)
  {
    !Contains(link, TagPath) && !Contains(link, TopicPath)
  }

  /**
   * The entry one anchor adds, given the (title, link) pairs seen so far: None
   * when the anchor raised (a stale element, or no textContent to strip), when
   * its link or title is empty, its pair was seen, its link is a tag or topic
   * page, or its link carries no valid date.
   */
  function Entry(seen: set<(string, string)>, it: Item): (r: Option<News>)
    ensures r.Some? ==> && r.value.link != [] && r.value.title != [] && Key(r.value) !in seen
                        && ArticleLink(r.value.link) && ExtractDate(r.value.link) == Dated(r.value.date)
  {
    if it.Stale? || it.textContent.None? then None
    else
      var title := Strip(it.textContent.value);
      if it.href.None? || it.href.value == [] || title == [] || (title, it.href.value) in seen
         || !ArticleLink(it.href.value) then None
      else
        match ExtractDate(it.href.value)
        case Dated(d) => Some(News(title, it.href.value, d))
        case _ => None
  }

  /** An anchor that can be read is added exactly when all the conditions of the source hold. */
  lemma EntryExactly(seen: set<(string, string)>, it: Item)
    requires it.Anchor? && it.textContent.Some?
    ensures var title := Strip(it.textContent.value);
            Entry(seen, it).Some? <==>
              && it.href.Some? && it.href.value != [] && title != [] && (title, it.href.value) !in seen
              && ArticleLink(it.href.value) && ExtractDate(it.href.value).Dated?
    ensures Entry(seen, it).Some? ==> Entry(seen, it).value.title == Strip(it.textContent.value)
                                      && Entry(seen, it).value.link == it.href.value
  {
  }

  // ------------------------------------------------------------------
  // The crawl
  // ------------------------------------------------------------------

  datatype Halt = PageCap | NoItems | Raised

  /** The crawl's variables: news_data, seen, the number of pages requested so far (page - 1), and why it ended. */
  datatype Walker = Walker(news: seq<News>, seen: set<(string, string)>, requests: nat, halt: Option<Halt>)

  const Init := Walker([], {}, 0, None)

  /** `max_pages and page > max_pages`: None and 0 mean no cap. */
  predicate Capped(maxPages: Option<int>, page: int)
  {
    maxPages.Some? && maxPages.value != 0 && page > maxPages.value
  }

  /** The `for` loop over one page's anchors: each anchor may add an entry; none ends the loop. */
  function WalkItems(s: Walker, items: seq<Item>): (w: Walker)
    ensures w.requests == s.requests && w.halt == s.halt
    decreases |items|
  {
    if items == [] then s
    else
      var e := Entry(s.seen, items[0]);
      var s1 := if e.Some? then s.(news := s.news + [e.value], seen := s.seen + {Key(e.value)}) else s;
      WalkItems(s1, items[1..])
  }

  /**
   * The `while True` loop from a state, with the given pages still to load; a
   * page past the end of the input has no anchors.
   */
  function WalkPages(maxPages: Option<int>, s: Walker, pages: seq<Listing>): Walker
    decreases |pages|
  {
    if s.halt.Some? then s
    else if Capped(maxPages, s.requests + 1) then s.(halt := Some(PageCap))
    else
      var s1 := s.(requests := s.requests + 1);
      if pages == [] then s1.(halt := Some(NoItems))
      else
        match pages[0]
        case LoadFailed => s1.(halt := Some(Raised))
        case Items(li) => if li == [] then s1.(halt := Some(NoItems)) else WalkPages(maxPages, WalkItems(s1, li), pages[1..])
  }

  function Crawl(maxPages: Option<int>, pages: seq<Listing>): Walker
  {
    WalkPages(maxPages, Init, pages)
  }

  /**
   * fetch_news: returns news_data and the number of pages loaded (driver.get
   * calls). The driver's quit in the `finally` clause has no effect the model
   * keeps.
   */
  method FetchNews(maxPages: Option<int>, pages: seq<Listing>) returns (news: seq<News>, requests: nat)
    ensures news == Crawl(maxPages, pages).news && requests == Crawl(maxPages, pages).requests
    ensures Distinct(news)
  {
    ghost var goal := Crawl(maxPages, pages);
    CrawlProperties(maxPages, pages);
    news := [];
    var seen: set<(string, string)> := {};
    var page := 1;
    requests := 0;   // driver.get calls so far
    var halt: Option<Halt> := None;
    while halt.None?
      invariant page >= 1 && page - 1 <= |pages|
      invariant halt.None? ==> requests == page - 1
      invariant WalkPages(maxPages, Walker(news, seen, requests, halt), pages[page - 1..]) == goal
      decreases |pages| - (page - 1), halt.None?
    {
      if Capped(maxPages, page) {
        halt := Some(PageCap);
      } else {
        requests := requests + 1;
        if page - 1 == |pages| {
          halt := Some(NoItems);   // nothing past the last page of the input
        } else {
          assert pages[page - 1..][0] == pages[page - 1] && pages[page - 1..][1..] == pages[page..];
          match pages[page - 1] {
            case LoadFailed =>
              halt := Some(Raised);
            case Items(li) =>
              if li == [] {
                halt := Some(NoItems);
              } else {
                news, seen := ScanItems(li, news, seen);
              }
          }
          page := page + 1;
        }
      }
    }
  }

  /** The `for` loop over one page's anchors. */
  method ScanItems(li: seq<Item>, news0: seq<News>, seen0: set<(string, string)>) returns (news: seq<News>, seen: set<(string, string)>)
    ensures forall r: nat, h :: Walker(news, seen, r, h) == WalkItems(Walker(news0, seen0, r, h), li)
  {
    news, seen := news0, seen0;
    for i := 0 to |li|
      invariant forall r: nat, h :: WalkItems(Walker(news, seen, r, h), li[i..]) == WalkItems(Walker(news0, seen0, r, h), li)
    {
      assert li[i..][0] == li[i] && li[i..][1..] == li[i + 1..];
      var e := Entry(seen, li[i]);
      if e.Some? {
        news := news + [e.value];
        seen := seen + {Key(e.value)};
      }
    }
  }

  // ------------------------------------------------------------------
  // Properties of the crawl
  // ------------------------------------------------------------------

  /** No (title, link) pair appears twice. */
  ghost predicate Distinct(ns: seq<News>)
  {
    forall i, j :: 0 <= i < j < |ns| ==> Key(ns[i]) != Key(ns[j])
  }

  /** The set of (title, link) pairs of the entries. */
  function Keys(ns: seq<News>): (ks: set<(string, string)>)
    ensures forall k :: 0 <= k < |ns| ==> Key(ns[k]) in ks
    ensures forall key :: key in ks ==> exists k :: 0 <= k < |ns| && Key(ns[k]) == key
  {
    if ns == [] then {} else Keys(ns[..|ns| - 1]) + {Key(ns[|ns| - 1])}
  }

  /** Every entry satisfies the admission conditions. */
  ghost predicate Admitted(n: News)
  {
    n.link != [] && n.title != [] && ArticleLink(n.link) && ExtractDate(n.link) == Dated(n.date)
  }

  /** seen is exactly the pairs of news_data, no pair twice, and every entry admitted. */
  ghost predicate Consistent(news: seq<News>, seen: set<(string, string)>)
  {
    seen == Keys(news) && Distinct(news) && forall k :: 0 <= k < |news| ==> Admitted(news[k])
  }

  lemma AddConsistent(news: seq<News>, seen: set<(string, string)>, n: News)
    requires Consistent(news, seen) && Key(n) !in seen && Admitted(n)
    ensures Consistent(news + [n], seen + {Key(n)})
  {
    var ns := news + [n];
    assert ns[..|ns| - 1] == news;
    forall i, j | 0 <= i < j < |ns| ensures Key(ns[i]) != Key(ns[j]) {
      if j == |ns| - 1 {
        assert Key(ns[i]) == Key(news[i]) && Key(news[i]) in seen;
      }
    }
  }

  lemma {:induction false} ItemsConsistent(s: Walker, items: seq<Item>)
    requires Consistent(s.news, s.seen)
    ensures Consistent(WalkItems(s, items).news, WalkItems(s, items).seen)
    decreases |items|
  {
    if items != [] {
      var e := Entry(s.seen, items[0]);
      if e.Some? {
        AddConsistent(s.news, s.seen, e.value);
        ItemsConsistent(s.(news := s.news + [e.value], seen := s.seen + {Key(e.value)}), items[1..]);
      } else {
        ItemsConsistent(s, items[1..]);
      }
    }
  }

  /** The page count never passes an active cap. */
  ghost predicate WithinCap(maxPages: Option<int>, requests: nat)
  {
    maxPages.Some? && maxPages.value != 0 ==> requests <= if maxPages.value > 0 then maxPages.value else 0
  }

  /** The walk keeps the entries consistent and always ends with a reason. */
  lemma {:induction false} PagesConsistent(maxPages: Option<int>, s: Walker, pages: seq<Listing>)
    requires Consistent(s.news, s.seen)
    ensures var w := WalkPages(maxPages, s, pages);
            Consistent(w.news, w.seen) && w.halt.Some?
    decreases |pages|
  {
    var w := WalkPages(maxPages, s, pages);
    if s.halt.None? && !Capped(maxPages, s.requests + 1) && pages != [] && pages[0].Items? && pages[0].items != [] {
      var s2 := WalkItems(s.(requests := s.requests + 1), pages[0].items);
      PageConsistent(maxPages, s, pages);
      PagesConsistent(maxPages, s2, pages[1..]);
    } else {
      assert w.news == s.news && w.seen == s.seen;
    }
  }

  /** Loading a page with anchors walks its items and goes on from there, consistently. */
  lemma PageConsistent(maxPages: Option<int>, s: Walker, pages: seq<Listing>)
    requires Consistent(s.news, s.seen)
    requires s.halt.None? && !Capped(maxPages, s.requests + 1) && pages != [] && pages[0].Items? && pages[0].items != []
    ensures var s2 := WalkItems(s.(requests := s.requests + 1), pages[0].items);
            && Consistent(s2.news, s2.seen)
            && WalkPages(maxPages, s, pages) == WalkPages(maxPages, s2, pages[1..])
  {
    ItemsConsistent(s.(requests := s.requests + 1), pages[0].items);
  }

  /** The walk never loads a page past an active cap. */
  lemma {:induction false} PagesWithinCap(maxPages: Option<int>, s: Walker, pages: seq<Listing>)
    requires WithinCap(maxPages, s.requests)
    ensures WithinCap(maxPages, WalkPages(maxPages, s, pages).requests)
    decreases |pages|
  {
    if s.halt.None? && !Capped(maxPages, s.requests + 1) && pages != [] && pages[0].Items? && pages[0].items != [] {
      var s1 := s.(requests := s.requests + 1);
      PagesWithinCap(maxPages, WalkItems(s1, pages[0].items), pages[1..]);
    }
  }

  /**
   * The crawl's result: every entry passed the admission conditions, no
   * (title, link) pair appears twice, and with max_pages truthy at most
   * max_pages pages are loaded (none when it is negative).
   */
  lemma CrawlProperties(maxPages: Option<int>, pages: seq<Listing>)
    ensures var w := Crawl(maxPages, pages);
            && Distinct(w.news) && (forall k :: 0 <= k < |w.news| ==> Admitted(w.news[k]))
            && w.halt.Some?
            && (maxPages.Some? && maxPages.value > 0 ==> w.requests <= maxPages.value)
            && (maxPages.Some? && maxPages.value < 0 ==> w.requests == 0)
  {
    PagesConsistent(maxPages, Init, pages);
    PagesWithinCap(maxPages, Init, pages);
  }

  /** Without a cap (None or 0) every page up to the first empty one is loaded. */
  lemma {:induction false} UncappedLoadsAll(maxPages: Option<int>, s: Walker, pages: seq<Listing>)
    requires maxPages.None? || maxPages.value == 0
    requires s.halt.None?
    requires forall k :: 0 <= k < |pages| ==> pages[k].Items? && pages[k].items != []
    ensures WalkPages(maxPages, s, pages).requests == s.requests + |pages| + 1
    ensures WalkPages(maxPages, s, pages).halt == Some(NoItems)
    decreases |pages|
  {
    if pages != [] {
      var s1 := s.(requests := s.requests + 1);
      assert pages[0].Items? && pages[0].items != [];
      UncappedLoadsAll(maxPages, WalkItems(s1, pages[0].items), pages[1..]);
    }
  }

  /** The first page without anchors ends the crawl: nothing after it is loaded. */
  lemma {:induction false} EmptyPageEndsCrawl(maxPages: Option<int>, s: Walker, before: seq<Listing>, later: seq<Listing>)
    ensures WalkPages(maxPages, s, before + [Items([])] + later) == WalkPages(maxPages, s, before + [Items([])])
    decreases |before|
  {
    var p1 := before + [Items([])] + later;
    var p2 := before + [Items([])];
    if s.halt.None? && !Capped(maxPages, s.requests + 1) {
      var s1 := s.(requests := s.requests + 1);
      if before == [] {
        assert p1[0] == Items([]) && p2[0] == Items([]);
      } else {
        assert p1[0] == before[0] && p1[1..] == before[1..] + [Items([])] + later;
        assert p2[0] == before[0] && p2[1..] == before[1..] + [Items([])];
        if before[0].Items? && before[0].items != [] {
          EmptyPageEndsCrawl(maxPages, WalkItems(s1, before[0].items), before[1..], later);
        }
      }
    }
  }
}
