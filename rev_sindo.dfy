/**
 * rev/sindo.py: the Sindonews crawler over the site's search results.
 *
 * Result pages 1, 2, ... are requested with the offset parameter '' on page 1
 * and 20 × (page − 1) afterwards. A page without news items ends the crawl; a
 * failed listing request raises out of the crawl. Each item's link is marked
 * visited before its article is fetched, so a link is handled at most once;
 * an item whose markup is missing or whose article request fails is skipped.
 * After each page the page cap, when set, is checked.
 */
module RevSindo {
  import opened Common

  // ------------------------------------------------------------------
  // The listing URL
  // ------------------------------------------------------------------

  /** The value put in the `t` field: the empty string, or an integer written in decimal. */
  datatype OffsetField = Blank | Number(n: nat)

  /** 'https://search.sindonews.com/go?type=artikel&q={}&t={}' with its two fields filled in. */
  datatype SearchUrl = SearchUrl(q: string, t: OffsetField)

  /** The `t` field of a result page: empty on page 1, 20 × (page − 1) after it. */
  function Offset(page: int): (t: OffsetField)
    ensures t.Blank? <==> page <= 1
    ensures t.Number? ==> t.n > 0 && t.n % 20 == 0
  {
    if page > 1 then Number(20 * (page - 1)) else Blank
  }

  /** The URL of a result page. */
  function ListingUrl(keyword: string, page: int): SearchUrl
  {
    SearchUrl(keyword, Offset(page))
  }

  /** The URLs of result pages 1 to n, in order. */
  function ListingUrls(keyword: string, n: nat): (us: seq<SearchUrl>)
    ensures |us| == n
  {
    if n == 0 then [] else ListingUrls(keyword, n - 1) + [ListingUrl(keyword, n)]
  }

  /** The k-th URL requested is that of page k + 1, so the pages are requested as 1, 2, 3, ... */
  lemma {:induction false} ListingUrlsAt(keyword: string, n: nat, k: nat)
    requires k < n
    ensures ListingUrls(keyword, n)[k] == ListingUrl(keyword, k + 1)
    decreases n
  {
    if k < n - 1 {
      ListingUrlsAt(keyword, n - 1, k);
    }
  }

  /** No result page is requested twice: the URLs of pages 1 to n are pairwise different. */
  lemma UrlsDistinct(keyword: string, n: nat, i: nat, j: nat)
    requires i < j < n
    ensures ListingUrls(keyword, n)[i] != ListingUrls(keyword, n)[j]
  {
    ListingUrlsAt(keyword, n, i);
    ListingUrlsAt(keyword, n, j);
  }

  // ------------------------------------------------------------------
  // One news item
  // ------------------------------------------------------------------

  /** The 'div.news-title a' element: its href (absent: None) and its text. */
  datatype Anchor = Anchor(href: Option<string>, text: string)

  /** The article request: it raised (or its status failed), or the text of 'div.read__content' if present. */
  datatype Article = FetchFailed | Fetched(content: Option<string>)

  /** One 'div.news-content': the anchor, the 'div.news-date' and 'div.newsc' texts, each None when missing, and its article. */
  datatype Item = Item(anchor: Option<Anchor>, dateDiv: Option<string>, categoryDiv: Option<string>, article: Article)

  /** A result page: the request raised, or its news items. */
  datatype Listing = RequestFailed | Items(items: seq<Item>)

  datatype Record = Record(title: string, link: string, category: string, newsDate: string, content: string)

  /** str.capitalize on ASCII: the first character upper case, the rest lower case. */
  function Capitalize(s: string): (r: string)
    ensures |r| == |s|
  {
    if s == [] then [] else [UpperChar(s[0])] + Lower(s[1..])
  }

  /** The category: the div text capitalised, then stripped. */
  function Category(text: string): string
  {
    Strip(Capitalize(text))
  }

  /**
   * Capitalising before stripping: a text that starts with a letter gets it in
   * upper case; a text that starts with whitespace keeps no upper-case letter,
   * because the whitespace was the character made upper case.
   */
  lemma CategoryOfLetter(text: string)
    requires text != [] && IsLowerLetter(text[0])
    ensures Category(text) != [] && IsUpper(Category(text)[0])
  {
    var cap := Capitalize(text);
    assert IsUpper(cap[0]) && !IsSpace(cap[0]);
    assert TrimStart(cap) == cap;
    TrimEndKeepsFirst(cap);
  }

  /** See CategoryOfLetter: a text starting with whitespace ends up with no upper-case letter at all. */
  lemma CategoryOfSpace(text: string)
    requires text != [] && IsSpace(text[0])
    ensures forall c :: c in Category(text) ==> !IsUpper(c)
  {
    var cap := Capitalize(text);
    assert cap[0] == text[0];
    forall c | c in cap ensures !IsUpper(c) {
      var k :| 0 <= k < |cap| && cap[k] == c;
      if k > 0 {
        assert cap[k] == cap[1..][k - 1] == LowerChar(text[k]);
      }
    }
  }

  /** Trimming the end of a text that starts with a non-space character keeps that character. */
  lemma {:induction false} TrimEndKeepsFirst(s: string)
    requires s != [] && !IsSpace(s[0])
    ensures TrimEnd(s) != [] && TrimEnd(s)[0] == s[0]
    decreases |s|
  {
    if IsSpace(s[|s| - 1]) {
      assert |s| > 1;
      TrimEndKeepsFirst(s[..|s| - 1]);
    }
  }

  /** The article text: the stripped 'div.read__content' text, or "" without one. */
  function Content(element: Option<string>): (c: string)
    ensures element.None? ==> c == ""
    ensures NoSpaceAround(c)
  {
    if element.Some? then Strip(element.value) else ""
  }

  /**
   * The body of the `for` loop: the visited links after the item, and the
   * record it appends. An item without an anchor raises before its link is
   * read; a visited link is passed over; any other link is marked visited
   * first, and then a missing date or category div, a missing href or a
   * failed article request raises and the item is skipped.
   */
  function Visit(visited: set<Option<string>>, it: Item): (r: (set<Option<string>>, Option<Record>))
    ensures it.anchor.Some? ==> r.0 == visited + {it.anchor.value.href}
    ensures it.anchor.None? ==> r.0 == visited
    ensures r.1.Some? ==> it.anchor.Some? && it.anchor.value.href == Some(r.1.value.link)
                          && Some(r.1.value.link) !in visited
  {
    if it.anchor.None? then (visited, None)
    else
      var link := it.anchor.value.href;
      if link in visited then (visited, None)
      else
        var marked := visited + {link};
        if it.dateDiv.None? || it.categoryDiv.None? || link.None? || it.article.FetchFailed? then (marked, None)
        else
          (marked, Some(Record(Strip(it.anchor.value.text), link.value, Category(it.categoryDiv.value),
                               Strip(it.dateDiv.value), Content(it.article.content))))
  }

  /** A record carries the item's stripped title, its link, category and stripped date, and the article text. */
  lemma VisitRecord(visited: set<Option<string>>, it: Item)
    requires Visit(visited, it).1.Some?
    ensures var r := Visit(visited, it).1.value;
            && it.dateDiv.Some? && it.categoryDiv.Some? && it.article.Fetched?
            && r.title == Strip(it.anchor.value.text) && r.category == Category(it.categoryDiv.value)
            && r.newsDate == Strip(it.dateDiv.value) && r.content == Content(it.article.content)
  {
    var link := it.anchor.value.href;
    assert link !in visited;
    assert it.dateDiv.Some? && it.categoryDiv.Some? && link.Some? && it.article.Fetched?;
    var rec := Record(Strip(it.anchor.value.text), link.value, Category(it.categoryDiv.value),
                      Strip(it.dateDiv.value), Content(it.article.content));
    assert Visit(visited, it) == (visited + {link}, Some(rec));
  }

  /** A link is marked visited even when its item then fails, so a later item with the same link adds nothing. */
  lemma NeverRetried(visited: set<Option<string>>, it: Item, later: Item)
    requires it.anchor.Some? && later.anchor.Some? && later.anchor.value.href == it.anchor.value.href
    ensures Visit(Visit(visited, it).0, later) == (Visit(visited, it).0, None)
  {
  }

  // ------------------------------------------------------------------
  // The crawl
  // ------------------------------------------------------------------

  datatype Halt = NoItems | PageCap | Raised

  /** The crawl's variables: articles, visited_links, the pages processed (page − 1), and why it ended. */
  datatype Walker = Walker(articles: seq<Record>, visited: set<Option<string>>, processed: nat, halt: Option<Halt>)

  const Init := Walker([], {}, 0, None)

  /** What the loop body does to the visited links and which record it appends. */
  type Visitor = (set<Option<string>>, Item) -> (set<Option<string>>, Option<Record>)

  /** The loop body of the source. */
  function Visits(): Visitor
  {
    (visited, it) => Visit(visited, it)
  }

  lemma VisitOf(visited: set<Option<string>>, it: Item)
    ensures Visits()(visited, it) == Visit(visited, it)
  {
  }

  /** A loop body that only adds to the visited links and appends only a link it has just marked. */
  ghost predicate Marks(visit: Visitor)
  {
    forall visited, it :: Marked(visited, visit(visited, it))
  }

  /** The links only grow, and an appended record's link was new and is now visited. */
  ghost predicate Marked(visited: set<Option<string>>, r: (set<Option<string>>, Option<Record>))
  {
    visited <= r.0 && (r.1.Some? ==> Some(r.1.value.link) !in visited && Some(r.1.value.link) in r.0)
  }

  lemma VisitsMark()
    ensures Marks(Visits())
  {
    forall visited, it
      ensures Marked(visited, Visits()(visited, it))
    {
      VisitOf(visited, it);
    }
  }

  /** `max_pages and page > max_pages`: None and 0 mean no cap. */
  predicate Capped(maxPages: Option<int>, page: int)
  {
    maxPages.Some? && maxPages.value != 0 && page > maxPages.value
  }

  /** The `for` loop over the items of one page. */
  function WalkItems(visit: Visitor, s: Walker, items: seq<Item>): (w: Walker)
    ensures w.processed == s.processed && w.halt == s.halt
    decreases |items|
  {
    if items == [] then s
    else
      var r := visit(s.visited, items[0]);
      var s1 := s.(visited := r.0, articles := if r.1.Some? then s.articles + [r.1.value] else s.articles);
      WalkItems(visit, s1, items[1..])
  }

  /**
   * The `while True` loop from a state, with the given pages still to request;
   * a page past the end of the input has no news items.
   */
  function WalkPages(visit: Visitor, maxPages: Option<int>, s: Walker, pages: seq<Listing>): Walker
    decreases |pages|
  {
    if s.halt.Some? then s
    else if pages == [] then s.(halt := Some(NoItems))
    else
      match pages[0]
      case RequestFailed => s.(halt := Some(Raised))
      case Items(li) =>
        if li == [] then s.(halt := Some(NoItems))
        else
          var s1 := WalkItems(visit, s, li).(processed := s.processed + 1);
          if Capped(maxPages, s1.processed + 1) then s1.(halt := Some(PageCap))
          else WalkPages(visit, maxPages, s1, pages[1..])
  }

  function Crawl(maxPages: Option<int>, pages: seq<Listing>): Walker
  {
    WalkPages(Visits(), maxPages, Init, pages)
  }

  /** What scrape_sindonews does: return the articles, or raise from a failed listing request. */
  datatype Outcome = Returned(articles: seq<Record>) | Threw

  function Result(w: Walker): (o: Outcome)
    ensures o.Returned? <==> w.halt != Some(Raised)
  {
    if w.halt == Some(Raised) then Threw else Returned(w.articles)
  }

  /**
   * The number of listing requests a crawl makes: one per page processed, and
   * one more for the page that ended it, unless the cap ended it.
   */
  function Requests(w: Walker): nat
  {
    w.processed + if w.halt == Some(PageCap) then 0 else 1
  }

  /**
   * scrape_sindonews: also returns the listing URLs requested, in order.
   */
  method ScrapeSindonews(keyword: string, maxPages: Option<int>, pages: seq<Listing>) returns (outcome: Outcome, urls: seq<SearchUrl>)
    ensures outcome == Result(Crawl(maxPages, pages))
    ensures urls == ListingUrls(keyword, |urls|)
    ensures |urls| == Requests(Crawl(maxPages, pages)) <= |pages| + 1
  {
    ghost var goal := Crawl(maxPages, pages);
    var articles: seq<Record> := [];
    var visited: set<Option<string>> := {};
    var page := 1;
    var halt: Option<Halt> := None;
    urls := [];
    while halt.None?
      invariant 1 <= page <= |pages| + 1
      invariant |urls| == page - 1 + if halt.None? || halt == Some(PageCap) then 0 else 1
      invariant urls == ListingUrls(keyword, |urls|)
      invariant WalkPages(Visits(), maxPages, Walker(articles, visited, page - 1, halt), pages[page - 1..]) == goal
      decreases |pages| + 1 - page, halt.None?
    {
      urls := Request(keyword, urls, page);
      if page - 1 == |pages| {
        halt := Some(NoItems);   // nothing past the last page of the input
      } else {
        assert pages[page - 1..] == [pages[page - 1]] + pages[page..];
        articles, visited, page, halt := HandlePage(maxPages, pages[page - 1], articles, visited, page, pages[page..]);
      }
    }
    outcome := if halt == Some(Raised) then Threw else Returned(articles);
  }

  /** Record the request of result page `page`, the next one after those already requested. */
  method Request(keyword: string, urls: seq<SearchUrl>, page: nat) returns (urls': seq<SearchUrl>)
    requires page >= 1 && urls == ListingUrls(keyword, page - 1)
    ensures urls' == ListingUrls(keyword, page) && urls'[page - 1] == ListingUrl(keyword, page)
  {
    urls' := urls + [ListingUrl(keyword, page)];
  }

  /** One pass of the `while True` body after the request: the page's items, then the cap check. */
  method HandlePage(maxPages: Option<int>, listing: Listing, articles0: seq<Record>, visited0: set<Option<string>>, page0: nat,
                    ghost rest: seq<Listing>)
    returns (articles: seq<Record>, visited: set<Option<string>>, page: nat, halt: Option<Halt>)
    requires page0 >= 1
    ensures page == page0 || (page == page0 + 1 && listing.Items? && listing.items != [])
    ensures halt.None? || halt == Some(PageCap) ==> page == page0 + 1
    ensures halt.Some? && halt != Some(PageCap) ==> page == page0
    ensures WalkPages(Visits(), maxPages, Walker(articles, visited, page - 1, halt), rest)
            == WalkPages(Visits(), maxPages, Walker(articles0, visited0, page0 - 1, None), [listing] + rest)
  {
    assert ([listing] + rest)[0] == listing && ([listing] + rest)[1..] == rest;
    articles, visited, page, halt := articles0, visited0, page0, None;
    match listing {
      case RequestFailed =>
        halt := Some(Raised);
      case Items(li) =>
        if li == [] {
          halt := Some(NoItems);
        } else {
          articles, visited := ScanItems(li, articles, visited, page - 1, None);
          page := page + 1;
          if Capped(maxPages, page) {
            halt := Some(PageCap);
          }
        }
    }
  }

  /** The `for` loop over one page's items. */
  method ScanItems(li: seq<Item>, articles0: seq<Record>, visited0: set<Option<string>>, ghost n: nat, ghost h: Option<Halt>)
    returns (articles: seq<Record>, visited: set<Option<string>>)
    ensures Walker(articles, visited, n, h) == WalkItems(Visits(), Walker(articles0, visited0, n, h), li)
  {
    articles, visited := articles0, visited0;
    for i := 0 to |li|
      invariant WalkItems(Visits(), Walker(articles, visited, n, h), li[i..]) == WalkItems(Visits(), Walker(articles0, visited0, n, h), li)
    {
      assert li[i..][0] == li[i] && li[i..][1..] == li[i + 1..];
      var r := Visit(visited, li[i]);
      VisitOf(visited, li[i]);
      visited := r.0;
      if r.1.Some? {
        articles := articles + [r.1.value];
      }
    }
  }

  // ------------------------------------------------------------------
  // Properties of the crawl
  // ------------------------------------------------------------------

  /** No link appears twice among the articles. */
  ghost predicate DistinctLinks(rs: seq<Record>)
  {
    forall i, j :: 0 <= i < j < |rs| ==> rs[i].link != rs[j].link
  }

  /** Every article's link is visited, and no link appears twice. */
  ghost predicate Consistent(articles: seq<Record>, visited: set<Option<string>>)
  {
    DistinctLinks(articles) && forall k :: 0 <= k < |articles| ==> Some(articles[k].link) in visited
  }

  lemma {:induction false} ItemsConsistent(visit: Visitor, s: Walker, items: seq<Item>)
    requires Marks(visit) && Consistent(s.articles, s.visited)
    ensures Consistent(WalkItems(visit, s, items).articles, WalkItems(visit, s, items).visited)
    ensures s.visited <= WalkItems(visit, s, items).visited && s.articles <= WalkItems(visit, s, items).articles
    decreases |items|
  {
    if items != [] {
      var r := visit(s.visited, items[0]);
      var s1 := s.(visited := r.0, articles := if r.1.Some? then s.articles + [r.1.value] else s.articles);
      assert Consistent(s1.articles, s1.visited) by {
        if r.1.Some? {
          var rs := s.articles + [r.1.value];
          forall i, j | 0 <= i < j < |rs| ensures rs[i].link != rs[j].link {
            if j == |rs| - 1 {
              assert Some(rs[i].link) in s.visited;
            }
          }
        }
      }
      ItemsConsistent(visit, s1, items[1..]);
    }
  }

  lemma {:induction false} PagesConsistent(visit: Visitor, maxPages: Option<int>, s: Walker, pages: seq<Listing>)
    requires Marks(visit) && Consistent(s.articles, s.visited)
    ensures var w := WalkPages(visit, maxPages, s, pages);
            Consistent(w.articles, w.visited) && w.halt.Some? && s.visited <= w.visited && s.articles <= w.articles
    decreases |pages|
  {
    var w := WalkPages(visit, maxPages, s, pages);
    if s.halt.None? && pages != [] && pages[0].Items? && pages[0].items != [] {
      var s1 := WalkItems(visit, s, pages[0].items).(processed := s.processed + 1);
      ItemsConsistent(visit, s, pages[0].items);
      if !Capped(maxPages, s1.processed + 1) {
        PagesConsistent(visit, maxPages, s1, pages[1..]);
        assert w == WalkPages(visit, maxPages, s1, pages[1..]);
      }
    } else {
      assert w.articles == s.articles && w.visited == s.visited;
    }
  }

  /** The number of pages processed never passes a positive cap, and a negative cap allows only the first. */
  ghost predicate WithinCap(maxPages: Option<int>, processed: nat)
  {
    maxPages.Some? && maxPages.value != 0 ==> processed <= if maxPages.value > 0 then maxPages.value else 1
  }

  lemma {:induction false} PagesWithinCap(visit: Visitor, maxPages: Option<int>, s: Walker, pages: seq<Listing>)
    requires s.halt.None? && s.processed > 0 ==> !Capped(maxPages, s.processed + 1)
    requires WithinCap(maxPages, s.processed)
    ensures WithinCap(maxPages, WalkPages(visit, maxPages, s, pages).processed)
    decreases |pages|
  {
    if s.halt.None? && pages != [] && pages[0].Items? && pages[0].items != [] {
      var s1 := WalkItems(visit, s, pages[0].items).(processed := s.processed + 1);
      if !Capped(maxPages, s1.processed + 1) {
        PagesWithinCap(visit, maxPages, s1, pages[1..]);
      }
    }
  }

  /**
   * The crawl's result: no link is appended twice, every appended link was
   * marked visited, and a truthy max_pages bounds the pages processed.
   */
  lemma CrawlProperties(maxPages: Option<int>, pages: seq<Listing>)
    ensures var w := Crawl(maxPages, pages);
            && DistinctLinks(w.articles) && (forall k :: 0 <= k < |w.articles| ==> Some(w.articles[k].link) in w.visited)
            && w.halt.Some?
            && (maxPages.Some? && maxPages.value > 0 ==> w.processed <= maxPages.value)
  {
    VisitsMark();
    PagesConsistent(Visits(), maxPages, Init, pages);
    PagesWithinCap(Visits(), maxPages, Init, pages);
  }

  /** The first page without news items ends the crawl: nothing after it is requested. */
  lemma {:induction false} EmptyPageEndsCrawl(visit: Visitor, maxPages: Option<int>, s: Walker, before: seq<Listing>, later: seq<Listing>)
    ensures WalkPages(visit, maxPages, s, before + [Items([])] + later) == WalkPages(visit, maxPages, s, before + [Items([])])
    decreases |before|
  {
    var p1 := before + [Items([])] + later;
    var p2 := before + [Items([])];
    if s.halt.None? {
      if before == [] {
        assert p1[0] == Items([]) && p2[0] == Items([]);
      } else {
        assert p1[0] == before[0] && p1[1..] == before[1..] + [Items([])] + later;
        assert p2[0] == before[0] && p2[1..] == before[1..] + [Items([])];
        if before[0].Items? && before[0].items != [] {
          var s1 := WalkItems(visit, s, before[0].items).(processed := s.processed + 1);
          if !Capped(maxPages, s1.processed + 1) {
            EmptyPageEndsCrawl(visit, maxPages, s1, before[1..], later);
          }
        }
      }
    }
  }
}
