/**
 * rev/detik.py: the detik.com search crawler with a period window, the article
 * text fetch, the concurrent content filter and the VADER report.
 *
 * Result pages come newest first. Every article of a page has its date read from
 * the listing; the first one older than the window ends the crawl with the data
 * gathered so far, newer ones are skipped, and those whose headline contains the
 * keyword (ignoring case) are recorded with no content yet. A page without the
 * result container or without articles ends the loop. Exceptions are not caught
 * in the crawl: a failed request or broken markup ends the program.
 */
module RevDetik {
  import opened Common
  import opened Sentiment

  // ------------------------------------------------------------------
  // get_date_range
  // ------------------------------------------------------------------

  /** The end date typed by the user: none (today), a date strptime accepts, or one it rejects. */
  datatype EndArg = Omitted | Given(stamp: int) | Malformed

  datatype RangeError = BadEndDate | PeriodUnbound

  datatype DateRange = Range(start: int, end: int) | Failed(error: RangeError)

  /**
   * The window ends at the given date (now when omitted) and reaches back n days,
   * weeks, 30-day months or 365-day years. An end date strptime rejects raises
   * ValueError; any other period leaves start_date unbound.
   */
  function GetDateRange(period: string, n: int, endArg: EndArg, now: int): (r: DateRange)
    ensures r.Range? <==> !endArg.Malformed? && period in ["day", "week", "month", "year"]
    ensures endArg.Malformed? ==> r == Failed(BadEndDate)
    ensures !endArg.Malformed? && ParseUnit(period).None? ==> r == Failed(PeriodUnbound)
    ensures r.Range? ==> r.end == (if endArg.Given? then endArg.stamp else now)
                         && r.end - r.start == n * UnitDays(ParseUnit(period).value) * DaySeconds
    ensures r.Range? && n >= 0 ==> r.start <= r.end
  {
    if endArg.Malformed? then Failed(BadEndDate)
    else
      var end := if endArg.Given? then endArg.stamp else now;
      match ParseUnit(period)
      case None => Failed(PeriodUnbound)
      case Some(u) => Range(end - n * UnitDays(u) * DaySeconds, end)
  }

  // ------------------------------------------------------------------
  // fetch_article_content
  // ------------------------------------------------------------------

  /**
   * The article request: it raised something other than an HTTP error, its
   * status was an error, or it answered with the paragraph texts of each
   * 'detail__body-text itp_bodycontent' div.
   */
  datatype ArticleResponse = ConnectionFailed | HttpError | Page(divs: seq<seq<string>>)

  /** What fetch_article_content gives back: an exception, or its return value. */
  datatype Fetched = Raises | Value(content: Option<string>)

  const Advertisement := "ADVERTISEMENT"
  const ScrollMarker := "\r\r\rSCROLL TO CONTINUE WITH CONTENT\r"

  /** The text after the loop: each div's paragraphs concatenated, with newlines removed, div after div. */
  function BodyText(divs: seq<seq<string>>): string
  {
    if divs == [] then []
    else BodyText(divs[..|divs| - 1]) + ReplaceAll(Join("", divs[|divs| - 1]), "\n", "")
  }

  lemma {:induction false} BodyTextNoNewline(divs: seq<seq<string>>)
    ensures '\n' !in BodyText(divs)
  {
    if divs != [] {
      BodyTextNoNewline(divs[..|divs| - 1]);
      ReplaceRemovesChar(Join("", divs[|divs| - 1]), '\n', "");
    }
  }

  /** The returned text: the body text with the advertisement labels removed. It never holds a newline. */
  function ArticleContent(divs: seq<seq<string>>): (r: string)
    ensures '\n' !in r
  {
    BodyTextNoNewline(divs);
    ReplaceAll(ReplaceAll(BodyText(divs), Advertisement, ""), ScrollMarker, "")
  }

  /**
   * What fetch_article_content gives back: an HTTP error status gives None, any
   * other request failure propagates, and an answer gives its cleaned text,
   * which holds no newline.
   */
  function FetchOf(resp: ArticleResponse): (r: Fetched)
    ensures r.Raises? <==> resp.ConnectionFailed?
    ensures r.Value? && r.content.Some? ==> '\n' !in r.content.value
  {
    match resp
    case ConnectionFailed => Raises
    case HttpError => Value(None)
    case Page(divs) => Value(Some(ArticleContent(divs)))
  }

  /** fetch_article_content: the text is built div by div with `+=`, then cleaned. */
  method FetchArticleContent(resp: ArticleResponse) returns (r: Fetched)
    ensures r == FetchOf(resp)
  {
    match resp {
      case ConnectionFailed =>
        return Raises;
      case HttpError =>
        return Value(None);
      case Page(divs) =>
        var contentText := "";
        for i := 0 to |divs|
          invariant contentText == BodyText(divs[..i])
        {
          assert divs[..i + 1][..i] == divs[..i];
          contentText := contentText + ReplaceAll(Join("", divs[i]), "\n", "");
        }
        assert divs[..|divs|] == divs;
        contentText := ReplaceAll(ReplaceAll(contentText, Advertisement, ""), ScrollMarker, "");
        return Value(Some(contentText));
    }
  }

  // ------------------------------------------------------------------
  // scrape_detik
  // ------------------------------------------------------------------

  /**
   * One <article> of the result list: the href of its first <a> (None when the
   * anchor or the attribute is missing), the text of its 'date' span and of its
   * <h2> (None when missing).
   */
  datatype Article = Article(link: Option<string>, dateText: Option<string>, headline: Option<string>)

  /** One result page: the request failed, the 'list media_rows list-berita' div is missing, or its articles. */
  datatype Listing = RequestFailed | NoContainer | Articles(items: seq<Article>)

  /** The keyword, the window, and dateparser with DMY order (None when it cannot read the text). */
  datatype Query = Query(keyword: string, start: int, end: int, parse: string -> Option<int>)

  /** A dict of `data`: the headline, the listing's date text, the link and the content (None until fetched). */
  datatype Entry = Entry(headline: string, date: string, link: string, content: Option<string>)

  /** Why the crawl ended: no more results, an article older than the window, or an exception. */
  datatype Halt = Exhausted | Older | Raised

  datatype Verdict = Skip | Accept(entry: Entry) | Stop(reason: Halt)

  datatype Walker = Walker(data: seq<Entry>, halt: Option<Halt>)

  const Init := Walker([], None)

  /** What scrape_detik gives back: the list `data`, or an exception. */
  datatype Outcome = Returned(data: seq<Entry>) | Threw

  /**
   * The date text of the listing: "WIB" and "detikNews" removed, the second
   * comma-separated field, stripped. None where indexing that field raises.
   */
  function DateString(text: string): Option<string>
  {
    var fields := SplitOn(ReplaceAll(ReplaceAll(text, "WIB", ""), "detikNews", ""), ',');
    if |fields| < 2 then None else Some(Strip(fields[1]))
  }

  /**
   * The second field exists exactly when the cleaned text holds a comma, and the
   * field taken holds no comma and no surrounding whitespace.
   */
  lemma DateStringField(text: string)
    ensures DateString(text).Some? <==> ',' in ReplaceAll(ReplaceAll(text, "WIB", ""), "detikNews", "")
    ensures DateString(text).Some? ==> ',' !in DateString(text).value && NoSpaceAround(DateString(text).value)
  {
  }

  /**
   * The date text and the date the crawler compares with the window, when reading
   * them does not raise: the anchor with its href, the date span, a second field
   * in its text and a date dateparser can read are all needed.
   */
  function ListedDate(q: Query, it: Article): (r: Option<(string, int)>)
    ensures r.Some? ==> it.link.Some? && it.dateText.Some?
  {
    if it.link.None? || it.dateText.None? then None
    else
      match DateString(it.dateText.value)
      case None => None
      case Some(ds) =>
        match q.parse(ds)
        case None => None
        case Some(date) => Some((ds, date))
  }

  /**
   * The loop body on one article: an article whose date cannot be read raises;
   * an older date ends the crawl and a newer one skips; then the headline is
   * read (raising when missing) and must contain the keyword.
   */
  function Judge(q: Query, it: Article): (v: Verdict)
    ensures v.Accept? ==> ListedDate(q, it).Some? && q.start <= ListedDate(q, it).value.1 <= q.end
  {
    match ListedDate(q, it)
    case None => Stop(Raised)
    case Some((ds, date)) =>
      if date < q.start then Stop(Older)
      else if date > q.end then Skip
      else if it.headline.None? then Stop(Raised)  // .find('h2') is None
      else if ContainsIgnoringCase(it.headline.value, q.keyword) then
        Accept(Entry(it.headline.value, ds, it.link.value, None))
      else Skip
  }

  /** An article dated before the window ends the crawl, whatever its headline says. */
  lemma JudgeOlder(q: Query, it: Article)
    requires ListedDate(q, it).Some? && ListedDate(q, it).value.1 < q.start
    ensures Judge(q, it) == Stop(Older)
  {
  }

  /** An article dated after the window is skipped. */
  lemma JudgeNewer(q: Query, it: Article)
    requires ListedDate(q, it).Some? && q.start <= ListedDate(q, it).value.1 && ListedDate(q, it).value.1 > q.end
    ensures Judge(q, it) == Skip
  {
  }

  /** Only an article whose date cannot be read, or whose headline is missing, raises. */
  lemma JudgeRaises(q: Query, it: Article)
    ensures ListedDate(q, it).None? ==> Judge(q, it) == Stop(Raised)
    ensures Judge(q, it) == Stop(Raised) ==> ListedDate(q, it).None? || it.headline.None?
  {
  }

  /**
   * An article is accepted exactly when its date lies in the window and its
   * headline contains the keyword; the entry holds that headline, the date text
   * and the link, and no content.
   */
  lemma JudgeAccepts(q: Query, it: Article)
    ensures Judge(q, it).Accept? <==>
              ListedDate(q, it).Some? && q.start <= ListedDate(q, it).value.1 <= q.end
              && it.headline.Some? && ContainsIgnoringCase(it.headline.value, q.keyword)
    ensures Judge(q, it).Accept? ==>
              var e := Judge(q, it).entry;
              && Some(e.headline) == it.headline && Some(e.link) == it.link && e.content.None?
              && ListedDate(q, it).value.0 == e.date && q.parse(e.date) == Some(ListedDate(q, it).value.1)
  {
  }

  function Verdicts(q: Query): Article -> Verdict
  {
    it => Judge(q, it)
  }

  lemma VerdictOf(q: Query, it: Article)
    ensures Verdicts(q)(it) == Judge(q, it)
  {
  }

  function Apply(s: Walker, v: Verdict): Walker
  {
    match v
    case Skip => s
    case Stop(h) => s.(halt := Some(h))
    case Accept(e) => s.(data := s.data + [e])
  }

  /** The `for article in articles` loop of one page, up to the first article that ends the crawl. */
  function WalkItems(judge: Article -> Verdict, s: Walker, items: seq<Article>): Walker
    decreases |items|
  {
    if s.halt.Some? || items == [] then s
    else WalkItems(judge, Apply(s, judge(items[0])), items[1..])
  }

  /** The `while True` loop over the result pages; past the last given page there are no results. */
  function WalkPages(judge: Article -> Verdict, s: Walker, pages: seq<Listing>): Walker
    decreases |pages|
  {
    if s.halt.Some? then s
    else if pages == [] then s.(halt := Some(Exhausted))
    else
      match pages[0]
      case RequestFailed => s.(halt := Some(Raised))
      case NoContainer => s.(halt := Some(Exhausted))
      case Articles(items) =>
        if items == [] then s.(halt := Some(Exhausted))
        else WalkPages(judge, WalkItems(judge, s, items), pages[1..])
  }

  function Crawl(q: Query, pages: seq<Listing>): Walker
  {
    WalkPages(Verdicts(q), Init, pages)
  }

  function Result(w: Walker): Outcome
  {
    if w.halt == Some(Raised) then Threw else Returned(w.data)
  }

  /**
   * scrape_detik, with the current time and dateparser as parameters. It returns
   * the outcome of the walk over the result pages in the window get_date_range
   * gives, or raises when that window cannot be computed; every entry returned
   * lies in the window and contains the keyword.
   */
  method ScrapeDetik(keyword: string, period: string, n: int, endArg: EndArg, now: int,
                     parse: string -> Option<int>, pages: seq<Listing>) returns (out: Outcome)
    ensures GetDateRange(period, n, endArg, now).Failed? ==> out == Threw
    ensures var r := GetDateRange(period, n, endArg, now);
            r.Range? ==> out == Result(Crawl(Query(keyword, r.start, r.end, parse), pages))
    ensures var r := GetDateRange(period, n, endArg, now);
            r.Range? && out.Returned? ==>
              forall k :: 0 <= k < |out.data| ==> EntryOk(Query(keyword, r.start, r.end, parse), out.data[k])
  {
    var range := GetDateRange(period, n, endArg, now);
    if range.Failed? {
      return Threw;
    }
    var q := Query(keyword, range.start, range.end, parse);
    out := CrawlPages(q, pages);
    CrawlSound(q, pages);
  }

  /** The `while True` loop of scrape_detik, once the window is known. */
  method CrawlPages(q: Query, pages: seq<Listing>) returns (out: Outcome)
    ensures out == Result(Crawl(q, pages))
  {
    ghost var goal := Crawl(q, pages);
    var data: seq<Entry> := [];
    var halt: Option<Halt> := None;
    var page := 0;  // index of the page requested next (the URL's page is page + 1)
    while halt.None?
      invariant page <= |pages|
      invariant WalkPages(Verdicts(q), Walker(data, halt), pages[page..]) == goal
      decreases |pages| - page, halt.None?
    {
      if page == |pages| {
        assert pages[page..] == [];
        halt := Some(Exhausted);
      } else {
        data, halt := HandleListing(q, pages, page, data);
        page := page + 1;
      }
    }
    assert goal == Walker(data, halt);
    out := if halt == Some(Raised) then Threw else Returned(data);
  }

  /** One pass of the `while True` body: request page p + 1 and walk its articles. */
  method HandleListing(q: Query, pages: seq<Listing>, p: nat, data0: seq<Entry>) returns (data: seq<Entry>, halt: Option<Halt>)
    requires p < |pages|
    ensures WalkPages(Verdicts(q), Walker(data, halt), pages[p + 1..]) == WalkPages(Verdicts(q), Walker(data0, None), pages[p..])
  {
    PagesStep(Verdicts(q), Walker(data0, None), pages, p);
    data, halt := data0, None;
    match pages[p] {
      case RequestFailed =>
        halt := Some(Raised);       // raise_for_status propagates
      case NoContainer =>
        halt := Some(Exhausted);
      case Articles(items) =>
        if items == [] {
          halt := Some(Exhausted);
        } else {
          data, halt := ScanItems(q, items, data0);
        }
    }
  }

  /** The loop over one page's articles: the first article that ends the crawl stops it and says why. */
  method ScanItems(q: Query, items: seq<Article>, data0: seq<Entry>) returns (data: seq<Entry>, halt: Option<Halt>)
    ensures Walker(data, halt) == WalkItems(Verdicts(q), Walker(data0, None), items)
    ensures halt != Some(Exhausted)
  {
    ghost var goal := WalkItems(Verdicts(q), Walker(data0, None), items);
    data, halt := data0, None;
    for i := 0 to |items|
      invariant WalkItems(Verdicts(q), Walker(data, None), items[i..]) == goal
    {
      ItemsStep(Verdicts(q), Walker(data, None), items, i);
      var v := Judge(q, items[i]);
      VerdictOf(q, items[i]);
      if v.Stop? {
        halt := Some(v.reason);
        assert v.reason != Exhausted;
        return;
      }
      if v.Accept? {
        data := data + [v.entry];
      }
    }
  }

  /** Walking from page p: what the page holds decides whether the walk ends there or goes on past it. */
  lemma PagesStep(judge: Article -> Verdict, s: Walker, pages: seq<Listing>, p: nat)
    requires p < |pages| && s.halt.None?
    ensures pages[p].RequestFailed? ==> WalkPages(judge, s, pages[p..]) == s.(halt := Some(Raised))
    ensures pages[p].NoContainer? || pages[p] == Articles([]) ==> WalkPages(judge, s, pages[p..]) == s.(halt := Some(Exhausted))
    ensures pages[p].Articles? && pages[p].items != [] ==>
              WalkPages(judge, s, pages[p..]) == WalkPages(judge, WalkItems(judge, s, pages[p].items), pages[p + 1..])
  {
    assert pages[p..][0] == pages[p] && pages[p..][1..] == pages[p + 1..];
  }

  /** Walking from article i of a page is judging that article, then walking from article i + 1. */
  lemma ItemsStep(judge: Article -> Verdict, s: Walker, li: seq<Article>, i: nat)
    requires i < |li| && s.halt.None?
    ensures WalkItems(judge, s, li[i..]) == WalkItems(judge, Apply(s, judge(li[i])), li[i + 1..])
  {
    assert li[i..][0] == li[i] && li[i..][1..] == li[i + 1..];
  }

  // ------------------------------------------------------------------
  // Properties of the crawl
  // ------------------------------------------------------------------

  /** An entry scrape_detik may return: in the window, with the keyword in its headline, without content. */
  predicate EntryOk(q: Query, e: Entry)
  {
    && ContainsIgnoringCase(e.headline, q.keyword) && e.content.None?
    && q.parse(e.date).Some? && q.start <= q.parse(e.date).value <= q.end
  }

  ghost predicate Sound(q: Query, judge: Article -> Verdict)
  {
    forall it :: judge(it).Accept? ==> EntryOk(q, judge(it).entry)
  }

  lemma VerdictsSound(q: Query)
    ensures Sound(q, Verdicts(q))
  {
    forall it | Verdicts(q)(it).Accept?
      ensures EntryOk(q, Verdicts(q)(it).entry)
    {
      VerdictOf(q, it);
      JudgeAccepts(q, it);
    }
  }

  ghost predicate AllOk(q: Query, es: seq<Entry>)
  {
    forall k :: 0 <= k < |es| ==> EntryOk(q, es[k])
  }

  lemma {:induction false} ItemsSound(q: Query, judge: Article -> Verdict, s: Walker, items: seq<Article>)
    requires Sound(q, judge) && AllOk(q, s.data)
    ensures AllOk(q, WalkItems(judge, s, items).data)
    decreases |items|
  {
    if s.halt.None? && items != [] {
      var s1 := Apply(s, judge(items[0]));
      assert AllOk(q, s1.data);
      ItemsSound(q, judge, s1, items[1..]);
    }
  }

  lemma {:induction false} PagesSound(q: Query, judge: Article -> Verdict, s: Walker, pages: seq<Listing>)
    requires Sound(q, judge) && AllOk(q, s.data)
    ensures AllOk(q, WalkPages(judge, s, pages).data)
    decreases |pages|
  {
    if s.halt.None? && pages != [] && pages[0].Articles? && pages[0].items != [] {
      ItemsSound(q, judge, s, pages[0].items);
      PagesSound(q, judge, WalkItems(judge, s, pages[0].items), pages[1..]);
    }
  }

  /** Every entry of the crawl lies in the window, contains the keyword and has no content yet. */
  lemma CrawlSound(q: Query, pages: seq<Listing>)
    ensures forall k :: 0 <= k < |Crawl(q, pages).data| ==> EntryOk(q, Crawl(q, pages).data[k])
  {
    VerdictsSound(q);
    PagesSound(q, Verdicts(q), Init, pages);
  }

  /** A page without the result container, or without articles, returns the data gathered so far. */
  lemma NoResultsEndCrawl(judge: Article -> Verdict, s: Walker, p: Listing, later: seq<Listing>)
    requires s.halt.None? && (p.NoContainer? || p == Articles([]))
    ensures Result(WalkPages(judge, s, [p] + later)) == Returned(s.data)
  {
    assert ([p] + later)[0] == p;
  }

  /** Once an article halts the walk, whatever follows it on its page is never looked at. */
  lemma {:induction false} ItemsIgnoreRest(judge: Article -> Verdict, s: Walker, a: seq<Article>, rest: seq<Article>)
    requires a != [] && judge(a[|a| - 1]).Stop?
    ensures WalkItems(judge, s, a + rest) == WalkItems(judge, s, a)
    ensures WalkItems(judge, s, a).halt.Some?
    decreases |a|
  {
    if s.halt.None? {
      assert (a + rest)[0] == a[0] && (a + rest)[1..] == a[1..] + rest;
      if |a| > 1 {
        ItemsIgnoreRest(judge, Apply(s, judge(a[0])), a[1..], rest);
      }
    }
  }

  /** ... nor are the pages after it. */
  lemma {:induction false} PagesIgnoreRest(judge: Article -> Verdict, s: Walker, before: seq<Listing>,
                                           a: seq<Article>, rest: seq<Article>, later: seq<Listing>)
    requires a != [] && judge(a[|a| - 1]).Stop?
    ensures WalkPages(judge, s, before + [Articles(a + rest)] + later) == WalkPages(judge, s, before + [Articles(a)])
    decreases |before|
  {
    var p1 := before + [Articles(a + rest)] + later;
    var p2 := before + [Articles(a)];
    if s.halt.Some? {
    } else if before == [] {
      assert p1[0] == Articles(a + rest) && p1[1..] == later;
      assert p2[0] == Articles(a) && p2[1..] == [];
      ItemsIgnoreRest(judge, s, a, rest);
    } else {
      assert p1[0] == before[0] && p1[1..] == before[1..] + [Articles(a + rest)] + later;
      assert p2[0] == before[0] && p2[1..] == before[1..] + [Articles(a)];
      if before[0].Articles? && before[0].items != [] {
        PagesIgnoreRest(judge, WalkItems(judge, s, before[0].items), before[1..], a, rest, later);
      }
    }
  }

  /**
   * The first article older than the window (or the first that raises) ends the
   * crawl: the articles after it on its page and all later pages do not matter.
   */
  lemma HaltingItemEndsCrawl(q: Query, before: seq<Listing>, li: seq<Article>, i: nat,
                             rest: seq<Article>, later: seq<Listing>)
    requires i < |li| && Judge(q, li[i]).Stop?
    ensures Crawl(q, before + [Articles(li[..i + 1] + rest)] + later) == Crawl(q, before + [Articles(li[..i + 1])])
  {
    VerdictOf(q, li[..i + 1][i]);
    PagesIgnoreRest(Verdicts(q), Init, before, li[..i + 1], rest, later);
  }

  // ------------------------------------------------------------------
  // fetch_content_for_analysis
  // ------------------------------------------------------------------

  /** 0, 1, ..., n - 1: the entries of `data` by position. */
  function Indices(n: nat): (r: seq<nat>)
    ensures |r| == n && forall k :: 0 <= k < n ==> r[k] == k
  {
    seq(n, k requires 0 <= k => k as nat)
  }

  /** A permutation of the positions holds only positions... */
  lemma PermutedInRange(order: seq<nat>, n: nat)
    requires multiset(order) == multiset(Indices(n))
    ensures forall j :: 0 <= j < |order| ==> order[j] < n
  {
    forall j | 0 <= j < |order|
      ensures order[j] < n
    {
      assert order[j] in multiset(Indices(n));
    }
  }

  /** ... and every one of them. */
  lemma PermutedCovers(order: seq<nat>, n: nat)
    requires multiset(order) == multiset(Indices(n))
    ensures forall k :: 0 <= k < n ==> k in order
  {
    forall k | 0 <= k < n
      ensures k in order
    {
      assert Indices(n)[k] == k;
      assert k in multiset(order);
    }
  }

  /** What an entry contributes: itself with its content set, when the fetched content is a non-empty text. */
  function Keeps(e: Entry, f: Fetched): (r: seq<Entry>)
    ensures |r| <= 1
  {
    if f.Value? && f.content.Some? && f.content.value != [] then [e.(content := f.content)] else []
  }

  /** What entry k contributes, given what each entry's future holds. */
  function Kept(data: seq<Entry>, results: seq<Fetched>, k: nat): seq<Entry>
  {
    if k < |data| && k < |results| then Keeps(data[k], results[k]) else []
  }

  /** The entries kept when the futures complete in the given order. */
  function Picked(data: seq<Entry>, results: seq<Fetched>, order: seq<nat>): seq<Entry>
  {
    if order == [] then []
    else Picked(data, results, order[..|order| - 1]) + Kept(data, results, order[|order| - 1])
  }

  /** The entries kept, in the order of `data`. */
  function Valid(data: seq<Entry>, results: seq<Fetched>): seq<Entry>
  {
    Picked(data, results, Indices(|data|))
  }

  lemma {:induction false} PickedAppend(data: seq<Entry>, results: seq<Fetched>, a: seq<nat>, b: seq<nat>)
    ensures Picked(data, results, a + b) == Picked(data, results, a) + Picked(data, results, b)
    decreases |b|
  {
    if b == [] {
      assert a + b == a;
    } else {
      var b', x := b[..|b| - 1], b[|b| - 1];
      assert (a + b)[..|a + b| - 1] == a + b';
      assert (a + b)[|a + b| - 1] == x;
      PickedAppend(data, results, a, b');
      assert Picked(data, results, a + b) == Picked(data, results, a + b') + Kept(data, results, x);
      assert Picked(data, results, b) == Picked(data, results, b') + Kept(data, results, x);
    }
  }

  lemma PickedSnoc(data: seq<Entry>, results: seq<Fetched>, o: seq<nat>, i: nat)
    requires i < |o|
    ensures Picked(data, results, o[..i + 1]) == Picked(data, results, o[..i]) + Kept(data, results, o[i])
  {
    assert o[..i + 1][..i] == o[..i];
  }

  /** Removing position j of a sequence removes one occurrence of its element. */
  lemma MultisetRemove(p: seq<nat>, j: nat)
    requires j < |p|
    ensures multiset(p[..j] + p[j + 1..]) == multiset(p) - multiset{p[j]}
  {
    assert p == p[..j] + [p[j]] + p[j + 1..];
  }

  /** Position j splits what the order contributes. */
  lemma PickedSplit(data: seq<Entry>, results: seq<Fetched>, p: seq<nat>, j: nat)
    requires j < |p|
    ensures Picked(data, results, p) == Picked(data, results, p[..j]) + Kept(data, results, p[j]) + Picked(data, results, p[j + 1..])
  {
    var a, b := p[..j + 1], p[j + 1..];
    assert a + b == p;
    PickedAppend(data, results, a, b);
    assert a[..|a| - 1] == p[..j] && a[|a| - 1] == p[j];
  }

  /** Leaving position j out of the order leaves out what it contributes. */
  lemma PickedRemove(data: seq<Entry>, results: seq<Fetched>, p: seq<nat>, j: nat)
    requires j < |p|
    ensures multiset(Picked(data, results, p))
            == multiset(Picked(data, results, p[..j] + p[j + 1..])) + multiset(Kept(data, results, p[j]))
  {
    PickedSplit(data, results, p, j);
    PickedAppend(data, results, p[..j], p[j + 1..]);
  }

  /** The entries kept do not depend on the order the futures complete in, up to their order. */
  lemma {:induction false} PickedPermutation(data: seq<Entry>, results: seq<Fetched>, o: seq<nat>, p: seq<nat>)
    requires multiset(o) == multiset(p)
    ensures multiset(Picked(data, results, o)) == multiset(Picked(data, results, p))
    decreases |o|
  {
    if o != [] {
      var i := |o| - 1;
      var x := o[i];
      assert x in multiset(p);
      var j :| 0 <= j < |p| && p[j] == x;
      MultisetRemove(o, i);
      MultisetRemove(p, j);
      assert o[..i] + o[i + 1..] == o[..i];
      PickedPermutation(data, results, o[..i], p[..j] + p[j + 1..]);
      PickedRemove(data, results, o, i);
      PickedRemove(data, results, p, j);
    } else {
      assert p == [];
    }
  }

  /** Some position of the order contributes e. */
  ghost predicate Contributes(data: seq<Entry>, results: seq<Fetched>, o: seq<nat>, e: Entry)
  {
    exists j :: 0 <= j < |o| && e in Kept(data, results, o[j])
  }

  /** An entry is kept exactly when some position of the order contributes it. */
  lemma {:induction false} PickedMembers(data: seq<Entry>, results: seq<Fetched>, o: seq<nat>, e: Entry)
    ensures e in Picked(data, results, o) <==> Contributes(data, results, o, e)
    decreases |o|
  {
    if o != [] {
      var n := |o| - 1;
      var o' := o[..n];
      PickedMembers(data, results, o', e);
      assert Picked(data, results, o) == Picked(data, results, o') + Kept(data, results, o[n]);
      if Contributes(data, results, o', e) {
        var j :| 0 <= j < |o'| && e in Kept(data, results, o'[j]);
        assert o[j] == o'[j];
      }
      if e in Kept(data, results, o[n]) {
        assert Contributes(data, results, o, e);
      }
      if Contributes(data, results, o, e) {
        var j :| 0 <= j < |o| && e in Kept(data, results, o[j]);
        if j < n {
          assert o'[j] == o[j];
          assert Contributes(data, results, o', e);
        }
      }
    }
  }

  /** Entry k of `data` with the non-empty text its future holds as its content. */
  predicate FilledAt(data: seq<Entry>, results: seq<Fetched>, k: int, e: Entry)
  {
    0 <= k < |data| && k < |results| && results[k].Value? && results[k].content.Some?
    && results[k].content.value != [] && e == data[k].(content := results[k].content)
  }

  /**
   * The entries kept are exactly the entries whose future holds a non-empty
   * text, each carrying that text.
   */
  lemma ValidMembers(data: seq<Entry>, results: seq<Fetched>, e: Entry)
    ensures e in Valid(data, results) <==> exists k :: FilledAt(data, results, k, e)
  {
    PickedMembers(data, results, Indices(|data|), e);
    if e in Valid(data, results) {
      assert Contributes(data, results, Indices(|data|), e);
      var j :| 0 <= j < |data| && e in Kept(data, results, Indices(|data|)[j]);
      assert FilledAt(data, results, j, e);
    }
    if exists k :: FilledAt(data, results, k, e) {
      var k :| FilledAt(data, results, k, e);
      assert e in Kept(data, results, Indices(|data|)[k]);
    }
  }

  /** What the futures hold once every request has run. */
  function Futures(responses: seq<ArticleResponse>): (r: seq<Fetched>)
    ensures |r| == |responses|
  {
    seq(|responses|, k requires 0 <= k < |responses| => FetchOf(responses[k]))
  }

  /**
   * fetch_content_for_analysis, with the futures completing in the permutation
   * `order` of the positions of `data`: a request that raises other than with an
   * HTTP error status propagates out of future.result(); otherwise the result
   * holds exactly the entries whose content came back non-empty, each with that
   * content.
   */
  method FetchContentForAnalysis(data: seq<Entry>, responses: seq<ArticleResponse>, order: seq<nat>)
    returns (r: Option<seq<Entry>>)
    requires |responses| == |data|
    requires multiset(order) == multiset(Indices(|data|))
    ensures r.None? <==> exists k :: 0 <= k < |data| && responses[k].ConnectionFailed?
    ensures r.Some? ==> multiset(r.value) == multiset(Valid(data, Futures(responses)))
  {
    var results := SubmitAll(responses);
    r := Collect(data, results, order);
    FuturesRaise(responses);
  }

  /** A future holds an exception exactly when its request failed other than with an HTTP error status. */
  lemma FuturesRaise(responses: seq<ArticleResponse>)
    ensures forall k :: 0 <= k < |responses| ==> (Futures(responses)[k].Raises? <==> responses[k].ConnectionFailed?)
  {
    forall k | 0 <= k < |responses|
      ensures Futures(responses)[k].Raises? <==> responses[k].ConnectionFailed?
    {
      assert Futures(responses)[k] == FetchOf(responses[k]);
    }
  }

  /** The executor runs fetch_article_content for every entry. */
  method SubmitAll(responses: seq<ArticleResponse>) returns (results: seq<Fetched>)
    ensures results == Futures(responses)
  {
    results := [];
    for i := 0 to |responses|
      invariant |results| == i
      invariant forall j :: 0 <= j < i ==> results[j] == FetchOf(responses[j])
    {
      var f := FetchArticleContent(responses[i]);
      results := results + [f];
    }
  }

  /**
   * The `as_completed` loop: the futures are taken in the permutation `order`;
   * the first that holds an exception raises, and each one that holds a
   * non-empty text appends its entry with that content.
   */
  method Collect(data: seq<Entry>, results: seq<Fetched>, order: seq<nat>) returns (r: Option<seq<Entry>>)
    requires |results| == |data|
    requires multiset(order) == multiset(Indices(|data|))
    ensures r.None? <==> exists k :: 0 <= k < |data| && results[k].Raises?
    ensures r.Some? ==> r.value == Picked(data, results, order)
    ensures r.Some? ==> multiset(r.value) == multiset(Valid(data, results))
  {
    PermutedInRange(order, |data|);
    var valid, raised := TakeInOrder(data, results, order);
    if raised {
      var j :| 0 <= j < |order| && results[order[j]].Raises?;
      assert 0 <= order[j] < |data| && results[order[j]].Raises?;
      return None;
    }
    CompletedOrder(data, results, order);
    return Some(valid);
  }

  /** The loop body of `as_completed`, future by future, until one raises. */
  method TakeInOrder(data: seq<Entry>, results: seq<Fetched>, order: seq<nat>) returns (valid: seq<Entry>, raised: bool)
    requires |results| == |data|
    requires forall j :: 0 <= j < |order| ==> order[j] < |data|
    ensures raised <==> exists j :: 0 <= j < |order| && results[order[j]].Raises?
    ensures !raised ==> valid == Picked(data, results, order)
  {
    valid, raised := [], false;
    for i := 0 to |order|
      invariant valid == Picked(data, results, order[..i])
      invariant forall j :: 0 <= j < i ==> !results[order[j]].Raises?
    {
      var k := order[i];
      PickedSnoc(data, results, order, i);
      var content := results[k];
      if content.Raises? {
        return valid, true;
      }
      if content.content.Some? && content.content.value != [] {
        assert Kept(data, results, k) == [data[k].(content := content.content)];
        valid := valid + [data[k].(content := content.content)];
      } else {
        assert Kept(data, results, k) == [];
      }
    }
    assert order[..|order|] == order;
  }

  /** Once every future has been taken without raising, none holds an exception, and the entries kept are the valid ones. */
  lemma CompletedOrder(data: seq<Entry>, results: seq<Fetched>, order: seq<nat>)
    requires |results| == |data|
    requires multiset(order) == multiset(Indices(|data|))
    requires forall j :: 0 <= j < |order| ==> order[j] < |data| && !results[order[j]].Raises?
    ensures forall k :: 0 <= k < |data| ==> !results[k].Raises?
    ensures multiset(Picked(data, results, order)) == multiset(Valid(data, results))
  {
    PermutedCovers(order, |data|);
    forall k | 0 <= k < |data|
      ensures !results[k].Raises?
    {
      assert k in order;
      var j :| 0 <= j < |order| && order[j] == k;
    }
    PickedPermutation(data, results, order, Indices(|data|));
  }

  // ------------------------------------------------------------------
  // analyze_sentiment
  // ------------------------------------------------------------------

  /** sentiment_counts: every bucket present from the start, holding the length of its list. */
  function BucketSizes(xs: seq<Scored>): map<Polarity, nat>
  {
    map[Positive := |TitlesIn(xs, Positive)|, Negative := |TitlesIn(xs, Negative)|, Neutral := |TitlesIn(xs, Neutral)|]
  }

  /**
   * analyze_sentiment, on the headlines with the compound scores of their
   * contents: each headline goes to the list of its bucket, the counts are the
   * list lengths, and they add up to the number of articles.
   */
  method AnalyzeSentiment(articles: seq<Scored>) returns (counts: map<Polarity, nat>, lists: map<Polarity, seq<string>>)
    ensures lists == Buckets(articles)
    ensures counts == BucketSizes(articles)
    ensures counts[Positive] + counts[Negative] + counts[Neutral] == |articles|
  {
    counts := map[Positive := 0, Neutral := 0, Negative := 0];
    lists := map[Positive := [], Neutral := [], Negative := []];
    for i := 0 to |articles|
      invariant lists == Buckets(articles[..i])
      invariant counts.Keys == lists.Keys
      invariant forall p :: p in counts ==> counts[p] == |lists[p]|
    {
      assert articles[..i + 1] == articles[..i] + [articles[i]];
      BucketsSnoc(articles[..i], articles[i]);
      var sentiment := Classify(articles[i].compound);
      counts := counts[sentiment := counts[sentiment] + 1];
      lists := lists[sentiment := lists[sentiment] + [articles[i].title]];
    }
    assert articles[..|articles|] == articles;
    assert counts[Positive] == |TitlesIn(articles, Positive)| && counts[Negative] == |TitlesIn(articles, Negative)|
           && counts[Neutral] == |TitlesIn(articles, Neutral)|;
    assert counts == BucketSizes(articles);
    BucketsPartition(articles);
  }
}
