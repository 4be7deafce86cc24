/**
 * The Tempo search crawler (rev/tempo.py): search-result pages are read in
 * order, every card's article URL that has not been seen before is fetched
 * (with up to three attempts) and turned into a record, and the crawl stops
 * at a page without cards, at a page that brings no new URL, or once it has
 * at least the requested number of records.
 *
 * The network is a parameter: the outcome of every attempt to fetch an
 * article, and the parsed search-result pages (page p + 1 of the query is
 * `pages[p]`; a page past the end of the sequence has no cards). Markup
 * parsing and the ISO date conversion are parameters of the query.
 */
module RevTempo {
  import opened Common

  // ------------------------------------------------------------------
  // Fetching with retries
  // ------------------------------------------------------------------

  /** How many times an article is requested before giving up. */
  const Retries := 3

  /** The outcome of one request: a network error or timeout, or the page's text. */
  datatype Attempt = NetworkError | Body(text: string)

  /** The index of the first successful attempt, if any. */
  function FirstBodyAt(ts: seq<Attempt>): (r: Option<nat>)
    ensures r.Some? ==> r.value < |ts| && ts[r.value].Body? && forall k :: 0 <= k < r.value ==> ts[k].NetworkError?
    ensures r.None? ==> forall k :: 0 <= k < |ts| ==> ts[k].NetworkError?
  {
    if ts == [] then None
    else if ts[0].Body? then Some(0)
    else match FirstBodyAt(ts[1..])
      case None => None
      case Some(i) => Some(i + 1)
  }

  /** The attempts that are actually made; attempts missing from `tries` are failures. */
  function Attempted(tries: seq<Attempt>): (ts: seq<Attempt>)
    ensures |ts| <= Retries
  {
    if |tries| <= Retries then tries else tries[..Retries]
  }

  /**
   * What fetching yields: the text of the first successful attempt among the
   * first three, and None when all three fail.
   */
  function Fetched(tries: seq<Attempt>): (r: Option<string>)
    ensures r.None? <==> forall k :: 0 <= k < Retries && k < |tries| ==> tries[k].NetworkError?
    ensures r.Some? ==> exists k :: 0 <= k < Retries && k < |tries| && tries[k] == Body(r.value)
                                    && forall j :: 0 <= j < k ==> tries[j].NetworkError?
  {
    var ts := Attempted(tries);
    match FirstBodyAt(ts)
    case None => None
    case Some(i) => assert tries[i] == ts[i]; Some(ts[i].text)
  }

  /**
   * The retry loop: at most three requests, the text of the first one that
   * succeeds, and None once all three have failed. `made` is the number of
   * requests sent.
   */
  method Fetch(tries: seq<Attempt>) returns (html: Option<string>, made: nat)
    ensures html == Fetched(tries)
    ensures 1 <= made <= Retries
    ensures html.None? ==> made == Retries
    ensures html.Some? ==> made - 1 < |tries| && tries[made - 1] == Body(html.value)
  {
    ghost var ts := Attempted(tries);
    for attempt := 0 to Retries
      invariant forall k :: 0 <= k < attempt && k < |tries| ==> tries[k].NetworkError?
    {
      var outcome := if attempt < |tries| then tries[attempt] else NetworkError;
      if outcome.Body? {
        assert ts[attempt] == outcome;
        return Some(outcome.text), attempt + 1;
      }
    }
    return None, Retries;
  }

  // ------------------------------------------------------------------
  // Article records
  // ------------------------------------------------------------------

  /** The parts of an article page the crawler looks at (None: the element is missing). */
  datatype ArticlePage = ArticlePage(title: Option<string>, published: Option<string>, paragraphs: Option<seq<string>>)

  /** One row of the result: title, date, URL and cleaned content. */
  datatype Record = Record(title: string, date: string, url: string, content: string)

  /**
   * The search parameters together with what the network and the parsers
   * answer: the outcomes of the attempts to fetch each URL, the parse of a
   * page text, the ISO date conversion (None when the text is not ISO
   * 8601) and the current time as the fallback date text.
   */
  datatype Query = Query(maxResults: int, tries: string -> seq<Attempt>, parse: string -> ArticlePage,
                         iso: string -> Option<string>, nowText: string)

  const TempoPrefix := "TEMPO.CO, Jakarta - "
  const EditorMarker := "Pilihan editor: "

  /** str.replace(pat, rep, 1): only the first occurrence is replaced. */
  function ReplaceFirst(s: string, pat: string, rep: string): string
  {
    match Find(s, pat)
    case None => s
    case Some(i) => s[..i] + rep + s[i + |pat|..]
  }

  /** Replacing once in a text that starts with the pattern removes exactly the leading copy. */
  lemma ReplaceFirstAtStart(s: string, pat: string)
    requires StartsWith(s, pat)
    ensures ReplaceFirst(s, pat, "") == s[|pat|..]
  {
    assert OccursAt(s, pat, 0);
  }

  /** The content without a leading dateline, removed once. */
  function StripDateline(content: string): (r: string)
    ensures r == if StartsWith(content, TempoPrefix) then content[|TempoPrefix|..] else content
  {
    if StartsWith(content, TempoPrefix) then
      ReplaceFirstAtStart(content, TempoPrefix);
      ReplaceFirst(content, TempoPrefix, "")
    else content
  }

  /** A prefix that ends where the first occurrence starts holds no occurrence. */
  lemma BeforeFirstOccurrence(s: string, pat: string, i: nat)
    requires i <= |s| && forall j :: 0 <= j < i ==> !OccursAt(s, pat, j)
    requires pat != []
    ensures !Contains(s[..i], pat)
  {
    forall j | 0 <= j <= i && OccursAt(s[..i], pat, j)
      ensures false
    {
      assert s[..i][j..j + |pat|] == s[j..j + |pat|];
      assert OccursAt(s, pat, j);
    }
  }

  /**
   * The cleaned content: the leading dateline removed once, then everything
   * from the first editor's-choice marker on cut away. The result is the
   * longest prefix of the undatelined text without the marker: it holds no
   * marker, and the text goes on with the marker exactly where it was cut.
   */
  function CleanContent(content: string): (r: string)
    ensures var body := if StartsWith(content, TempoPrefix) then content[|TempoPrefix|..] else content;
            |r| <= |body| && r == body[..|r|] && (|r| < |body| ==> OccursAt(body, EditorMarker, |r|))
            && (!Contains(body, EditorMarker) ==> r == body)
    ensures !Contains(r, EditorMarker)
  {
    var body := StripDateline(content);
    match Find(body, EditorMarker)
    case None => body
    case Some(i) => BeforeFirstOccurrence(body, EditorMarker, i); body[..i]
  }

  function ConvertDate(q: Query, published: string): string
  {
    match q.iso(published)
    case Some(text) => text
    case None => q.nowText
  }

  /** The record a fetch yields: the failure placeholder, or the page's parts with their defaults. */
  function BuildRecord(q: Query, url: string, html: Option<string>): (r: Record)
    ensures r.url == url
    ensures html.None? ==> r == Record("Failed to retrieve", "N/A", url, "N/A")
    ensures html.Some? ==> (q.parse(html.value).title.None? ==> r.title == "No title found")
                           && (q.parse(html.value).published.None? ==> r.date == "No date found")
                           && (q.parse(html.value).paragraphs.None? ==> r.content == "No content found")
    ensures html.Some? ==> var page := q.parse(html.value);
                           (page.title.Some? ==> r.title == page.title.value)
                           && (page.published.Some? ==> r.date == ConvertDate(q, page.published.value))
                           && (page.paragraphs.Some? ==> r.content == CleanContent(Join(" ", page.paragraphs.value)))
    ensures !Contains(r.content, EditorMarker)
  {
    match html
    case None =>
      assert !Contains("N/A", EditorMarker);
      Record("Failed to retrieve", "N/A", url, "N/A")
    case Some(text) =>
      var page := q.parse(text);
      var title := if page.title.Some? then page.title.value else "No title found";
      var date := if page.published.Some? then ConvertDate(q, page.published.value) else "No date found";
      var content := if page.paragraphs.Some? then Join(" ", page.paragraphs.value) else "No content found";
      assert !OccursAt("No content found", EditorMarker, 0) by { assert EditorMarker[0] == 'P'; }
      assert !StartsWith("No content found", TempoPrefix) && !Contains("No content found", EditorMarker);
      Record(title, date, url, CleanContent(content))
  }

  /** The record the crawler keeps for a URL. */
  function ArticleRecord(q: Query, url: string): Record
  {
    BuildRecord(q, url, Fetched(q.tries(url)))
  }

  /** Fetching an article and building its record. */
  method GetArticleContent(q: Query, url: string) returns (r: Record)
    ensures r == ArticleRecord(q, url)
  {
    var html, _ := Fetch(q.tries(url));
    r := BuildRecord(q, url, html);
  }

  /** The records of the given URLs, in the order the tasks were created (what gather returns). */
  function Records(q: Query, urls: seq<string>): (rs: seq<Record>)
    ensures |rs| == |urls| && forall k :: 0 <= k < |urls| ==> rs[k].url == urls[k]
  {
    if urls == [] then [] else Records(q, urls[..|urls| - 1]) + [ArticleRecord(q, urls[|urls| - 1])]
  }

  /** Running one task per URL and collecting the results in task order. */
  method Gather(q: Query, urls: seq<string>) returns (results: seq<Record>)
    ensures results == Records(q, urls)
  {
    results := [];
    for i := 0 to |urls|
      invariant results == Records(q, urls[..i])
    {
      var r := GetArticleContent(q, urls[i]);
      assert urls[..i + 1][..i] == urls[..i];
      results := results + [r];
    }
    assert urls[..|urls|] == urls;
  }

  // ------------------------------------------------------------------
  // One search-result page
  // ------------------------------------------------------------------

  /** A result card: without a title heading, or with one whose link has the given href (None: no link or no href). */
  datatype Card = Untitled | Titled(href: Option<string>)

  /** A search-result page: the request failed, or the cards it lists. */
  datatype Listing = RequestFailed | Cards(cards: seq<Card>)

  /** The state of the loop over a page's cards: the URLs seen, the new URLs scheduled in order, and whether it raised. */
  datatype CardScan = CardScan(seen: set<string>, urls: seq<string>, raised: bool)

  /** Scanning the cards in order; a titled card without a usable link raises. */
  function Scan(cards: seq<Card>, seen0: set<string>): CardScan
  {
    if cards == [] then CardScan(seen0, [], false)
    else
      var p := Scan(cards[..|cards| - 1], seen0);
      var c := cards[|cards| - 1];
      if p.raised || c.Untitled? then p
      else if c.href.None? then p.(raised := true)
      else if c.href.value in p.seen then p
      else CardScan(p.seen + {c.href.value}, p.urls + [c.href.value], false)
  }

  predicate Distinct<T(==)>(xs: seq<T>)
  {
    forall i, j :: 0 <= i < j < |xs| ==> xs[i] != xs[j]
  }

  function Elems<T>(xs: seq<T>): set<T>
  {
    set x | x in xs
  }

  /** A sequence without repetitions has as many distinct elements as it has positions. */
  lemma {:induction false} DistinctCard<T>(xs: seq<T>)
    requires Distinct(xs)
    ensures |Elems(xs)| == |xs|
  {
    if xs != [] {
      var init := xs[..|xs| - 1];
      DistinctCard(init);
      assert Elems(xs) == Elems(init) + {xs[|xs| - 1]};
      assert forall k :: 0 <= k < |init| ==> init[k] == xs[k];
      assert xs[|xs| - 1] !in Elems(init);
    }
  }

  /**
   * A page scan that does not raise schedules each URL at most once, never
   * one that was seen before, and every titled card's URL: the new seen set
   * is the old one plus the scheduled URLs.
   */
  lemma {:induction false} ScanProperties(cards: seq<Card>, seen0: set<string>)
    requires !Scan(cards, seen0).raised
    ensures var sc := Scan(cards, seen0);
            sc.seen == seen0 + Elems(sc.urls) && Distinct(sc.urls)
            && (forall k :: 0 <= k < |sc.urls| ==> sc.urls[k] !in seen0)
            && (forall k :: 0 <= k < |cards| && cards[k].Titled? ==> cards[k].href.Some? && cards[k].href.value in sc.seen)
  {
    if cards != [] {
      var init := cards[..|cards| - 1];
      var p := Scan(init, seen0);
      ScanProperties(init, seen0);
      var sc := Scan(cards, seen0);
      assert forall k :: 0 <= k < |init| ==> cards[k] == init[k];
      if !(p.raised || cards[|cards| - 1].Untitled?) && cards[|cards| - 1].href.value !in p.seen {
        assert Elems(sc.urls) == Elems(p.urls) + {cards[|cards| - 1].href.value};
      }
    }
  }

  /** Once a scan has raised, the cards after that point do not matter. */
  lemma {:induction false} ScanRaisedStays(cards: seq<Card>, seen0: set<string>, n: nat)
    requires n <= |cards| && Scan(cards[..n], seen0).raised
    ensures Scan(cards, seen0).raised
    decreases |cards|
  {
    if n < |cards| {
      var init := cards[..|cards| - 1];
      assert init[..n] == cards[..n];
      ScanRaisedStays(init, seen0, n);
    } else {
      assert cards[..n] == cards;
    }
  }

  /** The loop over one page's cards. */
  method ScanCards(cards: seq<Card>, seen0: set<string>) returns (seen: set<string>, urls: seq<string>, raised: bool)
    ensures raised == Scan(cards, seen0).raised
    ensures !raised ==> seen == Scan(cards, seen0).seen && urls == Scan(cards, seen0).urls
  {
    seen, urls, raised := seen0, [], false;
    for i := 0 to |cards|
      invariant CardScan(seen, urls, false) == Scan(cards[..i], seen0)
    {
      assert cards[..i + 1][..i] == cards[..i];
      var card := cards[i];
      if card.Titled? {
        if card.href.None? {
          raised := true;
          ScanRaisedStays(cards, seen0, i + 1);
          return;
        }
        var url := card.href.value;
        if url !in seen {
          seen := seen + {url};
          urls := urls + [url];
        }
      }
    }
    assert cards[..|cards|] == cards;
  }

  // ------------------------------------------------------------------
  // The crawl
  // ------------------------------------------------------------------

  /** Why the loop ended: enough records, a page without cards, a page without a new URL, or an exception. */
  datatype Halt = Capped | NoCards | NoNew | Raised

  /** The crawler's state: the records, the URLs seen, the new-URL count of the last page, and why it stopped. */
  datatype Walker = Walker(news: seq<Record>, seen: set<string>, lastNew: nat, halt: Option<Halt>)

  const Init := Walker([], {}, 0, None)

  /** After a page's scan: its records appended in task order, its URLs marked as seen. */
  function AfterPage(q: Query, s: Walker, sc: CardScan): Walker
  {
    s.(news := s.news + Records(q, sc.urls), seen := sc.seen, lastNew := |sc.urls|)
  }

  /** The test after a page: stop once there are enough records or the page brought nothing new. */
  function Settle(q: Query, s: Walker): Walker
  {
    if |s.news| >= q.maxResults then s.(halt := Some(Capped))
    else if s.lastNew == 0 then s.(halt := Some(NoNew))
    else s
  }

  function WalkPages(q: Query, s: Walker, pages: seq<Listing>): Walker
    decreases |pages|
  {
    if s.halt.Some? then s
    else if |s.news| >= q.maxResults then s.(halt := Some(Capped))
    else if pages == [] then s.(halt := Some(NoCards))
    else match pages[0]
      case RequestFailed => s.(halt := Some(Raised))
      case Cards(cs) =>
        if cs == [] then s.(halt := Some(NoCards))
        else
          var sc := Scan(cs, s.seen);
          if sc.raised then s.(halt := Some(Raised))
          else WalkPages(q, Settle(q, AfterPage(q, s, sc)), pages[1..])
  }

  function Crawl(q: Query, pages: seq<Listing>): Walker
  {
    WalkPages(q, Init, pages)
  }

  /** What get_news_data gives back: the records, or an exception. */
  datatype Outcome = Returned(news: seq<Record>) | Threw

  function Result(w: Walker): Outcome
  {
    if w.halt == Some(Raised) then Threw else Returned(w.news)
  }

  /** Walking from page p: the page decides whether the walk ends there or goes on with the next page. */
  lemma PagesStep(q: Query, s: Walker, pages: seq<Listing>, p: nat)
    requires p < |pages| && s.halt.None? && |s.news| < q.maxResults
    ensures pages[p].RequestFailed? ==> WalkPages(q, s, pages[p..]) == s.(halt := Some(Raised))
    ensures pages[p] == Cards([]) ==> WalkPages(q, s, pages[p..]) == s.(halt := Some(NoCards))
    ensures pages[p].Cards? && pages[p].cards != [] ==>
              var sc := Scan(pages[p].cards, s.seen);
              WalkPages(q, s, pages[p..]) == if sc.raised then s.(halt := Some(Raised))
                                             else WalkPages(q, Settle(q, AfterPage(q, s, sc)), pages[p + 1..])
  {
    assert pages[p..][0] == pages[p] && pages[p..][1..] == pages[p + 1..];
  }

  /**
   * get_news_data: request page after page while fewer than the requested
   * number of records are held, schedule the page's new URLs, gather their
   * records, and stop on a page without cards or without a new URL.
   */
  method GetNewsData(q: Query, pages: seq<Listing>) returns (out: Outcome)
    ensures out == Result(Crawl(q, pages))
  {
    ghost var goal := Crawl(q, pages);
    var news: seq<Record> := [];
    var seen: set<string> := {};
    var lastNew: nat := 0;
    var halt: Option<Halt> := None;
    var page := 0;  // the page requested next is page + 1
    while |news| < q.maxResults && halt.None?
      invariant page <= |pages|
      invariant WalkPages(q, Walker(news, seen, lastNew, halt), pages[page..]) == goal
      decreases |pages| - page, halt.None?
    {
      if page == |pages| {
        halt := Some(NoCards);
      } else {
        PagesStep(q, Walker(news, seen, lastNew, None), pages, page);
        match pages[page] {
          case RequestFailed =>
            halt := Some(Raised);       // raise_for_status propagates
          case Cards(cards) =>
            if cards == [] {
              halt := Some(NoCards);
            } else {
              var newSeen, urls, raised := ScanCards(cards, seen);
              if raised {
                halt := Some(Raised);
              } else {
                var results := Gather(q, urls);
                news, seen, lastNew := news + results, newSeen, |urls|;
                if |news| >= q.maxResults {
                  halt := Some(Capped);
                } else if lastNew == 0 {
                  halt := Some(NoNew);
                }
                page := page + 1;
              }
            }
        }
      }
    }
    out := if halt == Some(Raised) then Threw else Returned(news);
  }

  // ------------------------------------------------------------------
  // Properties of the crawl
  // ------------------------------------------------------------------

  function Urls(rs: seq<Record>): (us: seq<string>)
    ensures |us| == |rs| && forall k :: 0 <= k < |rs| ==> us[k] == rs[k].url
  {
    if rs == [] then [] else Urls(rs[..|rs| - 1]) + [rs[|rs| - 1].url]
  }

  /** No URL has two records, and the seen set is exactly the set of record URLs. */
  ghost predicate Consistent(s: Walker)
  {
    Distinct(Urls(s.news)) && s.seen == Elems(Urls(s.news))
  }

  lemma UrlsAppend(q: Query, rs: seq<Record>, urls: seq<string>)
    ensures Urls(rs + Records(q, urls)) == Urls(rs) + urls
  {
    var all := rs + Records(q, urls);
    assert forall k :: |rs| <= k < |all| ==> all[k].url == urls[k - |rs|];
  }

  /** Two sequences without repetitions and without common elements join into one without repetitions. */
  lemma DistinctAppend<T>(a: seq<T>, b: seq<T>)
    requires Distinct(a) && Distinct(b) && forall k :: 0 <= k < |b| ==> b[k] !in Elems(a)
    ensures Distinct(a + b) && Elems(a + b) == Elems(a) + Elems(b)
  {
    forall i, j | 0 <= i < j < |a + b|
      ensures (a + b)[i] != (a + b)[j]
    {
      if i < |a| && j >= |a| {
        assert (a + b)[i] in Elems(a);
        assert (a + b)[j] == b[j - |a|];
      }
    }
  }

  /** Appending a page's records keeps the records and the seen set in step. */
  lemma PageConsistent(q: Query, s: Walker, cards: seq<Card>)
    requires Consistent(s) && !Scan(cards, s.seen).raised
    ensures Consistent(AfterPage(q, s, Scan(cards, s.seen)))
  {
    var sc := Scan(cards, s.seen);
    ScanProperties(cards, s.seen);
    UrlsAppend(q, s.news, sc.urls);
    DistinctAppend(Urls(s.news), sc.urls);
  }

  /**
   * The overshoot is bounded by the last page: the records exceed the
   * request by less than what the last page added (or there are none).
   */
  ghost predicate Bounded(q: Query, s: Walker)
  {
    s.news == [] || |s.news| < q.maxResults + s.lastNew
  }

  /** Why a halted walk stopped agrees with its state. */
  ghost predicate HaltAgrees(q: Query, s: Walker)
  {
    (s.halt == Some(Capped) ==> |s.news| >= q.maxResults)
    && (s.halt == Some(NoNew) ==> s.lastNew == 0 && |s.news| < q.maxResults)
  }

  lemma {:induction false} PagesConsistent(q: Query, s: Walker, pages: seq<Listing>)
    requires Consistent(s)
    ensures Consistent(WalkPages(q, s, pages))
    decreases |pages|
  {
    if s.halt.None? && |s.news| < q.maxResults && pages != [] && pages[0].Cards? && pages[0].cards != []
       && !Scan(pages[0].cards, s.seen).raised {
      PageConsistent(q, s, pages[0].cards);
      PagesConsistent(q, Settle(q, AfterPage(q, s, Scan(pages[0].cards, s.seen))), pages[1..]);
    }
  }

  lemma {:induction false} PagesBounded(q: Query, s: Walker, pages: seq<Listing>)
    requires Bounded(q, s) && HaltAgrees(q, s)
    ensures var w := WalkPages(q, s, pages);
            w.halt.Some? && Bounded(q, w) && HaltAgrees(q, w) && s.seen <= w.seen && s.news <= w.news
    decreases |pages|
  {
    if s.halt.None? && |s.news| < q.maxResults && pages != [] && pages[0].Cards? && pages[0].cards != []
       && !Scan(pages[0].cards, s.seen).raised {
      var sc := Scan(pages[0].cards, s.seen);
      ScanProperties(pages[0].cards, s.seen);
      var t := Settle(q, AfterPage(q, s, sc));
      assert s.news <= t.news;
      PagesBounded(q, t, pages[1..]);
    }
  }

  /**
   * What a crawl returns: no URL twice, as many records as distinct URLs
   * seen, and a definite reason to stop that agrees with the state; the
   * records exceed the request by less than the last page's new URLs. A
   * request of zero or fewer records returns at once, reading no page.
   */
  lemma CrawlProperties(q: Query, pages: seq<Listing>)
    ensures var w := Crawl(q, pages);
            w.halt.Some? && Distinct(Urls(w.news)) && w.seen == Elems(Urls(w.news)) && |w.news| == |w.seen|
            && HaltAgrees(q, w) && (w.news == [] || |w.news| < q.maxResults + w.lastNew)
    ensures q.maxResults <= 0 ==> Crawl(q, pages) == Walker([], {}, 0, Some(Capped))
  {
    assert Urls([]) == [];
    PagesConsistent(q, Init, pages);
    PagesBounded(q, Init, pages);
    DistinctCard(Urls(Crawl(q, pages).news));
  }

  /** A page without cards ends the crawl: no page after it is requested. */
  lemma {:induction false} EmptyPageEndsCrawl(q: Query, s: Walker, pages: seq<Listing>, more: seq<Listing>)
    ensures WalkPages(q, s, pages + [Cards([])] + more) == WalkPages(q, s, pages)
    decreases |pages|
  {
    var all := pages + [Cards([])] + more;
    if s.halt.None? && |s.news| < q.maxResults && pages != [] {
      assert all[0] == pages[0] && all[1..] == pages[1..] + [Cards([])] + more;
      if pages[0].Cards? && pages[0].cards != [] && !Scan(pages[0].cards, s.seen).raised {
        EmptyPageEndsCrawl(q, Settle(q, AfterPage(q, s, Scan(pages[0].cards, s.seen))), pages[1..], more);
      }
    }
  }
}
