/**
 * cnbc.py: the CNBC Indonesia crawler with a fixed date range.
 *
 * The range is an optional start date and an end date that defaults to now.
 * Result pages p = 1, 2, ... are walked in order; every list item is counted as
 * an attempt; an item whose listing title lacks the keyword (ignoring case) or
 * whose article page lacks markup is skipped; an article older than the start
 * date is skipped; the first article newer than the end date ends the whole
 * crawl; any other article is written as a CSV row. A missing or empty result
 * list ends the crawl, and any exception while a page is processed ends it too.
 *
 * The newer-than-end rule is a parameter here: `StopAtNewer` is the program as
 * written, `SkipNewer` is the corrected rule that the result list's newest-first
 * order calls for (see CounterexampleNewestFirst and CorrectedCollectsWindow).
 */
module Cnbc {
  import opened Common

  /** The date div of an article: absent, not in '%d %B %Y %H:%M' form, or its parsed time. */
  datatype DateField = NoDateDiv | Unparsable | Parsed(stamp: int)

  /**
   * The parts of an article page the crawler reads. `headline` is the h1 text,
   * None when the 'lm_content mt10' div, its article or its h1 is missing.
   */
  datatype ArticlePage = ArticlePage(headline: Option<string>, date: DateField)

  /** The article request: requests.get raised, or the page it returned (its status is not checked). */
  datatype Target = Unreachable | Fetched(page: ArticlePage)

  /** One <li> of the result list: no <article>, no <a>, or the anchor with its text, href and linked page. */
  datatype Item =
    | NoArticle
    | NoAnchor
    | Anchor(text: string, href: Option<string>, target: Target)

  /** One result page: the request or its status failed, the result list is missing, or its items. */
  datatype Listing = Failed | NoList | List(items: seq<Item>)

  /** What an article newer than the end date does: end the crawl (as written) or be skipped (corrected). */
  datatype NewerRule = StopAtNewer | SkipNewer

  /** The keyword, the optional start date, the end date and the newer-than-end rule. */
  datatype Query = Query(keyword: string, start: Option<int>, end: int, rule: NewerRule)

  /** A CSV row: headline, article date, link. */
  datatype Row = Row(headline: string, date: int, link: string)

  datatype Halt = EmptyListing | NewerThanEnd | Raised

  datatype Verdict = Skip | Write(row: Row) | Stop(reason: Halt)

  /** The crawl's variables: the rows written, total_attempts, and why the crawl ended. */
  datatype Walker = Walker(rows: seq<Row>, attempts: nat, halt: Option<Halt>)

  const Init := Walker([], 0, None)

  // ------------------------------------------------------------------
  // The date range
  // ------------------------------------------------------------------

  /**
   * The start and end dates from the two entered strings: an empty start means
   * no lower bound, an empty end means now, and a non-empty string that does
   * not parse as DD/MM/YYYY raises before anything is fetched (None).
   */
  function Range(parse: string -> Option<int>, startText: string, endText: string, now: int): (r: Option<(Option<int>, int)>)
    ensures r.None? <==> (startText != [] && parse(startText).None?) || (endText != [] && parse(endText).None?)
    ensures r.Some? ==> (r.value.0.None? <==> startText == [])
                        && (startText != [] ==> r.value.0 == parse(startText))
                        && (endText == [] ==> r.value.1 == now)
                        && (endText != [] ==> Some(r.value.1) == parse(endText))
  {
    var start := if startText == [] then None else parse(startText);
    if startText != [] && start.None? then None
    else if endText == [] then Some((start, now))
    else if parse(endText).None? then None
    else Some((start, parse(endText).value))
  }

  /** The article date is at or after the start date (always, without one) and at or before the end date. */
  predicate InWindow(q: Query, d: int)
  {
    (q.start.None? || q.start.value <= d) && d <= q.end
  }

  /** Without a start date only the end date bounds what is written. */
  lemma NoStartNoLowerBound(q: Query, d: int)
    requires q.start.None?
    ensures InWindow(q, d) <==> d <= q.end
  {
  }

  // ------------------------------------------------------------------
  // The loop body
  // ------------------------------------------------------------------

  /**
   * What the loop body does with a fetched article page: missing markup is
   * skipped, an unparsable date raises, an older article is skipped, a newer
   * one ends the crawl (or is skipped, under the corrected rule), and anything
   * else is written.
   */
  function PageVerdict(q: Query, page: ArticlePage, link: string): (v: Verdict)
    ensures v.Write? <==> page.headline.Some? && page.date.Parsed? && InWindow(q, page.date.stamp)
    ensures v.Write? ==> v.row == Row(page.headline.value, page.date.stamp, link)
    ensures v == Stop(Raised) <==> page.headline.Some? && page.date.Unparsable?
    ensures v == Stop(NewerThanEnd) <==>
              && page.headline.Some? && page.date.Parsed? && q.rule == StopAtNewer
              && !(q.start.Some? && page.date.stamp < q.start.value) && page.date.stamp > q.end
    ensures v != Stop(EmptyListing)
  {
    if page.headline.None? || page.date.NoDateDiv? then Skip
    else if page.date.Unparsable? then Stop(Raised)                          // strptime raises
    else if q.start.Some? && page.date.stamp < q.start.value then Skip
    else if page.date.stamp > q.end then (if q.rule == StopAtNewer then Stop(NewerThanEnd) else Skip)
    else Write(Row(page.headline.value, page.date.stamp, link))
  }

  /**
   * What the loop body does with one list item: no article or no anchor is
   * skipped; an anchor with empty text has no title and raises; a title
   * without the keyword is skipped; a missing href or a failed article request
   * raises; otherwise the article page decides.
   */
  function Judge(q: Query, it: Item): (v: Verdict)
    ensures v.Write? ==> InWindow(q, v.row.date)
    ensures v.Stop? ==> v.reason != EmptyListing
  {
    match it
    case NoArticle => Skip
    case NoAnchor => Skip
    case Anchor(text, href, target) =>
      if text == [] then Stop(Raised)                                  // title is None: None.lower() raises
      else if !ContainsIgnoringCase(Strip(text), q.keyword) then Skip
      else if href.None? then Stop(Raised)                             // a_tag['href'] raises KeyError
      else if target.Unreachable? then Stop(Raised)                    // the article request raises
      else PageVerdict(q, target.page, href.value)
  }

  /** A written item had the keyword in its title, and its row is its linked article, inside the range. */
  lemma WrittenItem(q: Query, it: Item)
    requires Judge(q, it).Write?
    ensures var r := Judge(q, it).row;
            && it.Anchor? && ContainsIgnoringCase(Strip(it.text), q.keyword) && it.href == Some(r.link)
            && it.target.Fetched? && it.target.page.headline == Some(r.headline)
            && it.target.page.date == Parsed(r.date) && InWindow(q, r.date)
  {
  }

  /** A listing title without the keyword is skipped, whatever its article says. */
  lemma KeywordMissSkipped(q: Query, it: Item)
    requires it.Anchor? && it.text != [] && !ContainsIgnoringCase(Strip(it.text), q.keyword)
    ensures Judge(q, it) == Skip
  {
  }

  /** Under the corrected rule only an exception ends the crawl from inside a page. */
  lemma CorrectedStopsOnlyOnRaise(q: Query, it: Item)
    requires q.rule == SkipNewer && Judge(q, it).Stop?
    ensures Judge(q, it) == Stop(Raised)
  {
  }

  /** The loop body's verdict on each item of the query. */
  function Verdicts(q: Query): Item -> Verdict
  {
    it => Judge(q, it)
  }

  lemma VerdictOf(q: Query, it: Item)
    ensures Verdicts(q)(it) == Judge(q, it)
  {
  }

  /** One pass of the loop body: the attempt counter, then the verdict. */
  function Step(judge: Item -> Verdict, s: Walker, it: Item): Walker
  {
    var s1 := s.(attempts := s.attempts + 1);
    match judge(it)
    case Skip => s1
    case Stop(h) => s1.(halt := Some(h))
    case Write(r) => s1.(rows := s1.rows + [r])
  }

  /** The `for` loop over the items of one result page, up to the first item that ends the crawl. */
  function WalkItems(judge: Item -> Verdict, s: Walker, items: seq<Item>): Walker
    decreases |items|
  {
    if s.halt.Some? || items == [] then s
    else WalkItems(judge, Step(judge, s, items[0]), items[1..])
  }

  /**
   * The `while more_pages` loop from a state, with the given result pages still
   * to come; a page past the end of the input has no result list.
   */
  function WalkPages(judge: Item -> Verdict, s: Walker, pages: seq<Listing>): Walker
    decreases |pages|
  {
    if s.halt.Some? then s
    else if pages == [] then s.(halt := Some(EmptyListing))
    else
      match pages[0]
      case Failed => s.(halt := Some(Raised))
      case NoList => s.(halt := Some(EmptyListing))
      case List(li) =>
        if li == [] then s.(halt := Some(EmptyListing))
        else WalkPages(judge, WalkItems(judge, s, li), pages[1..])
  }

  function Crawl(q: Query, pages: seq<Listing>): Walker
  {
    WalkPages(Verdicts(q), Init, pages)
  }

  // ------------------------------------------------------------------
  // The crawl loop
  // ------------------------------------------------------------------

  /**
   * scrape_cnbc: the date range, then the `while more_pages` loop. `raised`
   * says that an entered date did not parse, which raises before the loop.
   * `processed` is the final a - 1. The program as written is rule StopAtNewer.
   */
  method ScrapeCnbc(keyword: string, startText: string, endText: string, parse: string -> Option<int>,
                    now: int, rule: NewerRule, pages: seq<Listing>)
    returns (raised: bool, rows: seq<Row>, totalAttempts: nat, processed: nat)
    ensures raised <==> Range(parse, startText, endText, now).None?
    ensures raised ==> rows == [] && totalAttempts == 0
    ensures !raised ==>
              var range := Range(parse, startText, endText, now).value;
              var w := Crawl(Query(keyword, range.0, range.1, rule), pages);
              rows == w.rows && totalAttempts == w.attempts
    ensures processed == |rows| <= totalAttempts
  {
    var range := Range(parse, startText, endText, now);
    if range.None? {
      return true, [], 0, 0;
    }
    raised := false;
    var q := Query(keyword, range.value.0, range.value.1, rule);
    var a := 1;
    rows, totalAttempts := [], 0;
    var halt: Option<Halt> := None;
    var page := 0;  // index of the result page requested next (the URL's p is page + 1)
    var morePages := true;
    ghost var goal := Crawl(q, pages);
    CrawlCounts(q, pages);
    while morePages
      invariant page <= |pages|
      invariant morePages <==> halt.None?
      invariant a == |rows| + 1
      invariant WalkPages(Verdicts(q), Walker(rows, totalAttempts, halt), pages[page..]) == goal
      decreases |pages| - page, morePages
    {
      if page == |pages| {
        halt := Some(EmptyListing);
        morePages := false;
      } else {
        assert pages[page..][0] == pages[page] && pages[page..][1..] == pages[page + 1..];
        match pages[page] {
          case Failed =>
            halt := Some(Raised);
          case NoList =>
            halt := Some(EmptyListing);
          case List(li) =>
            if li == [] {
              halt := Some(EmptyListing);
            } else {
              rows, totalAttempts, halt, a := ScanItems(q, li, rows, totalAttempts, a);
            }
        }
        morePages := halt.None?;
        page := page + 1;
      }
    }
    processed := a - 1;
  }

  /**
   * The `for` loop over one result page: each item is counted as an attempt and
   * judged; a written row bumps a; the first item that ends the crawl stops the
   * loop and says why.
   */
  method ScanItems(q: Query, li: seq<Item>, rows0: seq<Row>, attempts0: nat, a0: int)
    returns (rows: seq<Row>, totalAttempts: nat, halt: Option<Halt>, a: int)
    ensures Walker(rows, totalAttempts, halt) == WalkItems(Verdicts(q), Walker(rows0, attempts0, None), li)
    ensures a - |rows| == a0 - |rows0|
  {
    ghost var goal := WalkItems(Verdicts(q), Walker(rows0, attempts0, None), li);
    rows, totalAttempts, a := rows0, attempts0, a0;
    halt := None;
    var i := 0;
    while i < |li| && halt.None?
      invariant i <= |li|
      invariant a - |rows| == a0 - |rows0|
      invariant WalkItems(Verdicts(q), Walker(rows, totalAttempts, halt), li[i..]) == goal
    {
      ItemsStep(Verdicts(q), Walker(rows, totalAttempts, None), li, i);
      ghost var next := Step(Verdicts(q), Walker(rows, totalAttempts, None), li[i]);
      totalAttempts := totalAttempts + 1;
      var v := Judge(q, li[i]);
      VerdictOf(q, li[i]);
      if v.Stop? {
        halt := Some(v.reason);   // newer than the end date, or an exception for the page handler
      } else if v.Write? {
        a := a + 1;
        rows := rows + [v.row];
      }
      assert Walker(rows, totalAttempts, halt) == next;
      i := i + 1;
    }
    if i == |li| {
      assert li[i..] == [];
    }
  }

  /** Walking from item i of a page is stepping over that item, then walking from item i + 1. */
  lemma ItemsStep(judge: Item -> Verdict, s: Walker, li: seq<Item>, i: nat)
    requires i < |li| && s.halt.None?
    ensures WalkItems(judge, s, li[i..]) == WalkItems(judge, Step(judge, s, li[i]), li[i + 1..])
  {
    assert li[i..][0] == li[i] && li[i..][1..] == li[i + 1..];
  }

  // ------------------------------------------------------------------
  // Properties of the crawl
  // ------------------------------------------------------------------

  /** What holds of the crawl's variables at every point: rows are at most attempts and lie in the range. */
  ghost predicate Consistent(q: Query, s: Walker)
  {
    |s.rows| <= s.attempts && forall k :: 0 <= k < |s.rows| ==> InWindow(q, s.rows[k].date)
  }

  lemma {:induction false} ItemsConsistent(q: Query, s: Walker, items: seq<Item>)
    requires Consistent(q, s)
    ensures Consistent(q, WalkItems(Verdicts(q), s, items))
    decreases |items|
  {
    if s.halt.None? && items != [] {
      VerdictOf(q, items[0]);
      ItemsConsistent(q, Step(Verdicts(q), s, items[0]), items[1..]);
    }
  }

  lemma {:induction false} PagesConsistent(q: Query, s: Walker, pages: seq<Listing>)
    requires Consistent(q, s)
    ensures Consistent(q, WalkPages(Verdicts(q), s, pages))
    ensures WalkPages(Verdicts(q), s, pages).halt.Some?
    decreases |pages|
  {
    if s.halt.None? && pages != [] && pages[0].List? && pages[0].items != [] {
      ItemsConsistent(q, s, pages[0].items);
      PagesConsistent(q, WalkItems(Verdicts(q), s, pages[0].items), pages[1..]);
    }
  }

  /**
   * The counters: a - 1 (the rows written) is at most total_attempts, every row
   * lies in the range, and the crawl always ends with a reason.
   */
  lemma CrawlCounts(q: Query, pages: seq<Listing>)
    ensures var w := Crawl(q, pages);
            && |w.rows| <= w.attempts && w.halt.Some?
            && forall k :: 0 <= k < |w.rows| ==> InWindow(q, w.rows[k].date)
  {
    PagesConsistent(q, Init, pages);
  }

  /** Every item of the result pages that the crawl can reach, in listing order. */
  function AllItems(pages: seq<Listing>): seq<Item>
  {
    if pages == [] then [] else (if pages[0].List? then pages[0].items else []) + AllItems(pages[1..])
  }

  /** The rows a verdict function writes for the given items, in order. */
  function Written(judge: Item -> Verdict, items: seq<Item>): seq<Row>
  {
    if items == [] then [] else (if judge(items[0]).Write? then [judge(items[0]).row] else []) + Written(judge, items[1..])
  }

  /** No item of the sequence ends the crawl. */
  ghost predicate NoStop(judge: Item -> Verdict, items: seq<Item>)
  {
    forall k :: 0 <= k < |items| ==> !judge(items[k]).Stop?
  }

  /** A page none of whose items ends the crawl writes exactly its written rows and counts every item. */
  lemma {:induction false} ItemsWithoutStop(judge: Item -> Verdict, s: Walker, items: seq<Item>)
    requires s.halt.None? && NoStop(judge, items)
    ensures WalkItems(judge, s, items) == Walker(s.rows + Written(judge, items), s.attempts + |items|, None)
    decreases |items|
  {
    if items != [] {
      var v := judge(items[0]);
      assert !v.Stop?;
      var w0 := if v.Write? then [v.row] else [];
      var s1 := Step(judge, s, items[0]);
      assert s1 == Walker(s.rows + w0, s.attempts + 1, None);
      assert NoStop(judge, items[1..]) by {
        forall k | 0 <= k < |items[1..]| ensures !judge(items[1..][k]).Stop? {
          assert items[1..][k] == items[k + 1];
        }
      }
      ItemsWithoutStop(judge, s1, items[1..]);
      assert Written(judge, items) == w0 + Written(judge, items[1..]);
      assert (s.rows + w0) + Written(judge, items[1..]) == s.rows + (w0 + Written(judge, items[1..]));
    }
  }

  /** Every page is a non-empty result list. */
  predicate AllLists(pages: seq<Listing>)
  {
    forall k :: 0 <= k < |pages| ==> pages[k].List? && pages[k].items != []
  }

  /**
   * When every page is a non-empty list and no item ends the crawl, every item
   * is attempted, the rows are exactly the written rows of all items in listing
   * order, and the crawl ends on the empty page after the last one.
   */
  lemma {:induction false} PagesWithoutStop(judge: Item -> Verdict, s: Walker, pages: seq<Listing>)
    requires s.halt.None? && AllLists(pages) && NoStop(judge, AllItems(pages))
    ensures WalkPages(judge, s, pages)
            == Walker(s.rows + Written(judge, AllItems(pages)), s.attempts + |AllItems(pages)|, Some(EmptyListing))
    decreases |pages|
  {
    if pages != [] {
      var li := pages[0].items;
      assert AllItems(pages) == li + AllItems(pages[1..]);
      WrittenAppend(judge, li, AllItems(pages[1..]));
      assert NoStop(judge, li) by {
        forall k | 0 <= k < |li| ensures !judge(li[k]).Stop? {
          assert li[k] == AllItems(pages)[k];
        }
      }
      assert NoStop(judge, AllItems(pages[1..])) by {
        forall k | 0 <= k < |AllItems(pages[1..])| ensures !judge(AllItems(pages[1..])[k]).Stop? {
          assert AllItems(pages[1..])[k] == AllItems(pages)[|li| + k];
        }
      }
      assert AllLists(pages[1..]) by {
        forall k | 0 <= k < |pages[1..]| ensures pages[1..][k].List? && pages[1..][k].items != [] {
          assert pages[1..][k] == pages[k + 1];
        }
      }
      ItemsWithoutStop(judge, s, li);
      PagesWithoutStop(judge, WalkItems(judge, s, li), pages[1..]);
    }
  }

  lemma {:induction false} WrittenAppend(judge: Item -> Verdict, a: seq<Item>, b: seq<Item>)
    ensures Written(judge, a + b) == Written(judge, a) + Written(judge, b)
    decreases |a|
  {
    if a != [] {
      assert (a + b)[0] == a[0] && (a + b)[1..] == a[1..] + b;
      WrittenAppend(judge, a[1..], b);
      var w0 := if judge(a[0]).Write? then [judge(a[0]).row] else [];
      assert Written(judge, a + b) == w0 + Written(judge, a[1..] + b);
      assert Written(judge, a) == w0 + Written(judge, a[1..]);
      assert w0 + (Written(judge, a[1..]) + Written(judge, b)) == (w0 + Written(judge, a[1..])) + Written(judge, b);
    } else {
      assert a + b == b;
    }
  }

  /**
   * The corrected rule does what the date range means: when no item raises and
   * every page is a non-empty list, the crawl attempts every item and writes
   * exactly, in listing order, the items whose title has the keyword and whose
   * article lies in the range, however the newer articles are placed.
   */
  lemma CorrectedCollectsWindow(q: Query, pages: seq<Listing>)
    requires q.rule == SkipNewer && AllLists(pages)
    requires forall it :: it in AllItems(pages) ==> Judge(q, it) != Stop(Raised)
    ensures Crawl(q, pages) == Walker(Written(Verdicts(q), AllItems(pages)), |AllItems(pages)|, Some(EmptyListing))
  {
    var items := AllItems(pages);
    forall k | 0 <= k < |items| ensures !Verdicts(q)(items[k]).Stop? {
      VerdictOf(q, items[k]);
      if Judge(q, items[k]).Stop? {
        CorrectedStopsOnlyOnRaise(q, items[k]);
      }
    }
    PagesWithoutStop(Verdicts(q), Init, pages);
  }

  /** Once an item halts the walk, whatever follows it on its page is never looked at. */
  lemma {:induction false} ItemsIgnoreRest(judge: Item -> Verdict, s: Walker, a: seq<Item>, rest: seq<Item>)
    requires a != [] && judge(a[|a| - 1]).Stop?
    ensures WalkItems(judge, s, a + rest) == WalkItems(judge, s, a)
    ensures WalkItems(judge, s, a).halt.Some?
    decreases |a|
  {
    if s.halt.None? {
      assert (a + rest)[0] == a[0] && (a + rest)[1..] == a[1..] + rest;
      if |a| > 1 {
        ItemsIgnoreRest(judge, Step(judge, s, a[0]), a[1..], rest);
      }
    }
  }

  /** ... nor are the pages after it. */
  lemma {:induction false} PagesIgnoreRest(judge: Item -> Verdict, s: Walker, before: seq<Listing>,
                                           a: seq<Item>, rest: seq<Item>, later: seq<Listing>)
    requires a != [] && judge(a[|a| - 1]).Stop?
    ensures WalkPages(judge, s, before + [List(a + rest)] + later) == WalkPages(judge, s, before + [List(a)])
    decreases |before|
  {
    var p1 := before + [List(a + rest)] + later;
    var p2 := before + [List(a)];
    if s.halt.Some? {
    } else if before == [] {
      assert p1[0] == List(a + rest) && p1[1..] == later;
      assert p2[0] == List(a) && p2[1..] == [];
      ItemsIgnoreRest(judge, s, a, rest);
    } else {
      assert p1[0] == before[0] && p1[1..] == before[1..] + [List(a + rest)] + later;
      assert p2[0] == before[0] && p2[1..] == before[1..] + [List(a)];
      if before[0].List? && before[0].items != [] {
        PagesIgnoreRest(judge, WalkItems(judge, s, before[0].items), before[1..], a, rest, later);
      }
    }
  }

  /**
   * As written, the first item newer than the end date (like the first one that
   * raises) ends the whole crawl: every later item of its page and every later
   * page may be anything without changing the outcome.
   */
  lemma HaltingItemEndsCrawl(q: Query, before: seq<Listing>, li: seq<Item>, i: nat, rest: seq<Item>, later: seq<Listing>)
    requires i < |li| && Judge(q, li[i]).Stop?
    ensures Crawl(q, before + [List(li[..i + 1] + rest)] + later) == Crawl(q, before + [List(li[..i + 1])])
  {
    assert li[..i + 1][i] == li[i];
    VerdictOf(q, li[i]);
    PagesIgnoreRest(Verdicts(q), Init, before, li[..i + 1], rest, later);
  }

  /**
   * The result list is newest first. With an end date in the past, its first
   * item is newer than the end date, and as written the crawl stops there and
   * writes nothing, although the second item lies in the range; the corrected
   * rule writes it.
   */
  lemma CounterexampleNewestFirst()
    ensures var newer := Anchor("x", Some("n"), Fetched(ArticlePage(Some("N"), Parsed(20))));
            var inside := Anchor("x", Some("i"), Fetched(ArticlePage(Some("I"), Parsed(5))));
            var pages := [List([newer, inside])];
            && Crawl(Query("x", None, 10, StopAtNewer), pages).rows == []
            && Crawl(Query("x", None, 10, SkipNewer), pages).rows == [Row("I", 5, "i")]
  {
    var newer := Anchor("x", Some("n"), Fetched(ArticlePage(Some("N"), Parsed(20))));
    var inside := Anchor("x", Some("i"), Fetched(ArticlePage(Some("I"), Parsed(5))));
    var li := [newer, inside];
    var pages := [List(li)];
    TitleHasKeyword();
    var asWritten := Query("x", None, 10, StopAtNewer);
    var corrected := Query("x", None, 10, SkipNewer);
    assert li[0] == newer && li[1..] == [inside] && [inside][1..] == [] && pages[1..] == [];
    VerdictOf(asWritten, newer);
    assert Judge(asWritten, newer) == Stop(NewerThanEnd);
    var s1 := Step(Verdicts(asWritten), Init, newer);
    assert s1 == Walker([], 1, Some(NewerThanEnd));
    assert WalkItems(Verdicts(asWritten), Init, li) == s1;
    VerdictOf(corrected, newer);
    VerdictOf(corrected, inside);
    assert Judge(corrected, newer) == Skip;
    assert Judge(corrected, inside) == Write(Row("I", 5, "i"));
    var t1 := Step(Verdicts(corrected), Init, newer);
    assert t1 == Walker([], 1, None);
    var t2 := Step(Verdicts(corrected), t1, inside);
    assert t2 == Walker([Row("I", 5, "i")], 2, None);
    assert WalkItems(Verdicts(corrected), t1, [inside]) == WalkItems(Verdicts(corrected), t2, []);
    assert WalkItems(Verdicts(corrected), Init, li) == t2;
  }

  /** The listing title "x" contains the keyword "x". */
  lemma TitleHasKeyword()
    ensures Strip("x") == "x" && ContainsIgnoringCase("x", "x")
  {
    assert TrimStart("x") == "x";
    assert TrimEnd("x") == "x";
    var l := Lower("x");
    assert |l| == 1 && l[0] == 'x';
    assert l == "x";
    assert OccursAt(l, l, 0);
  }
}
