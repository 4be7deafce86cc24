/**
 * rev/cnbc.py: the CNBC Indonesia crawler with a trailing window.
 *
 * The window is [now - duration, now]. Result pages are walked in order; every
 * list item is counted as an attempt, its listing title must contain the keyword
 * (ignoring case), its article page is fetched and its date decides: newer than
 * the window is skipped, older than the window ends the whole crawl. Accepted
 * articles are recorded (a CSV row, or in full mode a record with the article
 * text) and counted per month and per year. A missing or empty result list, a
 * failed listing request, or any exception while a page is processed ends the crawl.
 */
module RevCnbc {
  import opened Common
  import opened Sentiment

  /** What a request produced: requests.get raised, or a response and whether its status was OK. */
  datatype Response<T> = Unreachable | Answer(statusOk: bool, body: T)

  /** The date div of an article: absent, not in '%d %B %Y %H:%M' form, or parsed. */
  datatype DateField = NoDateDiv | Unparsable | Parsed(date: Date)

  /**
   * The parts of an article page the crawler reads. `headline` is None when the
   * 'lm_content mt10' div, its article or its h1 is missing; `paragraphs` is None
   * when the 'detail_text' div is missing.
   */
  datatype ArticlePage = ArticlePage(headline: Option<string>, date: DateField, paragraphs: Option<seq<string>>)

  /** One <li> of the result list: no <article>, no <a>, or the anchor with its text, href and linked page. */
  datatype Item =
    | NoArticle
    | NoAnchor
    | Anchor(text: string, href: Option<string>, target: Response<ArticlePage>)

  /** One result page: the request failed, the result list is missing, or its items. */
  datatype Listing = ListingFailed | NoList | List(items: seq<Item>)

  datatype Query = Query(keyword: string, start: int, end: int, full: bool)

  /** A recorded article; `content` is present in full mode only. */
  datatype Record = Record(headline: string, date: Date, link: string, content: Option<string>)

  datatype Halt = EmptyListing | WindowExceeded | Raised

  datatype Verdict = Skip | Accept(record: Record) | Stop(reason: Halt)

  /** The crawl's variables: the records, total_attempts, total_count, the two counters, and why it ended. */
  datatype Walker = Walker(records: seq<Record>, attempts: nat, total: nat,
                           monthly: map<(int, int), nat>, yearly: map<int, nat>, halt: Option<Halt>)

  const Init := Walker([], 0, 0, map[], map[], None)

  /** The duration entered in `main`, in days. */
  function DurationDays(u: Unit, n: nat): (d: nat)
    ensures d == n * UnitDays(u)
    ensures n > 0 ==> d >= n
  {
    match u
    case Day => n
    case Week => n * 7
    case Month => n * 30
    case Year => n * 365
  }

  /** The window ends at the supplied date and reaches `days` back from it. */
  function SearchWindow(now: int, days: nat): (w: (int, int))
    ensures w.1 == now && w.0 == now - days * DaySeconds
    ensures w.0 <= w.1 && w.1 - w.0 == days * DaySeconds
  {
    (now - days * DaySeconds, now)
  }

  /** The full-mode text: the stripped paragraphs that are not empty, joined by newlines. */
  function ParagraphText(ps: seq<string>): (r: string)
    ensures NoSpaceAround(r)
  {
    if ps == [] then []
    else
      var head := Strip(ps[0]);
      var tail := ParagraphText(ps[1..]);
      if head == [] then tail
      else if tail == [] then head
      else
        JoinedNoSpaceAround(head, "\n", tail);
        head + "\n" + tail
  }

  /** The list comprehension `[p.strip() for p in ps if p.strip()]`: each paragraph stripped, the blank ones dropped. */
  function StrippedNonBlank(ps: seq<string>): (r: seq<string>)
    ensures |r| <= |ps|
    ensures r != [] ==> r[0] != []
  {
    if ps == [] then []
    else
      var head, rest := Strip(ps[0]), StrippedNonBlank(ps[1..]);
      if head == [] then rest else [head] + rest
  }

  /** Joining a list whose first text is non-empty gives a non-empty text. */
  lemma JoinNonEmpty(sep: string, ws: seq<string>)
    requires ws != [] && ws[0] != []
    ensures Join(sep, ws) != []
  {
  }

  /** Joining puts the separator between the first text and the join of the rest. */
  lemma JoinCons(sep: string, w: string, ws: seq<string>)
    requires ws != []
    ensures Join(sep, [w] + ws) == w + sep + Join(sep, ws)
  {
    assert ([w] + ws)[1..] == ws;
  }

  /** The full-mode text is `'\n'.join` of the stripped, non-blank paragraphs, in order. */
  lemma {:induction false} ParagraphTextJoins(ps: seq<string>)
    ensures ParagraphText(ps) == Join("\n", StrippedNonBlank(ps))
  {
    if ps != [] {
      ParagraphTextJoins(ps[1..]);
      var head, tail, rest := Strip(ps[0]), ParagraphText(ps[1..]), StrippedNonBlank(ps[1..]);
      assert tail == Join("\n", rest);
      if head == [] {
        assert StrippedNonBlank(ps) == rest;
      } else if rest == [] {
        assert StrippedNonBlank(ps) == [head];
      } else {
        JoinNonEmpty("\n", rest);
        JoinCons("\n", head, rest);
        assert StrippedNonBlank(ps) == [head] + rest;
      }
    }
  }

  /** The text is empty exactly when every paragraph is blank. */
  lemma {:induction false} ParagraphTextEmpty(ps: seq<string>)
    ensures ParagraphText(ps) == [] <==> AllBlank(ps)
  {
    if ps != [] {
      ParagraphTextEmpty(ps[1..]);
      ParagraphTextCons(ps);
      AllBlankCons(ps);
    }
  }

  /** Every paragraph strips to nothing. */
  predicate AllBlank(ps: seq<string>)
  {
    forall k :: 0 <= k < |ps| ==> Strip(ps[k]) == []
  }

  /** The text of a non-empty list is empty exactly when its first paragraph and the text of the rest are. */
  lemma ParagraphTextCons(ps: seq<string>)
    requires ps != []
    ensures ParagraphText(ps) == [] <==> Strip(ps[0]) == [] && ParagraphText(ps[1..]) == []
  {
  }

  lemma AllBlankCons(ps: seq<string>)
    requires ps != []
    ensures AllBlank(ps) <==> Strip(ps[0]) == [] && AllBlank(ps[1..])
  {
    AllCons(ps, (p: string) => Strip(p) == []);
  }

  lemma AllCons<T>(xs: seq<T>, ok: T -> bool)
    requires xs != []
    ensures (forall k :: 0 <= k < |xs| ==> ok(xs[k])) <==> ok(xs[0]) && forall k :: 0 <= k < |xs[1..]| ==> ok(xs[1..][k])
  {
    assert forall k :: 1 <= k < |xs| ==> xs[1..][k - 1] == xs[k];
  }

  function MonthKey(r: Record): (int, int) { (r.date.year, r.date.month) }

  /** The (year, month) keys of the records, in order. */
  function MonthKeys(rs: seq<Record>): (ks: seq<(int, int)>)
    ensures |ks| == |rs|
  {
    if rs == [] then [] else MonthKeys(rs[..|rs| - 1]) + [MonthKey(rs[|rs| - 1])]
  }

  /** The years of the records, in order. */
  function Years(rs: seq<Record>): (ys: seq<int>)
    ensures |ys| == |rs|
  {
    if rs == [] then [] else Years(rs[..|rs| - 1]) + [rs[|rs| - 1].date.year]
  }

  /** The article page an item leads to, when the crawler gets that far without an exception. */
  function Reached(q: Query, it: Item): Option<ArticlePage>
  {
    if it.Anchor? && it.text != [] && ContainsIgnoringCase(Strip(it.text), q.keyword)
       && it.href.Some? && it.target.Answer? && it.target.statusOk
    then Some(it.target.body)
    else None
  }

  /** What the loop body does with a fetched article page: the date decides, and only a dated, titled page counts. */
  function PageVerdict(q: Query, page: ArticlePage, link: string): (v: Verdict)
    ensures v.Accept? ==> page.headline == Some(v.record.headline) && page.date == Parsed(v.record.date)
                          && v.record.link == link && q.start <= v.record.date.stamp <= q.end
                          && (v.record.content.Some? <==> q.full)
    ensures v.Accept? && q.full ==> page.paragraphs.Some? && v.record.content == Some(ParagraphText(page.paragraphs.value))
    ensures page.headline.None? || !page.date.Parsed? ==> v == Skip
    ensures page.headline.Some? && page.date.Parsed? ==>
              (v == Stop(WindowExceeded) <==> page.date.date.stamp < q.start)
              && (q.start <= page.date.date.stamp && page.date.date.stamp > q.end ==> v == Skip)
              && (q.start <= page.date.date.stamp <= q.end && (!q.full || page.paragraphs.Some?) ==> v.Accept?)
    ensures v.Stop? ==> v.reason == WindowExceeded
  {
    if page.headline.None? || !page.date.Parsed? then Skip
    else if page.date.date.stamp < q.start then Stop(WindowExceeded)
    else if page.date.date.stamp > q.end then Skip
    else if q.full && page.paragraphs.None? then Skip
    else
      var content := if q.full then Some(ParagraphText(page.paragraphs.value)) else None;
      Accept(Record(page.headline.value, page.date.date, link, content))
  }

  /**
   * What the loop body does with one list item: an item without a title, a link
   * or a good response raises; a title without the keyword is skipped; otherwise
   * the article page decides.
   */
  function Judge(q: Query, it: Item): (v: Verdict)
    ensures v.Accept? ==> q.start <= v.record.date.stamp <= q.end
    ensures v.Stop? ==> v.reason != EmptyListing
  {
    match it
    case NoArticle => Skip
    case NoAnchor => Skip
    case Anchor(text, href, target) =>
      if text == [] then Stop(Raised)                                  // title is None: None.lower() raises
      else if !ContainsIgnoringCase(Strip(text), q.keyword) then Skip
      else if href.None? then Stop(Raised)                             // a_tag['href'] raises KeyError
      else if target.Unreachable? || !target.statusOk then Stop(Raised) // raise_for_status
      else PageVerdict(q, target.body, href.value)
  }

  /** An item that reaches its article page gets the page's verdict. */
  lemma JudgeReached(q: Query, it: Item)
    requires Reached(q, it).Some?
    ensures Judge(q, it) == PageVerdict(q, Reached(q, it).value, it.href.value)
  {
    var Anchor(text, href, target) := it;
    assert text != [] && ContainsIgnoringCase(Strip(text), q.keyword) && href.Some? && target.Answer? && target.statusOk;
  }

  /** An item that does not reach its article page is never accepted, and if it ends the crawl it raised. */
  lemma JudgeNotReached(q: Query, it: Item)
    requires Reached(q, it).None?
    ensures !Judge(q, it).Accept? && (Judge(q, it).Stop? ==> Judge(q, it).reason == Raised)
  {
    if it.Anchor? && it.text != [] && ContainsIgnoringCase(Strip(it.text), q.keyword) && it.href.Some? {
      assert it.target.Unreachable? || !it.target.statusOk;
      assert Judge(q, it) == Stop(Raised);
    }
  }

  /** A listing title without the keyword is skipped, whatever its article says. */
  lemma JudgeKeywordMiss(q: Query, it: Item)
    requires it.Anchor? && it.text != [] && !ContainsIgnoringCase(Strip(it.text), q.keyword)
    ensures Judge(q, it) == Skip
  {
  }

  /** An accepted item had the keyword in its title, and its record is the linked article inside the window. */
  lemma AcceptedItem(q: Query, it: Item)
    requires Judge(q, it).Accept?
    ensures var r := Judge(q, it).record;
            && it.Anchor? && ContainsIgnoringCase(Strip(it.text), q.keyword) && it.href == Some(r.link)
            && it.target.Answer? && it.target.statusOk
            && it.target.body.headline == Some(r.headline) && it.target.body.date == Parsed(r.date)
            && q.start <= r.date.stamp <= q.end
  {
  }

  /** The loop body's verdict on each item of the query. */
  function Verdicts(q: Query): Item -> Verdict
  {
    it => Judge(q, it)
  }

  lemma VerdictOf(q: Query, it: Item)
    ensures Verdicts(q)(it) == Judge(q, it)
  {
  }

  /** The effect of a verdict on the crawl's variables. */
  function Apply(s: Walker, v: Verdict): Walker
  {
    match v
    case Skip => s
    case Stop(h) => s.(halt := Some(h))
    case Accept(r) =>
      s.(records := s.records + [r], total := s.total + 1,
         monthly := Bump(s.monthly, MonthKey(r)), yearly := Bump(s.yearly, r.date.year))
  }

  /** One pass of the loop body: the attempt counter, then the verdict. */
  function Step(judge: Item -> Verdict, s: Walker, it: Item): Walker
  {
    Apply(s.(attempts := s.attempts + 1), judge(it))
  }

  /** The `for` loop over the items of one result page, up to the first item that ends the crawl. */
  function WalkItems(judge: Item -> Verdict, s: Walker, items: seq<Item>): Walker
    decreases |items|
  {
    if s.halt.Some? || items == [] then s
    else WalkItems(judge, Step(judge, s, items[0]), items[1..])
  }

  /**
   * The `while more_pages` loop from a state, with the given result pages still
   * to come. The walk is the same for every verdict function; the crawl uses
   * `Verdicts(q)`.
   */
  function WalkPages(judge: Item -> Verdict, s: Walker, pages: seq<Listing>): Walker
    decreases |pages|
  {
    if s.halt.Some? then s
    else if pages == [] then s.(halt := Some(EmptyListing))
    else
      match pages[0]
      case ListingFailed => s.(halt := Some(Raised))
      case NoList => s.(halt := Some(EmptyListing))
      case List(li) =>
        if li == [] then s.(halt := Some(EmptyListing))
        else WalkPages(judge, WalkItems(judge, s, li), pages[1..])
  }

  function Crawl(q: Query, pages: seq<Listing>): Walker
  {
    WalkPages(Verdicts(q), Init, pages)
  }

  /** Every item of the result pages, in listing order. */
  function AllItems(pages: seq<Listing>): seq<Item>
  {
    if pages == [] then [] else (if pages[0].List? then pages[0].items else []) + AllItems(pages[1..])
  }

  // ------------------------------------------------------------------
  // The crawl loop
  // ------------------------------------------------------------------

  /**
   * scrape_cnbc: both modes in one loop (the source repeats the loop for CSV and
   * full mode; they differ only in the content step). `now` is the supplied date.
   * Returns the records, total_attempts, total_count and the two counters.
   */
  method ScrapeCnbc(keyword: string, now: int, durationDays: nat, full: bool, pages: seq<Listing>)
    returns (articles: seq<Record>, totalAttempts: nat, totalCount: nat,
             monthlyCounts: map<(int, int), nat>, yearlyCounts: map<int, nat>)
    ensures var w := Crawl(Query(keyword, now - durationDays * DaySeconds, now, full), pages);
            articles == w.records && totalAttempts == w.attempts && totalCount == w.total
            && monthlyCounts == w.monthly && yearlyCounts == w.yearly
    ensures totalCount == |articles| <= totalAttempts
    ensures Sum(monthlyCounts) == totalCount && Sum(yearlyCounts) == totalCount
    ensures forall k :: 0 <= k < |articles| ==>
              now - durationDays * DaySeconds <= articles[k].date.stamp <= now
  {
    var window := SearchWindow(now, durationDays);
    var startDate, endDate := window.0, window.1;
    var q := Query(keyword, startDate, endDate, full);
    articles, totalAttempts, totalCount, monthlyCounts, yearlyCounts := [], 0, 0, map[], map[];
    var halt: Option<Halt> := None;
    var page := 0;  // index of the result page requested next (the URL's p is page + 1)
    var morePages := true;
    while morePages
      invariant page <= |pages|
      invariant morePages <==> halt.None?
      invariant WalkPages(Verdicts(q), Walker(articles, totalAttempts, totalCount, monthlyCounts, yearlyCounts, halt), pages[page..])
                == Crawl(q, pages)
      decreases |pages| - page, morePages
    {
      if page == |pages| {
        halt := Some(EmptyListing);
        morePages := false;
      } else {
        assert pages[page..][0] == pages[page] && pages[page..][1..] == pages[page + 1..];
        match pages[page] {
          case ListingFailed =>
            halt := Some(Raised);
          case NoList =>
            halt := Some(EmptyListing);
          case List(li) =>
            if li == [] {
              halt := Some(EmptyListing);
            } else {
              articles, totalAttempts, totalCount, monthlyCounts, yearlyCounts, halt :=
                ScanItems(q, li, articles, totalAttempts, totalCount, monthlyCounts, yearlyCounts);
            }
        }
        morePages := halt.None?;
        page := page + 1;
      }
    }
    CrawlProperties(q, pages);
  }

  /**
   * The `for` loop over one result page: each item is counted as an attempt and
   * judged; the first item that ends the crawl stops the loop and says why.
   */
  method ScanItems(q: Query, li: seq<Item>, articles0: seq<Record>, attempts0: nat, count0: nat,
                   monthly0: map<(int, int), nat>, yearly0: map<int, nat>)
    returns (articles: seq<Record>, totalAttempts: nat, totalCount: nat,
             monthlyCounts: map<(int, int), nat>, yearlyCounts: map<int, nat>, halt: Option<Halt>)
    ensures Walker(articles, totalAttempts, totalCount, monthlyCounts, yearlyCounts, halt)
            == WalkItems(Verdicts(q), Walker(articles0, attempts0, count0, monthly0, yearly0, None), li)
  {
    ghost var goal := WalkItems(Verdicts(q), Walker(articles0, attempts0, count0, monthly0, yearly0, None), li);
    articles, totalAttempts, totalCount, monthlyCounts, yearlyCounts := articles0, attempts0, count0, monthly0, yearly0;
    halt := None;
    for i := 0 to |li|
      invariant WalkItems(Verdicts(q), Walker(articles, totalAttempts, totalCount, monthlyCounts, yearlyCounts, None), li[i..]) == goal
    {
      ItemsStep(Verdicts(q), Walker(articles, totalAttempts, totalCount, monthlyCounts, yearlyCounts, None), li, i);
      totalAttempts := totalAttempts + 1;
      var v := JudgeItem(q, li[i]);
      if v.Stop? {
        halt := Some(v.reason);   // older than the window, or an exception for the page handler
        return;
      }
      if v.Accept? {
        var r := v.record;
        articles := articles + [r];
        totalCount := totalCount + 1;
        monthlyCounts := Bump(monthlyCounts, MonthKey(r));
        yearlyCounts := Bump(yearlyCounts, r.date.year);
      }
    }
  }

  /** The loop body's verdict on one item. */
  method JudgeItem(q: Query, it: Item) returns (v: Verdict)
    ensures v == Verdicts(q)(it)
  {
    v := Judge(q, it);
    VerdictOf(q, it);
  }

  /** Walking from item i of a page is stepping over that item, then walking from item i + 1. */
  lemma ItemsStep(judge: Item -> Verdict, s: Walker, li: seq<Item>, i: nat)
    requires i < |li| && s.halt.None?
    ensures WalkItems(judge, s, li[i..]) == WalkItems(judge, Apply(s.(attempts := s.attempts + 1), judge(li[i])), li[i + 1..])
  {
    assert li[i..][0] == li[i] && li[i..][1..] == li[i + 1..];
  }

  // ------------------------------------------------------------------
  // Properties of the crawl
  // ------------------------------------------------------------------

  /** What holds of the crawl's variables at every point. */
  ghost predicate Consistent(q: Query, s: Walker)
  {
    && s.total == |s.records| <= s.attempts
    && s.monthly == Tally(MonthKeys(s.records))
    && s.yearly == Tally(Years(s.records))
    && InWindow(q, s.records)
  }

  ghost predicate InWindow(q: Query, rs: seq<Record>)
  {
    forall k :: 0 <= k < |rs| ==> q.start <= rs[k].date.stamp <= q.end
  }

  lemma InWindowSnoc(q: Query, rs: seq<Record>, r: Record)
    requires InWindow(q, rs) && q.start <= r.date.stamp <= q.end
    ensures InWindow(q, rs + [r])
  {
  }

  /** Every record a verdict function accepts lies in the window of q. */
  ghost predicate Windowed(q: Query, judge: Item -> Verdict)
  {
    forall it :: judge(it).Accept? ==> q.start <= judge(it).record.date.stamp <= q.end
  }

  lemma VerdictsWindowed(q: Query)
    ensures Windowed(q, Verdicts(q))
  {
    forall it | Verdicts(q)(it).Accept?
      ensures q.start <= Verdicts(q)(it).record.date.stamp <= q.end
    {
      assert Verdicts(q)(it) == Judge(q, it);
    }
  }

  lemma ApplyConsistent(q: Query, s: Walker, v: Verdict)
    requires Consistent(q, s)
    requires v.Accept? ==> q.start <= v.record.date.stamp <= q.end && s.total < s.attempts
    ensures Consistent(q, Apply(s, v))
  {
    if v.Accept? {
      var r := v.record;
      InWindowSnoc(q, s.records, r);
      KeysSnoc(s.records, r);
      TallySnoc(MonthKeys(s.records), MonthKey(r));
      TallySnoc(Years(s.records), r.date.year);
    }
  }

  /** One pass of the loop body keeps the counters consistent. */
  lemma StepConsistent(q: Query, judge: Item -> Verdict, s: Walker, it: Item)
    requires Windowed(q, judge) && Consistent(q, s)
    ensures Consistent(q, Step(judge, s, it))
  {
    var s0, v := s.(attempts := s.attempts + 1), judge(it);
    assert Step(judge, s, it) == Apply(s0, v);
    AttemptConsistent(q, s);
    assert v.Accept? ==> q.start <= v.record.date.stamp <= q.end;
    ApplyConsistent(q, s0, v);
  }

  lemma KeysSnoc(rs: seq<Record>, r: Record)
    ensures MonthKeys(rs + [r]) == MonthKeys(rs) + [MonthKey(r)]
    ensures Years(rs + [r]) == Years(rs) + [r.date.year]
  {
    assert (rs + [r])[..|rs|] == rs;
  }

  lemma {:induction false} ItemsConsistent(q: Query, judge: Item -> Verdict, s: Walker, items: seq<Item>)
    requires Windowed(q, judge) && Consistent(q, s)
    ensures Consistent(q, WalkItems(judge, s, items))
    decreases |items|
  {
    if s.halt.None? && items != [] {
      StepConsistent(q, judge, s, items[0]);
      ItemsConsistent(q, judge, Step(judge, s, items[0]), items[1..]);
    }
  }

  /** The counters stay consistent and the walk always ends with a reason. */
  lemma {:induction false} PagesConsistent(q: Query, judge: Item -> Verdict, s: Walker, pages: seq<Listing>)
    requires Windowed(q, judge) && Consistent(q, s)
    ensures Consistent(q, WalkPages(judge, s, pages))
    ensures WalkPages(judge, s, pages).halt.Some?
    decreases |pages|
  {
    if s.halt.None? && pages != [] && pages[0].List? && pages[0].items != [] {
      ItemsConsistent(q, judge, s, pages[0].items);
      PagesConsistent(q, judge, WalkItems(judge, s, pages[0].items), pages[1..]);
    } else if s.halt.None? {
      var w := WalkPages(judge, s, pages);
      assert w == s.(halt := w.halt);
      HaltConsistent(q, s, w.halt);
    }
  }

  /** Counting an attempt keeps the counters consistent, with room for one more record. */
  lemma AttemptConsistent(q: Query, s: Walker)
    requires Consistent(q, s)
    ensures Consistent(q, s.(attempts := s.attempts + 1)) && s.total < s.attempts + 1
  {
  }

  /** Recording why the walk ended keeps the counters consistent. */
  lemma HaltConsistent(q: Query, s: Walker, h: Option<Halt>)
    requires Consistent(q, s)
    ensures Consistent(q, s.(halt := h))
  {
  }

  /** Each record a page adds was accepted from an item of that page. */
  lemma {:induction false} ItemsAccepted(judge: Item -> Verdict, s: Walker, items: seq<Item>)
    ensures var w := WalkItems(judge, s, items);
            && s.records <= w.records
            && forall k :: |s.records| <= k < |w.records| ==> exists it :: it in items && judge(it) == Accept(w.records[k])
    decreases |items|
  {
    if s.halt.None? && items != [] {
      var s1 := Step(judge, s, items[0]);
      var w := WalkItems(judge, s, items);
      ItemsAccepted(judge, s1, items[1..]);
      forall k | |s.records| <= k < |w.records|
        ensures exists it :: it in items && judge(it) == Accept(w.records[k])
      {
        if k < |s1.records| {
          assert judge(items[0]) == Accept(w.records[k]);
        } else {
          var it :| it in items[1..] && judge(it) == Accept(w.records[k]);
          assert it in items;
        }
      }
    }
  }

  /** Each record was produced by an item of the input whose verdict was to accept it. */
  lemma {:induction false} PagesAccepted(judge: Item -> Verdict, s: Walker, pages: seq<Listing>)
    ensures var w := WalkPages(judge, s, pages);
            && s.records <= w.records
            && forall k :: |s.records| <= k < |w.records| ==> exists it :: it in AllItems(pages) && judge(it) == Accept(w.records[k])
    decreases |pages|
  {
    if s.halt.None? && pages != [] && pages[0].List? && pages[0].items != [] {
      var s1 := WalkItems(judge, s, pages[0].items);
      var w := WalkPages(judge, s, pages);
      ItemsAccepted(judge, s, pages[0].items);
      PagesAccepted(judge, s1, pages[1..]);
      assert AllItems(pages) == pages[0].items + AllItems(pages[1..]);
      forall k | |s.records| <= k < |w.records|
        ensures exists it :: it in AllItems(pages) && judge(it) == Accept(w.records[k])
      {
        if k < |s1.records| {
          var it :| it in pages[0].items && judge(it) == Accept(s1.records[k]);
          assert it in AllItems(pages);
        } else {
          var it :| it in AllItems(pages[1..]) && judge(it) == Accept(w.records[k]);
          assert it in AllItems(pages);
        }
      }
    }
  }

  /**
   * The crawl's counters: total_count is the number of records and at most
   * total_attempts, the monthly and yearly counters each add up to total_count,
   * and every record lies in the window.
   */
  lemma CrawlProperties(q: Query, pages: seq<Listing>)
    ensures var w := Crawl(q, pages);
            && w.total == |w.records| <= w.attempts
            && Sum(w.monthly) == w.total && Sum(w.yearly) == w.total
            && (forall k :: 0 <= k < |w.records| ==> q.start <= w.records[k].date.stamp <= q.end)
  {
    assert MonthKeys([]) == [] && Years([]) == [];
    assert Consistent(q, Init);
    VerdictsWindowed(q);
    PagesConsistent(q, Verdicts(q), Init, pages);
    var w := Crawl(q, pages);
    assert Consistent(q, w);
    TallySum(MonthKeys(w.records));
    TallySum(Years(w.records));
    assert Sum(w.monthly) == |MonthKeys(w.records)| == w.total;
    assert Sum(w.yearly) == |Years(w.records)| == w.total;
  }

  /** Some list item of the input has a listing title containing the keyword and was accepted as r. */
  ghost predicate FromListing(q: Query, pages: seq<Listing>, r: Record)
  {
    exists it :: it in AllItems(pages) && Judge(q, it) == Accept(r)
                 && it.Anchor? && ContainsIgnoringCase(Strip(it.text), q.keyword)
  }

  /** Every record comes from a list item of the input whose listing title contains the keyword. */
  lemma CrawlRecordsFromListing(q: Query, pages: seq<Listing>)
    ensures var w := Crawl(q, pages);
            forall k :: 0 <= k < |w.records| ==> FromListing(q, pages, w.records[k])
  {
    PagesAccepted(Verdicts(q), Init, pages);
    var w := Crawl(q, pages);
    forall k | 0 <= k < |w.records|
      ensures FromListing(q, pages, w.records[k])
    {
      var it :| it in AllItems(pages) && Verdicts(q)(it) == Accept(w.records[k]);
      assert Judge(q, it) == Accept(w.records[k]);
      AcceptedItem(q, it);
    }
  }

  /** Once an item halts the walk, whatever follows it on its page is never looked at. */
  lemma {:induction false} ItemsIgnoreRest(judge: Item -> Verdict, s: Walker, a: seq<Item>, rest: seq<Item>)
    requires a != [] && judge(a[|a| - 1]).Stop?
    ensures WalkItems(judge, s, a + rest) == WalkItems(judge, s, a)
    ensures WalkItems(judge, s, a).halt.Some?
    decreases |a|
  {
    if s.halt.None? {
      assert (a + rest)[0] == a[0] && (a + rest)[1..] == a[1..] + rest;
      if |a| > 1 {
        ItemsIgnoreRest(judge, Step(judge, s, a[0]), a[1..], rest);
      }
    }
  }

  /** ... nor are the pages after it. */
  lemma {:induction false} PagesIgnoreRest(judge: Item -> Verdict, s: Walker, before: seq<Listing>,
                                           a: seq<Item>, rest: seq<Item>, later: seq<Listing>)
    requires a != [] && judge(a[|a| - 1]).Stop?
    ensures WalkPages(judge, s, before + [List(a + rest)] + later) == WalkPages(judge, s, before + [List(a)])
    decreases |before|
  {
    var p1 := before + [List(a + rest)] + later;
    var p2 := before + [List(a)];
    if s.halt.Some? {
    } else if before == [] {
      assert p1[0] == List(a + rest) && p1[1..] == later;
      assert p2[0] == List(a) && p2[1..] == [];
      ItemsIgnoreRest(judge, s, a, rest);
    } else {
      assert p1[0] == before[0] && p1[1..] == before[1..] + [List(a + rest)] + later;
      assert p2[0] == before[0] && p2[1..] == before[1..] + [List(a)];
      if before[0].List? && before[0].items != [] {
        PagesIgnoreRest(judge, WalkItems(judge, s, before[0].items), before[1..], a, rest, later);
      }
    }
  }

  /**
   * The first item older than the window (or the first one that raises) ends the
   * whole crawl: replacing every later item of its page and every later page by
   * anything leaves the outcome unchanged.
   */
  lemma HaltingItemEndsCrawl(q: Query, before: seq<Listing>, li: seq<Item>, i: nat, rest: seq<Item>, later: seq<Listing>)
    requires i < |li| && Judge(q, li[i]).Stop?
    ensures Crawl(q, before + [List(li[..i + 1] + rest)] + later) == Crawl(q, before + [List(li[..i + 1])])
  {
    assert Verdicts(q)(li[..i + 1][i]) == Judge(q, li[i]);
    PagesIgnoreRest(Verdicts(q), Init, before, li[..i + 1], rest, later);
  }

  // ------------------------------------------------------------------
  // Sentiment report (full mode)
  // ------------------------------------------------------------------

  /**
   * The VADER report: a Counter of the buckets and the bucket lists of titles.
   * Each title lands in the list of its bucket, the counter counts the list
   * lengths, and the counts add up to the number of articles.
   */
  method SentimentReport(articles: seq<Scored>) returns (counts: map<Polarity, nat>, buckets: map<Polarity, seq<string>>)
    ensures counts == Tally(Polarities(articles))
    ensures buckets == Buckets(articles)
    ensures forall p :: p in counts <==> TitlesIn(articles, p) != []
    ensures forall p :: p in counts ==> counts[p] == |TitlesIn(articles, p)|
    ensures Sum(counts) == |articles|
  {
    counts := map[];
    buckets := map[Positive := [], Negative := [], Neutral := []];
    for i := 0 to |articles|
      invariant counts == Tally(Polarities(articles[..i]))
      invariant buckets == Buckets(articles[..i])
    {
      ReportStep(articles, i);
      var category := Classify(articles[i].compound);
      counts := Bump(counts, category);
      buckets := buckets[category := buckets[category] + [articles[i].title]];
    }
    assert articles[..|articles|] == articles;
    ReportCounts(articles);
  }

  /** One more article bumps its bucket's count and appends its title to its bucket's list. */
  lemma ReportStep(articles: seq<Scored>, i: nat)
    requires i < |articles|
    ensures var c := Classify(articles[i].compound);
            && Tally(Polarities(articles[..i + 1])) == Bump(Tally(Polarities(articles[..i])), c)
            && Buckets(articles[..i + 1]) == Buckets(articles[..i])[c := Buckets(articles[..i])[c] + [articles[i].title]]
  {
    assert articles[..i + 1] == articles[..i] + [articles[i]];
    BucketsSnoc(articles[..i], articles[i]);
    TallySnoc(Polarities(articles[..i]), Classify(articles[i].compound));
  }
}
