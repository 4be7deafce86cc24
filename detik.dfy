/**
 * detik.py: the detik.com crawler, a module-level loop writing CSV rows.
 *
 * The header line is written first, then the search window is computed. Result
 * pages 1, 2, ... are requested in order; an HTTP error status or a failed
 * request ends the loop, and so does a page without 'div.media__text' blocks.
 * Each block becomes one row when its title, link, category, summary and date
 * are all found. A missing title, category, summary or date div raises
 * AttributeError, which skips only that block; a missing link anchor, href,
 * date span or span title raises TypeError or KeyError, which nothing catches,
 * so the script stops there with the rows written so far.
 */
module Detik {
  import opened Common
  import opened DetikDates
  import opened DetikCsv

  // ------------------------------------------------------------------
  // One article block
  // ------------------------------------------------------------------

  /** The 'a.media__link' lookup: no anchor (TypeError), no href (KeyError), or the href. */
  datatype LinkField = NoAnchor | NoHref | Href(url: string)

  /** The date lookup: no 'div.media__date' (AttributeError), no span (TypeError), no title (KeyError), or the title. */
  datatype DateField = NoDateDiv | NoSpan | NoTitleAttr | Stamp(text: string)

  /** One 'div.media__text' block: the stripped texts of its title, category and summary, each None when missing. */
  datatype Article = Article(title: Option<string>, link: LinkField, category: Option<string>,
                             summary: Option<string>, date: DateField)

  /** The response to one page request. */
  datatype Response = RequestFailed | HttpFailed | Fetched(articles: seq<Article>)

  /** The block is skipped, written as a row, or raises an exception nothing catches. */
  datatype Verdict = Skip | Write(row: string) | Crash

  /** The `try` block for one article, its lookups in the source's order. */
  function Judge(a: Article): (v: Verdict)
    ensures v.Write? <==> a.title.Some? && a.link.Href? && a.category.Some? && a.summary.Some? && a.date.Stamp?
    ensures v.Crash? <==> a.title.Some? && (!a.link.Href? || (a.category.Some? && a.summary.Some?
                                                              && (a.date.NoSpan? || a.date.NoTitleAttr?)))
    ensures v.Write? ==> v.row == Row(a.title.value, a.category.value, a.date.text, a.summary.value, a.link.url)
  {
    if a.title.None? then Skip
    else if !a.link.Href? then Crash
    else if a.category.None? || a.summary.None? || a.date.NoDateDiv? then Skip
    else if !a.date.Stamp? then Crash
    else Write(Row(a.title.value, a.category.value, a.date.text, a.summary.value, a.link.url))
  }

  /** The judgement of each block, as a value the walks below are written over. */
  function Judges(): Article -> Verdict
  {
    a => Judge(a)
  }

  lemma JudgeOf(a: Article)
    ensures Judges()(a) == Judge(a)
  {
  }

  // ------------------------------------------------------------------
  // The loop
  // ------------------------------------------------------------------

  datatype Halt = NoArticles | HttpError | RequestError | Crashed

  /** The loop's state: the rows written, the page counter, and why the loop ended. */
  datatype Walker = Walker(rows: seq<string>, page: nat, halt: Option<Halt>)

  /** The `for` loop over one page's blocks: the rows after it, and whether it raised. */
  function WalkArticles(judge: Article -> Verdict, rows: seq<string>, arts: seq<Article>): (r: (seq<string>, bool))
    ensures rows <= r.0
    decreases |arts|
  {
    if arts == [] then (rows, false)
    else
      match judge(arts[0])
      case Skip => WalkArticles(judge, rows, arts[1..])
      case Write(row) => WalkArticles(judge, rows + [row], arts[1..])
      case Crash => (rows, true)
  }

  /** The `while True` loop from a state; a page past the end of the input has no blocks. */
  function WalkPages(judge: Article -> Verdict, s: Walker, responses: seq<Response>): (w: Walker)
    ensures s.rows <= w.rows && s.page <= w.page
    decreases |responses|
  {
    if s.halt.Some? then s
    else if responses == [] then s.(halt := Some(NoArticles))
    else
      match responses[0]
      case RequestFailed => s.(halt := Some(RequestError))
      case HttpFailed => s.(halt := Some(HttpError))
      case Fetched(arts) =>
        if arts == [] then s.(halt := Some(NoArticles))
        else
          var r := WalkArticles(judge, s.rows, arts);
          if r.1 then s.(rows := r.0, halt := Some(Crashed))
          else WalkPages(judge, Walker(r.0, s.page + 1, None), responses[1..])
  }

  function Crawl(responses: seq<Response>): Walker
  {
    WalkPages(Judges(), Walker([], 1, None), responses)
  }

  /** A page request: the query, the window and the page number. */
  datatype SearchUrl = SearchUrl(query: string, window: Window, page: nat)

  /** How the script ends: printing the total, or with an exception. */
  datatype Outcome = Finished | Raised

  /**
   * The script from the header to the final print, given the header line, the
   * clock reading and the responses to the page requests. Returns the lines of
   * the file, the final total_articles_processed and the URLs requested, in
   * order. detik.py writes DetikCsv.Header; DetikCsv.CorrectedHeader is the
   * header that matches the rows.
   */
  method ScrapeDetik(header: string, query: string, now: CivilDate, responses: seq<Response>)
    returns (outcome: Outcome, lines: seq<string>, total: nat, urls: seq<SearchUrl>)
    requires Valid(now)
    ensures SearchWindow(now).None? ==> outcome == Raised && lines == [header] && urls == []
    ensures SearchWindow(now).Some? ==>
              && lines == [header] + Crawl(responses).rows
              && (outcome == Raised <==> Crawl(responses).halt == Some(Crashed))
              && |urls| == Crawl(responses).page
              && forall k :: 0 <= k < |urls| ==> urls[k] == SearchUrl(query, SearchWindow(now).value, k + 1)
    ensures total == |lines| - 1
  {
    lines := [header];
    total := 0;
    urls := [];
    var window := SearchWindow(now);
    if window.None? {
      outcome := Raised;
      return;
    }
    var rows, crashed;
    rows, total, urls, crashed := Pages(query, window.value, responses);
    lines := lines + rows;
    outcome := if crashed then Raised else Finished;
  }

  /** The `while True` loop: requests pages 1, 2, ... until one fails, is empty or raises. */
  method Pages(query: string, window: Window, responses: seq<Response>)
    returns (rows: seq<string>, total: nat, urls: seq<SearchUrl>, crashed: bool)
    ensures rows == Crawl(responses).rows && total == |rows|
    ensures crashed <==> Crawl(responses).halt == Some(Crashed)
    ensures |urls| == Crawl(responses).page
    ensures forall k :: 0 <= k < |urls| ==> urls[k] == SearchUrl(query, window, k + 1)
  {
    ghost var goal := Crawl(responses);
    rows, total, urls := [], 0, [];
    var page := 1;
    var halt: Option<Halt> := None;
    while halt.None?
      invariant 1 <= page <= |responses| + 1
      invariant |urls| == (if halt.None? then page - 1 else page)
      invariant forall k :: 0 <= k < |urls| ==> urls[k] == SearchUrl(query, window, k + 1)
      invariant total == |rows|
      invariant WalkPages(Judges(), Walker(rows, page, halt), responses[page - 1..]) == goal
      decreases |responses| + 1 - page, halt.None?
    {
      urls := urls + [SearchUrl(query, window, page)];
      if page - 1 == |responses| {
        halt := Some(NoArticles);
      } else {
        assert responses[page - 1..] == [responses[page - 1]] + responses[page..];
        rows, total, page, halt := HandlePage(responses[page - 1], rows, total, page, responses[page..]);
      }
    }
    crashed := halt == Some(Crashed);
  }

  /** One pass of the `while True` body after the URL is built: the request, then the page's blocks. */
  method HandlePage(response: Response, rows0: seq<string>, total0: nat, page0: nat, ghost rest: seq<Response>)
    returns (rows: seq<string>, total: nat, page: nat, halt: Option<Halt>)
    requires total0 == |rows0|
    ensures total == |rows|
    ensures if halt.None? then page == page0 + 1 else page == page0
    ensures WalkPages(Judges(), Walker(rows, page, halt), rest)
            == WalkPages(Judges(), Walker(rows0, page0, None), [response] + rest)
  {
    assert ([response] + rest)[0] == response && ([response] + rest)[1..] == rest;
    rows, total, page, halt := rows0, total0, page0, None;
    match response {
      case RequestFailed =>
        halt := Some(RequestError);
      case HttpFailed =>
        halt := Some(HttpError);
      case Fetched(arts) =>
        if arts == [] {
          halt := Some(NoArticles);
        } else {
          var crashed;
          rows, total, crashed := ScanArticles(arts, rows, total);
          if crashed {
            halt := Some(Crashed);
          } else {
            page := page + 1;
          }
        }
    }
  }

  /** The `try` block for one article. */
  method JudgeArticle(a: Article) returns (v: Verdict)
    ensures v == Judges()(a)
  {
    v := Judge(a);
    JudgeOf(a);
  }

  /** The `for` loop over one page's blocks, counting each row written. */
  method ScanArticles(arts: seq<Article>, rows0: seq<string>, total0: nat)
    returns (rows: seq<string>, total: nat, crashed: bool)
    requires total0 == |rows0|
    ensures (rows, crashed) == WalkArticles(Judges(), rows0, arts) && total == |rows|
  {
    rows, total, crashed := rows0, total0, false;
    var i := 0;
    while i < |arts| && !crashed
      invariant 0 <= i <= |arts| && total == |rows|
      invariant crashed ==> (rows, true) == WalkArticles(Judges(), rows0, arts)
      invariant !crashed ==> WalkArticles(Judges(), rows, arts[i..]) == WalkArticles(Judges(), rows0, arts)
      decreases |arts| - i
    {
      assert arts[i..][0] == arts[i] && arts[i..][1..] == arts[i + 1..];
      var v := JudgeArticle(arts[i]);
      match v {
        case Skip =>
        case Write(row) =>
          rows := rows + [row];
          total := total + 1;
        case Crash =>
          crashed := true;
      }
      i := i + 1;
    }
  }

  // ------------------------------------------------------------------
  // Properties
  // ------------------------------------------------------------------

  /** The rows a run of blocks writes when none of them raises. */
  function Written(judge: Article -> Verdict, arts: seq<Article>): seq<string>
  {
    if arts == [] then []
    else (if judge(arts[0]).Write? then [judge(arts[0]).row] else []) + Written(judge, arts[1..])
  }

  /** Without an uncaught exception, a page appends exactly the rows of its complete blocks, in order. */
  lemma {:induction false} PageRows(judge: Article -> Verdict, rows: seq<string>, arts: seq<Article>)
    requires forall k :: 0 <= k < |arts| ==> !judge(arts[k]).Crash?
    ensures WalkArticles(judge, rows, arts) == (rows + Written(judge, arts), false)
    decreases |arts|
  {
    if arts != [] {
      var v := judge(arts[0]);
      var rest := Written(judge, arts[1..]);
      var rows1 := if v.Write? then rows + [v.row] else rows;
      PageRows(judge, rows1, arts[1..]);
      assert WalkArticles(judge, rows, arts) == WalkArticles(judge, rows1, arts[1..]);
      assert Written(judge, arts) == (if v.Write? then [v.row] else []) + rest;
      if v.Write? {
        assert rows + ([v.row] + rest) == rows1 + rest;
      } else {
        assert [] + rest == rest;
      }
    } else {
      assert rows + [] == rows;
    }
  }

  /** An AttributeError skips only its own block: the scan goes on with the next one. */
  lemma SkipOnlyThis(rows: seq<string>, a: Article, rest: seq<Article>)
    requires a.title.None? || (a.link.Href? && (a.category.None? || a.summary.None? || a.date.NoDateDiv?))
    ensures WalkArticles(Judges(), rows, [a] + rest) == WalkArticles(Judges(), rows, rest)
  {
    JudgeOf(a);
    assert ([a] + rest)[0] == a && ([a] + rest)[1..] == rest;
  }

  /** A block that raises TypeError or KeyError ends the scan, and the crawl, with no row for it or after it. */
  lemma CrashEndsCrawl(judge: Article -> Verdict, s: Walker, arts: seq<Article>, k: nat, rest: seq<Response>)
    requires s.halt.None? && k < |arts| && judge(arts[k]).Crash?
    requires forall j :: 0 <= j < k ==> !judge(arts[j]).Crash?
    ensures WalkPages(judge, s, [Fetched(arts)] + rest).halt == Some(Crashed)
    ensures WalkPages(judge, s, [Fetched(arts)] + rest).rows == s.rows + Written(judge, arts[..k])
  {
    assert ([Fetched(arts)] + rest)[0] == Fetched(arts);
    CrashAt(judge, s.rows, arts, k);
  }

  lemma {:induction false} CrashAt(judge: Article -> Verdict, rows: seq<string>, arts: seq<Article>, k: nat)
    requires k < |arts| && judge(arts[k]).Crash?
    requires forall j :: 0 <= j < k ==> !judge(arts[j]).Crash?
    ensures WalkArticles(judge, rows, arts) == (rows + Written(judge, arts[..k]), true)
    decreases k
  {
    if k == 0 {
      assert arts[..k] == [] && rows + [] == rows;
    } else {
      var v := judge(arts[0]);
      var rows1 := if v.Write? then rows + [v.row] else rows;
      CrashAt(judge, rows1, arts[1..], k - 1);
      var pre := Written(judge, arts[1..][..k - 1]);
      assert arts[..k][0] == arts[0] && arts[..k][1..] == arts[1..][..k - 1];
      assert Written(judge, arts[..k]) == (if v.Write? then [v.row] else []) + pre;
      assert WalkArticles(judge, rows, arts) == WalkArticles(judge, rows1, arts[1..]);
      if v.Write? {
        assert rows + ([v.row] + pre) == rows1 + pre;
      } else {
        assert [] + pre == pre;
      }
    }
  }

  /**
   * The loop ends at the first page that fails or has no blocks: every page
   * before it was requested and scanned, and the counter stops at its number.
   */
  lemma {:induction false} StopsAtFirstEmpty(judge: Article -> Verdict, s: Walker, responses: seq<Response>, k: nat)
    requires s.halt.None? && k < |responses|
    requires !responses[k].Fetched? || responses[k].articles == []
    requires forall j :: 0 <= j < k ==> responses[j].Fetched? && responses[j].articles != []
                                        && forall i :: 0 <= i < |responses[j].articles| ==> !judge(responses[j].articles[i]).Crash?
    ensures WalkPages(judge, s, responses).page == s.page + k
    ensures WalkPages(judge, s, responses).halt == Some(match responses[k]
                                                 case RequestFailed => RequestError
                                                 case HttpFailed => HttpError
                                                 case Fetched(_) => NoArticles)
    decreases k
  {
    if k > 0 {
      var arts := responses[0].articles;
      PageRows(judge, s.rows, arts);
      StopsAtFirstEmpty(judge, Walker(s.rows + Written(judge, arts), s.page + 1, None), responses[1..], k - 1);
    }
  }

  // ------------------------------------------------------------------
  // The columns of the file
  // ------------------------------------------------------------------

  /** A block whose category, date and link hold no comma. */
  predicate CommaFree(a: Article)
  {
    && (a.category.Some? ==> ',' !in a.category.value)
    && (a.date.Stamp? ==> ',' !in a.date.text)
    && (a.link.Href? ==> ',' !in a.link.url)
  }

  /** Every block of every page answered holds no comma in its category, date or link. */
  predicate AllCommaFree(responses: seq<Response>)
  {
    forall i, j :: 0 <= i < |responses| && responses[i].Fetched? && 0 <= j < |responses[i].articles|
                   ==> CommaFree(responses[i].articles[j])
  }

  /** Every line holds five comma-separated values. */
  predicate FiveColumns(rows: seq<string>)
  {
    forall k :: 0 <= k < |rows| ==> Columns(rows[k]) == 5
  }

  /** Every row a judgement writes for these blocks holds five values. */
  ghost predicate WritesFive(judge: Article -> Verdict, arts: seq<Article>)
  {
    forall j :: 0 <= j < |arts| && judge(arts[j]).Write? ==> Columns(judge(arts[j]).row) == 5
  }

  /** A comma-free block is written, if at all, as a row of five values. */
  lemma JudgeFive(a: Article)
    requires CommaFree(a)
    ensures Judges()(a).Write? ==> Columns(Judges()(a).row) == 5
  {
    JudgeOf(a);
    if Judge(a).Write? {
      RowColumns(a.title.value, a.category.value, a.date.text, a.summary.value, a.link.url);
    }
  }

  /** Scanning a page keeps every line at five values. */
  lemma {:induction false} ArticlesFive(judge: Article -> Verdict, rows: seq<string>, arts: seq<Article>)
    requires FiveColumns(rows) && WritesFive(judge, arts)
    ensures FiveColumns(WalkArticles(judge, rows, arts).0)
    decreases |arts|
  {
    if arts != [] {
      var v := judge(arts[0]);
      assert WritesFive(judge, arts[1..]) by {
        forall j | 0 <= j < |arts[1..]| && judge(arts[1..][j]).Write? ensures Columns(judge(arts[1..][j]).row) == 5 {
          assert arts[1..][j] == arts[j + 1];
        }
      }
      if v.Write? {
        assert Columns(v.row) == 5;
        var rows1 := rows + [v.row];
        assert FiveColumns(rows1) by {
          forall k | 0 <= k < |rows1| ensures Columns(rows1[k]) == 5 {
            if k < |rows| { assert rows1[k] == rows[k]; }
          }
        }
        ArticlesFive(judge, rows1, arts[1..]);
      } else if v.Skip? {
        ArticlesFive(judge, rows, arts[1..]);
      }
    }
  }

  /** Walking the pages keeps every line at five values. */
  lemma {:induction false} PagesFive(judge: Article -> Verdict, s: Walker, responses: seq<Response>)
    requires FiveColumns(s.rows)
    requires forall i :: 0 <= i < |responses| && responses[i].Fetched? ==> WritesFive(judge, responses[i].articles)
    ensures FiveColumns(WalkPages(judge, s, responses).rows)
    decreases |responses|
  {
    if s.halt.None? && responses != [] && responses[0].Fetched? && responses[0].articles != [] {
      var arts := responses[0].articles;
      var r := WalkArticles(judge, s.rows, arts);
      ArticlesFive(judge, s.rows, arts);
      if !r.1 {
        PagesFive(judge, Walker(r.0, s.page + 1, None), responses[1..]);
      }
    }
  }

  /** Every row of the crawl holds five values when no category, date or link holds a comma. */
  lemma CrawlFive(responses: seq<Response>)
    requires AllCommaFree(responses)
    ensures FiveColumns(Crawl(responses).rows)
  {
    forall i | 0 <= i < |responses| && responses[i].Fetched? ensures WritesFive(Judges(), responses[i].articles) {
      forall j | 0 <= j < |responses[i].articles| ensures Judges()(responses[i].articles[j]).Write? ==> Columns(Judges()(responses[i].articles[j]).row) == 5 {
        JudgeFive(responses[i].articles[j]);
      }
    }
    PagesFive(Judges(), Walker([], 1, None), responses);
  }

  /** A header line over rows of five values: every line after the first holds five values. */
  lemma {:induction false} UnderHeader(header: string, rows: seq<string>)
    requires FiveColumns(rows)
    ensures forall k :: 1 <= k < |[header] + rows| ==> Columns(([header] + rows)[k]) == 5
  {
    forall k | 1 <= k < |[header] + rows| ensures Columns(([header] + rows)[k]) == 5 {
      assert ([header] + rows)[k] == rows[k - 1];
    }
  }

  /**
   * The file ScrapeDetik writes under the header of detik.py: its first line
   * names six columns and every row under it holds five values.
   */
  lemma FileAsWritten(responses: seq<Response>)
    requires AllCommaFree(responses)
    ensures var file := [Header] + Crawl(responses).rows;
            Columns(file[0]) == 6 && forall k :: 1 <= k < |file| ==> Columns(file[k]) == 5
  {
    HeaderCommas();
    CrawlFive(responses);
    UnderHeader(Header, Crawl(responses).rows);
  }

  /** Under the corrected header every line of the file, the header included, holds five values. */
  lemma CorrectedFileMatches(responses: seq<Response>)
    requires AllCommaFree(responses)
    ensures var file := [CorrectedHeader] + Crawl(responses).rows;
            Columns(file[0]) == 5 && forall k :: 1 <= k < |file| ==> Columns(file[k]) == 5
  {
    CorrectedHeaderCommas();
    CrawlFive(responses);
    UnderHeader(CorrectedHeader, Crawl(responses).rows);
  }
}
