# News crawlers for Indonesian portals, modelled in Dafny

The repository holds a family of command-line crawlers. Each one builds search
URLs for a news portal, walks the result pages in order, filters the listed
articles by keyword and date window, and records the ones it keeps. The portals
are CNBC Indonesia, detik.com, Tempo, Jawa Pos, Tribunnews, Sindonews and Kompas.
The `rev/` versions can also fetch article texts and bucket them by VADER
compound score.

The model has one module per crawler file, plus two shared modules:

- `Common` (common.dfy) holds the string and date helpers: Python's `strip`,
  `lower`, `in`, `find`, `replace` and `split`; tallies; duration units; and the
  `/YYYY/MM/DD/` segment of a URL.
- `Sentiment` (sentiment.dfy) holds the ±0.05 VADER bucketing that the reports share.

`detik.py` is split into three modules. `DetikDates` (detik_dates.dfy) holds
datetime's proleptic Gregorian calendar, the 365-day subtraction and
`strftime("%d/%m/%Y")`. `DetikCsv` (detik_csv.dfy) holds the header and row
lines of the CSV file. `Detik` (detik.dfy) holds the crawl.

Each crawl is modelled the same way:

- The network and the HTML parser are replaced by their results. A page is a
  datatype holding what the selectors find: a field is `None` where `find`
  returns `None`, and a request is an outcome (failed, error status, answered).
- Every crawl has two parts. One is a per-item verdict function that follows the
  source's loop body branch by branch. The other is a recursive walk over the
  result pages that states the whole crawl as a value.
- The crawling method uses the source's loops (`while` over pages, `for` over
  items) and is proved equal to the walk.
- The properties are proved about the walk. They cover the counters and what
  they count; every record lying in the window and containing the keyword; the
  point where the crawl stops; the pages past a cap never being read; and the
  first halting item making everything after it irrelevant.

The clock, user input, random headers and sleeps are parameters or are left out.

## Model

| member | source | states |
|---|---|---|
| Sentiment.Classify | rev/cnbc.py:205-211 | exactly one bucket applies: positive iff compound >= 0.05, negative iff <= -0.05, neutral strictly between |
| Sentiment.BucketsPartition | rev/cnbc.py:203-213 | the three bucket lists together hold every title exactly as often as it occurs; their lengths add up to the number of articles |
| Sentiment.BucketsSnoc | rev/cnbc.py:212-213 | classifying one more article appends its title to its own bucket's list and to no other |
| Sentiment.ReportCounts | rev/cnbc.py:198-217 | the Counter has a key exactly for the non-empty buckets, each count is its list's length, and the counts add up to the number of articles |
| Sentiment.PolarityCount | rev/cnbc.py:212-213 | a bucket list is as long as the number of articles classified into that bucket |
| RevCnbc.DurationDays | rev/cnbc.py:251-258 | days = n times 1, 7, 30 or 365 for day, week, month or year, and at least n when n > 0 |
| RevCnbc.SearchWindow | rev/cnbc.py:19-20 | the window ends at the supplied date and starts exactly `days` whole days earlier |
| RevCnbc.StrippedNonBlank | rev/cnbc.py:157 | the comprehension `[p.text.strip() for p in paragraphs if p.text.strip()]` keeps no empty text and never more texts than paragraphs |
| RevCnbc.ParagraphTextJoins | rev/cnbc.py:157 | the full-mode content is `'\n'.join` of the stripped, non-blank paragraphs, in order |
| RevCnbc.ParagraphTextEmpty | rev/cnbc.py:156-157 | the full-mode content is empty iff every paragraph strips to nothing |
| RevCnbc.PageVerdict | rev/cnbc.py:62-92 | an article page without headline or parsable date is skipped; an older date stops the crawl; a newer one is skipped; otherwise the record carries exactly the page's headline and date, and in full mode its content is the paragraph text of the 'detail_text' div |
| RevCnbc.Judge | rev/cnbc.py:49-92 | an accepted record's date lies in the window; a stop is never "empty listing" |
| RevCnbc.JudgeReached | rev/cnbc.py:58-67 | an item that gets to its article page takes that page's verdict |
| RevCnbc.JudgeNotReached | rev/cnbc.py:51-60 | an item that does not reach its article page is never accepted, and stops only by raising |
| RevCnbc.JudgeKeywordMiss | rev/cnbc.py:54-57 | a listing title without the keyword (ignoring case) is skipped whatever its article says |
| RevCnbc.AcceptedItem | rev/cnbc.py:49-92 | an accepted item had an anchor whose stripped title contains the keyword, an OK response, and its record is the linked page's headline and date inside the window |
| RevCnbc.ScrapeCnbc | rev/cnbc.py:13-179 | the method's loops compute the crawl; total_count is the number of records and at most total_attempts; the monthly and yearly counters each sum to total_count; every record lies in the window |
| RevCnbc.ScanItems | rev/cnbc.py:49-92 | the `for` loop over one page equals the item walk, counting an attempt per item and stopping at the first halting item |
| RevCnbc.ItemsConsistent | rev/cnbc.py:49-92 | walking a page keeps the counters consistent with the records |
| RevCnbc.PagesConsistent | rev/cnbc.py:36-99 | walking the pages keeps the counters consistent and always ends with a reason |
| RevCnbc.ItemsAccepted | rev/cnbc.py:49-92 | every record a page adds was accepted from an item of that page |
| RevCnbc.PagesAccepted | rev/cnbc.py:36-99 | every record was accepted from an item of the input |
| RevCnbc.CrawlProperties | rev/cnbc.py:28-92 | total_count equals the number of records and is at most total_attempts; both counters sum to total_count; every record lies in the window |
| RevCnbc.CrawlRecordsFromListing | rev/cnbc.py:54-58 | every record comes from a list item whose listing title contains the keyword |
| RevCnbc.ItemsIgnoreRest | rev/cnbc.py:81-83 | after an item halts the walk, the rest of its page is never looked at |
| RevCnbc.PagesIgnoreRest | rev/cnbc.py:36-83 | after an item halts the walk, later pages are never looked at |
| RevCnbc.HaltingItemEndsCrawl | rev/cnbc.py:81-83 | the first item older than the window (or raising) ends the crawl: replacing what follows it changes nothing |
| RevCnbc.SentimentReport | rev/cnbc.py:197-213 | the Counter is the tally of the buckets; each title is in its bucket's list; the counts add up to the number of articles |
| RevDetik.GetDateRange | rev/detik.py:30-45 | a range exists iff the end date parses and the period is day, week, month or year; a bad end date raises ValueError; an unknown period leaves start_date unbound; the end is the given date or now; start <= end for n >= 0 |
| RevDetik.BodyTextNoNewline | rev/detik.py:53-56 | the text built div by div holds no newline |
| RevDetik.ArticleContent | rev/detik.py:56-59 | the returned text holds no newline |
| RevDetik.FetchOf | rev/detik.py:47-62 | fetch_article_content raises iff the request fails other than by an HTTP error status; the text it returns holds no newline |
| RevDetik.FetchArticleContent | rev/detik.py:47-62 | the `+=` loop over the divs computes FetchOf |
| RevDetik.DateStringField | rev/detik.py:87 | indexing the second comma field succeeds iff the cleaned text holds a comma; the field holds no comma and no surrounding whitespace |
| RevDetik.ListedDate | rev/detik.py:86-88 | a readable date needs the anchor with its href and the date span |
| RevDetik.Judge | rev/detik.py:85-101 | an accepted article has a readable date inside the window |
| RevDetik.JudgeOlder | rev/detik.py:89-90 | an article dated before the window ends the crawl whatever its headline |
| RevDetik.JudgeNewer | rev/detik.py:91-92 | an article dated after the window is skipped |
| RevDetik.JudgeRaises | rev/detik.py:86-93 | an unreadable date raises, and only an unreadable date or a missing headline raises |
| RevDetik.JudgeAccepts | rev/detik.py:85-101 | accepted iff the date is in the window and the headline contains the keyword ignoring case; the entry holds that headline, the date text and the link, with no content |
| RevDetik.ScrapeDetik | rev/detik.py:64-106 | raises when the window cannot be computed; otherwise returns the crawl's outcome, and every entry returned is in the window, contains the keyword and has no content |
| RevDetik.CrawlPages | rev/detik.py:72-106 | the `while True` loop computes the crawl's outcome |
| RevDetik.HandleListing | rev/detik.py:73-104 | one pass of the loop body (request, `raise_for_status`, container and article checks, the article loop) moves the walk exactly one page on |
| RevDetik.ScanItems | rev/detik.py:85-101 | the loop over one page equals the item walk and never reports the page exhausted |
| RevDetik.PagesStep | rev/detik.py:72-83 | a failed request raises; a missing container or no articles ends the crawl; otherwise the page's articles are walked |
| RevDetik.ItemsSound | rev/detik.py:85-101 | walking a page keeps every entry in the window and with the keyword |
| RevDetik.PagesSound | rev/detik.py:72-104 | walking the pages keeps every entry in the window and with the keyword |
| RevDetik.CrawlSound | rev/detik.py:64-106 | every entry of the crawl lies in the window, contains the keyword and has no content yet |
| RevDetik.NoResultsEndCrawl | rev/detik.py:78-83 | a page without the result container or without articles returns the data gathered so far |
| RevDetik.ItemsIgnoreRest | rev/detik.py:89-90 | after an article halts the walk, the rest of its page is never looked at |
| RevDetik.PagesIgnoreRest | rev/detik.py:72-90 | after an article halts the walk, the later pages are never looked at |
| RevDetik.HaltingItemEndsCrawl | rev/detik.py:89-90 | the first article older than the window (or raising) ends the crawl: what follows it does not matter |
| RevDetik.PickedPermutation | rev/detik.py:111-118 | the entries kept do not depend on the order the futures complete in, up to their order |
| RevDetik.PickedMembers | rev/detik.py:113-118 | an entry is kept iff some position of the completion order contributes it |
| RevDetik.ValidMembers | rev/detik.py:113-118 | the entries kept are exactly those whose future holds a non-empty text, each with that text as content |
| RevDetik.FuturesRaise | rev/detik.py:112-115 | a future holds an exception iff its request failed other than by an HTTP error status |
| RevDetik.SubmitAll | rev/detik.py:112 | the executor runs fetch_article_content once per entry, in data order |
| RevDetik.Collect | rev/detik.py:113-118 | the `as_completed` loop raises iff some future holds an exception; otherwise it keeps, in completion order, exactly the entries with non-empty content |
| RevDetik.TakeInOrder | rev/detik.py:113-118 | taking the futures in completion order raises iff some future taken holds an exception; otherwise the kept entries are exactly those with non-empty content, in that order |
| RevDetik.CompletedOrder | rev/detik.py:113-118 | once every future was taken without raising, none holds an exception and the entries kept are the valid ones |
| RevDetik.FetchContentForAnalysis | rev/detik.py:108-119 | raises iff some article request fails other than by an HTTP error status; otherwise returns, in some order, exactly the entries with non-empty content |
| RevDetik.AnalyzeSentiment | rev/detik.py:136-156 | each headline goes to its bucket's list; the counts are the list lengths and add up to the number of articles |
| RevTempo.FirstBodyAt | rev/tempo.py:17-25 | the first successful attempt, with every earlier attempt a network error; None only when every attempt failed |
| RevTempo.Attempted | rev/tempo.py:17-18 | at most three attempts are made |
| RevTempo.Fetched | rev/tempo.py:16-27 | None iff each of the first three attempts failed; otherwise the text of one of them |
| RevTempo.Fetch | rev/tempo.py:16-27 | the retry loop sends between one and three requests and returns the text of the first that succeeds; None only after three failures |
| RevTempo.ReplaceFirstAtStart | rev/tempo.py:53-54 | replacing once in a text that starts with the dateline removes exactly the leading copy |
| RevTempo.StripDateline | rev/tempo.py:53-54 | the dateline is removed once, and only when the content starts with it |
| RevTempo.BeforeFirstOccurrence | rev/tempo.py:57-59 | the prefix that ends where the first marker starts holds no marker |
| RevTempo.CleanContent | rev/tempo.py:52-59 | the result is the longest prefix of the undatelined text without "Pilihan editor: ": a prefix, without the marker, cut exactly where the marker starts, and the whole text when there is none |
| RevTempo.BuildRecord | rev/tempo.py:29-66 | a failed fetch gives the "Failed to retrieve"/"N/A" record; missing title, date or body give their default texts; a present title is kept, a present date is converted, and present paragraphs give CleanContent of their ' '.join; the URL is kept; the content never holds the editor's-choice marker |
| RevTempo.GetArticleContent | rev/tempo.py:29-66 | fetching and parsing compute the record for the URL |
| RevTempo.Records | rev/tempo.py:110 | gather returns one record per task, in task order, each carrying its URL |
| RevTempo.Gather | rev/tempo.py:99-111 | running the tasks yields the records of the scheduled URLs in task order |
| RevTempo.DistinctCard | rev/tempo.py:105-106 | a sequence without repetitions has as many distinct elements as positions |
| RevTempo.ScanProperties | rev/tempo.py:101-108 | a page scan schedules no URL twice and none seen before; the seen set grows by exactly the scheduled URLs; every titled card's URL ends up seen |
| RevTempo.ScanRaisedStays | rev/tempo.py:104 | once a titled card without a usable link has raised, later cards do not matter |
| RevTempo.ScanCards | rev/tempo.py:99-108 | the loop over the cards computes the scan: raising iff the scan raises, otherwise the same seen set and new URLs |
| RevTempo.PagesStep | rev/tempo.py:86-116 | a failed search request raises; a page without cards ends the crawl; otherwise the page's records are appended and the stop test applied |
| RevTempo.GetNewsData | rev/tempo.py:68-121 | the `while` loop computes the crawl's outcome |
| RevTempo.UrlsAppend | rev/tempo.py:111 | the URLs of the extended news list are the old URLs followed by the page's |
| RevTempo.DistinctAppend | rev/tempo.py:105-111 | joining two repetition-free, disjoint URL lists gives a repetition-free list of their union |
| RevTempo.PageConsistent | rev/tempo.py:101-111 | appending a page's records keeps the records and the seen set in step |
| RevTempo.PagesConsistent | rev/tempo.py:86-116 | the walk keeps the records and the seen set in step |
| RevTempo.PagesBounded | rev/tempo.py:86-114 | the walk always halts with a reason that agrees with its state, and the records exceed the request by less than the last page added |
| RevTempo.CrawlProperties | rev/tempo.py:82-121 | no URL has two records, the seen set is exactly the record URLs, the stop reason agrees with the state, the overshoot is below the last page's new URLs, and a request of zero records reads no page |
| RevTempo.EmptyPageEndsCrawl | rev/tempo.py:95-97 | a page without cards ends the crawl: the pages after it are never requested |
| RevJp.ReplaceEachUnchanged | rev/jp.py:76-80 | a text in which no key occurs is left as it is by every replacement |
| RevJp.TranslateUnchanged | rev/jp.py:50-82 | a date text without any Indonesian day or month name is returned unchanged |
| RevJp.ReplaceLoop | rev/jp.py:76-77 | the replacement loop applies `str.replace` with each pair in turn, in table order |
| RevJp.TranslateDateToEnglish | rev/jp.py:50-82 | the two loops replace every day name, then every month name |
| RevJp.DatePatternWellFormed | rev/jp.py:86 | in the date pattern every run is followed by a literal that starts outside the run's class |
| RevJp.MatchFromSound | rev/jp.py:86 | what the greedy matcher finds is a match of the pattern |
| RevJp.RunEndsAt | rev/jp.py:86 | a run of the class followed by a character outside it is the longest run |
| RevJp.MatchFromComplete | rev/jp.py:86 | for a well-formed pattern every match is the one the greedy matcher finds |
| RevJp.SearchFrom | rev/jp.py:86 | re.search: the first start, at or after i, at which the pattern matches; None only when it matches nowhere |
| RevJp.SearchLeftmost | rev/jp.py:86-88 | the search finds the leftmost match, and finds nothing only when there is no match at all |
| RevJp.MatchesInside | rev/jp.py:86-88 | a match lies inside the text |
| RevJp.ParseDateSpec | rev/jp.py:84-94 | parse_date finds a date iff the leftmost occurrence of the pattern, translated, is accepted by strptime |
| RevJp.ParseWithSpec | rev/jp.py:84-94 | the same for any well-formed pattern |
| RevJp.SearchFindsLeftmost | rev/jp.py:86 | re.search returns the leftmost match of a well-formed pattern |
| RevJp.DropChars | rev/jp.py:98-102 | a character is in the result iff it is in the text and not deleted |
| RevJp.LoweredClean | rev/jp.py:98-100 | lowering a text without punctuation leaves no upper-case letter and adds no punctuation |
| RevJp.CleanTitleShape | rev/jp.py:96-104 | a cleaned title has no upper-case letter, punctuation or digit, and no leading, trailing or doubled space |
| RevJp.StopwordsGone | rev/jp.py:106 | the words left are exactly the non-stopwords, in order, so none of them is a stopword |
| RevJp.NormaliseIdempotent | rev/jp.py:104 | collapsing whitespace twice changes nothing more |
| RevJp.Stemmed | rev/jp.py:108 | every word is stemmed, one result per word |
| RevJp.Row | rev/jp.py:137-173 | an item yields a row iff its title link exists and its text holds a date that parses; the row keeps the original title, the link and the formatted date; its processed title is preprocess_title of the title, and both label/confidence pairs are the classifiers' results on that processed title |
| RevJp.ItemsFromAppend | rev/jp.py:137 | consecutive items are collected one part after the other |
| RevJp.SkippedItem | rev/jp.py:145-176 | an item without a row (missing link, no parsable date) is skipped and nothing else is affected |
| RevJp.NewsRows | rev/jp.py:158-173 | each news_data row is the title, link and date of the classified row appended with it |
| RevJp.ScanPage | rev/jp.py:137-176 | the loop over one page's items appends exactly the items' rows, keeping the two lists in lockstep |
| RevJp.WalkStep | rev/jp.py:125-137 | reading a page with items collects its rows, then the walk goes on with the next page |
| RevJp.WalkStops | rev/jp.py:125-135 | no page is read once num_pages is used up or a page without items is reached |
| RevJp.FetchNews | rev/jp.py:120-179 | fetch_news raises exactly when a page it requests fails to load (driver.get is outside any try, so nothing is returned and driver.quit() is not reached); otherwise it returns the collected classified rows and the news rows that go with them |
| RevJp.WalkFails | rev/jp.py:125-127 | a page that fails to load while num_pages lasts ends the walk with the exception |
| RevJp.WalkRaises | rev/jp.py:125-135 | the walk raises exactly when some page within num_pages fails to load after pages that all loaded with items |
| RevJp.CollectedRaises | rev/jp.py:120-135 | fetch_news raises exactly when one of the pages it requests fails to load |
| RevJp.PagesCap | rev/jp.py:125 | pages past num_pages are never read |
| RevJp.EmptyPageEndsCrawl | rev/jp.py:132-135 | a page without items ends the crawl: no later page is read |
| RevJp.LabelsSnoc | rev/jp.py:245-254 | counting one more row appends its two labels |
| RevJp.Increment | rev/jp.py:247-249 | `if k not in counts: counts[k] = 0; counts[k] += 1` bumps the count of k |
| RevJp.CountLabels | rev/jp.py:241-256 | each dictionary is the tally of its labels and sums to total_titles |
| RevTribun.ExtractDate | rev/tribun.py:23-28 | no date iff the URL has no /YYYY/MM/DD/ segment; strptime raises iff the first segment is not a calendar date; a returned date comes from a valid one |
| RevTribun.ExtractDateSpec | rev/tribun.py:25-27 | a returned date is "DD-MM-YYYY" made of the day, month and year digits of the leftmost segment |
| RevTribun.Entry | rev/tribun.py:55-65 | an added entry has a non-empty link and title and a pair not seen before |
| RevTribun.EntryExactly | rev/tribun.py:55-65 | a readable anchor is added iff its href is non-empty, its stripped title is non-empty, the pair is unseen, the link is outside /tag/ and /topic/, and the link carries a valid date; the entry keeps the stripped title and the link |
| RevTribun.FetchNews | rev/tribun.py:30-76 | the loops compute the crawl's news_data and page count; no entry appears twice |
| RevTribun.ScanItems | rev/tribun.py:53-67 | the loop over one page's anchors equals the item walk |
| RevTribun.Keys | rev/tribun.py:34-65 | the pairs of the entries, and nothing else |
| RevTribun.AddConsistent | rev/tribun.py:57-65 | adding an unseen admitted entry keeps seen equal to the entries' pairs, with no pair twice |
| RevTribun.ItemsConsistent | rev/tribun.py:53-67 | walking a page keeps seen equal to the entries' pairs, no pair twice, every entry admitted |
| RevTribun.PagesConsistent | rev/tribun.py:37-69 | walking the pages keeps the entries consistent and always ends with a reason |
| RevTribun.PagesWithinCap | rev/tribun.py:38-40 | the walk never loads a page past an active cap |
| RevTribun.CrawlProperties | rev/tribun.py:30-76 | no entry twice, every entry admitted, a definite end; with max_pages > 0 at most max_pages pages are loaded, and none when it is negative |
| RevTribun.UncappedLoadsAll | rev/tribun.py:38-51 | without a cap (None or 0) every page up to the first empty one is loaded |
| RevTribun.EmptyPageEndsCrawl | rev/tribun.py:48-51 | the first page without anchors ends the crawl: nothing after it is loaded |
| RevSindo.Offset | rev/sindo.py:31 | the `t` field is empty exactly on page 1 (and below); after it, a positive multiple of 20 |
| RevSindo.ListingUrls | rev/sindo.py:30-63 | one URL per page requested |
| RevSindo.ListingUrlsAt | rev/sindo.py:28-63 | the k-th URL requested is that of page k + 1: the pages go 1, 2, 3, ... |
| RevSindo.UrlsDistinct | rev/sindo.py:31 | no result page is requested twice: the URLs of different pages differ |
| RevSindo.Capitalize | rev/sindo.py:46 | `capitalize` keeps the length |
| RevSindo.CategoryOfLetter | rev/sindo.py:46 | a category text that starts with a lower-case letter comes out starting with that letter in upper case |
| RevSindo.CategoryOfSpace | rev/sindo.py:46 | a category text that starts with whitespace comes out without any upper-case letter, because capitalising happens before stripping |
| RevSindo.TrimEndKeepsFirst | rev/sindo.py:46 | trimming the end of a text that starts with a non-space keeps that first character |
| RevSindo.Content | rev/sindo.py:50-51 | the article text is "" without a 'div.read__content', and never has surrounding whitespace |
| RevSindo.Visit | rev/sindo.py:39-61 | a readable anchor's link is marked visited whatever happens next; an appended record carries that link |
| RevSindo.VisitRecord | rev/sindo.py:41-59 | a record carries the stripped title, the link, the capitalised-then-stripped category, the stripped date and the article text |
| RevSindo.NeverRetried | rev/sindo.py:42-43 | a link is marked visited even when its item then fails, so a later item with the same link adds nothing |
| RevSindo.VisitsMark | rev/sindo.py:42-43 | the loop body only adds to the visited links and appends only a link it has just marked |
| RevSindo.WalkItems | rev/sindo.py:39-61 | the item loop leaves the page count and the halt as they were |
| RevSindo.Result | rev/sindo.py:30-67 | the crawl returns its articles unless a listing request raised |
| RevSindo.ScrapeSindonews | rev/sindo.py:24-67 | the loop computes the crawl's outcome, and the listing URLs requested are those of pages 1, 2, ... in order, one per page processed plus one for the page that ended the crawl unless the cap ended it |
| RevSindo.Request | rev/sindo.py:31 | requesting the next page appends that page's URL |
| RevSindo.HandlePage | rev/sindo.py:32-65 | one pass of the loop body continues the walk from the next page, or ends it; the page counter moves on exactly when the page was processed |
| RevSindo.ScanItems | rev/sindo.py:39-61 | the loop over one page's items equals the item walk |
| RevSindo.ItemsConsistent | rev/sindo.py:39-61 | walking a page keeps every article's link visited and no link twice; the visited set and the articles only grow |
| RevSindo.PagesConsistent | rev/sindo.py:30-65 | walking the pages keeps the articles consistent and always ends with a reason |
| RevSindo.PagesWithinCap | rev/sindo.py:63-65 | the pages processed never pass a positive cap, and a negative cap allows only the first |
| RevSindo.CrawlProperties | rev/sindo.py:24-67 | no link is appended twice, every appended link was marked visited, the crawl ends with a reason, and a positive max_pages bounds the pages processed |
| RevSindo.EmptyPageEndsCrawl | rev/sindo.py:35-37 | the first page without news items ends the crawl: nothing after it is requested |
| Cnbc.Range | cnbc.py:10-15 | the range is missing exactly when a non-empty start or end text fails to parse; an empty start gives no lower bound, an empty end gives the clock reading, otherwise the parsed dates |
| Cnbc.NoStartNoLowerBound | cnbc.py:63-65 | without a start date an article is inside the range exactly when it is not after the end date |
| Cnbc.PageVerdict | cnbc.py:45-71 | a fetched article is written exactly when its headline and date are present and the date is in the range, as the row (headline, date, link); an unparsable date raises; as written an article after the end date stops the crawl, and nothing else does |
| Cnbc.Judge | cnbc.py:36-71 | every written row lies in the range, and an item never ends the crawl as an empty listing would |
| Cnbc.WrittenItem | cnbc.py:41-71 | a written item is an anchor whose stripped title contains the keyword, whose link and fetched headline and date make up the row, with the date in the range |
| Cnbc.KeywordMissSkipped | cnbc.py:41-44 | an item whose title does not contain the keyword is skipped whatever its article holds |
| Cnbc.CorrectedStopsOnlyOnRaise | cnbc.py:65-67 | with newer articles skipped instead, only an exception ends the crawl from inside a page |
| Cnbc.ScrapeCnbc | cnbc.py:6-79 | raises before fetching exactly when the range does not parse; otherwise its rows and attempt count are those of the crawl over the result pages; the success counter a - 1 equals the rows written and never exceeds the attempts |
| Cnbc.ScanItems | cnbc.py:36-71 | walking one page's items gives the state of the item walk, and the counter a grows with the rows |
| Cnbc.ItemsConsistent | cnbc.py:36-71 | walking items keeps every row in the range and the rows no more than the attempts |
| Cnbc.PagesConsistent | cnbc.py:24-76 | walking pages keeps that invariant and always ends with a reason |
| Cnbc.CrawlCounts | cnbc.py:17-79 | after the whole crawl the rows written are at most the items attempted, every row is in the range, and the crawl has ended with a reason |
| Cnbc.ItemsWithoutStop | cnbc.py:36-71 | when no item stops the walk, every item is attempted and the rows grow by exactly the written verdicts, in order |
| Cnbc.PagesWithoutStop | cnbc.py:24-72 | when every page is a non-empty list and no item stops, the crawl attempts every item, writes exactly the written verdicts in order and ends at the empty listing after them |
| Cnbc.WrittenAppend | cnbc.py:36-71 | the rows written for two item runs in sequence are those of the first followed by those of the second |
| Cnbc.CorrectedCollectsWindow | cnbc.py:63-67 | with newer articles skipped and no item raising, the crawl writes exactly the keyword-matching articles inside the range, in listing order, whatever the order of the listing |
| Cnbc.ItemsIgnoreRest | cnbc.py:65-67 | once an item halts the walk, the rest of its page does not change the result |
| Cnbc.PagesIgnoreRest | cnbc.py:65-67 | once an item halts the walk, neither the rest of its page nor the later pages change the result |
| Cnbc.HaltingItemEndsCrawl | cnbc.py:65-76 | the first item that is newer than the end date or raises decides the outcome: the items after it and the pages after it are never looked at |
| Cnbc.CounterexampleNewestFirst | cnbc.py:65-67 | with a newest-first listing and an end date in the past, the code as written writes nothing although the second item lies in the range; the corrected rule writes it |
| Kompas.ExtractDate | kompas.py:22-28 | no date exactly for a missing or empty URL or one without a /YYYY/MM/DD/ segment; otherwise a ten-character text with '-' at positions 2 and 5 |
| Kompas.ExtractDateSpec | kompas.py:25-27 | a returned date holds the day, month and year digits of the leftmost /YYYY/MM/DD/ segment of the URL, in the order DD-MM-YYYY |
| Kompas.NoCalendarCheck | kompas.py:25-27 | the digits are not checked as a calendar date: "/2024/13/45/" gives "45-13-2024" |
| Kompas.Visit | kompas.py:46-58 | an anchor adds its link to the page's kept links exactly when it yields an entry, and that link was not kept before on the page; otherwise the kept links are unchanged |
| Kompas.VisitKeeps | kompas.py:46-58 | an anchor is kept exactly when it can be read, its link and stripped title are non-empty, the link is new on the page and not a tag page; the entry holds that link, that title and the URL's date |
| Kompas.FetchNews | kompas.py:30-67 | fetch_news raises exactly when a page it requests fails to load (driver.get is outside any try, so the entries are lost and driver.quit() is not reached); otherwise it returns the crawl's entries, every one of which passed the filters; the page counter is the crawl's |
| Kompas.ScanItems | kompas.py:42-58 | one page appends to the entries exactly what the anchor walk from an empty set of kept links yields |
| Kompas.VisitsFilter | kompas.py:46-58 | the loop body only ever keeps admitted entries whose link was new, and records that link |
| Kompas.PageAdds | kompas.py:42-58 | one page's entries are admitted, new with respect to the kept links before the page, recorded after it, and pairwise distinct by link |
| Kompas.PagesAdmitted | kompas.py:35-64 | walking pages keeps every entry admitted |
| Kompas.CrawlAdmitted | kompas.py:30-67 | every entry of the result has a non-empty link that is not a tag page, a non-empty title and its URL's date |
| Kompas.PageDistinct | kompas.py:42-56 | within one page no link is kept twice, and every kept entry is admitted |
| Kompas.DuplicateAcrossPages | kompas.py:42 | the kept links are reset on each page: the same anchor on two consecutive pages is kept twice |
| Kompas.KeptOnEachPage | kompas.py:42-64 | for any loop body that keeps an anchor on a fresh page, two pages holding it yield it twice |
| Kompas.EmptyPageContinues | kompas.py:60-64 | a page without anchors and without "tidak ada hasil" does not end the crawl: only the page counter moves |
| Kompas.PageLimit | kompas.py:60-62 | the number of pages loaded under a non-zero cap is at least one and, for a cap above 2, one less than the cap |
| Kompas.PagesWithinLimit | kompas.py:60-62 | under a non-zero cap the page counter never passes the limit plus one |
| Kompas.PagesReachLimit | kompas.py:60-64 | with enough pages, all loading up to the limit and none before it showing "tidak ada hasil", the crawl loads exactly the limit and stops on the cap |
| Kompas.CrawlPageCount | kompas.py:33-64 | from page 1 the crawl loads at most the limit, and exactly the limit (stopping on the cap) when the pages up to it load and none before it shows "tidak ada hasil" |
| Kompas.StopsAtNoResults | kompas.py:63-64 | without a cap the crawl stops at the first page showing "tidak ada hasil", after loading it, when every page before it loads |
| Kompas.LoadFailsEarlier | kompas.py:35-37 | a page that fails to load after the first page is, for the rest of the walk, the same page one position earlier |
| Kompas.LoadFailsLater | kompas.py:35-64 | after a first page that lets the loop go on, a failing page of the rest is a failing page of the whole walk |
| Kompas.WalkRaises | kompas.py:35-64 | the walk raises exactly when a page it reaches fails to load: every page before it loaded, showed no "tidak ada hasil" and left the counter below the cap |
| Kompas.CrawlRaises | kompas.py:30-66 | fetch_news raises exactly when a page it requests fails to load |
| DetikDates.DayNumberZero | detik.py:19 | only 1 January of year 1 has day number 0, so only it has no day before it |
| DetikDates.PrevDay | detik.py:19 | the day before a date other than 1 January of year 1 is a valid date one day number earlier |
| DetikDates.DaysEarlier | detik.py:19 | subtracting n days succeeds exactly when n is at most the date's day number (otherwise datetime raises OverflowError), and gives the valid date n day numbers earlier |
| DetikDates.TwoDigits | detik.py:25-26 | a number below 100 is written as two digits whose value is the number (%d, %m) |
| DetikDates.FormatDateParses | detik.py:25-26 | the "%d/%m/%Y" text has '/' at positions 2 and 5 and its three digit fields read back as the day, month and year |
| DetikDates.FormatDateInjective | detik.py:25-26 | two valid dates with the same "%d/%m/%Y" text are the same date |
| DetikDates.SearchWindow | detik.py:18-26 | the window exists exactly when the clock reading is at least 365 days after 1 January of year 1, and its end is the reading formatted |
| DetikDates.WindowSpan | detik.py:19-26 | the window's start is the formatting of the valid date exactly 365 days before the reading |
| DetikCsv.Row | detik.py:54 | a row ends with a newline |
| DetikCsv.RowCommas | detik.py:54 | a row holds its four ", " separators plus the commas of the category, date text and link; the title's and summary's commas are replaced away |
| DetikCsv.RowColumns | detik.py:54 | a row whose category, date text and link hold no comma has five comma-separated values |
| DetikCsv.HeaderCommas | detik.py:12 | the header as written holds five commas |
| DetikCsv.CorrectedHeaderCommas | detik.py:12 | the header naming the row's five values holds four commas |
| DetikCsv.HeaderMismatch | detik.py:12 | the header as written names six columns while a row holds five values |
| DetikCsv.CorrectedHeaderMatches | detik.py:54 | the corrected header names exactly as many columns as a row holds |
| Detik.Judge | detik.py:44-59 | a block is written exactly when its title, link, category, summary and date title are all found, as the row of those values; it raises an uncaught exception exactly when, after a title is found, the link anchor or href is missing, or the date div is found without its span or title attribute; every other block is skipped |
| Detik.ScrapeDetik | detik.py:11-69 | when the window raises, only the given header is written and no page is requested; otherwise the file holds the header followed by the crawl's rows, the script raises exactly when a block raised, pages 1, 2, ... are requested with the query and window, and the final total is the number of rows |
| Detik.Pages | detik.py:28-67 | the rows, total, crash flag and requested URLs are those of the crawl over the responses, with page numbers counting from 1 |
| Detik.HandlePage | detik.py:34-67 | one request and its blocks move the crawl exactly as one step of the page walk, bumping the page number only when the loop goes on |
| Detik.ScanArticles | detik.py:44-59 | the scan of one page's blocks gives the rows and crash flag of the block walk, and the total counts the rows |
| Detik.PageRows | detik.py:44-59 | without an uncaught exception, a page appends exactly the rows of its complete blocks, in order |
| Detik.SkipOnlyThis | detik.py:58-59 | an AttributeError skips only its own block; the scan goes on with the next one |
| Detik.CrashEndsCrawl | detik.py:44-65 | the first block raising TypeError or KeyError ends the crawl, keeping only the rows of the blocks before it |
| Detik.CrashAt | detik.py:44-59 | the scan of a page stops at its first raising block with the rows of the blocks before it |
| Detik.StopsAtFirstEmpty | detik.py:34-67 | when the pages before it all have blocks and none raises, the first failed or empty response ends the crawl with its reason, and the page counter stops at its number |
| Detik.JudgeFive | detik.py:45-54 | a block whose category, date and link hold no comma is written, if at all, as a row of five values |
| Detik.ArticlesFive | detik.py:44-60 | scanning a page keeps every line of the file at five values |
| Detik.PagesFive | detik.py:30-67 | walking the pages keeps every line of the file at five values |
| Detik.CrawlFive | detik.py:30-67 | every row the crawl writes holds five values when no category, date or link holds a comma |
| Detik.FileAsWritten | detik.py:12 | the file detik.py writes starts with a line naming six columns, and every row under it holds five values |
| Detik.CorrectedFileMatches | detik.py:54 | under the corrected header every line of the file, the header included, holds five values |
| Common.Strip | cnbc.py:42 | str.strip leaves neither end of the text whitespace and never lengthens it |
| Common.StripAddsNothing | cnbc.py:42 | every character of the stripped text occurs in the text |
| Common.TrimStartDropsSpace | cnbc.py:42 | the leading part str.strip drops is all whitespace |
| Common.TrimEndDropsSpace | cnbc.py:42 | the trailing part str.strip drops is all whitespace |
| Common.StripKeepsMiddle | cnbc.py:42 | str.strip returns a slice of the text, and everything outside that slice is whitespace: only the whitespace at the ends is removed and the text between is kept |
| Common.Find | rev/tempo.py:57 | str.find gives the first index where the pattern occurs, and none exactly when it does not occur |
| Common.ReplaceRemovesChar | detik.py:54 | replacing a character by text without it leaves no occurrence of it |
| Common.WordsJoin | rev/jp.py:104 | str.split undoes ' '.join on whitespace-free non-empty words |
| Common.TallySum | rev/cnbc.py:26-27 | the counts of a counter add up to the number of keys counted |
| Common.TallyCounts | rev/cnbc.py:26-27 | each key of a counter is counted exactly as often as it occurs, and keys that never occurred are absent |
| Common.ParseUnit | rev/cnbc.py:230-233 | a duration type is accepted exactly when it is 'day', 'week', 'month' or 'year' |
| Common.FirstDateSegment | kompas.py:25 | re.search finds the leftmost /YYYY/MM/DD/ segment, with four, two and two digits, and none when no segment exists |

## Left out

- Network and browser access (`requests`, `aiohttp`, Selenium drivers, `implicitly_wait`, `time.sleep`, random user agents): every response, page and element is an input value, and a failed request or page load is an explicit outcome, handled or raised as the source does.
- HTML parsing (BeautifulSoup, CSS selectors): a page is the datatype of what the selectors find, with `None` where a lookup finds nothing; which markup yields which value is not modelled.
- Calendar parsing (`strptime`, `dateparser`, `fromisoformat`) and the locale's month names: a parser is a function parameter returning an Option, and dates are integer timestamps (`DaySeconds` per day). Only detik.py's window, which needs a real calendar, uses `DetikDates`. The timestamp crawlers (rev/detik.py:36-43, rev/cnbc.py:20) do not model datetime's range limit: there an integer window start always exists, where `end_date - timedelta(...)` raises OverflowError for a huge period count; DetikDates.DaysEarlier does model that error for detik.py.
- The clock: `datetime.now()` is a parameter read once. detik.py reads it on lines 19 and 22; the model uses one reading for both, and keeps only the date, since `%d/%m/%Y` drops the time of day.
- DetikDates.FormatDate: `%Y` for a year below 1000 is written without leading zeros, as glibc does; other platforms pad it to four digits.
- RevTribun.ExtractDate: the year is copied as the URL's four digits, so a year below 1000 keeps its leading zeros ("/0999/01/02/" gives "02-01-0999"), while glibc's `strftime("%d-%m-%Y")` on rev/tribun.py:27 writes "02-01-999".
- Classifiers and floating point: VADER's `polarity_scores`, BERT/torch classification, the Sastrawi stemmer and the NLTK stopword download are parameters (a compound score as a `real`, a label, a stem function, a stopword set). The percentages printed in the reports are left out.
- Concurrency: `ThreadPoolExecutor`/`as_completed` in rev/detik.py is a loop over a completion order given as a permutation. `asyncio.gather` in rev/tempo.py is a sequential loop in task order, which is the order gather returns.
- Output and user interface: CSV, JSON and Excel writing (rows are collected as values; `csv.writer` quoting is not modelled), file names with timestamps, `input()` prompts, `print`, and progress bars.
- pandas post-processing after the crawls (kompas.py:74-80 and the matching lines of rev/tribun.py and rev/jp.py): `drop_duplicates`, `to_datetime`, sorting, `to_csv` and `value_counts`.
- jawapos.py is not part of this model: its page walk is the one rev/jp.py already has, and the rest is browser session plumbing.
- Character classes: `str.lower`, `str.capitalize`, `\w`, `\d` and `string.punctuation` are modelled on ASCII only; Unicode case mapping and Unicode digits are not. `str.isspace` (Common.IsSpace) is modelled in full, with Python's Unicode whitespace set.
- Dictionary key order of `defaultdict` and `Counter`: the counters are maps, so the printing order of the reports is not modelled.
- A page past the end of the input is read as the site's empty page: no items, and for kompas.py a source containing "tidak ada hasil". A crawl that would run forever on a site that never runs out of pages is therefore not modelled.
- RevSindo.Offset: the `t` offset is an integer field of the request, not its decimal text in the URL.
- RevCnbc.ScrapeCnbc: the CSV mode and the full mode repeat the same loop in rev/cnbc.py; the model runs one loop, and the modes differ only in whether the record carries the article text.
- Detik.ScrapeDetik takes the header line as a parameter: DetikCsv.Header is the one detik.py:12 writes, and DetikCsv.CorrectedHeader names the five values of a row (see Findings).
- Cnbc.ScrapeCnbc takes the rule for an article newer than the end date as a parameter: `StopAtNewer` is cnbc.py as written, and `SkipNewer` is the corrected rule (see Findings).

## Findings

| source | as written | input that shows it | evidently intended | confidence | as-written member | corrected member |
|---|---|---|---|---|---|---|
| cnbc.py:65-67 | the first article newer than the end date sets `more_pages = False` and breaks, ending the whole crawl | the search results list the newest article first; with an end date in the past, the first item is newer than the end date, so nothing is written although the second item lies in the range | skip articles newer than the end date, as articles older than the start date are skipped on lines 63-64, so that every keyword article in the range is written | not executed | Cnbc.CounterexampleNewestFirst | Cnbc.CorrectedCollectsWindow |
| detik.py:12 | the header names six columns: Title, Category, Day, Date, Summary, URL | any row built on line 54 from values without commas holds five values, so the Day column heads the date, Date heads the summary and Summary heads the link | a header naming the five values the row holds (the Day value was dropped from the row, which is commented out on line 53) | not executed | Detik.FileAsWritten | Detik.CorrectedFileMatches |
