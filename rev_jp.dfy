/**
 * The Jawa Pos crawler with title classification (rev/jp.py): search pages
 * 1..num_pages are read in order until one has no items; every item whose
 * text holds a date of the form "Day, DD Month YYYY | HH:MM WIB" gets its
 * title preprocessed and classified twice, and one row is appended to each
 * of the two result lists. The label counts of the report are tallied from
 * the classified rows.
 *
 * The browser is a parameter: `pages[p]` is page p + 1, either a load that
 * raised or the items it lists (a page past the end of the sequence has no
 * items). A load that raises is not caught: fetch_news ends with it. Calendar parsing and
 * formatting, the stemmer and the two classifiers are parameters of the query.
 */
module RevJp {
  import opened Common

  // ------------------------------------------------------------------
  // translate_date_to_english
  // ------------------------------------------------------------------

  /** The day names, in the order they are replaced. */
  const DayNames: seq<(string, string)> :=
    [("Senin", "Monday"), ("Selasa", "Tuesday"), ("Rabu", "Wednesday"), ("Kamis", "Thursday"),
     ("Jumat", "Friday"), ("Sabtu", "Saturday"), ("Minggu", "Sunday")]

  /** The month names, in the order they are replaced. */
  const MonthNames: seq<(string, string)> :=
    [("Januari", "January"), ("Februari", "February"), ("Maret", "March"), ("April", "April"),
     ("Mei", "May"), ("Juni", "June"), ("Juli", "July"), ("Agustus", "August"),
     ("September", "September"), ("Oktober", "October"), ("November", "November"), ("Desember", "December")]

  predicate NonEmptyKeys(pairs: seq<(string, string)>)
  {
    forall k :: 0 <= k < |pairs| ==> pairs[k].0 != []
  }

  /** str.replace with each pair in turn. */
  function ReplaceEach(s: string, pairs: seq<(string, string)>): string
    requires NonEmptyKeys(pairs)
  {
    if pairs == [] then s
    else
      var p := pairs[|pairs| - 1];
      ReplaceAll(ReplaceEach(s, pairs[..|pairs| - 1]), p.0, p.1)
  }

  function Translate(s: string): string
  {
    ReplaceEach(ReplaceEach(s, DayNames), MonthNames)
  }

  /** A text in which no key occurs is left as it is by every replacement. */
  lemma {:induction false} ReplaceEachUnchanged(s: string, pairs: seq<(string, string)>)
    requires NonEmptyKeys(pairs) && forall k :: 0 <= k < |pairs| ==> !Contains(s, pairs[k].0)
    ensures ReplaceEach(s, pairs) == s
  {
    if pairs != [] {
      ReplaceEachUnchanged(s, pairs[..|pairs| - 1]);
    }
  }

  /** A date text without any Indonesian day or month name is returned unchanged. */
  lemma TranslateUnchanged(s: string)
    requires forall k :: 0 <= k < |DayNames| ==> !Contains(s, DayNames[k].0)
    requires forall k :: 0 <= k < |MonthNames| ==> !Contains(s, MonthNames[k].0)
    ensures Translate(s) == s
  {
    ReplaceEachUnchanged(s, DayNames);
    ReplaceEachUnchanged(s, MonthNames);
  }

  /** One replacement loop: `for indo, eng in table.items(): date_str = date_str.replace(indo, eng)`. */
  method ReplaceLoop(s: string, pairs: seq<(string, string)>) returns (r: string)
    requires NonEmptyKeys(pairs)
    ensures r == ReplaceEach(s, pairs)
  {
    r := s;
    for i := 0 to |pairs|
      invariant r == ReplaceEach(s, pairs[..i])
    {
      assert pairs[..i + 1][..i] == pairs[..i];
      r := ReplaceAll(r, pairs[i].0, pairs[i].1);
    }
    assert pairs[..|pairs|] == pairs;
  }

  /** The two replacement loops: every day name, then every month name. */
  method TranslateDateToEnglish(dateText: string) returns (r: string)
    ensures r == Translate(dateText)
  {
    r := ReplaceLoop(dateText, DayNames);
    r := ReplaceLoop(r, MonthNames);
  }

  // ------------------------------------------------------------------
  // The date pattern of parse_date
  // ------------------------------------------------------------------

  /** `\w` on ASCII: letters, digits and the underscore. */
  predicate IsWordChar(c: char)
  {
    IsDigit(c) || IsUpper(c) || IsLowerLetter(c) || c == '_'
  }

  /** A pattern element: `\w+`, `\d+` or literal text. */
  datatype Token = WordRun | DigitRun | Lit(text: string)

  predicate InClass(t: Token, c: char)
  {
    (t == WordRun && IsWordChar(c)) || (t == DigitRun && IsDigit(c))
  }

  /** `\w+, \d+ \w+ \d+ \| \d+:\d+ WIB` */
  const DatePattern: seq<Token> :=
    [WordRun, Lit(", "), DigitRun, Lit(" "), WordRun, Lit(" "), DigitRun, Lit(" | "), DigitRun, Lit(":"), DigitRun, Lit(" WIB")]

  /**
   * What the regular expression accepts: text s[i..j] matches the tokens
   * when it splits into a non-empty run of the class for each run token and
   * the literal text for each literal.
   */
  ghost predicate Matches(s: string, i: nat, j: nat, toks: seq<Token>)
    decreases |toks|
  {
    if toks == [] then i == j
    else if toks[0].Lit? then OccursAt(s, toks[0].text, i) && Matches(s, i + |toks[0].text|, j, toks[1..])
    else exists e :: i < e <= |s| && (forall k :: i <= k < e ==> InClass(toks[0], s[k])) && Matches(s, e, j, toks[1..])
  }

  /** Every run is followed by a literal that starts outside the run's class, so a run can only end where the class does. */
  predicate WellFormed(toks: seq<Token>)
    decreases |toks|
  {
    toks == []
    || (toks[0].Lit? && WellFormed(toks[1..]))
    || (|toks| >= 2 && toks[1].Lit? && toks[1].text != [] && !InClass(toks[0], toks[1].text[0]) && WellFormed(toks[1..]))
  }

  lemma DatePatternWellFormed()
    ensures WellFormed(DatePattern)
  {
    var p := DatePattern;
    assert !IsWordChar(',') && !IsDigit(' ') && !IsWordChar(' ') && !IsDigit(':');
    assert WellFormed(p[11..]);
    assert WellFormed(p[10..]);
    assert WellFormed(p[9..]);
    assert WellFormed(p[8..]);
    assert WellFormed(p[7..]);
    assert WellFormed(p[6..]);
    assert WellFormed(p[5..]);
    assert WellFormed(p[4..]);
    assert WellFormed(p[3..]);
    assert WellFormed(p[2..]);
    assert WellFormed(p[1..]);
  }

  /** The end of the longest run of the class starting at i. */
  function RunEnd(s: string, i: nat, t: Token): (e: nat)
    requires i <= |s|
    ensures i <= e <= |s| && (forall k :: i <= k < e ==> InClass(t, s[k])) && (e < |s| ==> !InClass(t, s[e]))
    decreases |s| - i
  {
    if i < |s| && InClass(t, s[i]) then RunEnd(s, i + 1, t) else i
  }

  /** The matcher: each run taken as long as possible, each literal compared in place. */
  function MatchFrom(s: string, i: nat, toks: seq<Token>): (r: Option<nat>)
    requires i <= |s|
    ensures r.Some? ==> i <= r.value <= |s|
    decreases |toks|
  {
    if toks == [] then Some(i)
    else if toks[0].Lit? then
      if OccursAt(s, toks[0].text, i) then MatchFrom(s, i + |toks[0].text|, toks[1..]) else None
    else
      var e := RunEnd(s, i, toks[0]);
      if e == i then None else MatchFrom(s, e, toks[1..])
  }

  /** What the matcher finds is a match. */
  lemma {:induction false} MatchFromSound(s: string, i: nat, toks: seq<Token>)
    requires i <= |s| && MatchFrom(s, i, toks).Some?
    ensures Matches(s, i, MatchFrom(s, i, toks).value, toks)
    decreases |toks|
  {
    if toks != [] {
      if toks[0].Lit? {
        MatchFromSound(s, i + |toks[0].text|, toks[1..]);
      } else {
        MatchFromSound(s, RunEnd(s, i, toks[0]), toks[1..]);
      }
    }
  }

  /** A run of the class that is followed by a character outside it is the longest run. */
  lemma RunEndsAt(s: string, i: nat, e: nat, t: Token)
    requires i <= e < |s| && (forall k :: i <= k < e ==> InClass(t, s[k])) && !InClass(t, s[e])
    ensures RunEnd(s, i, t) == e
  {
  }

  /** For a well-formed pattern every match is the one the matcher finds: greedy runs lose nothing. */
  lemma {:induction false} MatchFromComplete(s: string, i: nat, j: nat, toks: seq<Token>)
    requires i <= |s| && WellFormed(toks) && Matches(s, i, j, toks)
    ensures MatchFrom(s, i, toks) == Some(j)
    decreases |toks|
  {
    if toks != [] {
      if toks[0].Lit? {
        MatchFromComplete(s, i + |toks[0].text|, j, toks[1..]);
      } else {
        var e :| i < e <= |s| && (forall k :: i <= k < e ==> InClass(toks[0], s[k])) && Matches(s, e, j, toks[1..]);
        var lit := toks[1].text;
        assert toks[1..][0] == toks[1];
        assert OccursAt(s, lit, e) && s[e] == s[e..e + |lit|][0];
        RunEndsAt(s, i, e, toks[0]);
        MatchFromComplete(s, e, j, toks[1..]);
      }
    }
  }

  /** re.search: the match that starts leftmost, at or after i. */
  function SearchFrom(s: string, i: nat, toks: seq<Token>): (r: Option<(nat, nat)>)
    requires i <= |s|
    ensures r.Some? ==> i <= r.value.0 <= |s| && MatchFrom(s, r.value.0, toks) == Some(r.value.1)
                        && forall k :: i <= k < r.value.0 ==> MatchFrom(s, k, toks).None?
    ensures r.None? ==> forall k :: i <= k <= |s| ==> MatchFrom(s, k, toks).None?
    decreases |s| - i
  {
    match MatchFrom(s, i, toks)
    case Some(j) => Some((i, j))
    case None => if i == |s| then None else SearchFrom(s, i + 1, toks)
  }

  /** The match starting at i is the leftmost one. */
  ghost predicate LeftmostMatch(s: string, i: nat, j: nat, toks: seq<Token>)
  {
    Matches(s, i, j, toks) && forall k: nat, e: nat :: k < i ==> !Matches(s, k, e, toks)
  }

  /** For a well-formed pattern the search finds the leftmost match, and finds nothing only when there is none. */
  lemma SearchLeftmost(s: string, toks: seq<Token>)
    requires WellFormed(toks)
    ensures SearchFrom(s, 0, toks).Some? ==> var (i, j) := SearchFrom(s, 0, toks).value; j <= |s| && LeftmostMatch(s, i, j, toks)
    ensures SearchFrom(s, 0, toks).None? ==> forall i: nat, j: nat :: i <= |s| ==> !Matches(s, i, j, toks)
  {
    forall k: nat, e: nat | k <= |s| && Matches(s, k, e, toks)
      ensures MatchFrom(s, k, toks) == Some(e)
    {
      MatchFromComplete(s, k, e, toks);
    }
    if SearchFrom(s, 0, toks).Some? {
      var (i, j) := SearchFrom(s, 0, toks).value;
      MatchFromSound(s, i, toks);
      forall k: nat, e: nat | k < i
        ensures !Matches(s, k, e, toks)
      {
        if Matches(s, k, e, toks) {
          MatchesInside(s, k, e, toks);
        }
      }
    }
  }

  /** A match lies inside the text. */
  lemma {:induction false} MatchesInside(s: string, i: nat, j: nat, toks: seq<Token>)
    requires Matches(s, i, j, toks)
    ensures i <= j <= |s| || (toks == [] && i == j)
    decreases |toks|
  {
    if toks != [] {
      if toks[0].Lit? {
        MatchesInside(s, i + |toks[0].text|, j, toks[1..]);
      } else {
        var e :| i < e <= |s| && (forall k :: i <= k < e ==> InClass(toks[0], s[k])) && Matches(s, e, j, toks[1..]);
        MatchesInside(s, e, j, toks[1..]);
      }
    }
  }

  /** A parser of the English date text (strptime): a timestamp, or None for ValueError. */
  type DateParser = string -> Option<int>

  /** parse_date: the leftmost date in the text, translated and parsed; None when there is none or it does not parse. */
  function ParseDate(strptime: DateParser, text: string): Option<int>
  {
    ParseWith(strptime, text, DatePattern)
  }

  function ParseWith(strptime: DateParser, text: string, toks: seq<Token>): Option<int>
  {
    match SearchFrom(text, 0, toks)
    case None => None
    case Some((i, j)) => strptime(Translate(text[i..j]))
  }

  /** A date is found exactly when the leftmost occurrence of the pattern parses once translated. */
  lemma ParseDateSpec(strptime: DateParser, text: string)
    ensures ParseDate(strptime, text).Some? <==>
            exists i: nat, j: nat :: i <= j <= |text| && LeftmostMatch(text, i, j, DatePattern)
                                     && strptime(Translate(text[i..j])).Some?
  {
    DatePatternWellFormed();
    ParseWithSpec(strptime, text, DatePattern);
  }

  lemma ParseWithSpec(strptime: DateParser, text: string, toks: seq<Token>)
    requires WellFormed(toks)
    ensures ParseWith(strptime, text, toks).Some? <==>
            exists i: nat, j: nat :: i <= j <= |text| && LeftmostMatch(text, i, j, toks)
                                     && strptime(Translate(text[i..j])).Some?
  {
    if ParseWith(strptime, text, toks).Some? {
      SearchLeftmost(text, toks);
      var (i, j) := SearchFrom(text, 0, toks).value;
      assert i <= j <= |text| && LeftmostMatch(text, i, j, toks) && strptime(Translate(text[i..j])).Some?;
    } else {
      forall i: nat, j: nat | i <= j <= |text| && LeftmostMatch(text, i, j, toks)
        ensures strptime(Translate(text[i..j])).None?
      {
        SearchFindsLeftmost(text, i, j, toks);
      }
    }
  }

  /** The leftmost match is the one the search returns. */
  lemma SearchFindsLeftmost(text: string, i: nat, j: nat, toks: seq<Token>)
    requires WellFormed(toks) && i <= j <= |text| && LeftmostMatch(text, i, j, toks)
    ensures SearchFrom(text, 0, toks) == Some((i, j))
  {
    SearchLeftmost(text, toks);
    MatchFromComplete(text, i, j, toks);
    if SearchFrom(text, 0, toks).Some? {
      var (i', j') := SearchFrom(text, 0, toks).value;
      MatchFromSound(text, i', toks);
    }
  }

  // ------------------------------------------------------------------
  // preprocess_title
  // ------------------------------------------------------------------

  /** A character of string.punctuation: the printable ASCII characters that are neither letters, digits nor space. */
  predicate IsPunctuation(c: char)
  {
    '!' <= c <= '/' || ':' <= c <= '@' || '[' <= c <= '`' || '{' <= c <= '~'
  }

  /** The text without the given characters (str.translate with a deletion table, re.sub of `\d+` by ''). */
  function DropChars(s: string, drop: char -> bool): (r: string)
    ensures forall c :: c in r <==> c in s && !drop(c)
  {
    if s == [] then []
    else
      var rest := DropChars(s[1..], drop);
      assert forall c :: c in s <==> c == s[0] || c in s[1..];
      (if drop(s[0]) then [] else [s[0]]) + rest
  }

  /** ' '.join(title.split()) */
  function NormaliseSpaces(s: string): string
  {
    Join(" ", Words(s))
  }

  /** Lines 98-104: no punctuation, lower case, no digits, single spaces. */
  function CleanTitle(title: string): string
  {
    NormaliseSpaces(DropChars(Lower(DropChars(title, IsPunctuation)), IsDigit))
  }

  predicate CleanChar(c: char)
  {
    !IsUpper(c) && !IsPunctuation(c) && !IsDigit(c)
  }

  /** Lowering a text without punctuation leaves no upper-case letter and brings in no punctuation. */
  lemma LoweredClean(a: string)
    requires forall c :: c in a ==> !IsPunctuation(c)
    ensures forall c :: c in Lower(a) ==> !IsUpper(c) && !IsPunctuation(c)
  {
    var b := Lower(a);
    forall c | c in b
      ensures !IsUpper(c) && !IsPunctuation(c)
    {
      var i :| 0 <= i < |b| && b[i] == c;
      assert a[i] in a;
    }
  }

  /** A cleaned title has no upper-case letter, punctuation or digit, and no leading, trailing or doubled space. */
  lemma CleanTitleShape(title: string)
    ensures var t := CleanTitle(title); SingleSpaced(t) && forall c :: c in t ==> CleanChar(c)
  {
    var a := DropChars(title, IsPunctuation);
    var d := DropChars(Lower(a), IsDigit);
    LoweredClean(a);
    assert forall c :: c in d ==> CleanChar(c);
    var ok := (c: char) => CleanChar(c);
    assert forall c :: c in d ==> ok(c);
    WordsKeeps(d, ok);
    WordsAreTokens(d);
    JoinKeeps(Words(d), ok);
    JoinSingleSpaced(Words(d));
  }

  /** Line 106: the words that are not stopwords, joined by single spaces. */
  function DropStopwords(t: string, stop: set<string>): string
  {
    Join(" ", DropWords(Words(t), stop))
  }

  /** After stopword removal the words are exactly the non-stopwords, in order: no word is a stopword. */
  lemma StopwordsGone(t: string, stop: set<string>)
    ensures Words(DropStopwords(t, stop)) == DropWords(Words(t), stop)
    ensures forall w :: w in Words(DropStopwords(t, stop)) ==> w !in stop
  {
    var ws := Words(t);
    var kept := DropWords(ws, stop);
    WordsAreTokens(t);
    forall k | 0 <= k < |kept|
      ensures IsToken(kept[k])
    {
      var j :| 0 <= j < |ws| && ws[j] == kept[k];
    }
    WordsJoin(kept);
  }

  /** Removing whitespace runs twice changes nothing more. */
  lemma NormaliseIdempotent(s: string)
    ensures NormaliseSpaces(NormaliseSpaces(s)) == NormaliseSpaces(s)
  {
    WordsAreTokens(s);
    WordsJoin(Words(s));
  }

  /** Line 108: every word stemmed. */
  function Stemmed(stem: string -> string, ws: seq<string>): (r: seq<string>)
    ensures |r| == |ws|
  {
    seq(|ws|, k requires 0 <= k < |ws| => stem(ws[k]))
  }

  // ------------------------------------------------------------------
  // fetch_news
  // ------------------------------------------------------------------

  /** The title link of an item: its text and its href (None when the attribute is missing). */
  datatype Anchor = Anchor(title: string, href: Option<string>)

  /** A listed item: its title link (None: the lookup raises) and its whole text. */
  datatype Item = Item(anchor: Option<Anchor>, text: string)

  /** A result page: driver.get raised (a timeout, a WebDriverException), or the page's '.latest__item' elements. */
  datatype Page = LoadFailed | Loaded(items: seq<Item>)

  /**
   * The parameters: the stopword set, the stemmer, strptime, strftime, and
   * the two classifiers (each gives the arg-max label and its probability).
   */
  datatype Query = Query(stop: set<string>, stem: string -> string, strptime: DateParser, format: int -> string,
                         sentiment: string -> (nat, real), specific: string -> (nat, real))

  /** The full title pipeline of preprocess_title. */
  function Preprocess(q: Query, title: string): string
  {
    Join(" ", Stemmed(q.stem, Words(DropStopwords(CleanTitle(title), q.stop))))
  }

  /** A row of classified_titles. */
  datatype Classified = Classified(original: string, processed: string, sentimentLabel: nat, sentimentConfidence: real,
                                   specificLabel: nat, specificConfidence: real, date: string, link: Option<string>)

  /** A row of news_data. */
  datatype News = News(title: string, link: Option<string>, date: string)

  /** The row an item yields: none when its title link is missing or its text has no date that parses. */
  function Row(q: Query, it: Item): (r: Option<Classified>)
    ensures r.Some? <==> it.anchor.Some? && ParseDate(q.strptime, it.text).Some?
    ensures r.Some? ==> r.value.original == it.anchor.value.title && r.value.link == it.anchor.value.href
                        && r.value.date == q.format(ParseDate(q.strptime, it.text).value)
    ensures r.Some? ==> r.value.processed == Preprocess(q, it.anchor.value.title)
                        && (r.value.sentimentLabel, r.value.sentimentConfidence) == q.sentiment(r.value.processed)
                        && (r.value.specificLabel, r.value.specificConfidence) == q.specific(r.value.processed)
  {
    if it.anchor.None? then None
    else match ParseDate(q.strptime, it.text)
      case None => None
      case Some(stamp) =>
        var processed := Preprocess(q, it.anchor.value.title);
        var (sl, sc) := q.sentiment(processed);
        var (l, lc) := q.specific(processed);
        Some(Classified(it.anchor.value.title, processed, sl, sc, l, lc, q.format(stamp), it.anchor.value.href))
  }

  function Rows(q: Query): Item -> Option<Classified>
  {
    it => Row(q, it)
  }

  lemma RowOf(q: Query, it: Item)
    ensures Rows(q)(it) == Row(q, it)
  {
  }

  /** The rows collected so far, followed by the rows of the items, in order. */
  function ItemsFrom(row: Item -> Option<Classified>, acc: seq<Classified>, items: seq<Item>): seq<Classified>
    decreases |items|
  {
    if items == [] then acc
    else
      var r := row(items[0]);
      ItemsFrom(row, if r.Some? then acc + [r.value] else acc, items[1..])
  }

  /** Consecutive items are collected one part after the other. */
  lemma {:induction false} ItemsFromAppend(row: Item -> Option<Classified>, acc: seq<Classified>, a: seq<Item>, b: seq<Item>)
    ensures ItemsFrom(row, acc, a + b) == ItemsFrom(row, ItemsFrom(row, acc, a), b)
    decreases |a|
  {
    if a == [] {
      assert a + b == b;
    } else {
      assert (a + b)[0] == a[0] && (a + b)[1..] == a[1..] + b;
      var r := row(a[0]);
      ItemsFromAppend(row, if r.Some? then acc + [r.value] else acc, a[1..], b);
    }
  }

  /** An item without a row (a missing link, a date that does not parse) is skipped and nothing else is. */
  lemma SkippedItem(row: Item -> Option<Classified>, acc: seq<Classified>, a: seq<Item>, it: Item, b: seq<Item>)
    requires row(it).None?
    ensures ItemsFrom(row, acc, a + [it] + b) == ItemsFrom(row, acc, a + b)
  {
    ItemsFromAppend(row, acc, a + [it], b);
    ItemsFromAppend(row, acc, a, [it]);
    ItemsFromAppend(row, acc, a, b);
    assert [it][1..] == [];
  }

  /** The news_data row that goes with a classified row. */
  function NewsRows(cs: seq<Classified>): (ns: seq<News>)
    ensures |ns| == |cs|
    ensures forall k :: 0 <= k < |cs| ==> ns[k] == News(cs[k].original, cs[k].link, cs[k].date)
  {
    if cs == [] then []
    else
      var c := cs[|cs| - 1];
      NewsRows(cs[..|cs| - 1]) + [News(c.original, c.link, c.date)]
  }

  /**
   * The rows collected so far, then pages 1.. in order, no more than `left` of
   * them, up to the first page without items; None where a page it loads
   * raises, since driver.get is outside any `try`.
   */
  function Walk(row: Item -> Option<Classified>, acc: seq<Classified>, pages: seq<Page>, left: int): Option<seq<Classified>>
    decreases |pages|
  {
    if left <= 0 || pages == [] then Some(acc)
    else if pages[0].LoadFailed? then None
    else if pages[0].items == [] then Some(acc)
    else Walk(row, ItemsFrom(row, acc, pages[0].items), pages[1..], left - 1)
  }

  /** What fetch_news collects, or None when it raises. */
  function Collected(q: Query, pages: seq<Page>, numPages: int): Option<seq<Classified>>
  {
    Walk(Rows(q), [], pages, numPages)
  }

  /** Collecting from item i is taking item i's row, if any, then collecting from item i + 1. */
  lemma ItemsStep(row: Item -> Option<Classified>, acc: seq<Classified>, items: seq<Item>, i: nat)
    requires i < |items|
    ensures ItemsFrom(row, acc, items[i..])
            == ItemsFrom(row, if row(items[i]).Some? then acc + [row(items[i]).value] else acc, items[i + 1..])
  {
    assert items[i..][0] == items[i] && items[i..][1..] == items[i + 1..];
  }

  /** The loop over one page's items. */
  method ScanPage(q: Query, items: seq<Item>, classified0: seq<Classified>, news0: seq<News>)
    returns (classified: seq<Classified>, news: seq<News>)
    requires news0 == NewsRows(classified0)
    ensures classified == ItemsFrom(Rows(q), classified0, items)
    ensures news == NewsRows(classified)
  {
    ghost var goal := ItemsFrom(Rows(q), classified0, items);
    classified, news := classified0, news0;
    for i := 0 to |items|
      invariant ItemsFrom(Rows(q), classified, items[i..]) == goal
      invariant news == NewsRows(classified)
    {
      ItemsStep(Rows(q), classified, items, i);
      var r := Row(q, items[i]);
      RowOf(q, items[i]);
      if r.Some? {
        var c := r.value;
        assert (classified + [c])[..|classified|] == classified;
        classified := classified + [c];
        news := news + [News(c.original, c.link, c.date)];
      }
    }
  }

  /** Reading a page with items collects its rows, then the walk goes on from the next page. */
  lemma WalkStep(row: Item -> Option<Classified>, acc: seq<Classified>, pages: seq<Page>, page: nat, left: int)
    requires page < |pages| && pages[page].Loaded? && pages[page].items != [] && left > 0
    ensures Walk(row, acc, pages[page..], left) == Walk(row, ItemsFrom(row, acc, pages[page].items), pages[page + 1..], left - 1)
  {
    assert pages[page..][0] == pages[page] && pages[page..][1..] == pages[page + 1..];
  }

  /** No page is read once the count is used up or a page without items is reached. */
  lemma WalkStops(row: Item -> Option<Classified>, acc: seq<Classified>, pages: seq<Page>, page: nat, left: int)
    requires page <= |pages| && (left <= 0 || page == |pages| || (pages[page].Loaded? && pages[page].items == []))
    ensures Walk(row, acc, pages[page..], left) == Some(acc)
  {
    if page < |pages| {
      assert pages[page..][0] == pages[page];
    }
  }

  /** A page that fails to load, while the count lasts, ends the walk with the exception. */
  lemma WalkFails(row: Item -> Option<Classified>, acc: seq<Classified>, pages: seq<Page>, page: nat, left: int)
    requires page < |pages| && pages[page].LoadFailed? && left > 0
    ensures Walk(row, acc, pages[page..], left) == None
  {
    assert pages[page..][0] == pages[page];
  }

  /**
   * fetch_news: both lists, in lockstep; None where a page load raises, so
   * that fetch_news returns nothing and driver.quit() is not reached.
   */
  method FetchNews(q: Query, pages: seq<Page>, numPages: int) returns (r: Option<(seq<News>, seq<Classified>)>)
    ensures r.None? <==> Collected(q, pages, numPages).None?
    ensures r.None? <==> exists k :: LoadFailsAt(pages, numPages, k)
    ensures r.Some? ==> r.value.1 == Collected(q, pages, numPages).value && r.value.0 == NewsRows(r.value.1)
  {
    ghost var goal := Collected(q, pages, numPages);
    CollectedRaises(q, pages, numPages);
    var news, classified := [], [];
    var page := 0;  // the page number requested is page + 1
    // the loop ends after num_pages pages, or at the first page without items
    while page < numPages && page < |pages|
      invariant page <= |pages|
      invariant Walk(Rows(q), classified, pages[page..], numPages - page) == goal
      invariant news == NewsRows(classified)
      decreases numPages - page
    {
      if pages[page].LoadFailed? {
        WalkFails(Rows(q), classified, pages, page, numPages - page);
        return None;   // driver.get raised
      }
      if pages[page].items == [] {
        break;
      }
      WalkStep(Rows(q), classified, pages, page, numPages - page);
      classified, news := ScanPage(q, pages[page].items, classified, news);
      page := page + 1;
    }
    WalkStops(Rows(q), classified, pages, page, numPages - page);
    r := Some((news, classified));
  }

  /**
   * Page k of the input is requested and fails to load: it lies within
   * num_pages, and every page before it loaded and had items.
   */
  predicate LoadFailsAt(pages: seq<Page>, numPages: int, k: int)
  {
    && 0 <= k < |pages| && k < numPages && pages[k].LoadFailed?
    && forall j :: 0 <= j < k ==> pages[j].Loaded? && pages[j].items != []
  }

  /** The walk raises exactly when a page it requests fails to load. */
  lemma {:induction false} WalkRaises(row: Item -> Option<Classified>, acc: seq<Classified>, pages: seq<Page>, left: int)
    ensures Walk(row, acc, pages, left).None? <==> exists k :: LoadFailsAt(pages, left, k)
    decreases |pages|
  {
    if left <= 0 || pages == [] {
    } else if pages[0].LoadFailed? {
      assert LoadFailsAt(pages, left, 0);
    } else if pages[0].items == [] {
      forall k | 0 <= k < |pages| ensures !LoadFailsAt(pages, left, k) {
        if k > 0 {
          assert !(pages[0].Loaded? && pages[0].items != []);
        }
      }
    } else {
      var rest, more := pages[1..], left - 1;
      WalkRaises(row, ItemsFrom(row, acc, pages[0].items), rest, more);
      if exists k :: LoadFailsAt(pages, left, k) {
        var k :| LoadFailsAt(pages, left, k);
        assert LoadFailsAt(rest, more, k - 1) by {
          assert rest[k - 1] == pages[k];
          forall j | 0 <= j < k - 1 ensures rest[j].Loaded? && rest[j].items != [] {
            assert rest[j] == pages[j + 1];
          }
        }
      }
      if exists k :: LoadFailsAt(rest, more, k) {
        var k :| LoadFailsAt(rest, more, k);
        assert LoadFailsAt(pages, left, k + 1) by {
          assert pages[k + 1] == rest[k];
          forall j | 0 <= j < k + 1 ensures pages[j].Loaded? && pages[j].items != [] {
            if j > 0 {
              assert pages[j] == rest[j - 1];
            }
          }
        }
      }
    }
  }

  /** fetch_news raises exactly when one of the pages it requests fails to load. */
  lemma CollectedRaises(q: Query, pages: seq<Page>, numPages: int)
    ensures Collected(q, pages, numPages).None? <==> exists k :: LoadFailsAt(pages, numPages, k)
  {
    WalkRaises(Rows(q), [], pages, numPages);
  }

  /** Pages past num_pages are never read. */
  lemma {:induction false} PagesCap(row: Item -> Option<Classified>, acc: seq<Classified>, pages: seq<Page>, n: int)
    requires 0 <= n <= |pages|
    ensures Walk(row, acc, pages, n) == Walk(row, acc, pages[..n], n)
    decreases n
  {
    if n > 0 && pages[0].Loaded? && pages[0].items != [] {
      assert pages[..n][0] == pages[0] && pages[..n][1..] == pages[1..][..n - 1];
      PagesCap(row, ItemsFrom(row, acc, pages[0].items), pages[1..], n - 1);
    } else if n > 0 {
      assert pages[..n][0] == pages[0];
    }
  }

  /** A page without items ends the crawl: no page after it is read. */
  lemma {:induction false} EmptyPageEndsCrawl(row: Item -> Option<Classified>, acc: seq<Classified>, pages: seq<Page>,
                                              more: seq<Page>, n: int)
    ensures Walk(row, acc, pages + [Loaded([])] + more, n) == Walk(row, acc, pages, n)
    decreases |pages|
  {
    var all := pages + [Loaded([])] + more;
    if n > 0 && pages != [] {
      assert all[0] == pages[0] && all[1..] == pages[1..] + [Loaded([])] + more;
      if pages[0].Loaded? && pages[0].items != [] {
        EmptyPageEndsCrawl(row, ItemsFrom(row, acc, pages[0].items), pages[1..], more, n - 1);
      }
    } else if n > 0 {
      assert all[0] == Loaded([]);
    }
  }

  // ------------------------------------------------------------------
  // The label counts of the report
  // ------------------------------------------------------------------

  function SentimentLabels(cs: seq<Classified>): (ls: seq<nat>)
    ensures |ls| == |cs|
  {
    if cs == [] then [] else SentimentLabels(cs[..|cs| - 1]) + [cs[|cs| - 1].sentimentLabel]
  }

  function SpecificLabels(cs: seq<Classified>): (ls: seq<nat>)
    ensures |ls| == |cs|
  {
    if cs == [] then [] else SpecificLabels(cs[..|cs| - 1]) + [cs[|cs| - 1].specificLabel]
  }

  /** Counting one more row appends its labels. */
  lemma LabelsSnoc(cs: seq<Classified>, i: nat)
    requires i < |cs|
    ensures SentimentLabels(cs[..i + 1]) == SentimentLabels(cs[..i]) + [cs[i].sentimentLabel]
    ensures SpecificLabels(cs[..i + 1]) == SpecificLabels(cs[..i]) + [cs[i].specificLabel]
  {
    assert cs[..i + 1][..i] == cs[..i];
  }

  /** `if k not in counts: counts[k] = 0` followed by `counts[k] += 1`. */
  method Increment(counts: map<nat, nat>, k: nat) returns (r: map<nat, nat>)
    ensures r == Bump(counts, k)
  {
    r := counts;
    if k !in r {
      r := r[k := 0];
    }
    r := r[k := r[k] + 1];
  }

  /** The two counting dictionaries: each counts every classified row once, so each sums to total_titles. */
  method CountLabels(cs: seq<Classified>) returns (sentimentCounts: map<nat, nat>, labelCounts: map<nat, nat>)
    ensures sentimentCounts == Tally(SentimentLabels(cs)) && labelCounts == Tally(SpecificLabels(cs))
    ensures Sum(sentimentCounts) == |cs| && Sum(labelCounts) == |cs|
  {
    sentimentCounts, labelCounts := map[], map[];
    for i := 0 to |cs|
      invariant sentimentCounts == Tally(SentimentLabels(cs[..i])) && labelCounts == Tally(SpecificLabels(cs[..i]))
    {
      LabelsSnoc(cs, i);
      TallySnoc(SentimentLabels(cs[..i]), cs[i].sentimentLabel);
      TallySnoc(SpecificLabels(cs[..i]), cs[i].specificLabel);
      sentimentCounts := Increment(sentimentCounts, cs[i].sentimentLabel);
      labelCounts := Increment(labelCounts, cs[i].specificLabel);
    }
    assert cs[..|cs|] == cs;
    TallySum(SentimentLabels(cs));
    TallySum(SpecificLabels(cs));
  }
}
