/**
 * detik.py, lines 12 and 54: the CSV lines the crawler writes. The header
 * names six columns; each row holds five values joined by ", ".
 */
module DetikCsv {
  import opened Common

  // ------------------------------------------------------------------
  // The CSV lines
  // ------------------------------------------------------------------

  /** The header line as written, "Title,Category,Day,Date,Summary,URL\n": six column names. */
  const Header := "Title" + "," + "Category" + "," + "Day" + "," + "Date" + "," + "Summary" + "," + "URL" + "\n"

  /** The header naming the five values each row holds, in the row's order. */
  const CorrectedHeader := "Title" + "," + "Category" + "," + "Date" + "," + "Summary" + "," + "URL" + "\n"

  /** The number of comma-separated values on a line (no field is quoted). */
  function Columns(line: string): nat
  {
    multiset(line)[','] + 1
  }

  /**
   * One row: the title with ',' replaced by '|', the category, the date text,
   * the summary with ',' replaced by ' ', and the link, joined by ", ".
   */
  function Row(title: string, category: string, date: string, summary: string, link: string): (r: string)
    ensures r != [] && r[|r| - 1] == '\n'
  {
    ReplaceAll(title, ",", "|") + ", " + category + ", " + date + ", " + ReplaceAll(summary, ",", " ") + ", " + link + "\n"
  }

  /**
   * The row's commas are its four separators plus any in the category, the
   * date and the link; the title and summary contribute none.
   */
  lemma RowCommas(title: string, category: string, date: string, summary: string, link: string)
    ensures multiset(Row(title, category, date, summary, link))[',']
            == 4 + multiset(category)[','] + multiset(date)[','] + multiset(link)[',']
  {
    var t, s := ReplaceAll(title, ",", "|"), ReplaceAll(summary, ",", " ");
    ReplaceRemovesChar(title, ',', "|");
    ReplaceRemovesChar(summary, ',', " ");
    assert multiset(t)[','] == 0 && multiset(s)[','] == 0;
    SeparatorJoin(t, category);
    SeparatorJoin(t + ", " + category, date);
    SeparatorJoin(t + ", " + category + ", " + date, s);
    SeparatorJoin(t + ", " + category + ", " + date + ", " + s, link);
    AppendCommas(t + ", " + category + ", " + date + ", " + s + ", " + link, "\n");
  }

  /** Joining two texts with ", " adds one comma to theirs. */
  lemma SeparatorJoin(a: string, b: string)
    ensures multiset(a + ", " + b)[','] == multiset(a)[','] + 1 + multiset(b)[',']
  {
    var sep := ", ";
    assert multiset(sep)[','] == 1 by { assert sep == [','] + [' ']; }
  }

  /** Appending a text adds its commas. */
  lemma AppendCommas(a: string, b: string)
    ensures multiset(a + b)[','] == multiset(a)[','] + multiset(b)[',']
  {
  }

  /** Five values on a row whose category, date and link hold no comma. */
  lemma RowColumns(title: string, category: string, date: string, summary: string, link: string)
    requires ',' !in category && ',' !in date && ',' !in link
    ensures Columns(Row(title, category, date, summary, link)) == 5
  {
    RowCommas(title, category, date, summary, link);
  }

  /** One more comma-free name after a ',' adds one comma. */
  lemma CommaJoin(a: string, b: string)
    requires ',' !in b
    ensures multiset(a + "," + b)[','] == multiset(a)[','] + 1
  {
    assert multiset(b)[','] == 0;
  }

  /** None of the column names holds a comma. */
  lemma NamesWithoutCommas()
    ensures ',' !in "Title" && ',' !in "Category" && ',' !in "Day" && ',' !in "Date" && ',' !in "Summary" && ',' !in "URL"
  {
  }

  /** Five comma-free names joined by ',' and ended by a newline hold four commas. */
  lemma JoinedCommas(a: string, b: string, c: string, d: string, e: string)
    requires ',' !in a && ',' !in b && ',' !in c && ',' !in d && ',' !in e
    ensures multiset(a + "," + b + "," + c + "," + d + "," + e + "\n")[','] == 4
  {
    assert multiset(a)[','] == 0;
    CommaJoin(a, b);
    CommaJoin(a + "," + b, c);
    CommaJoin(a + "," + b + "," + c, d);
    CommaJoin(a + "," + b + "," + c + "," + d, e);
    assert multiset("\n")[','] == 0;
  }

  /** The same with six names: five commas. */
  lemma JoinedCommas6(a: string, b: string, c: string, d: string, e: string, f: string)
    requires ',' !in a && ',' !in b && ',' !in c && ',' !in d && ',' !in e && ',' !in f
    ensures multiset(a + "," + b + "," + c + "," + d + "," + e + "," + f + "\n")[','] == 5
  {
    assert multiset(a)[','] == 0;
    CommaJoin(a, b);
    CommaJoin(a + "," + b, c);
    CommaJoin(a + "," + b + "," + c, d);
    CommaJoin(a + "," + b + "," + c + "," + d, e);
    CommaJoin(a + "," + b + "," + c + "," + d + "," + e, f);
    assert multiset("\n")[','] == 0;
  }

  /** The header as written holds five commas. */
  lemma HeaderCommas()
    ensures multiset(Header)[','] == 5
  {
    NamesWithoutCommas();
    JoinedCommas6("Title", "Category", "Day", "Date", "Summary", "URL");
  }

  /** The corrected header holds four. */
  lemma CorrectedHeaderCommas()
    ensures multiset(CorrectedHeader)[','] == 4
  {
    NamesWithoutCommas();
    JoinedCommas("Title", "Category", "Date", "Summary", "URL");
  }

  /** The header as written names six columns, one more than any such row holds. */
  lemma HeaderMismatch(title: string, category: string, date: string, summary: string, link: string)
    requires ',' !in category && ',' !in date && ',' !in link
    ensures Columns(Header) == 6
    ensures Columns(Row(title, category, date, summary, link)) == 5
  {
    RowColumns(title, category, date, summary, link);
    HeaderCommas();
  }

  /** The corrected header names exactly as many columns as a row holds. */
  lemma CorrectedHeaderMatches(title: string, category: string, date: string, summary: string, link: string)
    requires ',' !in category && ',' !in date && ',' !in link
    ensures Columns(CorrectedHeader) == Columns(Row(title, category, date, summary, link)) == 5
  {
    RowColumns(title, category, date, summary, link);
    CorrectedHeaderCommas();
  }
}
