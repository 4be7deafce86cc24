/**
 * detik.py, lines 18-26: the search window. The start is the clock reading
 * minus 365 days (raising OverflowError before 1 January of year 1), and
 * both ends are written "%d/%m/%Y" for the URL.
 */
module DetikDates {
  import opened Common

  /** A date of the proleptic Gregorian calendar, as datetime holds it. */
  datatype CivilDate = CivilDate(year: int, month: int, day: int)

  /** datetime's range: years 1 to 9999, and a day that exists in its month. */
  predicate Valid(d: CivilDate)
  {
    1 <= d.year <= 9999 && 1 <= d.month <= 12 && 1 <= d.day <= MonthLength(d.year, d.month)
  }

  const Epoch := CivilDate(1, 1, 1)

  function YearLength(y: int): nat
  {
    if MonthLength(y, 2) == 29 then 366 else 365
  }

  /** Days of the year before the first of month m. */
  function DaysBeforeMonth(y: int, m: int): nat
    requires 1 <= m <= 12
  {
    var cumulative := [0, 31, 59, 90, 120, 151, 181, 212, 243, 273, 304, 334];
    cumulative[m - 1] + (if m > 2 && MonthLength(y, 2) == 29 then 1 else 0)
  }

  /** Days from 1 January of year 1 to 1 January of year y. */
  function DaysBeforeYear(y: int): nat
    decreases y
  {
    if y <= 1 then 0 else DaysBeforeYear(y - 1) + YearLength(y - 1)
  }

  /** date.toordinal() − 1: days since 1 January of year 1. */
  function DayNumber(d: CivilDate): nat
    requires Valid(d)
  {
    DaysBeforeYear(d.year) + DaysBeforeMonth(d.year, d.month) + d.day - 1
  }

  /** The first of the month follows the last day of the month before. */
  lemma MonthsAdjoin(y: int, m: int)
    requires 1 <= m < 12
    ensures DaysBeforeMonth(y, m + 1) == DaysBeforeMonth(y, m) + MonthLength(y, m)
  {
  }

  /** December ends the year. */
  lemma YearOfMonths(y: int)
    ensures DaysBeforeMonth(y, 12) + MonthLength(y, 12) == YearLength(y)
  {
  }

  /** Only 1 January of year 1 has day number 0. */
  lemma DayNumberZero(d: CivilDate)
    requires Valid(d)
    ensures DayNumber(d) == 0 <==> d == Epoch
  {
    if d.year > 1 {
      assert DaysBeforeYear(d.year) >= YearLength(d.year - 1);
    }
  }

  /** The day before d. */
  function PrevDay(d: CivilDate): (r: CivilDate)
    requires Valid(d) && d != Epoch
    ensures Valid(r) && DayNumber(r) + 1 == DayNumber(d)
  {
    if d.day > 1 then CivilDate(d.year, d.month, d.day - 1)
    else if d.month > 1 then
      MonthsAdjoin(d.year, d.month - 1);
      CivilDate(d.year, d.month - 1, MonthLength(d.year, d.month - 1))
    else
      YearOfMonths(d.year - 1);
      CivilDate(d.year - 1, 12, 31)
  }

  /** d − timedelta(days=n): None where datetime raises OverflowError. */
  function DaysEarlier(d: CivilDate, n: nat): (r: Option<CivilDate>)
    requires Valid(d)
    ensures r.Some? <==> n <= DayNumber(d)
    ensures r.Some? ==> Valid(r.value) && DayNumber(r.value) + n == DayNumber(d)
    decreases n
  {
    DayNumberZero(d);
    if n == 0 then Some(d)
    else if d == Epoch then None
    else DaysEarlier(PrevDay(d), n - 1)
  }

  // ------------------------------------------------------------------
  // strftime("%d/%m/%Y")
  // ------------------------------------------------------------------

  /** A number below 100 as two digits, zero-padded (%d, %m). */
  function TwoDigits(n: nat): (s: string)
    requires n < 100
    ensures |s| == 2 && AllDigits(s) && DigitsValue(s) == n
  {
    var s := [('0' as int + n / 10) as char, ('0' as int + n % 10) as char];
    assert s[..1] == [s[0]] && s[..1][..0] == [];
    assert DigitsValue(s[..1]) == n / 10;
    s
  }

  /** strftime("%d/%m/%Y"), the year written with its decimal digits. */
  function FormatDate(d: CivilDate): string
    requires Valid(d)
  {
    TwoDigits(d.day) + "/" + TwoDigits(d.month) + "/" + DecimalString(d.year)
  }

  /** The formatted date reads back as the same day, month and year: "%d/%m/%Y" loses nothing. */
  lemma FormatDateParses(d: CivilDate)
    requires Valid(d)
    ensures var t := FormatDate(d);
            && |t| >= 7 && t[2] == '/' && t[5] == '/'
            && AllDigits(t[..2]) && AllDigits(t[3..5]) && AllDigits(t[6..])
            && DigitsValue(t[..2]) == d.day && DigitsValue(t[3..5]) == d.month && DigitsValue(t[6..]) == d.year
  {
    var dd, mm, yy := TwoDigits(d.day), TwoDigits(d.month), DecimalString(d.year);
    var t := FormatDate(d);
    assert t == dd + "/" + mm + "/" + yy;
    assert t[..2] == dd && t[3..5] == mm && t[6..] == yy;
  }

  /** Different valid dates are formatted differently. */
  lemma FormatDateInjective(d: CivilDate, e: CivilDate)
    requires Valid(d) && Valid(e) && FormatDate(d) == FormatDate(e)
    ensures d == e
  {
    FormatDateParses(d);
    FormatDateParses(e);
  }

  // ------------------------------------------------------------------
  // The window
  // ------------------------------------------------------------------

  /** fromdatex and todatex of the search URL. */
  datatype Window = Window(from: string, to: string)

  /**
   * The window for a clock reading: None where subtracting 365 days raises;
   * otherwise the start 365 days back and the reading itself, both formatted.
   */
  function SearchWindow(now: CivilDate): (w: Option<Window>)
    requires Valid(now)
    ensures w.Some? <==> 365 <= DayNumber(now)
    ensures w.Some? ==> w.value.to == FormatDate(now)
  {
    match DaysEarlier(now, 365)
    case None => None
    case Some(start) => Some(Window(FormatDate(start), FormatDate(now)))
  }

  /** The window's start is a valid date exactly 365 days before its end. */
  lemma WindowSpan(now: CivilDate)
    requires Valid(now) && SearchWindow(now).Some?
    ensures exists start :: Valid(start) && DayNumber(start) + 365 == DayNumber(now)
                            && SearchWindow(now).value.from == FormatDate(start)
  {
    var start := DaysEarlier(now, 365).value;
    assert Valid(start) && DayNumber(start) + 365 == DayNumber(now);
  }
}
