/**
 * Helpers shared by the crawlers: an Option type, the Python string operations
 * the scripts use (strip, lower, `in`, find, replace, split, join), counter maps
 * (defaultdict/Counter) with their totals, the duration units of the prompts and
 * the `/YYYY/MM/DD/` URL segment search.
 */
module Common {

  datatype Option<+T> = None | Some(value: T)

  /** Timestamps are whole seconds; a timedelta of n days is n * DaySeconds. */
  const DaySeconds: int := 86400

  /** A parsed article date: its timestamp and the calendar fields the counters use. */
  datatype Date = Date(stamp: int, year: int, month: int)

  // ------------------------------------------------------------------
  // Characters
  // ------------------------------------------------------------------

  /** Python's str.isspace for a single character. */
  predicate IsSpace(c: char)
  {
    var n := c as int;
    n == 32 || 9 <= n <= 13 || 0x1c <= n <= 0x1f || n == 0x85 || n == 0xa0 || n == 0x1680
    || 0x2000 <= n <= 0x200a || n == 0x2028 || n == 0x2029 || n == 0x202f || n == 0x205f || n == 0x3000
  }

  predicate IsDigit(c: char) { '0' <= c <= '9' }

  predicate IsUpper(c: char) { 'A' <= c <= 'Z' }

  predicate IsLowerLetter(c: char) { 'a' <= c <= 'z' }

  function LowerChar(c: char): char
  {
    if IsUpper(c) then (c as int + 32) as char else c
  }

  function UpperChar(c: char): char
  {
    if IsLowerLetter(c) then (c as int - 32) as char else c
  }

  /** str.lower, on ASCII letters. */
  function Lower(s: string): (r: string)
    ensures |r| == |s|
    ensures forall i :: 0 <= i < |s| ==> r[i] == LowerChar(s[i])
  {
    seq(|s|, i requires 0 <= i < |s| => LowerChar(s[i]))
  }

  // ------------------------------------------------------------------
  // str.strip
  // ------------------------------------------------------------------

  /** str.lstrip(): the longest suffix that does not start with whitespace. */
  function TrimStart(s: string): (r: string)
    ensures |r| <= |s| && r == s[|s| - |r|..]
    ensures r == [] || !IsSpace(r[0])
  {
    if s != [] && IsSpace(s[0]) then TrimStart(s[1..]) else s
  }

  /** str.rstrip(): the longest prefix that does not end with whitespace. */
  function TrimEnd(s: string): (r: string)
    ensures |r| <= |s| && r == s[..|r|]
    ensures r == [] || !IsSpace(r[|r| - 1])
  {
    if s != [] && IsSpace(s[|s| - 1]) then TrimEnd(s[..|s| - 1]) else s
  }

  /** str.strip(): drops leading and trailing whitespace and nothing else. */
  function Strip(s: string): (r: string)
    ensures |r| <= |s| && NoSpaceAround(r)
  {
    TrimEnd(TrimStart(s))
  }

  /** str.strip adds no character. */
  lemma StripAddsNothing(s: string)
    ensures forall c :: c in Strip(s) ==> c in s
  {
    StripKeepsMiddle(s);
    var i :| KeptBetween(s, Strip(s), i);
    SliceChars(s, Strip(s), i);
  }

  /** A slice of a text holds only characters of the text. */
  lemma SliceChars(s: string, r: string, i: int)
    requires 0 <= i <= |s| - |r| && r == s[i..i + |r|]
    ensures forall c :: c in r ==> c in s
  {
    forall c | c in r ensures c in s {
      var k :| 0 <= k < |r| && r[k] == c;
      assert s[i + k] == c;
    }
  }

  /** str.lstrip drops whitespace only. */
  lemma {:induction false} TrimStartDropsSpace(s: string)
    ensures forall k :: 0 <= k < |s| - |TrimStart(s)| ==> IsSpace(s[k])
  {
    if s != [] && IsSpace(s[0]) {
      TrimStartDropsSpace(s[1..]);
      forall k | 1 <= k < |s| - |TrimStart(s)| ensures IsSpace(s[k]) {
        assert s[k] == s[1..][k - 1];
      }
    }
  }

  /** str.rstrip drops whitespace only. */
  lemma {:induction false} TrimEndDropsSpace(s: string)
    ensures forall k :: |TrimEnd(s)| <= k < |s| ==> IsSpace(s[k])
  {
    if s != [] && IsSpace(s[|s| - 1]) {
      TrimEndDropsSpace(s[..|s| - 1]);
      forall k | |TrimEnd(s)| <= k < |s| - 1 ensures IsSpace(s[k]) {
        assert s[k] == s[..|s| - 1][k];
      }
    }
  }

  /**
   * str.strip removes only the whitespace at the ends: the result is a slice
   * of the text, and everything outside that slice is whitespace.
   */
  lemma StripKeepsMiddle(s: string)
    ensures exists i :: KeptBetween(s, Strip(s), i)
  {
    var t := TrimStart(s);
    TrimStartDropsSpace(s);
    TrimEndDropsSpace(t);
    StripSlice(s, t, TrimEnd(t));
    assert Strip(s) == TrimEnd(t);
  }

  /** A whitespace-only prefix dropped, then a whitespace-only suffix: what is left is a slice with whitespace around it. */
  lemma StripSlice(s: string, t: string, r: string)
    requires |t| <= |s| && t == s[|s| - |t|..] && (forall k :: 0 <= k < |s| - |t| ==> IsSpace(s[k]))
    requires |r| <= |t| && r == t[..|r|] && (forall k :: |r| <= k < |t| ==> IsSpace(t[k]))
    ensures exists i :: KeptBetween(s, r, i)
  {
    var i := |s| - |t|;
    assert r == s[i..i + |r|];
    forall k | i + |r| <= k < |s| ensures IsSpace(s[k]) {
      assert s[k] == t[k - i];
    }
    assert KeptBetween(s, r, i);
  }

  /** r is s[i..i + |r|], and every character of s outside that slice is whitespace. */
  predicate KeptBetween(s: string, r: string, i: int)
  {
    0 <= i <= |s| - |r| && r == s[i..i + |r|]
    && forall k :: 0 <= k < |s| && (k < i || i + |r| <= k) ==> IsSpace(s[k])
  }

  /** Neither end of s is whitespace. */
  predicate NoSpaceAround(s: string)
  {
    s == [] || (!IsSpace(s[0]) && !IsSpace(s[|s| - 1]))
  }

  /** Joining two texts whose ends are not whitespace, with anything between them, keeps that property. */
  lemma JoinedNoSpaceAround(a: string, sep: string, b: string)
    requires a != [] && b != [] && NoSpaceAround(a) && NoSpaceAround(b)
    ensures NoSpaceAround(a + sep + b)
  {
    var r := a + sep + b;
    assert r[0] == a[0];
    assert r[|r| - 1] == b[|b| - 1];
  }

  // ------------------------------------------------------------------
  // Substrings: `in`, str.find, str.startswith, str.replace
  // ------------------------------------------------------------------

  predicate OccursAt(s: string, pat: string, i: int)
  {
    0 <= i && i + |pat| <= |s| && s[i..i + |pat|] == pat
  }

  /** Python's `pat in s`. */
  predicate Contains(s: string, pat: string)
  {
    exists i | 0 <= i <= |s| :: OccursAt(s, pat, i)
  }

  /** `keyword.lower() in title.lower()`. */
  predicate ContainsIgnoringCase(s: string, pat: string)
  {
    Contains(Lower(s), Lower(pat))
  }

  predicate StartsWith(s: string, pat: string)
  {
    |pat| <= |s| && s[..|pat|] == pat
  }

  /** str.find: the first index where `pat` occurs, None for -1. */
  function Find(s: string, pat: string): (r: Option<nat>)
    ensures r.Some? ==> OccursAt(s, pat, r.value) && forall j :: 0 <= j < r.value ==> !OccursAt(s, pat, j)
    ensures r.None? <==> !Contains(s, pat)
    decreases |s|
  {
    if |pat| > |s| then None
    else if s[..|pat|] == pat then Some(0)
    else
      var rest := Find(s[1..], pat);
      if rest.None? then
        assert forall j :: 1 <= j <= |s| ==> (OccursAt(s, pat, j) ==> OccursAt(s[1..], pat, j - 1));
        None
      else
        assert forall j :: 1 <= j <= rest.value ==> (OccursAt(s, pat, j) ==> OccursAt(s[1..], pat, j - 1));
        assert s[rest.value + 1..rest.value + 1 + |pat|] == s[1..][rest.value..rest.value + |pat|];
        assert OccursAt(s, pat, rest.value + 1);
        Some(rest.value + 1)
  }

  /** Shifting the subject by one character loses only the occurrence at index 0. */
  lemma ContainsTail(s: string, pat: string)
    requires s != [] && Contains(s[1..], pat)
    ensures Contains(s, pat)
  {
    var i :| 0 <= i <= |s[1..]| && OccursAt(s[1..], pat, i);
    assert s[i + 1..i + 1 + |pat|] == s[1..][i..i + |pat|];
    assert OccursAt(s, pat, i + 1);
  }

  lemma ContainsFromTail(s: string, pat: string)
    requires s != []
    ensures Contains(s[1..], pat) ==> Contains(s, pat)
  {
    if Contains(s[1..], pat) { ContainsTail(s, pat); }
  }

  /** str.replace(pat, rep): every non-overlapping occurrence, scanning left to right. */
  function ReplaceAll(s: string, pat: string, rep: string): (r: string)
    requires pat != []
    ensures !Contains(s, pat) ==> r == s
    ensures forall c :: c in r ==> c in s || c in rep
    decreases |s|
  {
    if |s| < |pat| then s
    else if s[..|pat|] == pat then
      assert OccursAt(s, pat, 0);
      rep + ReplaceAll(s[|pat|..], pat, rep)
    else
      var tail := ReplaceAll(s[1..], pat, rep);
      ContainsFromTail(s, pat);
      assert forall c :: c in s[1..] ==> c in s;
      [s[0]] + tail
  }

  /** Replacing a one-character pattern by text without that character removes it everywhere. */
  lemma {:induction false} ReplaceRemovesChar(s: string, c: char, rep: string)
    requires c !in rep
    ensures c !in ReplaceAll(s, [c], rep)
    decreases |s|
  {
    if |s| >= 1 {
      if s[..1] == [c] {
        ReplaceRemovesChar(s[1..], c, rep);
      } else {
        ReplaceRemovesChar(s[1..], c, rep);
        assert s[0] != c;
      }
    }
  }

  // ------------------------------------------------------------------
  // str.split() and str.join
  // ------------------------------------------------------------------

  predicate NoSpace(w: string)
  {
    forall i :: 0 <= i < |w| ==> !IsSpace(w[i])
  }

  /** A token of str.split(): non-empty and free of whitespace. */
  predicate IsToken(w: string)
  {
    w != [] && NoSpace(w)
  }

  /** The longest whitespace-free prefix. */
  function TakeWord(s: string): (w: string)
    ensures |w| <= |s| && w == s[..|w|]
    ensures NoSpace(w)
    ensures |w| < |s| ==> IsSpace(s[|w|])
  {
    if s == [] || IsSpace(s[0]) then [] else [s[0]] + TakeWord(s[1..])
  }

  /** str.split() with no separator: the maximal runs of non-whitespace. */
  function Words(s: string): seq<string>
    decreases |s|
  {
    var t := TrimStart(s);
    if t == [] then []
    else
      var w := TakeWord(t);
      assert w != [];
      [w] + Words(t[|w|..])
  }

  /** Every word str.split() returns is a token. */
  lemma {:induction false} WordsAreTokens(s: string)
    ensures forall k :: 0 <= k < |Words(s)| ==> IsToken(Words(s)[k])
    decreases |s|
  {
    var t := TrimStart(s);
    if t != [] {
      var w := TakeWord(t);
      assert IsToken(w) by { assert w != []; }
      var rest := t[|w|..];
      WordsAreTokens(rest);
      TokensAppend([w], Words(rest));
      assert Words(s) == [w] + Words(rest);
    }
  }

  /** Two sequences of tokens joined together are tokens. */
  lemma TokensAppend(a: seq<string>, b: seq<string>)
    requires forall k :: 0 <= k < |a| ==> IsToken(a[k])
    requires forall k :: 0 <= k < |b| ==> IsToken(b[k])
    ensures forall k :: 0 <= k < |a + b| ==> IsToken((a + b)[k])
  {
    forall k | 0 <= k < |a + b|
      ensures IsToken((a + b)[k])
    {
      if k >= |a| {
        assert (a + b)[k] == b[k - |a|];
      }
    }
  }

  /** str.split(sep) for a one-character separator: the pieces between the separators, in order. */
  function SplitOn(s: string, sep: char): (r: seq<string>)
    ensures |r| >= 1
    ensures |r| > 1 <==> sep in s
    ensures forall k :: 0 <= k < |r| ==> sep !in r[k]
    decreases |s|
  {
    if s == [] then [[]]
    else
      var rest := SplitOn(s[1..], sep);
      assert sep in s <==> s[0] == sep || sep in s[1..];
      if s[0] == sep then [[]] + rest
      else [[s[0]] + rest[0]] + rest[1..]
  }

  function Join(sep: string, ws: seq<string>): string
  {
    if ws == [] then []
    else if |ws| == 1 then ws[0]
    else ws[0] + sep + Join(sep, ws[1..])
  }

  /** A whitespace-free word followed by whitespace (or nothing) is the word str.split() takes first. */
  lemma {:induction false} TakeWordOf(w: string, rest: string)
    requires NoSpace(w) && (rest == [] || IsSpace(rest[0]))
    ensures TakeWord(w + rest) == w
    decreases |w|
  {
    if w != [] {
      assert (w + rest)[1..] == w[1..] + rest;
      TakeWordOf(w[1..], rest);
    }
  }

  /** Joining tokens with single spaces starts with the first token's first character and ends with the last token's last. */
  lemma {:induction false} JoinEnds(ws: seq<string>)
    requires ws != [] && forall k :: 0 <= k < |ws| ==> IsToken(ws[k])
    requires ws[0] != [] && ws[|ws| - 1] != []
    ensures var j := Join(" ", ws); j != [] && j[0] == ws[0][0] && j[|j| - 1] == ws[|ws| - 1][|ws[|ws| - 1]| - 1]
  {
    if |ws| > 1 {
      assert IsToken(ws[1]);
      JoinEnds(ws[1..]);
    }
  }

  /** A single token splits into itself. */
  lemma WordsOfToken(w: string)
    requires IsToken(w)
    ensures Words(w) == [w]
  {
    TakeWordOf(w, []);
    assert w + [] == w && w[|w|..] == [];
  }

  /** A token, a space and a text starting with a non-space split into the token and the words of the text. */
  lemma WordsCons(w: string, j: string)
    requires IsToken(w) && j != [] && !IsSpace(j[0])
    ensures Words(w + " " + j) == [w] + Words(j)
  {
    var t := w + " " + j;
    TakeWordOf(w, " " + j);
    assert t == w + (" " + j);
    assert t[|w|..] == " " + j;
    assert (" " + j)[1..] == j;
    assert TrimStart(" " + j) == j;
  }

  /** str.split() undoes ' '.join on tokens: the words of the joined text are the tokens themselves. */
  lemma {:induction false} WordsJoin(ws: seq<string>)
    requires forall k :: 0 <= k < |ws| ==> IsToken(ws[k])
    ensures Words(Join(" ", ws)) == ws
  {
    if |ws| == 1 {
      WordsOfToken(ws[0]);
    } else if ws != [] {
      var rest := ws[1..];
      assert ws == [ws[0]] + rest;
      var j := Join(" ", rest);
      assert Join(" ", ws) == ws[0] + " " + j;
      assert IsToken(rest[0]) && IsToken(rest[|rest| - 1]);
      assert !IsSpace(rest[0][0]);
      JoinEnds(rest);
      WordsJoin(rest);
      WordsCons(ws[0], j);
    }
  }

  /** No whitespace at either end, and every whitespace character is a single ' ' followed by a non-space. */
  predicate SingleSpaced(t: string)
  {
    NoSpaceAround(t) && forall i :: 0 <= i < |t| && IsSpace(t[i]) ==> t[i] == ' ' && i + 1 < |t| && !IsSpace(t[i + 1])
  }

  /** ' '.join of tokens is single-spaced. */
  lemma {:induction false} JoinSingleSpaced(ws: seq<string>)
    requires forall k :: 0 <= k < |ws| ==> IsToken(ws[k])
    ensures SingleSpaced(Join(" ", ws))
  {
    if |ws| > 1 {
      var w, j := ws[0], Join(" ", ws[1..]);
      JoinSingleSpaced(ws[1..]);
      assert IsToken(ws[1]) && IsToken(ws[|ws| - 1]);
      JoinEnds(ws[1..]);
      var t := w + " " + j;
      forall i | 0 <= i < |t| && IsSpace(t[i])
        ensures t[i] == ' ' && i + 1 < |t| && !IsSpace(t[i + 1])
      {
        if i > |w| {
          assert t[i] == j[i - |w| - 1];
          if i + 1 < |t| { assert t[i + 1] == j[i - |w|]; }
        } else if i == |w| {
          assert t[i + 1] == j[0];
        }
      }
      assert t[0] == w[0] && t[|t| - 1] == j[|j| - 1];
    }
  }

  /** A property every token's characters and the space have holds of every character of the joined text. */
  lemma {:induction false} JoinKeeps(ws: seq<string>, ok: char -> bool)
    requires ok(' ') && forall k, c :: 0 <= k < |ws| && c in ws[k] ==> ok(c)
    ensures forall c :: c in Join(" ", ws) ==> ok(c)
  {
    if |ws| > 1 {
      JoinKeeps(ws[1..], ok);
      assert forall k :: 1 <= k < |ws| ==> ws[1..][k - 1] == ws[k];
    }
  }

  /** The words of a text only hold characters of the text. */
  lemma {:induction false} WordsKeeps(s: string, ok: char -> bool)
    requires forall c :: c in s ==> ok(c)
    ensures forall k, c :: 0 <= k < |Words(s)| && c in Words(s)[k] ==> ok(c)
    decreases |s|
  {
    var t := TrimStart(s);
    if t != [] {
      var w := TakeWord(t);
      var rest := t[|w|..];
      assert forall c :: c in t ==> c in s;
      assert forall c :: c in rest ==> c in t;
      WordsKeeps(rest, ok);
      var ws := Words(s);
      assert ws == [w] + Words(rest);
      forall k, c | 0 <= k < |ws| && c in ws[k]
        ensures ok(c)
      {
        if k == 0 {
          assert c in t[..|w|];
        } else {
          assert ws[k] == Words(rest)[k - 1];
        }
      }
    }
  }

  /** The filter-out-stopwords comprehension: the words that are not in `stop`, in order. */
  function DropWords(ws: seq<string>, stop: set<string>): (r: seq<string>)
    ensures forall k :: 0 <= k < |r| ==> r[k] !in stop && r[k] in ws
  {
    if ws == [] then []
    else if ws[0] in stop then DropWords(ws[1..], stop)
    else [ws[0]] + DropWords(ws[1..], stop)
  }

  // ------------------------------------------------------------------
  // Counter maps: defaultdict(int) / Counter and the sum of their values
  // ------------------------------------------------------------------

  /** `counts[k] += 1` on a defaultdict(int). */
  function Bump<K>(m: map<K, nat>, k: K): (r: map<K, nat>)
    ensures r.Keys == m.Keys + {k}
  {
    m[k := (if k in m then m[k] else 0) + 1]
  }

  /** The counter obtained by bumping each key of `ks` in turn. */
  function Tally<K>(ks: seq<K>): map<K, nat>
  {
    if ks == [] then map[] else Bump(Tally(ks[..|ks| - 1]), ks[|ks| - 1])
  }

  /** Counting one more key bumps it. */
  lemma TallySnoc<K>(ks: seq<K>, k: K)
    ensures Tally(ks + [k]) == Bump(Tally(ks), k)
  {
    assert (ks + [k])[..|ks|] == ks;
  }

  function Occurrences<K(==)>(ks: seq<K>, k: K): nat
  {
    if ks == [] then 0 else Occurrences(ks[..|ks| - 1], k) + (if ks[|ks| - 1] == k then 1 else 0)
  }

  /** The sum of a counter's values. */
  ghost function Sum<K>(m: map<K, nat>): nat
    decreases |m|
  {
    if m == map[] then 0
    else
      var k :| k in m;
      m[k] + Sum(m - {k})
  }

  lemma {:induction false} SumRemove<K>(m: map<K, nat>, k: K)
    requires k in m
    ensures Sum(m) == m[k] + Sum(m - {k})
    decreases |m|
  {
    var j :| j in m && Sum(m) == m[j] + Sum(m - {j});
    if j != k {
      assert |m - {j}| < |m|;
      SumRemove(m - {j}, k);
      SumRemove(m - {k}, j);
      assert (m - {j}) - {k} == (m - {k}) - {j};
    }
  }

  lemma SumBump<K>(m: map<K, nat>, k: K)
    ensures Sum(Bump(m, k)) == Sum(m) + 1
  {
    var r := Bump(m, k);
    SumRemove(r, k);
    assert r - {k} == m - {k};
    if k in m {
      SumRemove(m, k);
    } else {
      assert m - {k} == m;
    }
  }

  /** The counts of a tally add up to the number of keys tallied. */
  lemma {:induction false} TallySum<K>(ks: seq<K>)
    ensures Sum(Tally(ks)) == |ks|
  {
    if ks != [] {
      TallySum(ks[..|ks| - 1]);
      SumBump(Tally(ks[..|ks| - 1]), ks[|ks| - 1]);
    }
  }

  /** Each key of a tally is counted exactly as often as it occurs; absent keys never occurred. */
  lemma {:induction false} TallyCounts<K>(ks: seq<K>, k: K)
    ensures k in Tally(ks) <==> k in ks
    ensures k in Tally(ks) ==> Tally(ks)[k] == Occurrences(ks, k)
    ensures k !in Tally(ks) ==> Occurrences(ks, k) == 0
    ensures k in Tally(ks) <==> Occurrences(ks, k) > 0
  {
    if ks != [] {
      var init := ks[..|ks| - 1];
      TallyCounts(init, k);
      assert ks == init + [ks[|ks| - 1]];
    }
  }

  // ------------------------------------------------------------------
  // Duration units of the prompts
  // ------------------------------------------------------------------

  datatype Unit = Day | Week | Month | Year

  /** The accepted spellings 'day', 'week', 'month' and 'year'. */
  function ParseUnit(s: string): (u: Option<Unit>)
    ensures u.Some? <==> s in ["day", "week", "month", "year"]
  {
    if s == "day" then Some(Day)
    else if s == "week" then Some(Week)
    else if s == "month" then Some(Month)
    else if s == "year" then Some(Year)
    else None
  }

  /** Days per unit: a week is 7 days, a month 30 and a year 365. */
  function UnitDays(u: Unit): (d: nat)
    ensures d in {1, 7, 30, 365}
  {
    match u
    case Day => 1
    case Week => 7
    case Month => 30
    case Year => 365
  }

  // ------------------------------------------------------------------
  // The first `/YYYY/MM/DD/` segment of a URL (re.search(r'/(\d{4})/(\d{2})/(\d{2})/', url))
  // ------------------------------------------------------------------

  datatype DateParts = DateParts(year: string, month: string, day: string)

  predicate AllDigits(s: string)
  {
    forall i :: 0 <= i < |s| ==> IsDigit(s[i])
  }

  /** The pattern matches at index i: '/', 4 digits, '/', 2 digits, '/', 2 digits, '/'. */
  predicate SegmentAt(s: string, i: int)
  {
    0 <= i && i + 12 <= |s|
    && s[i] == '/' && AllDigits(s[i + 1..i + 5]) && s[i + 5] == '/'
    && AllDigits(s[i + 6..i + 8]) && s[i + 8] == '/' && AllDigits(s[i + 9..i + 11]) && s[i + 11] == '/'
  }

  function PartsAt(s: string, i: int): DateParts
    requires SegmentAt(s, i)
  {
    DateParts(s[i + 1..i + 5], s[i + 6..i + 8], s[i + 9..i + 11])
  }

  function SegmentFrom(s: string, i: nat): (r: Option<nat>)
    requires i <= |s|
    ensures r.Some? ==> i <= r.value && SegmentAt(s, r.value) && forall j :: i <= j < r.value ==> !SegmentAt(s, j)
    ensures r.None? ==> forall j :: i <= j ==> !SegmentAt(s, j)
    decreases |s| - i
  {
    if i + 12 > |s| then None
    else if SegmentAt(s, i) then Some(i)
    else SegmentFrom(s, i + 1)
  }

  /** The leftmost match of the pattern, as re.search returns it, with its three groups. */
  function FirstDateSegment(url: string): (r: Option<DateParts>)
    ensures r.None? <==> forall j :: !SegmentAt(url, j)
    ensures r.Some? ==> exists i :: SegmentAt(url, i) && r.value == PartsAt(url, i)
                                     && forall j :: 0 <= j < i ==> !SegmentAt(url, j)
    ensures r.Some? ==> |r.value.year| == 4 && |r.value.month| == 2 && |r.value.day| == 2
    ensures r.Some? ==> AllDigits(r.value.year) && AllDigits(r.value.month) && AllDigits(r.value.day)
  {
    match SegmentFrom(url, 0)
    case None => None
    case Some(i) => Some(PartsAt(url, i))
  }

  /** The value of a string of decimal digits. */
  function DigitsValue(s: string): (n: nat)
    requires AllDigits(s)
  {
    if s == [] then 0 else DigitsValue(s[..|s| - 1]) * 10 + (s[|s| - 1] as int - '0' as int)
  }

  /** str(n) for a natural number: its decimal digits, without leading zeros. */
  function DecimalString(n: nat): (s: string)
    ensures s != [] && AllDigits(s) && DigitsValue(s) == n
    ensures s[0] == '0' ==> n == 0
    decreases n
  {
    var last := ('0' as int + n % 10) as char;
    if n < 10 then [last]
    else
      var init := DecimalString(n / 10);
      assert (init + [last])[..|init|] == init;
      init + [last]
  }

  /** Days in a month of the proleptic Gregorian calendar. */
  function MonthLength(year: int, month: int): nat
    requires 1 <= month <= 12
  {
    if month == 2 then (if (year % 4 == 0 && year % 100 != 0) || year % 400 == 0 then 29 else 28)
    else if month in {4, 6, 9, 11} then 30
    else 31
  }

  /** What strptime('%Y-%m-%d') accepts for two-digit month and day and four-digit year. */
  predicate ValidCalendarDate(p: DateParts)
  {
    AllDigits(p.year) && AllDigits(p.month) && AllDigits(p.day)
    && 1 <= DigitsValue(p.year)
    && 1 <= DigitsValue(p.month) <= 12
    && 1 <= DigitsValue(p.day) <= MonthLength(DigitsValue(p.year), DigitsValue(p.month))
  }

  /** "DD-MM-YYYY" from the three groups. */
  function DayMonthYear(p: DateParts): string
  {
    p.day + "-" + p.month + "-" + p.year
  }

  /** With two-digit day and month and a four-digit year, the text is "DD-MM-YYYY" with those fields. */
  lemma DayMonthYearFields(p: DateParts)
    requires |p.day| == 2 && |p.month| == 2 && |p.year| == 4
    ensures var t := DayMonthYear(p);
            |t| == 10 && t[2] == '-' && t[5] == '-' && t[..2] == p.day && t[3..5] == p.month && t[6..] == p.year
  {
    var t := DayMonthYear(p);
    assert t == p.day + "-" + p.month + "-" + p.year;
    assert t[..2] == p.day && t[3..5] == p.month && t[6..] == p.year;
  }
}
