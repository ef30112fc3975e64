/**
 * `parse_date`: turns the profile page's "Earned Feb 13, 2026 EST" into the
 * ISO calendar date "2026-02-13", or `None`.
 *
 * The source first matches `Earned\s+(.+?)\s+\w{3,4}$`, strips the captured
 * group, reads it with `strptime(..., "%b %d, %Y")`, and on `ValueError`
 * retries once after collapsing whitespace runs. `MatchedBody` is the
 * matching step, proved against the declarative `RegexMatch`;
 * `StrptimeDate` is the reading step; `ParseDate` puts them together.
 */
module DateParser {
  import opened Wrappers
  import opened Text
  import opened Dates

  /** The length of the run of word characters that ends `t`. */
  function TrailingWordLength(t: string): (n: nat)
    ensures n <= |t|
    ensures forall p :: |t| - n <= p < |t| ==> IsWordChar(t[p])
    ensures n < |t| ==> !IsWordChar(t[|t| - n - 1])
  {
    if t != [] && IsWordChar(t[|t| - 1]) then 1 + TrailingWordLength(t[..|t| - 1]) else 0
  }

  lemma {:induction false} TrailingWordExact(t: string, k: int)
    requires 0 < k <= |t| && !IsWordChar(t[k - 1])
    requires forall p :: k <= p < |t| ==> IsWordChar(t[p])
    ensures TrailingWordLength(t) == |t| - k
  {
    if k < |t| {
      TrailingWordExact(t[..|t| - 1], k);
    }
  }

  /** Where the final run of word characters before `MatchEnd` begins. */
  function WordStart(text: string): (k: nat)
    ensures k <= MatchEnd(text)
    ensures forall p :: k <= p < MatchEnd(text) ==> IsWordChar(text[p])
  {
    var e := MatchEnd(text);
    var n := TrailingWordLength(text[..e]);
    assert forall p :: e - n <= p < e ==> text[p] == text[..e][p];
    e - n
  }

  /**
   * The regular expression `Earned\s+(.+?)\s+\w{3,4}$` matches `text` with the
   * group at `text[i..j]`: "Earned", whitespace `text[6..i]`, a group with no
   * line feed (what `.` excludes), whitespace `text[j..k]`, three or four word
   * characters `text[k..e]`, and `e` where `$` can match.
   */
  ghost predicate RegexMatch(text: string, i: int, j: int, k: int, e: int)
  {
    6 < i < j < k < e <= |text| && text[..6] == "Earned"
    && (e == |text| || (e == |text| - 1 && text[e] == '\n'))
    && 3 <= e - k <= 4
    && AllSpace(text[6..i]) && '\n' !in text[i..j] && AllSpace(text[j..k])
    && (forall p :: k <= p < e ==> IsWordChar(text[p]))
  }

  /**
   * The stripped group, given the text between "Earned" and the final word:
   * it must begin and end with whitespace (the two `\s+`), and what it
   * holds inside must be non-blank and free of line feeds (what `.` excludes).
   */
  function GroupOf(middle: string): (r: Option<string>)
    ensures r.Some? ==> r.value != [] && !IsSpace(r.value[0]) && !IsSpace(r.value[|r.value| - 1])
    ensures r.Some? ==> '\n' !in r.value
  {
    var body := Strip(middle);
    if middle == [] || !IsSpace(middle[0]) || !IsSpace(middle[|middle| - 1]) || body == [] || '\n' in body then None
    else Some(body)
  }

  /**
   * `match.group(1).strip()`, or `None` when the expression does not match.
   * Whitespace on either side of the group is removed by the strip whichever
   * way the engine splits it, so the body is the stripped text between
   * "Earned" and the final word. A match whose group is only whitespace is
   * `None` here: `strptime` rejects the empty string in any case.
   */
  function MatchedBody(text: string): (r: Option<string>)
    ensures r.Some? ==> r.value != [] && !IsSpace(r.value[0]) && !IsSpace(r.value[|r.value| - 1])
    ensures r.Some? ==> '\n' !in r.value
  {
    var e := MatchEnd(text);
    var k := WordStart(text);
    if |text| < 6 || text[..6] != "Earned" || e - k < 3 || e - k > 4 || k < 6 then None
    else GroupOf(text[6..k])
  }

  lemma GroupOfSound(middle: string)
    requires GroupOf(middle).Some?
    ensures var body := GroupOf(middle).value; var a := LeadingSpace(middle);
      1 <= a && a + |body| < |middle| && middle[a..a + |body|] == body
      && AllSpace(middle[..a]) && AllSpace(middle[a + |body|..])
  {
    var body := GroupOf(middle).value;
    var a := LeadingSpace(middle);
    assert body == middle[a..a + |body|];
    assert middle[a] == body[0];
    assert middle[a + |body| - 1] == body[|body| - 1];
  }

  /** Every body found comes from a match of the expression, as its stripped group. */
  lemma MatchedBodySound(text: string)
    requires MatchedBody(text).Some?
    ensures exists i, j, k, e :: RegexMatch(text, i, j, k, e) && Strip(text[i..j]) == MatchedBody(text).value
  {
    var body := MatchedBody(text).value;
    var k, e := WordStart(text), MatchEnd(text);
    assert 6 < k && GroupOf(text[6..k]) == MatchedBody(text);
    var i, j := GroupPosition(text, k);
    StripUnique([], body, []);
    assert [] + body + [] == body;
    assert RegexMatch(text, i, j, k, e);
  }

  /** Where the stripped group of `text[6..k]` sits in `text`, with whitespace around it. */
  lemma GroupPosition(text: string, k: int) returns (i: int, j: int)
    requires 6 < k <= |text| && GroupOf(text[6..k]).Some?
    ensures 6 < i < j < k && text[i..j] == GroupOf(text[6..k]).value
    ensures AllSpace(text[6..i]) && AllSpace(text[j..k]) && '\n' !in text[i..j]
  {
    var middle := text[6..k];
    var body := GroupOf(middle).value;
    GroupOfSound(middle);
    var a := LeadingSpace(middle);
    i, j := 6 + a, 6 + a + |body|;
    assert text[6..i] == middle[..a];
    assert text[i..j] == body;
    assert text[j..k] == middle[a + |body|..];
  }

  /** In a match, `$` and the final word sit where `MatchEnd` and `WordStart` find them. */
  lemma RegexMatchEnds(text: string, i: int, j: int, k: int, e: int)
    requires RegexMatch(text, i, j, k, e)
    ensures MatchEnd(text) == e && WordStart(text) == k
  {
    assert MatchEnd(text) == e by {
      assert IsWordChar(text[e - 1]);
    }
    assert IsSpace(text[k - 1]) by { assert text[k - 1] == text[j..k][k - 1 - j]; }
    WordCharNotSpaceRev(text[k - 1]);
    assert forall p :: k <= p < e ==> text[..e][p] == text[p];
    TrailingWordExact(text[..e], k);
  }

  /** Every match of the expression yields its stripped group. */
  lemma MatchedBodyComplete(text: string, i: int, j: int, k: int, e: int)
    requires RegexMatch(text, i, j, k, e)
    ensures var g := Strip(text[i..j]);
      MatchedBody(text) == if g == [] then None else Some(g)
  {
    RegexMatchEnds(text, i, j, k, e);
    JoinThree(text, 6, i, j, k);
    GroupOfMatch(text[6..i], text[i..j], text[j..k]);
  }

  lemma GroupOfMatch(w1: string, g: string, w2: string)
    requires w1 != [] && w2 != [] && AllSpace(w1) && AllSpace(w2) && '\n' !in g
    ensures var r := Strip(g); GroupOf(w1 + g + w2) == if r == [] then None else Some(r)
  {
    var middle := w1 + g + w2;
    assert middle[0] == w1[0];
    assert middle[|middle| - 1] == w2[|w2| - 1];
    StripPadded(w1, g, w2);
    var r := Strip(g);
    assert '\n' !in r by {
      assert r == g[LeadingSpace(g)..LeadingSpace(g) + |r|];
    }
  }

  lemma WordCharNotSpaceRev(c: char)
    requires IsSpace(c)
    ensures !IsWordChar(c)
  {
    if IsWordChar(c) {
      WordCharNotSpace(c);
    }
  }

  /** English month abbreviations, as `%b` reads them in the C locale. */
  const MonthNames: seq<string> :=
    ["Jan", "Feb", "Mar", "Apr", "May", "Jun", "Jul", "Aug", "Sep", "Oct", "Nov", "Dec"]

  function LowerAscii(c: char): char
  {
    if 'A' <= c <= 'Z' then (c as int + 32) as char else c
  }

  /** `%b`: the month a three-letter abbreviation names, ignoring case; 0 for none. */
  function MonthNumber(tok: string): (m: int)
    ensures 0 <= m <= 12
    ensures m != 0 ==> |tok| == 3 && IsLetter(tok[0]) && IsLetter(tok[1]) && IsLetter(tok[2])
  {
    if |tok| != 3 then 0
    else
      var t := [LowerAscii(tok[0]), LowerAscii(tok[1]), LowerAscii(tok[2])];
      if t == "jan" then 1 else if t == "feb" then 2 else if t == "mar" then 3
      else if t == "apr" then 4 else if t == "may" then 5 else if t == "jun" then 6
      else if t == "jul" then 7 else if t == "aug" then 8 else if t == "sep" then 9
      else if t == "oct" then 10 else if t == "nov" then 11 else if t == "dec" then 12
      else 0
  }

  lemma MonthNumberOfName(m: int)
    requires 1 <= m <= 12
    ensures MonthNumber(MonthNames[m - 1]) == m
  {
  }

  /** The two-digit forms the `%d` pattern `3[01]|[12]\d|0[1-9]` accepts. */
  predicate TwoDigitDay(a: char, b: char)
  {
    (a == '3' && (b == '0' || b == '1')) || a == '1' || a == '2' || (a == '0' && b != '0')
  }

  /**
   * `%d` and the literal comma after it. Returns the day and how many
   * characters were read, the comma included. The single-digit alternatives
   * `[1-9]` and ` [1-9]` give the same day, and the second one is reached
   * only when the first already failed, so one branch covers both.
   */
  function DayField(t: string): (r: Option<(int, nat)>)
    ensures r.Some? ==> 1 <= r.value.0 <= 31 && 2 <= r.value.1 <= |t| && t[r.value.1 - 1] == ','
    ensures r.Some? ==> forall p :: 0 <= p < r.value.1 - 1 ==> IsDigit(t[p])
  {
    if |t| >= 2 && '1' <= t[0] <= '9' && t[1] == ',' then Some((DigitValue(t[0]), 2))
    else if |t| >= 3 && IsDigit(t[0]) && IsDigit(t[1]) && t[2] == ',' && TwoDigitDay(t[0], t[1]) then
      Some((10 * DigitValue(t[0]) + DigitValue(t[1]), 3))
    else None
  }

  /** `DayField` looks only at the characters it reads. */
  lemma DayFieldPrefix(t: string, t2: string)
    requires DayField(t).Some?
    requires |t2| >= DayField(t).value.1 && t2[..DayField(t).value.1] == t[..DayField(t).value.1]
    ensures DayField(t2) == DayField(t)
  {
    var u := DayField(t).value.1;
    assert forall p :: 0 <= p < u ==> t2[p] == t[p] by {
      forall p | 0 <= p < u ensures t2[p] == t[p] {
        assert t2[..u][p] == t[..u][p];
      }
    }
  }

  /**
   * `datetime.strptime(s, "%b %d, %Y")`: the month abbreviation, whitespace
   * (each space of the format stands for `\s+`), the day and a comma,
   * whitespace, exactly four digits of year and nothing after them; then the
   * date must exist (`None` stands for the `ValueError`). Read directive by
   * directive: `StrptimeDay` takes over after `%b`, `StrptimeYear` after `,`.
   */
  function StrptimeDate(s: string): (r: Option<CivilDate>)
    ensures r.Some? ==> ValidDate(r.value)
  {
    if |s| < 3 || MonthNumber(s[..3]) == 0 then None
    else StrptimeDay(MonthNumber(s[..3]), s[3..])
  }

  /** The format's first space, `%d` and the comma, then the rest. */
  function StrptimeDay(month: int, afterMonth: string): (r: Option<CivilDate>)
    ensures r.Some? ==> ValidDate(r.value)
  {
    var dayText := SkipSpace(afterMonth);
    var field := DayField(dayText);
    if |dayText| == |afterMonth| || field.None? then None
    else StrptimeYear(month, field.value.0, dayText[field.value.1..])
  }

  /** The format's second space and `%Y`, which must end the text; then the date must exist. */
  function StrptimeYear(month: int, day: int, afterComma: string): (r: Option<CivilDate>)
    ensures r.Some? ==> ValidDate(r.value)
  {
    var yearText := SkipSpace(afterComma);
    if |yearText| == |afterComma| || |yearText| != 4 || !AllDigits(yearText) then None
    else
      var d := CivilDate(Value4(yearText), month, day);
      if ValidDate(d) then Some(d) else None
  }

  /** `strftime("%Y-%m-%d")` of a parsed date. */
  function IsoOf(d: Option<CivilDate>): (r: Option<string>)
    requires d.Some? ==> ValidDate(d.value)
    ensures r.Some? <==> d.Some?
    ensures r.Some? ==> IsoDecode(r.value) == d
  {
    match d
    case None => None
    case Some(date) => IsoRoundTrip(date); Some(FormatIso(date))
  }

  /** `parse_date`: match, strip, read; on failure read the whitespace-collapsed body once more. */
  function ParseDate(text: string): (r: Option<string>)
    ensures r.Some? ==> IsoShape(r.value) && IsoDecode(r.value).Some?
  {
    match MatchedBody(text)
    case None => None
    case Some(body) =>
      var first := StrptimeDate(body);
      if first.Some? then IsoOf(first) else IsoOf(StrptimeDate(Collapse(body)))
  }

  /**
   * The pieces of a text `strptime` accepts: a month abbreviation, a
   * whitespace run, the day field with its comma, a whitespace run, the year.
   */
  predicate DatePieces(mon: string, w1: string, field: string, w2: string, year: string)
  {
    MonthNumber(mon) != 0
    && w1 != [] && AllSpace(w1)
    && DayField(field).Some? && DayField(field).value.1 == |field|
    && w2 != [] && AllSpace(w2)
    && |year| == 4 && AllDigits(year)
  }

  /** The date such pieces name, if it exists. */
  function PiecesDate(mon: string, field: string, year: string): (r: Option<CivilDate>)
    requires MonthNumber(mon) != 0 && DayField(field).Some? && |year| == 4
    ensures r.Some? ==> ValidDate(r.value)
  {
    var d := CivilDate(Value4(year), MonthNumber(mon), DayField(field).value.0);
    if ValidDate(d) then Some(d) else None
  }

  lemma StrptimeYearPiece(month: int, day: int, w2: string, year: string)
    requires w2 != [] && AllSpace(w2) && |year| == 4 && AllDigits(year)
    ensures var d := CivilDate(Value4(year), month, day);
      StrptimeYear(month, day, w2 + year) == if ValidDate(d) then Some(d) else None
  {
    WordCharNotSpace(year[0]);
    SkipSpaceOver(w2, year);
  }

  lemma StrptimeDayPiece(month: int, w1: string, field: string, rest: string)
    requires w1 != [] && AllSpace(w1)
    requires DayField(field).Some? && DayField(field).value.1 == |field|
    ensures StrptimeDay(month, w1 + (field + rest)) == StrptimeYear(month, DayField(field).value.0, rest)
  {
    var dayText := field + rest;
    WordCharNotSpace(field[0]);
    SkipSpaceOver(w1, dayText);
    assert dayText[..|field|] == field && dayText[|field|..] == rest;
    DayFieldPrefix(field, dayText);
  }

  lemma StrptimeMonthPiece(mon: string, rest: string)
    requires MonthNumber(mon) != 0
    ensures StrptimeDate(mon + rest) == StrptimeDay(MonthNumber(mon), rest)
  {
    assert (mon + rest)[..3] == mon && (mon + rest)[3..] == rest;
  }

  /** `strptime` reads any text assembled from such pieces as the date they name. */
  lemma StrptimeOfPieces(mon: string, w1: string, field: string, w2: string, year: string)
    requires DatePieces(mon, w1, field, w2, year)
    ensures StrptimeDate(mon + (w1 + (field + (w2 + year)))) == PiecesDate(mon, field, year)
  {
    StrptimeMonthPiece(mon, w1 + (field + (w2 + year)));
    StrptimeDayPiece(MonthNumber(mon), w1, field, w2 + year);
    StrptimeYearPiece(MonthNumber(mon), DayField(field).value.0, w2, year);
  }

  lemma YearPieces(month: int, day: int, afterComma: string) returns (w2: string, year: string)
    requires StrptimeYear(month, day, afterComma).Some?
    ensures w2 != [] && AllSpace(w2) && |year| == 4 && AllDigits(year) && afterComma == w2 + year
  {
    year := SkipSpace(afterComma);
    w2 := SkippedSpace(afterComma);
  }

  lemma DayPieces(afterMonth: string) returns (w1: string, field: string, rest: string)
    requires |SkipSpace(afterMonth)| < |afterMonth| && DayField(SkipSpace(afterMonth)).Some?
    ensures w1 != [] && AllSpace(w1) && afterMonth == w1 + (field + rest)
    ensures DayField(field) == DayField(SkipSpace(afterMonth)) && DayField(field).value.1 == |field|
    ensures rest == SkipSpace(afterMonth)[DayField(field).value.1..]
  {
    var dayText := SkipSpace(afterMonth);
    var used := DayField(dayText).value.1;
    w1 := SkippedSpace(afterMonth);
    field := dayText[..used];
    rest := dayText[used..];
    SplitAfterSpace(afterMonth, used);
    DayFieldOfPrefix(dayText, used);
  }

  /** The day field read back from just the characters it spans. */
  lemma DayFieldOfPrefix(t: string, u: nat)
    requires DayField(t).Some? && u == DayField(t).value.1
    ensures DayField(t[..u]) == DayField(t) && u == |t[..u]|
  {
    assert t[..u][..u] == t[..u];
    DayFieldPrefix(t, t[..u]);
  }

  /** Every text `strptime` accepts is assembled from such pieces. */
  lemma PiecesOfStrptime(s: string) returns (mon: string, w1: string, field: string, w2: string, year: string)
    requires StrptimeDate(s).Some?
    ensures DatePieces(mon, w1, field, w2, year)
    ensures s == mon + (w1 + (field + (w2 + year)))
    ensures StrptimeDate(s) == PiecesDate(mon, field, year)
  {
    mon := s[..3];
    var afterMonth := s[3..];
    assert s == mon + afterMonth by { SplitAt(s, 3); }
    var month := MonthNumber(mon);
    assert month != 0 && StrptimeDay(month, afterMonth).Some?;
    assert |SkipSpace(afterMonth)| < |afterMonth| && DayField(SkipSpace(afterMonth)).Some?;
    var rest;
    w1, field, rest := DayPieces(afterMonth);
    assert StrptimeYear(month, DayField(field).value.0, rest).Some?;
    w2, year := YearPieces(month, DayField(field).value.0, rest);
    StrptimeOfPieces(mon, w1, field, w2, year);
  }

  lemma PiecesVisible(mon: string, field: string, year: string)
    requires MonthNumber(mon) != 0
    requires DayField(field).Some? && DayField(field).value.1 == |field|
    requires |year| == 4 && AllDigits(year)
    ensures NoSpace(mon) && NoSpace(field) && NoSpace(year)
  {
    forall p | 0 <= p < |mon| ensures !IsSpace(mon[p]) { WordCharNotSpace(mon[p]); }
    forall p | 0 <= p < |field| ensures !IsSpace(field[p]) { WordCharNotSpace(field[p]); }
    forall p | 0 <= p < |year| ensures !IsSpace(year[p]) { WordCharNotSpace(year[p]); }
  }

  /** Collapsing whitespace turns both whitespace runs of such pieces into one space each. */
  lemma CollapsePieces(mon: string, w1: string, field: string, w2: string, year: string)
    requires DatePieces(mon, w1, field, w2, year)
    ensures Collapse(mon + (w1 + (field + (w2 + year)))) == mon + (" " + (field + (" " + year)))
  {
    PiecesVisible(mon, field, year);
    WordCharNotSpace(field[0]);
    WordCharNotSpace(year[0]);
    CollapseVisiblePrefix(year, []);
    assert year + [] == year;
    CollapseSpacePrefix(w2, year);
    CollapseVisiblePrefix(field, w2 + year);
    CollapseSpacePrefix(w1, field + (w2 + year));
    CollapseVisiblePrefix(mon, w1 + (field + (w2 + year)));
  }

  /** The collapsed text of such pieces reads as the same date. */
  lemma StrptimeOfCollapsedPieces(mon: string, w1: string, field: string, w2: string, year: string)
    requires DatePieces(mon, w1, field, w2, year)
    ensures StrptimeDate(Collapse(mon + (w1 + (field + (w2 + year))))) == PiecesDate(mon, field, year)
  {
    CollapsePieces(mon, w1, field, w2, year);
    assert AllSpace(" ");
    StrptimeOfPieces(mon, " ", field, " ", year);
  }

  /** Reading a body gives the same date as reading it with its whitespace collapsed. */
  lemma StrptimeCollapse(s: string)
    requires StrptimeDate(s).Some?
    ensures StrptimeDate(Collapse(s)) == StrptimeDate(s)
  {
    var mon, w1, field, w2, year := PiecesOfStrptime(s);
    StrptimeOfCollapsedPieces(mon, w1, field, w2, year);
  }

  /** `parse_date` gives the reading of the collapsed body: the retry never disagrees with the first try. */
  lemma ParseDateReadsCollapsed(text: string)
    requires MatchedBody(text).Some?
    ensures ParseDate(text) == IsoOf(StrptimeDate(Collapse(MatchedBody(text).value)))
  {
    var body := MatchedBody(text).value;
    if StrptimeDate(body).Some? {
      StrptimeCollapse(body);
    }
  }

  /** `parse_date` returns `None` unless the text matches `Earned\s+(.+?)\s+\w{3,4}$`. */
  lemma ParseDateNeedsMatch(text: string)
    requires ParseDate(text).Some?
    ensures exists i, j, k, e :: RegexMatch(text, i, j, k, e)
  {
    MatchedBodySound(text);
  }

  /** Bodies that differ only in their runs of whitespace give the same date. */
  lemma ParseDateIgnoresSpacing(t1: string, t2: string)
    requires MatchedBody(t1).Some? && MatchedBody(t2).Some?
    requires Collapse(MatchedBody(t1).value) == Collapse(MatchedBody(t2).value)
    ensures ParseDate(t1) == ParseDate(t2)
  {
    ParseDateReadsCollapsed(t1);
    ParseDateReadsCollapsed(t2);
  }

  /** A date returned by `parse_date` is the ISO rendering of a real calendar date. */
  lemma ParseDateIsIso(text: string)
    requires ParseDate(text).Some?
    ensures var r := ParseDate(text).value;
      IsoDecode(r).Some? && ValidDate(IsoDecode(r).value) && FormatIso(IsoDecode(r).value) == r
  {
    IsoDecodeInverse(ParseDate(text).value);
  }

  /** `%d` reads back a day written in decimal, then the comma. */
  lemma DayFieldOfNumber(day: int)
    requires 1 <= day <= 31
    ensures DayField(NatToString(day) + ",") == Some((day, |NatToString(day)| + 1))
  {
    if day >= 10 {
      assert NatToString(day) == [DigitChar(day / 10)] + [DigitChar(day % 10)];
    }
  }

  /** The text the profile page shows for a badge earned on a given day. */
  function EarnedText(year: int, month: int, day: int, zone: string): string
    requires 0 <= year < 10000 && 1 <= month <= 12 && 1 <= day <= 31
  {
    "Earned " + MonthNames[month - 1] + " " + NatToString(day) + ", " + Pad4(year) + " " + zone
  }

  /**
   * "Earned", one space, a body with visible ends and no line feed, one space
   * and a three- or four-letter zone: the body is what the expression captures.
   */
  lemma MatchedBodyOfLine(body: string, zone: string)
    requires body != [] && !IsSpace(body[0]) && !IsSpace(body[|body| - 1]) && '\n' !in body
    requires 3 <= |zone| <= 4 && forall p :: 0 <= p < |zone| ==> IsWordChar(zone[p])
    ensures MatchedBody("Earned" + " " + body + " " + zone) == Some(body)
  {
    var text := "Earned" + " " + body + " " + zone;
    var j := 7 + |body|;
    LineMatches(body, zone);
    MatchedBodyComplete(text, 7, j, j + 1, |text|);
    StripUnique([], body, []);
    assert [] + body + [] == body;
  }

  /** Such a line matches the expression, with the body between the two single spaces. */
  lemma LineMatches(body: string, zone: string)
    requires body != [] && '\n' !in body
    requires 3 <= |zone| <= 4 && forall p :: 0 <= p < |zone| ==> IsWordChar(zone[p])
    ensures var text := "Earned" + " " + body + " " + zone;
      text[7..7 + |body|] == body && RegexMatch(text, 7, 7 + |body|, 8 + |body|, |text|)
  {
    var text := "Earned" + " " + body + " " + zone;
    var j := 7 + |body|;
    assert text[..6] == "Earned";
    assert text[6..7] == " ";
    assert text[7..j] == body;
    assert text[j..j + 1] == " ";
    forall p | j + 1 <= p < |text|
      ensures IsWordChar(text[p])
    {
      assert text[p] == zone[p - j - 1];
    }
  }

  /** The pieces of a date as the page writes it. */
  lemma EarnedPieces(year: int, month: int, day: int)
    requires 0 <= year < 10000 && 1 <= month <= 12 && 1 <= day <= 31
    ensures DatePieces(MonthNames[month - 1], " ", NatToString(day) + ",", " ", Pad4(year))
  {
    MonthNumberOfName(month);
    DayFieldOfNumber(day);
    assert AllSpace(" ");
  }

  /** The body of that text is the date's pieces with single spaces. */
  lemma EarnedBody(year: int, month: int, day: int, zone: string) returns (body: string)
    requires 0 <= year < 10000 && 1 <= month <= 12 && 1 <= day <= 31
    requires 3 <= |zone| <= 4 && forall p :: 0 <= p < |zone| ==> IsWordChar(zone[p])
    ensures body == MonthNames[month - 1] + (" " + ((NatToString(day) + ",") + (" " + Pad4(year))))
    ensures MatchedBody(EarnedText(year, month, day, zone)) == Some(body)
  {
    var mon, field, yearText := MonthNames[month - 1], NatToString(day) + ",", Pad4(year);
    EarnedPieces(year, month, day);
    body := mon + (" " + (field + (" " + yearText)));
    EarnedTextParts(year, month, day, zone);
    PiecesVisible(mon, field, yearText);
    SpacedBodyEnds(mon, field, yearText);
    MatchedBodyOfLine(body, zone);
  }

  lemma EarnedTextParts(year: int, month: int, day: int, zone: string)
    requires 0 <= year < 10000 && 1 <= month <= 12 && 1 <= day <= 31
    ensures EarnedText(year, month, day, zone) ==
      "Earned" + " " + (MonthNames[month - 1] + (" " + ((NatToString(day) + ",") + (" " + Pad4(year))))) + " " + zone
  {
  }

  /** Visible pieces joined by single spaces have visible ends and no line feed. */
  lemma SpacedBodyEnds(mon: string, field: string, year: string)
    requires mon != [] && year != [] && NoSpace(mon) && NoSpace(field) && NoSpace(year)
    ensures var body := mon + (" " + (field + (" " + year)));
      body != [] && !IsSpace(body[0]) && !IsSpace(body[|body| - 1]) && '\n' !in body
  {
    var body := mon + (" " + (field + (" " + year)));
    assert body[0] == mon[0] && body[|body| - 1] == year[|year| - 1];
    assert IsSpace('\n');
    forall p | 0 <= p < |body|
      ensures body[p] != '\n'
    {
      if p < |mon| {
        assert body[p] == mon[p];
      } else if p == |mon| {
      } else if p < |mon| + 1 + |field| {
        assert body[p] == field[p - |mon| - 1];
      } else if p == |mon| + 1 + |field| {
      } else {
        assert body[p] == year[p - |mon| - 2 - |field|];
      }
    }
  }

  /**
   * The text the page shows for a date reads back as that date in ISO form,
   * and as `None` when no such day exists (the 30th of February, say).
   */
  lemma ParseDateRendered(year: int, month: int, day: int, zone: string)
    requires 0 <= year < 10000 && 1 <= month <= 12 && 1 <= day <= 31
    requires 3 <= |zone| <= 4 && forall p :: 0 <= p < |zone| ==> IsWordChar(zone[p])
    ensures var d := CivilDate(year, month, day);
      ParseDate(EarnedText(year, month, day, zone)) == if ValidDate(d) then Some(FormatIso(d)) else None
  {
    var body := EarnedBody(year, month, day, zone);
    var mon, field, yearText := MonthNames[month - 1], NatToString(day) + ",", Pad4(year);
    EarnedPieces(year, month, day);
    StrptimeOfPieces(mon, " ", field, " ", yearText);
    StrptimeOfCollapsedPieces(mon, " ", field, " ", yearText);
    MonthNumberOfName(month);
    DayFieldOfNumber(day);
  }

  /** How the page writes the 13th of February 2026, and its ISO form. */
  lemma UsualLineText()
    ensures EarnedText(2026, 2, 13, "EST") == "Earned Feb 13, 2026 EST"
    ensures FormatIso(CivilDate(2026, 2, 13)) == "2026-02-13"
  {
  }

  /** The profile page's usual line. */
  lemma ParseDateExample()
    ensures ParseDate("Earned Feb 13, 2026 EST") == Some("2026-02-13")
  {
    ParseDateRendered(2026, 2, 13, "EST");
    UsualLineText();
  }

  lemma ExtraSpaceBody()
    ensures MatchedBody("Earned Feb  3, 2026 EST") == Some("Feb  3, 2026")
  {
    var body := "Feb  3, 2026";
    assert "Earned Feb  3, 2026 EST" == "Earned" + " " + body + " " + "EST";
    assert IsSpace(' ') && !IsSpace('F') && !IsSpace('6') && IsSpace('\n');
    MatchedBodyOfLine(body, "EST");
  }

  lemma ThirdOfFebruaryIso()
    ensures FormatIso(CivilDate(2026, 2, 3)) == "2026-02-03"
  {
  }

  lemma ExtraSpaceDate()
    ensures StrptimeDate("Feb  3, 2026") == Some(CivilDate(2026, 2, 3))
  {
    assert "Feb  3, 2026" == "Feb" + ("  " + ("3," + (" " + "2026")));
    assert DayField("3,") == Some((3, 2));
    assert IsSpace(' ');
    StrptimeOfPieces("Feb", "  ", "3,", " ", "2026");
  }

  /** A day padded with an extra space still reads. */
  lemma ParseDateExtraSpace()
    ensures ParseDate("Earned Feb  3, 2026 EST") == Some("2026-02-03")
  {
    ExtraSpaceBody();
    ExtraSpaceDate();
    ThirdOfFebruaryIso();
  }

  /** A line that does not begin with "Earned" gives no date. */
  lemma ParseDateNoMatch()
    ensures ParseDate("Invalid text") == None
  {
    assert "Invalid text"[0] != "Earned"[0];
  }

  /** How the page would write the 30th of February 2026, a day that does not exist. */
  lemma NoSuchDayText()
    ensures EarnedText(2026, 2, 30, "EST") == "Earned Feb 30, 2026 EST"
    ensures !ValidDate(CivilDate(2026, 2, 30))
  {
  }

  /** A day the calendar lacks gives no date. */
  lemma ParseDateNoSuchDay()
    ensures ParseDate("Earned Feb 30, 2026 EST") == None
  {
    ParseDateRendered(2026, 2, 30, "EST");
    NoSuchDayText();
  }
}
