/**
 * Calendar dates as `datetime.date` accepts them, and their ISO 8601
 * extended calendar form `YYYY-MM-DD` (section 4.1.2.2 of ISO 8601:2004),
 * which is what `strftime("%Y-%m-%d")` writes and what the badge snapshot
 * stores in its `fecha` field.
 */
module Dates {
  import opened Wrappers
  import opened Text

  datatype CivilDate = CivilDate(year: int, month: int, day: int)

  /** The proleptic Gregorian leap-year rule. */
  predicate IsLeapYear(y: int)
  {
    y % 4 == 0 && (y % 100 != 0 || y % 400 == 0)
  }

  function DaysInMonth(y: int, m: int): (n: int)
    requires 1 <= m <= 12
    ensures 28 <= n <= 31
  {
    if m == 2 then (if IsLeapYear(y) then 29 else 28)
    else if m == 4 || m == 6 || m == 9 || m == 11 then 30
    else 31
  }

  /** What `datetime.date(year, month, day)` accepts without raising `ValueError`. */
  predicate ValidDate(d: CivilDate)
  {
    1 <= d.year <= 9999 && 1 <= d.month <= 12 && 1 <= d.day <= DaysInMonth(d.year, d.month)
  }

  /** Chronological order. */
  predicate Before(d1: CivilDate, d2: CivilDate)
  {
    d1.year < d2.year
    || (d1.year == d2.year && d1.month < d2.month)
    || (d1.year == d2.year && d1.month == d2.month && d1.day < d2.day)
  }

  /** A number below 100 as two zero-padded digits (`%m`, `%d`). */
  function Pad2(n: int): (s: string)
    requires 0 <= n < 100
    ensures |s| == 2 && AllDigits(s)
    ensures 10 * DigitValue(s[0]) + DigitValue(s[1]) == n
  {
    [DigitChar(n / 10), DigitChar(n % 10)]
  }

  /** A number below 10000 as four zero-padded digits (`%Y`). */
  function Pad4(n: int): (s: string)
    requires 0 <= n < 10000
    ensures |s| == 4 && AllDigits(s)
    ensures Value4(s) == n
  {
    Pad2(n / 100) + Pad2(n % 100)
  }

  function Value2(s: string, i: int): int
    requires 0 <= i && i + 2 <= |s|
  {
    10 * DigitValue(s[i]) + DigitValue(s[i + 1])
  }

  function Value4(s: string): int
    requires |s| >= 4
  {
    100 * Value2(s, 0) + Value2(s, 2)
  }

  /** Ten characters `DDDD-DD-DD`. */
  predicate IsoShape(s: string)
  {
    |s| == 10 && s[4] == '-' && s[7] == '-'
    && IsDigit(s[0]) && IsDigit(s[1]) && IsDigit(s[2]) && IsDigit(s[3])
    && IsDigit(s[5]) && IsDigit(s[6]) && IsDigit(s[8]) && IsDigit(s[9])
  }

  /** `date.strftime("%Y-%m-%d")`. */
  function FormatIso(d: CivilDate): (s: string)
    requires ValidDate(d)
    ensures IsoShape(s)
  {
    Pad4(d.year) + "-" + Pad2(d.month) + "-" + Pad2(d.day)
  }

  /** Reads an ISO calendar date back; `None` for a string of another shape or an impossible date. */
  function IsoDecode(s: string): (r: Option<CivilDate>)
    ensures r.Some? ==> IsoShape(s) && ValidDate(r.value)
  {
    if !IsoShape(s) then None
    else
      var d := CivilDate(Value4(s), Value2(s, 5), Value2(s, 8));
      if ValidDate(d) then Some(d) else None
  }

  /** Formatting a valid date and reading it back gives the date. */
  lemma IsoRoundTrip(d: CivilDate)
    requires ValidDate(d)
    ensures IsoDecode(FormatIso(d)) == Some(d)
  {
    var s := FormatIso(d);
    var y, m, dd := Pad4(d.year), Pad2(d.month), Pad2(d.day);
    assert s[..4] == y && s[5..7] == m && s[8..] == dd;
    assert Value4(s) == Value4(y);
    assert Value2(s, 5) == 10 * DigitValue(m[0]) + DigitValue(m[1]);
    assert Value2(s, 8) == 10 * DigitValue(dd[0]) + DigitValue(dd[1]);
  }

  lemma Pad2OfValue(s: string, i: int)
    requires 0 <= i && i + 2 <= |s| && IsDigit(s[i]) && IsDigit(s[i + 1])
    ensures Pad2(Value2(s, i)) == s[i..i + 2]
  {
    var n := Value2(s, i);
    assert n / 10 == DigitValue(s[i]) && n % 10 == DigitValue(s[i + 1]);
  }

  /** A string that reads as a date is exactly that date's formatting. */
  lemma IsoDecodeInverse(s: string)
    requires IsoDecode(s).Some?
    ensures FormatIso(IsoDecode(s).value) == s
  {
    var d := IsoDecode(s).value;
    Pad2OfValue(s, 0);
    Pad2OfValue(s, 2);
    Pad2OfValue(s, 5);
    Pad2OfValue(s, 8);
    assert Value4(s) / 100 == Value2(s, 0) && Value4(s) % 100 == Value2(s, 2);
    assert Pad4(d.year) == s[..4];
    assert s == s[..4] + "-" + s[5..7] + "-" + s[8..];
  }

  lemma Pad2Order(a: int, b: int)
    requires 0 <= a < 100 && 0 <= b < 100
    ensures StrLess(Pad2(a), Pad2(b)) <==> a < b
    ensures Pad2(a) == Pad2(b) <==> a == b
  {
    var sa, sb := Pad2(a), Pad2(b);
    var ta, tb := sa[1..], sb[1..];
    assert ta[1..] == [] && tb[1..] == [];
    assert StrLess(ta, tb) <==> sa[1] < sb[1] by {
      assert ta[0] == sa[1] && tb[0] == sb[1];
      if ta[0] == tb[0] {
        assert !StrLess(ta[1..], tb[1..]);
      }
    }
    if a / 10 == b / 10 {
      assert sa[0] == sb[0];
      assert a % 10 != b % 10 <==> a != b;
    } else {
      assert sa[0] != sb[0];
    }
  }

  lemma Pad4Order(a: int, b: int)
    requires 0 <= a < 10000 && 0 <= b < 10000
    ensures StrLess(Pad4(a), Pad4(b)) <==> a < b
    ensures Pad4(a) == Pad4(b) <==> a == b
  {
    Pad2Order(a / 100, b / 100);
    Pad2Order(a % 100, b % 100);
    StrLessConcat(Pad2(a / 100), Pad2(a % 100), Pad2(b / 100), Pad2(b % 100));
    if Pad4(a) == Pad4(b) {
      assert Pad4(a)[..2] == Pad2(a / 100) && Pad4(b)[..2] == Pad2(b / 100);
      assert Pad4(a)[2..] == Pad2(a % 100) && Pad4(b)[2..] == Pad2(b % 100);
    }
  }

  /**
   * On formatted dates, Python's string order is chronological order: this is
   * why the novelty filter and the sort may compare `fecha` strings directly.
   */
  lemma FormatIsoOrder(d1: CivilDate, d2: CivilDate)
    requires ValidDate(d1) && ValidDate(d2)
    ensures StrLess(FormatIso(d1), FormatIso(d2)) <==> Before(d1, d2)
  {
    var tail1 := "-" + Pad2(d1.day);
    var tail2 := "-" + Pad2(d2.day);
    var mid1 := "-" + Pad2(d1.month) + tail1;
    var mid2 := "-" + Pad2(d2.month) + tail2;
    assert FormatIso(d1) == Pad4(d1.year) + mid1;
    assert FormatIso(d2) == Pad4(d2.year) + mid2;
    Pad4Order(d1.year, d2.year);
    StrLessConcat(Pad4(d1.year), mid1, Pad4(d2.year), mid2);
    assert mid1 == "-" + (Pad2(d1.month) + tail1) && mid2 == "-" + (Pad2(d2.month) + tail2);
    StrLessConcat("-", Pad2(d1.month) + tail1, "-", Pad2(d2.month) + tail2);
    Pad2Order(d1.month, d2.month);
    StrLessConcat(Pad2(d1.month), tail1, Pad2(d2.month), tail2);
    StrLessConcat("-", Pad2(d1.day), "-", Pad2(d2.day));
    Pad2Order(d1.day, d2.day);
    StrLessIrreflexive("-");
  }

  /** Any two strings of the snapshot's date form compare as their dates do. */
  lemma IsoStringOrder(s1: string, s2: string)
    requires IsoDecode(s1).Some? && IsoDecode(s2).Some?
    ensures StrLess(s1, s2) <==> Before(IsoDecode(s1).value, IsoDecode(s2).value)
  {
    IsoDecodeInverse(s1);
    IsoDecodeInverse(s2);
    FormatIsoOrder(IsoDecode(s1).value, IsoDecode(s2).value);
  }
}
