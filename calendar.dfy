/** The slice of Python's `datetime` and `calendar` the model needs: the
    proleptic Gregorian calendar, day arithmetic, `fromisoformat` on a date
    with an optional time of day, `strftime("%Y-%m-%d")` and
    `strptime(name, "%B")`. */
module Calendar {
  import opened PyCore
  import opened PyStr

  datatype Date = Date(year: int, month: int, day: int)

  const MIN_YEAR := 1
  const MAX_YEAR := 9999

  const MONTH_NAMES: seq<string> := ["January", "February", "March", "April", "May", "June", "July",
                                     "August", "September", "October", "November", "December"]

  /** The month names as strptime matches them: lower-cased, compared with
      the lower-cased input. */
  const MONTH_KEYS: seq<string> := ["january", "february", "march", "april", "may", "june", "july",
                                    "august", "september", "october", "november", "december"]

  /** The Gregorian rule: every fourth year, except centuries not divisible
      by 400. */
  predicate IsLeapYear(y: int) {
    y % 4 == 0 && (y % 100 != 0 || y % 400 == 0)
  }

  /** `calendar.monthrange(y, m)[1]`. */
  function DaysInMonth(y: int, m: int): (n: int)
    requires 1 <= m <= 12
    ensures 28 <= n <= 31
  {
    if m == 2 then (if IsLeapYear(y) then 29 else 28)
    else if m == 4 || m == 6 || m == 9 || m == 11 then 30
    else 31
  }

  /** A day of the proleptic Gregorian calendar, in any year. */
  predicate IsCalendarDate(d: Date) {
    1 <= d.month <= 12 && 1 <= d.day <= DaysInMonth(d.year, d.month)
  }

  /** A day a Python `date` can hold. */
  predicate IsValidDate(d: Date) {
    IsCalendarDate(d) && MIN_YEAR <= d.year <= MAX_YEAR
  }

  /** `a < b` on dates: year, then month, then day; no date is before
      itself. */
  predicate Before(a: Date, b: Date)
    ensures Before(a, b) ==> a != b
  {
    a.year < b.year || (a.year == b.year && (a.month < b.month || (a.month == b.month && a.day < b.day)))
  }

  /** Days in the years before `y` (Python's `_days_before_year`). */
  function DaysBeforeYear(y: int): int {
    var p := y - 1;
    365 * p + p / 4 - p / 100 + p / 400
  }

  /** Days in the months of `y` before `m` (Python's `_DAYS_BEFORE_MONTH` table). */
  function DaysBeforeMonth(y: int, m: int): int
    requires 1 <= m <= 13
  {
    [0, 31, 59, 90, 120, 151, 181, 212, 243, 273, 304, 334, 365][m - 1]
      + (if m > 2 && IsLeapYear(y) then 1 else 0)
  }

  /** `date.toordinal()`: 0001-01-01 is day 1, and every later day has a
      positive ordinal. */
  function Ordinal(d: Date): (n: int)
    requires IsCalendarDate(d)
    ensures d == Date(MIN_YEAR, 1, 1) ==> n == 1
    ensures MIN_YEAR <= d.year ==> 1 <= n
  {
    DaysBeforeYear(d.year) + DaysBeforeMonth(d.year, d.month) + d.day
  }

  /** The month table agrees with the month lengths. */
  lemma MonthTable(y: int, m: int)
    requires 1 <= m <= 12
    ensures DaysBeforeMonth(y, m + 1) == DaysBeforeMonth(y, m) + DaysInMonth(y, m)
  {
  }

  /** Moving to year `y` adds one to `p / k` exactly when `k` divides `y`. */
  lemma StepDiv(y: int)
    ensures y / 4 - (y - 1) / 4 == if y % 4 == 0 then 1 else 0
    ensures y / 100 - (y - 1) / 100 == if y % 100 == 0 then 1 else 0
    ensures y / 400 - (y - 1) / 400 == if y % 400 == 0 then 1 else 0
    ensures y % 400 == 0 ==> y % 100 == 0
    ensures y % 100 == 0 ==> y % 4 == 0
  {
  }

  /** A year has 366 days when it is a leap year and 365 otherwise: the
      leap rule and the ordinal count agree. */
  lemma YearLength(y: int)
    ensures DaysBeforeYear(y + 1) == DaysBeforeYear(y) + DaysBeforeMonth(y, 13)
    ensures IsLeapYear(y) <==> DaysBeforeYear(y + 1) - DaysBeforeYear(y) == 366
  {
    StepDiv(y);
  }

  /** The day after `d`. */
  function NextDay(d: Date): (r: Date)
    requires IsCalendarDate(d)
    ensures IsCalendarDate(r)
  {
    if d.day < DaysInMonth(d.year, d.month) then Date(d.year, d.month, d.day + 1)
    else if d.month < 12 then Date(d.year, d.month + 1, 1)
    else Date(d.year + 1, 1, 1)
  }

  /** The day before `d`. */
  function PrevDay(d: Date): (r: Date)
    requires IsCalendarDate(d)
    ensures IsCalendarDate(r)
  {
    if d.day > 1 then Date(d.year, d.month, d.day - 1)
    else if d.month > 1 then Date(d.year, d.month - 1, DaysInMonth(d.year, d.month - 1))
    else Date(d.year - 1, 12, 31)
  }

  lemma NextDayOrdinal(d: Date)
    requires IsCalendarDate(d)
    ensures Ordinal(NextDay(d)) == Ordinal(d) + 1
  {
    if d.day == DaysInMonth(d.year, d.month) {
      if d.month < 12 {
        MonthTable(d.year, d.month);
      } else {
        YearLength(d.year);
      }
    }
  }

  lemma PrevDayOrdinal(d: Date)
    requires IsCalendarDate(d)
    ensures Ordinal(PrevDay(d)) == Ordinal(d) - 1
  {
    if d.day == 1 {
      if d.month > 1 {
        MonthTable(d.year, d.month - 1);
      } else {
        YearLength(d.year - 1);
      }
    }
  }

  /** `n` days after `d`, one day at a time. */
  function DaysAfter(d: Date, n: nat): (r: Date)
    requires IsCalendarDate(d)
    ensures IsCalendarDate(r)
    decreases n
  {
    if n == 0 then d else DaysAfter(NextDay(d), n - 1)
  }

  /** `n` days before `d`, one day at a time. */
  function DaysBefore(d: Date, n: nat): (r: Date)
    requires IsCalendarDate(d)
    ensures IsCalendarDate(r)
    decreases n
  {
    if n == 0 then d else DaysBefore(PrevDay(d), n - 1)
  }

  /** `d + timedelta(days=n)`, before the range check on the year. */
  function AddDays(d: Date, n: int): (r: Date)
    requires IsCalendarDate(d)
    ensures IsCalendarDate(r)
  {
    if n >= 0 then DaysAfter(d, n) else DaysBefore(d, -n)
  }

  lemma {:induction false} DaysAfterOrdinal(d: Date, n: nat)
    requires IsCalendarDate(d)
    ensures Ordinal(DaysAfter(d, n)) == Ordinal(d) + n
    decreases n
  {
    if n > 0 {
      var e := NextDay(d);
      NextDayOrdinal(d);
      DaysAfterOrdinal(e, n - 1);
    }
  }

  lemma {:induction false} DaysBeforeOrdinal(d: Date, n: nat)
    requires IsCalendarDate(d)
    ensures Ordinal(DaysBefore(d, n)) == Ordinal(d) - n
    decreases n
  {
    if n > 0 {
      var e := PrevDay(d);
      PrevDayOrdinal(d);
      DaysBeforeOrdinal(e, n - 1);
    }
  }

  /** Adding `n` days moves the ordinal by exactly `n`: the stepping agrees
      with Python's ordinal arithmetic. */
  lemma AddDaysOrdinal(d: Date, n: int)
    requires IsCalendarDate(d)
    ensures Ordinal(AddDays(d, n)) == Ordinal(d) + n
  {
    if n >= 0 {
      DaysAfterOrdinal(d, n);
    } else {
      DaysBeforeOrdinal(d, -n);
    }
  }


  lemma {:induction false} DaysBeforeYearGrows(y1: int, y2: int)
    requires y1 <= y2
    ensures DaysBeforeYear(y1) + 365 * (y2 - y1) <= DaysBeforeYear(y2)
    decreases y2 - y1
  {
    if y1 < y2 {
      DaysBeforeYearGrows(y1, y2 - 1);
      YearLength(y2 - 1);
    }
  }

  lemma MonthTableGrows(y: int, m1: int, m2: int)
    requires 1 <= m1 < m2 <= 13
    ensures DaysBeforeMonth(y, m1) + DaysInMonth(y, m1) <= DaysBeforeMonth(y, m2)
  {
  }

  /** The ordinal of 9999-12-31, the last day a Python `date` can hold. */
  const MAX_ORDINAL := 3652059

  /** A calendar day is a valid `date` exactly when its ordinal lies in
      1..MAX_ORDINAL, the range `date + timedelta` checks. */
  lemma ValidIffOrdinalInRange(d: Date)
    requires IsCalendarDate(d)
    ensures IsValidDate(d) <==> 1 <= Ordinal(d) <= MAX_ORDINAL
  {
    OrdinalWithinYear(d);
    assert DaysBeforeYear(MIN_YEAR) == 0;
    assert DaysBeforeYear(MAX_YEAR + 1) == MAX_ORDINAL;
    if d.year < MIN_YEAR {
      DaysBeforeYearGrows(d.year + 1, MIN_YEAR);
    } else if d.year > MAX_YEAR {
      DaysBeforeYearGrows(MAX_YEAR + 1, d.year);
    } else {
      DaysBeforeYearGrows(MIN_YEAR, d.year);
      DaysBeforeYearGrows(d.year + 1, MAX_YEAR + 1);
    }
  }

  /** An ordinal falls inside the ordinals of its own year. */
  lemma OrdinalWithinYear(d: Date)
    requires IsCalendarDate(d)
    ensures DaysBeforeYear(d.year) < Ordinal(d) <= DaysBeforeYear(d.year + 1)
  {
    YearLength(d.year);
    MonthTableGrows(d.year, d.month, 13);
  }

  /** Comparing (year, month, day) lexicographically is comparing ordinals. */
  lemma BeforeIsOrdinalOrder(a: Date, b: Date)
    requires IsCalendarDate(a) && IsCalendarDate(b)
    ensures Before(a, b) <==> Ordinal(a) < Ordinal(b)
    ensures a == b <==> Ordinal(a) == Ordinal(b)
  {
    OrdinalWithinYear(a);
    OrdinalWithinYear(b);
    if a.year < b.year {
      DaysBeforeYearGrows(a.year + 1, b.year);
    } else if b.year < a.year {
      DaysBeforeYearGrows(b.year + 1, a.year);
    } else if a.month < b.month {
      MonthTableGrows(a.year, a.month, b.month);
    } else if b.month < a.month {
      MonthTableGrows(a.year, b.month, a.month);
    }
  }

  /** `Before` is a strict total order, so "not after" means "same day or before". */
  lemma NotBeforeMeans(a: Date, b: Date)
    ensures !Before(b, a) <==> a == b || Before(a, b)
    ensures !(Before(a, b) && Before(b, a))
  {
  }

  // ---- Decimal digits ----

  predicate IsDigit(c: char) {
    '0' <= c <= '9'
  }

  predicate AllDigits(s: string) {
    forall k :: 0 <= k < |s| ==> IsDigit(s[k])
  }

  function Pow10(w: nat): nat {
    if w == 0 then 1 else 10 * Pow10(w - 1)
  }

  /** The value of a run of decimal digits, as `int()` reads it. */
  function DigitsValue(s: string): (n: nat)
    requires AllDigits(s)
    ensures n < Pow10(|s|)
  {
    if s == [] then 0
    else DigitsValue(s[..|s| - 1]) * 10 + (s[|s| - 1] as int - '0' as int)
  }

  /** The last `width` decimal digits of `x`, zero-padded (`%04d`, `%02d`). */
  function PadDigits(x: nat, width: nat): (s: string)
    ensures |s| == width && AllDigits(s)
  {
    if width == 0 then []
    else PadDigits(x / 10, width - 1) + [('0' as int + x % 10) as char]
  }

  /** Reading back a zero-padded number gives the number. */
  lemma {:induction false} ReadPadded(x: nat, width: nat)
    requires x < Pow10(width)
    ensures DigitsValue(PadDigits(x, width)) == x
  {
    if width > 0 {
      var s := PadDigits(x, width);
      assert s[..|s| - 1] == PadDigits(x / 10, width - 1);
      ReadPadded(x / 10, width - 1);
    }
  }

  /** Padding the value of a digit run gives the run back. */
  lemma {:induction false} PadRead(s: string)
    requires AllDigits(s)
    ensures PadDigits(DigitsValue(s), |s|) == s
  {
    if s != [] {
      var init, last := s[..|s| - 1], s[|s| - 1];
      assert AllDigits(init);
      PadRead(init);
      var v, d := DigitsValue(init), last as int - '0' as int;
      LastDigit(v, d);
      assert ('0' as int + d) as char == last;
      assert s == init + [last];
    }
  }

  /** Appending a decimal digit `d` to `v` and splitting it off again. */
  lemma LastDigit(v: nat, d: nat)
    requires d < 10
    ensures (v * 10 + d) / 10 == v && (v * 10 + d) % 10 == d
  {
  }

  // ---- ISO 8601 text ----

  /** The layout `YYYY-MM-DD`. */
  predicate IsDateText(t: string) {
    |t| == 10 && AllDigits(t[..4]) && t[4] == '-' && AllDigits(t[5..7]) && t[7] == '-' && AllDigits(t[8..])
  }

  /** A time suffix as `fromisoformat` reads it: one separator character
      (usually `T` or a space, but any will do), then `HH`, `HH:MM` or
      `HH:MM:SS`. */
  predicate IsTimeText(t: string) {
    && (|t| == 3 || |t| == 6 || |t| == 9)
    && AllDigits(t[1..3])
    && (|t| >= 6 ==> t[3] == ':' && AllDigits(t[4..6]))
    && (|t| == 9 ==> t[6] == ':' && AllDigits(t[7..9]))
  }

  /** A time suffix naming a time of day: hour up to 23, minute and second
      up to 59. */
  predicate IsValidTime(t: string) {
    && IsTimeText(t)
    && DigitsValue(t[1..3]) <= 23
    && (|t| >= 6 ==> DigitsValue(t[4..6]) <= 59)
    && (|t| == 9 ==> DigitsValue(t[7..9]) <= 59)
  }

  /** `date.strftime("%Y-%m-%d")`. */
  function FormatDate(d: Date): (s: string)
    requires IsValidDate(d)
    ensures IsDateText(s)
  {
    var s := PadDigits(d.year, 4) + "-" + PadDigits(d.month, 2) + "-" + PadDigits(d.day, 2);
    assert s[..4] == PadDigits(d.year, 4);
    assert s[5..7] == PadDigits(d.month, 2);
    assert s[8..] == PadDigits(d.day, 2);
    s
  }

  /** `datetime.fromisoformat(s).date()` for a `YYYY-MM-DD` date, alone or
      followed by a time suffix; every other text raises ValueError. */
  function ParseIsoDate(s: string): (r: Outcome<Date>)
    ensures r.Ok? ==> |s| >= 10 && IsValidDate(r.value) && IsDateText(s[..10])
    ensures r.Ok? ==> |s| == 10 || IsValidTime(s[10..])
    ensures r.Raised? ==> r.exc == ValueError
  {
    if |s| < 10 || !IsDateText(s[..10]) || (|s| > 10 && !IsValidTime(s[10..])) then
      Raised(ValueError)
    else
      var t := s[..10];
      var d := Date(DigitsValue(t[..4]), DigitsValue(t[5..7]), DigitsValue(t[8..]));
      if IsValidDate(d) then Ok(d) else Raised(ValueError)
  }

  /** Parsing what strftime printed gives back the date. */
  lemma ParseFormatted(d: Date)
    requires IsValidDate(d)
    ensures ParseIsoDate(FormatDate(d)) == Ok(d)
  {
    var s := FormatDate(d);
    assert s == PadDigits(d.year, 4) + "-" + PadDigits(d.month, 2) + "-" + PadDigits(d.day, 2);
    assert s[..10] == s;
    assert s[..4] == PadDigits(d.year, 4);
    assert s[5..7] == PadDigits(d.month, 2);
    assert s[8..] == PadDigits(d.day, 2);
    ReadPadded(d.year, 4);
    ReadPadded(d.month, 2);
    ReadPadded(d.day, 2);
  }

  /** A parsed date prints as the first ten characters of its text. */
  lemma FormatParsed(s: string)
    requires ParseIsoDate(s).Ok?
    ensures FormatDate(ParseIsoDate(s).value) == s[..10]
  {
    var t := s[..10];
    var d := ParseIsoDate(s).value;
    assert d == Date(DigitsValue(t[..4]), DigitsValue(t[5..7]), DigitsValue(t[8..]));
    PadRead(t[..4]);
    PadRead(t[5..7]);
    PadRead(t[8..]);
    DateTextParts(t);
  }

  /** A `YYYY-MM-DD` text is its three digit groups joined by dashes. */
  lemma DateTextParts(t: string)
    requires IsDateText(t)
    ensures t == t[..4] + "-" + t[5..7] + "-" + t[8..]
  {
  }

  /** Only the date part is read: a valid time of day changes nothing. */
  lemma TimeOfDayIgnored(date: string, time: string)
    requires |date| == 10 && IsValidTime(time)
    ensures ParseIsoDate(date + time) == ParseIsoDate(date)
  {
    var s := date + time;
    assert s[..10] == date && s[10..] == time;
    assert date[..10] == date;
  }

  /** A space instead of `T`, and a seconds field, are read as well. */
  lemma SeparatorAndSecondsAccepted()
    ensures ParseIsoDate("2026-06-10 08:00") == Ok(Date(2026, 6, 10))
    ensures ParseIsoDate("2026-06-10T08:00:00") == Ok(Date(2026, 6, 10))
  {
    ExampleDay();
    ExampleTimes();
    ExampleTexts();
    TimeOfDayIgnored("2026-06-10", " 08:00");
    TimeOfDayIgnored("2026-06-10", "T08:00:00");
  }

  lemma ExampleDay()
    ensures ParseIsoDate("2026-06-10") == Ok(Date(2026, 6, 10))
  {
    var day := "2026-06-10";
    assert day[..10] == day;
    assert DigitsValue(day[..4]) == 2026 by {
      assert day[..4] == "2026" && "2026"[..3] == "202" && "202"[..2] == "20" && "20"[..1] == "2" && "2"[..0] == [];
    }
    assert DigitsValue(day[5..7]) == 6 by {
      assert day[5..7] == "06" && "06"[..1] == "0" && "0"[..0] == [];
    }
    assert DigitsValue(day[8..]) == 10 by {
      assert day[8..] == "10" && "10"[..1] == "1" && "1"[..0] == [];
    }
  }

  lemma ExampleTexts()
    ensures "2026-06-10" + " 08:00" == "2026-06-10 08:00"
    ensures "2026-06-10" + "T08:00:00" == "2026-06-10T08:00:00"
  {
  }

  lemma ExampleTimes()
    ensures IsValidTime(" 08:00") && IsValidTime("T08:00:00")
  {
    assert DigitsValue("08") == 8 && DigitsValue("00") == 0 by {
      assert "08"[..1] == "0" && "00"[..1] == "0" && "0"[..0] == [];
    }
    assert " 08:00"[1..3] == "08";
    assert " 08:00"[4..6] == "00";
    assert "T08:00:00"[1..3] == "08";
    assert "T08:00:00"[4..6] == "00";
    assert "T08:00:00"[7..9] == "00";
  }

  /** Two texts with the same date part that both parse give the same date. */
  lemma SameDatePartSameDate(s1: string, s2: string)
    requires ParseIsoDate(s1).Ok? && ParseIsoDate(s2).Ok?
    requires s1[..10] == s2[..10]
    ensures ParseIsoDate(s1) == ParseIsoDate(s2)
  {
    FormatParsed(s1);
    FormatParsed(s2);
    ParseFormatted(ParseIsoDate(s1).value);
    ParseFormatted(ParseIsoDate(s2).value);
  }

  // ---- Month names ----

  /** Looks `key` up among the month keys from index `i` on. */
  function MonthFrom(key: string, i: nat): (r: Outcome<int>)
    requires i <= 12
    ensures r.Ok? ==> i < r.value <= 12 && key == MONTH_KEYS[r.value - 1]
    ensures r.Raised? ==> r.exc == ValueError && forall j :: i <= j < 12 ==> key != MONTH_KEYS[j]
    decreases 12 - i
  {
    if i == 12 then Raised(ValueError)
    else if key == MONTH_KEYS[i] then Ok(i + 1)
    else MonthFrom(key, i + 1)
  }

  /** `datetime.strptime(name, "%B").month`: the English month name, in any
      ASCII letter case; anything else raises ValueError. */
  function MonthNumber(name: string): (r: Outcome<int>)
    ensures r.Ok? ==> 1 <= r.value <= 12 && Lower(name) == MONTH_KEYS[r.value - 1]
    ensures r.Raised? ==> r.exc == ValueError && forall j :: 0 <= j < 12 ==> Lower(name) != MONTH_KEYS[j]
  {
    MonthFrom(Lower(name), 0)
  }

  /** The month keys are made of lower-case letters only. */
  lemma MonthKeyLetters(j: int)
    requires 0 <= j < 12
    ensures forall k :: 0 <= k < |MONTH_KEYS[j]| ==> IsLowerLetter(MONTH_KEYS[j][k])
  {
  }

  /** Each month name is its key with the first letter raised. */
  lemma MonthNameShape(j: int)
    requires 0 <= j < 12
    ensures |MONTH_NAMES[j]| == |MONTH_KEYS[j]| > 0
    ensures MONTH_NAMES[j][0] == UpperChar(MONTH_KEYS[j][0])
    ensures forall k :: 0 < k < |MONTH_KEYS[j]| ==> MONTH_NAMES[j][k] == MONTH_KEYS[j][k]
  {
  }

  /** Each month key is its month name lower-cased. */
  lemma MonthKeyIsLowerName(j: int)
    requires 0 <= j < 12
    ensures Lower(MONTH_NAMES[j]) == MONTH_KEYS[j]
  {
    MonthNameShape(j);
    MonthKeyLetters(j);
    var name, key := MONTH_NAMES[j], MONTH_KEYS[j];
    forall k | 0 <= k < |name| ensures Lower(name)[k] == key[k] {
      if k == 0 {
        CaseOfCase(key[0]);
      }
    }
  }

  /** No two month keys are equal. */
  lemma MonthKeysDistinct(i: int, j: int)
    requires 0 <= i < 12 && 0 <= j < 12 && i != j
    ensures MONTH_KEYS[i] != MONTH_KEYS[j]
  {
    var a, b := MONTH_KEYS[i], MONTH_KEYS[j];
    if |a| == |b| {
      assert a[0] != b[0] || a[2] != b[2];
    }
  }

  /** strptime reads each month name back as its number, in any letter case. */
  lemma MonthNameRoundTrip(m: int, name: string)
    requires 1 <= m <= 12 && Lower(name) == MONTH_KEYS[m - 1]
    ensures MonthNumber(name) == Ok(m)
  {
    var r := MonthNumber(name);
    if r.Ok? && r.value != m {
      MonthKeysDistinct(r.value - 1, m - 1);
    }
  }
}
