/** get_possible_date_ranges: every stay of `nights` nights that starts on a
    day of the requested month, not before today, and ends in a month with
    the same number. The clock is the parameter `today`. */
module Tools {
  import opened PyCore
  import opened Calendar

  /** One `{"startDate": ..., "endDate": ...}` entry of the tool's answer. */
  datatype DateRange = DateRange(startDate: string, endDate: string)

  /** `start_date + timedelta(days=nights)` does not overflow: the ordinal
      it lands on is one a `date` can hold. */
  predicate EndInRange(year: int, month: int, day: int, nights: int)
    requires 1 <= month <= 12 && 1 <= day <= DaysInMonth(year, month)
  {
    1 <= Ordinal(Date(year, month, day)) + nights <= MAX_ORDINAL
  }

  /** The end date of a stay that does not overflow is a valid date, in
      years 1..9999; one that overflows would fall outside them. */
  lemma EndInRangeMeans(year: int, month: int, day: int, nights: int)
    requires 1 <= month <= 12 && 1 <= day <= DaysInMonth(year, month)
    ensures EndInRange(year, month, day, nights) <==> IsValidDate(AddDays(Date(year, month, day), nights))
  {
    AddDaysOrdinal(Date(year, month, day), nights);
    ValidIffOrdinalInRange(AddDays(Date(year, month, day), nights));
  }

  /** Some day of the month would push its end date outside years 1..9999. */
  predicate SomeEndOverflows(year: int, month: int, nights: int)
    requires 1 <= month <= 12
  {
    exists day :: 1 <= day <= DaysInMonth(year, month) && !EndInRange(year, month, day, nights)
  }

  /** A day the tool reports a stay for: in the month, not before today, and
      `nights` days later is still a day of month number `month`. */
  predicate IsPossibleStart(year: int, month: int, day: int, nights: int, today: Date)
    requires 1 <= month <= 12
  {
    && 1 <= day <= DaysInMonth(year, month)
    && !Before(Date(year, month, day), today)
    && AddDays(Date(year, month, day), nights).month == month
  }

  /** The possible start days below `hi`, in increasing order. */
  function StartDaysBelow(year: int, month: int, nights: int, today: Date, hi: int): (ds: seq<int>)
    requires 1 <= month <= 12 && 1 <= hi <= DaysInMonth(year, month) + 1
    ensures |ds| <= hi - 1
    ensures forall k :: 0 <= k < |ds| ==> 1 <= ds[k] < hi
    ensures forall k, l :: 0 <= k < l < |ds| ==> ds[k] < ds[l]
    decreases hi
  {
    if hi == 1 then []
    else
      StartDaysBelow(year, month, nights, today, hi - 1)
        + (if IsPossibleStart(year, month, hi - 1, nights, today) then [hi - 1] else [])
  }

  /** A day is listed below `hi` exactly when it is a possible start below `hi`. */
  lemma {:induction false} StartDaysBelowMembers(year: int, month: int, nights: int, today: Date, hi: int, d: int)
    requires 1 <= month <= 12 && 1 <= hi <= DaysInMonth(year, month) + 1
    ensures d in StartDaysBelow(year, month, nights, today, hi) <==>
              1 <= d < hi && IsPossibleStart(year, month, d, nights, today)
    decreases hi
  {
    if hi > 1 {
      StartDaysBelowMembers(year, month, nights, today, hi - 1, d);
      var prev := StartDaysBelow(year, month, nights, today, hi - 1);
      if IsPossibleStart(year, month, hi - 1, nights, today) {
        assert StartDaysBelow(year, month, nights, today, hi) == prev + [hi - 1];
      } else {
        assert StartDaysBelow(year, month, nights, today, hi) == prev;
      }
    }
  }

  /** All possible start days of the month, in increasing order. */
  function StartDays(year: int, month: int, nights: int, today: Date): seq<int>
    requires 1 <= month <= 12
  {
    StartDaysBelow(year, month, nights, today, DaysInMonth(year, month) + 1)
  }

  /** The entry reported for a stay starting on `day`: the start date and
      the date `nights` days later, both printed as YYYY-MM-DD. */
  function RangeFor(year: int, month: int, day: int, nights: int): (r: DateRange)
    requires MIN_YEAR <= year <= MAX_YEAR && 1 <= month <= 12 && 1 <= day <= DaysInMonth(year, month)
    requires EndInRange(year, month, day, nights)
    ensures ParseIsoDate(r.startDate) == Ok(Date(year, month, day))
    ensures ParseIsoDate(r.endDate) == Ok(AddDays(Date(year, month, day), nights))
  {
    var start := Date(year, month, day);
    EndInRangeMeans(year, month, day, nights);
    ParseFormatted(start);
    ParseFormatted(AddDays(start, nights));
    DateRange(FormatDate(start), FormatDate(AddDays(start, nights)))
  }

  /** No day of the month below `hi` overflows. */
  predicate NoOverflowBelow(year: int, month: int, nights: int, hi: int)
    requires 1 <= month <= 12 && hi <= DaysInMonth(year, month) + 1
  {
    forall d :: 1 <= d < hi ==> EndInRange(year, month, d, nights)
  }

  /** The entries for the possible start days below `hi`, in day order. */
  function RangesBelow(year: int, month: int, nights: int, today: Date, hi: int): (rs: seq<DateRange>)
    requires MIN_YEAR <= year <= MAX_YEAR && 1 <= month <= 12 && 1 <= hi <= DaysInMonth(year, month) + 1
    requires NoOverflowBelow(year, month, nights, hi)
    decreases hi
  {
    if hi == 1 then []
    else
      RangesBelow(year, month, nights, today, hi - 1)
        + (if IsPossibleStart(year, month, hi - 1, nights, today) then [RangeFor(year, month, hi - 1, nights)] else [])
  }

  /** What the tool answers once the month name has become month number
      `month`: ValueError for a year outside 1..9999 (raised by
      `date(year, month, 1)`), OverflowError when some day's end date leaves
      years 1..9999 (the end date is computed before the past-day check, so
      past days count too), and otherwise one entry per possible start day,
      in increasing order. */
  function MonthAnswer(year: int, month: int, nights: int, today: Date): (r: Outcome<seq<DateRange>>)
    requires 1 <= month <= 12
    ensures r.Raised? ==> r.exc == (if MIN_YEAR <= year <= MAX_YEAR then OverflowError else ValueError)
  {
    if !(MIN_YEAR <= year <= MAX_YEAR) then Raised(ValueError)
    else if SomeEndOverflows(year, month, nights) then Raised(OverflowError)
    else Ok(RangesBelow(year, month, nights, today, DaysInMonth(year, month) + 1))
  }

  /** One more day of the loop: the day does not overflow, and it adds its
      entry exactly when it is a possible start. */
  lemma RangesBelowStep(year: int, month: int, nights: int, today: Date, day: int)
    requires MIN_YEAR <= year <= MAX_YEAR && 1 <= month <= 12 && 1 <= day <= DaysInMonth(year, month)
    requires NoOverflowBelow(year, month, nights, day)
    requires 1 <= Ordinal(Date(year, month, day)) + nights <= MAX_ORDINAL
    ensures NoOverflowBelow(year, month, nights, day + 1)
    ensures RangesBelow(year, month, nights, today, day + 1)
            == RangesBelow(year, month, nights, today, day)
               + (if !Before(Date(year, month, day), today) && AddDays(Date(year, month, day), nights).month == month
                  then [RangeFor(year, month, day, nights)] else [])
  {
  }

  /** Entry `k` below `hi` is the entry for the `k`-th possible start day below `hi`. */
  lemma {:induction false} RangesBelowAt(year: int, month: int, nights: int, today: Date, hi: int)
    requires MIN_YEAR <= year <= MAX_YEAR && 1 <= month <= 12 && 1 <= hi <= DaysInMonth(year, month) + 1
    requires NoOverflowBelow(year, month, nights, hi)
    ensures var rs := RangesBelow(year, month, nights, today, hi);
            var ds := StartDaysBelow(year, month, nights, today, hi);
            && |rs| == |ds|
            && forall k :: 0 <= k < |ds| ==> rs[k] == RangeFor(year, month, ds[k], nights)
    decreases hi
  {
    if hi > 1 {
      RangesBelowAt(year, month, nights, today, hi - 1);
    }
  }

  /** get_possible_date_ranges with `today` passed in: ValueError for a name
      that is not a month (strptime with %B), otherwise the answer for the
      month's number. */
  method PossibleDateRanges(year: int, monthName: string, nights: int, today: Date)
    returns (r: Outcome<seq<DateRange>>)
    ensures MonthNumber(monthName).Raised? ==> r == Raised(ValueError)
    ensures MonthNumber(monthName).Ok? ==> r == MonthAnswer(year, MonthNumber(monthName).value, nights, today)
  {
    var month :- MonthNumber(monthName);
    r := RangesInMonth(year, month, nights, today);
  }

  /** The loop over the days of the month. `date(year, month, day)` raises
      on the first pass when the year is out of range, so that check is made
      once, before the loop. */
  method RangesInMonth(year: int, month: int, nights: int, today: Date)
    returns (r: Outcome<seq<DateRange>>)
    requires 1 <= month <= 12
    ensures r == MonthAnswer(year, month, nights, today)
  {
    if !(MIN_YEAR <= year <= MAX_YEAR) {
      return Raised(ValueError);
    }
    var daysInMonth := DaysInMonth(year, month);
    var ranges: seq<DateRange> := [];
    var day := 1;
    while day <= daysInMonth
      invariant 1 <= day <= daysInMonth + 1
      invariant NoOverflowBelow(year, month, nights, day)
      invariant ranges == RangesBelow(year, month, nights, today, day)
    {
      var start := Date(year, month, day);
      if !(1 <= Ordinal(start) + nights <= MAX_ORDINAL) {
        OverflowAnswer(year, month, nights, today, day);
        return Raised(OverflowError);  // start_date + timedelta(days=nights)
      }
      RangesBelowStep(year, month, nights, today, day);
      // start_date >= today and end_date.month == month
      if IsPossibleStart(year, month, day, nights, today) {
        ranges := ranges + [RangeFor(year, month, day, nights)];
      }
      day := day + 1;
    }
    NoOverflowAnswer(year, month, nights, today);
    return Ok(ranges);
  }

  /** A day whose end date overflows makes the answer OverflowError. */
  lemma OverflowAnswer(year: int, month: int, nights: int, today: Date, day: int)
    requires MIN_YEAR <= year <= MAX_YEAR && 1 <= month <= 12 && 1 <= day <= DaysInMonth(year, month)
    requires !EndInRange(year, month, day, nights)
    ensures MonthAnswer(year, month, nights, today) == Raised(OverflowError)
  {
  }

  /** With no day overflowing, the answer is every entry of the month. */
  lemma NoOverflowAnswer(year: int, month: int, nights: int, today: Date)
    requires MIN_YEAR <= year <= MAX_YEAR && 1 <= month <= 12
    requires NoOverflowBelow(year, month, nights, DaysInMonth(year, month) + 1)
    ensures MonthAnswer(year, month, nights, today) == Ok(RangesBelow(year, month, nights, today, DaysInMonth(year, month) + 1))
  {
  }

  /** What each entry of an answer says: the start date is a day of the
      requested month and year that is not before today, printed as
      YYYY-MM-DD; the end date is that day plus `nights` days, in a month
      with the same number, printed the same way. */
  lemma RangeMeaning(year: int, month: int, nights: int, today: Date, k: int)
    requires 1 <= month <= 12 && MonthAnswer(year, month, nights, today).Ok?
    requires 0 <= k < |MonthAnswer(year, month, nights, today).value|
    ensures var range := MonthAnswer(year, month, nights, today).value[k];
            && ParseIsoDate(range.startDate).Ok?
            && ParseIsoDate(range.endDate).Ok?
            && var start := ParseIsoDate(range.startDate).value;
               var end := ParseIsoDate(range.endDate).value;
               && start.year == year && start.month == month
               && !Before(start, today)
               && end.month == month
               && Ordinal(end) == Ordinal(start) + nights
  {
    var ds := StartDays(year, month, nights, today);
    RangesBelowAt(year, month, nights, today, DaysInMonth(year, month) + 1);
    var day := ds[k];
    assert day in ds;
    StartDaysBelowMembers(year, month, nights, today, DaysInMonth(year, month) + 1, day);
    var start := Date(year, month, day);
    var end := AddDays(start, nights);
    EndInRangeMeans(year, month, day, nights);
    ParseFormatted(start);
    ParseFormatted(end);
    AddDaysOrdinal(start, nights);
  }

  /** The answer has one entry per possible start day, in day order, and
      nothing else. */
  lemma AnswerEntries(year: int, month: int, nights: int, today: Date)
    requires 1 <= month <= 12 && MonthAnswer(year, month, nights, today).Ok?
    ensures var rs := MonthAnswer(year, month, nights, today).value;
            var ds := StartDays(year, month, nights, today);
            && |rs| == |ds|
            && forall k :: 0 <= k < |ds| ==> EndInRange(year, month, ds[k], nights) && rs[k] == RangeFor(year, month, ds[k], nights)
  {
    RangesBelowAt(year, month, nights, today, DaysInMonth(year, month) + 1);
  }

  /** A stay of at most a year that starts before year 9999 never overflows:
      the answer is a list whenever the year and month are valid. */
  lemma ShortStaysDoNotOverflow(year: int, month: int, nights: int)
    requires MIN_YEAR <= year < MAX_YEAR && 1 <= month <= 12 && 0 <= nights <= 365
    ensures !SomeEndOverflows(year, month, nights)
  {
    DaysBeforeYearGrows(MIN_YEAR, year);
    DaysBeforeYearGrows(year + 1, MAX_YEAR);
    assert DaysBeforeYear(MIN_YEAR) == 0;
    assert DaysBeforeYear(MAX_YEAR) + 365 == MAX_ORDINAL;
    forall day | 1 <= day <= DaysInMonth(year, month)
      ensures EndInRange(year, month, day, nights)
    {
      OrdinalWithinYear(Date(year, month, day));
    }
  }

  /** The entries start on distinct days in increasing date order, so there
      are at most as many as the month has days (29 for February of a leap year). */
  lemma RangesIncrease(year: int, month: int, nights: int, today: Date)
    requires MIN_YEAR <= year <= MAX_YEAR && 1 <= month <= 12
    ensures var ds := StartDays(year, month, nights, today);
            && |ds| <= DaysInMonth(year, month)
            && forall k, l :: 0 <= k < l < |ds| ==> Before(Date(year, month, ds[k]), Date(year, month, ds[l]))
    ensures month == 2 ==> |StartDays(year, month, nights, today)| <= (if IsLeapYear(year) then 29 else 28)
  {
  }

  /** Completeness: a day is reported exactly when it is in the month, not
      before today, and its end date has the month's number. */
  lemma StartDaysComplete(year: int, month: int, nights: int, today: Date, day: int)
    requires 1 <= month <= 12
    ensures day in StartDays(year, month, nights, today) <==>
              && 1 <= day <= DaysInMonth(year, month)
              && !Before(Date(year, month, day), today)
              && AddDays(Date(year, month, day), nights).month == month
  {
    StartDaysBelowMembers(year, month, nights, today, DaysInMonth(year, month) + 1, day);
  }
}
