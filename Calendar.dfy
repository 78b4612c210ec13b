/** Naive wall-clock date-times at minute precision, as Python's `datetime`
    without time zone: the proleptic Gregorian calendar over years 1 to 9999,
    day and hour arithmetic that rolls over days, months and years, the
    `'%Y-%m-%d %H:%M'` text form, and the comparison `<`. */
module Calendar {
  import opened Wrappers
  import opened Numerals

  datatype Date = Date(year: int, month: int, day: int)
  datatype DateTime = DateTime(date: Date, hour: int, minute: int)

  /** The range of Python's `datetime.date`. */
  const MinYear := 1
  const MaxYear := 9999

  predicate IsLeap(y: int) {
    y % 4 == 0 && (y % 100 != 0 || y % 400 == 0)
  }

  function DaysInMonth(y: int, m: int): (n: int)
    requires 1 <= m <= 12
    ensures 28 <= n <= 31
  {
    if m == 2 then (if IsLeap(y) then 29 else 28)
    else if m == 4 || m == 6 || m == 9 || m == 11 then 30
    else 31
  }

  predicate ValidDate(d: Date) {
    && MinYear <= d.year <= MaxYear
    && 1 <= d.month <= 12
    && 1 <= d.day <= DaysInMonth(d.year, d.month)
  }

  predicate ValidDateTime(t: DateTime) {
    ValidDate(t.date) && 0 <= t.hour < 24 && 0 <= t.minute < 60
  }

  const FirstDate := Date(MinYear, 1, 1)
  const LastDate := Date(MaxYear, 12, 31)

  // ---------------------------------------------------------------------------
  // Day numbers: the reference definition the date arithmetic is proved against

  function YearLength(y: int): int {
    if IsLeap(y) then 366 else 365
  }

  /** Days from 0001-01-01 to the first day of year `y`. */
  function DaysBeforeYear(y: int): int
    requires y >= 1
  {
    var p := y - 1;
    365 * p + p / 4 - p / 100 + p / 400
  }

  /** Days from the first day of year `y` to the first day of month `m`. */
  function DaysBeforeMonth(y: int, m: int): int
    requires 1 <= m <= 12
  {
    [0, 31, 59, 90, 120, 151, 181, 212, 243, 273, 304, 334][m - 1]
      + (if m > 2 && IsLeap(y) then 1 else 0)
  }

  /** Days since 0001-01-01 (Python's `toordinal() - 1`). */
  function DayNumber(d: Date): int
    requires ValidDate(d)
  {
    DaysBeforeYear(d.year) + DaysBeforeMonth(d.year, d.month) + d.day - 1
  }

  /** Minutes since 0001-01-01 00:00. */
  function Stamp(t: DateTime): int
    requires ValidDateTime(t)
  {
    DayNumber(t.date) * 1440 + t.hour * 60 + t.minute
  }

  /** The day number of 9999-12-31. */
  const LastDay := 3652058
  const LastStamp := LastDay * 1440 + 1439

  lemma YearStep(y: int)
    requires y >= 1
    ensures DaysBeforeYear(y + 1) == DaysBeforeYear(y) + YearLength(y)
  {
    assert y / 4 == (y - 1) / 4 + (if y % 4 == 0 then 1 else 0);
    assert y / 100 == (y - 1) / 100 + (if y % 100 == 0 then 1 else 0);
    assert y / 400 == (y - 1) / 400 + (if y % 400 == 0 then 1 else 0);
  }

  lemma MonthStep(y: int, m: int)
    requires 1 <= m < 12
    ensures DaysBeforeMonth(y, m + 1) == DaysBeforeMonth(y, m) + DaysInMonth(y, m)
  {
  }

  lemma YearEnd(y: int)
    ensures DaysBeforeMonth(y, 12) + 31 == YearLength(y)
  {
  }

  /** A valid date lies inside its year. */
  lemma InYear(d: Date)
    requires ValidDate(d)
    ensures DaysBeforeYear(d.year) <= DayNumber(d) < DaysBeforeYear(d.year) + YearLength(d.year)
  {
  }

  lemma {:induction false} DaysBeforeYearMonotone(y1: int, y2: int)
    requires 1 <= y1 <= y2
    ensures DaysBeforeYear(y1) + (y2 - y1) * 365 <= DaysBeforeYear(y2)
    decreases y2 - y1
  {
    if y1 < y2 {
      DaysBeforeYearMonotone(y1, y2 - 1);
      YearStep(y2 - 1);
    }
  }

  lemma LastDayNumber()
    ensures ValidDate(LastDate) && DayNumber(LastDate) == LastDay
  {
  }

  /** Every valid date has a day number between those of 0001-01-01 and 9999-12-31. */
  lemma DayNumberRange(d: Date)
    requires ValidDate(d)
    ensures 0 <= DayNumber(d) <= LastDay
  {
    InYear(d);
    YearStep(d.year);
    DaysBeforeYearMonotone(d.year + 1, MaxYear + 1);
    DaysBeforeYearMonotone(1, d.year);
  }

  // ---------------------------------------------------------------------------
  // Stepping by days

  /** The calendar day before `d`; None before 0001-01-01 (Python's OverflowError). */
  function PreviousDay(d: Date): (r: Option<Date>)
    requires ValidDate(d)
    ensures r.None? <==> d == FirstDate
    ensures r.Some? ==> ValidDate(r.value)
  {
    if d.day > 1 then Some(Date(d.year, d.month, d.day - 1))
    else if d.month > 1 then Some(Date(d.year, d.month - 1, DaysInMonth(d.year, d.month - 1)))
    else if d.year > MinYear then Some(Date(d.year - 1, 12, 31))
    else None
  }

  /** The calendar day after `d`; None after 9999-12-31. */
  function NextDay(d: Date): (r: Option<Date>)
    requires ValidDate(d)
    ensures r.None? <==> d == LastDate
    ensures r.Some? ==> ValidDate(r.value)
  {
    if d.day < DaysInMonth(d.year, d.month) then Some(Date(d.year, d.month, d.day + 1))
    else if d.month < 12 then Some(Date(d.year, d.month + 1, 1))
    else if d.year < MaxYear then Some(Date(d.year + 1, 1, 1))
    else None
  }

  lemma PreviousDayNumber(d: Date)
    requires ValidDate(d) && PreviousDay(d).Some?
    ensures DayNumber(PreviousDay(d).value) == DayNumber(d) - 1
  {
    if d.day == 1 && d.month > 1 {
      MonthStep(d.year, d.month - 1);
    } else if d.day == 1 {
      YearStep(d.year - 1);
      YearEnd(d.year - 1);
    }
  }

  lemma NextDayNumber(d: Date)
    requires ValidDate(d) && NextDay(d).Some?
    ensures DayNumber(NextDay(d).value) == DayNumber(d) + 1
  {
    if d.day == DaysInMonth(d.year, d.month) && d.month < 12 {
      MonthStep(d.year, d.month);
    } else if d.day == DaysInMonth(d.year, d.month) {
      YearStep(d.year);
      YearEnd(d.year);
    }
  }

  /** The next day undoes the previous day. */
  lemma NextOfPrevious(d: Date)
    requires ValidDate(d) && PreviousDay(d).Some?
    ensures NextDay(PreviousDay(d).value) == Some(d)
  {
  }

  /** `d` moved by `k` days (back when `k` is negative); None outside 0001-01-01 .. 9999-12-31. */
  function AddDays(d: Date, k: int): (r: Option<Date>)
    requires ValidDate(d)
    ensures r.Some? ==> ValidDate(r.value)
    decreases if k < 0 then -k else k
  {
    if k == 0 then Some(d)
    else if k > 0 then
      match NextDay(d)
      case None => None
      case Some(n) => AddDays(n, k - 1)
    else
      match PreviousDay(d)
      case None => None
      case Some(p) => AddDays(p, k + 1)
  }

  /** Moving by `k` days moves the day number by `k`, and fails exactly when
      that leaves the calendar's range. */
  lemma AddDaysNumber(d: Date, k: int)
    requires ValidDate(d)
    ensures AddDays(d, k).Some? <==> 0 <= DayNumber(d) + k <= LastDay
    ensures AddDays(d, k).Some? ==> DayNumber(AddDays(d, k).value) == DayNumber(d) + k
  {
    DayNumberRange(d);
    if k >= 0 {
      AddDaysForward(d, k);
    } else {
      AddDaysBackward(d, k);
    }
  }

  lemma {:induction false} AddDaysForward(d: Date, k: int)
    requires ValidDate(d) && k >= 0
    ensures AddDays(d, k).Some? <==> DayNumber(d) + k <= LastDay
    ensures AddDays(d, k).Some? ==> DayNumber(AddDays(d, k).value) == DayNumber(d) + k
    decreases k
  {
    if k > 0 {
      match NextDay(d)
      case None =>
        LastDayNumber();
      case Some(n) =>
        NextDayNumber(d);
        AddDaysForward(n, k - 1);
    }
  }

  lemma {:induction false} AddDaysBackward(d: Date, k: int)
    requires ValidDate(d) && k <= 0
    ensures AddDays(d, k).Some? <==> 0 <= DayNumber(d) + k
    ensures AddDays(d, k).Some? ==> DayNumber(AddDays(d, k).value) == DayNumber(d) + k
    decreases -k
  {
    if k < 0 {
      match PreviousDay(d)
      case None =>
        assert DayNumber(d) == 0;
      case Some(p) =>
        PreviousDayNumber(d);
        AddDaysBackward(p, k + 1);
    }
  }


  // ---------------------------------------------------------------------------
  // Stepping by hours

  /** Python's `t + timedelta(hours=delta)`; None on OverflowError. */
  function ShiftHours(t: DateTime, delta: int): (r: Option<DateTime>)
    requires ValidDateTime(t)
    ensures r.Some? ==> ValidDateTime(r.value)
  {
    var total := t.hour + delta;
    match AddDays(t.date, total / 24)
    case None => None
    case Some(d) => Some(DateTime(d, total % 24, t.minute))
  }

  /** Shifting by `delta` hours moves the minute count by `60 * delta`, keeps
      the minute of the hour, and fails exactly when the result leaves the range. */
  lemma ShiftHoursStamp(t: DateTime, delta: int)
    requires ValidDateTime(t)
    ensures ShiftHours(t, delta).Some? <==> 0 <= Stamp(t) + 60 * delta <= LastStamp
    ensures ShiftHours(t, delta).Some? ==>
      && Stamp(ShiftHours(t, delta).value) == Stamp(t) + 60 * delta
      && ShiftHours(t, delta).value.minute == t.minute
  {
    var total := t.hour + delta;
    var days := total / 24;
    var h := total % 24;
    assert total == days * 24 + h && 0 <= h < 24;
    AddDaysNumber(t.date, days);
    var n := DayNumber(t.date);
    assert Stamp(t) + 60 * delta == (n + days) * 1440 + h * 60 + t.minute;
    assert 0 <= h * 60 + t.minute < 1440;
  }

  // ---------------------------------------------------------------------------
  // Order

  /** Python's `a < b` on datetimes: field by field, most significant first. */
  predicate Before(a: DateTime, b: DateTime) {
    if a.date.year != b.date.year then a.date.year < b.date.year
    else if a.date.month != b.date.month then a.date.month < b.date.month
    else if a.date.day != b.date.day then a.date.day < b.date.day
    else if a.hour != b.hour then a.hour < b.hour
    else a.minute < b.minute
  }

  lemma DateOrder(a: Date, b: Date)
    requires ValidDate(a) && ValidDate(b)
    requires a.year < b.year || (a.year == b.year && (a.month < b.month || (a.month == b.month && a.day < b.day)))
    ensures DayNumber(a) < DayNumber(b)
  {
    InYear(a);
    if a.year < b.year {
      YearStep(a.year);
      DaysBeforeYearMonotone(a.year + 1, b.year);
    } else if a.month < b.month {
      MonthsMonotone(a.year, a.month + 1, b.month);
      MonthStep(a.year, a.month);
    }
  }

  lemma {:induction false} MonthsMonotone(y: int, m1: int, m2: int)
    requires 1 <= m1 <= m2 <= 12
    ensures DaysBeforeMonth(y, m1) <= DaysBeforeMonth(y, m2)
    decreases m2 - m1
  {
    if m1 < m2 {
      MonthsMonotone(y, m1, m2 - 1);
      MonthStep(y, m2 - 1);
    }
  }

  /** The field-by-field order is the order of the minute counts. */
  lemma BeforeIsStampOrder(a: DateTime, b: DateTime)
    requires ValidDateTime(a) && ValidDateTime(b)
    ensures Before(a, b) <==> Stamp(a) < Stamp(b)
  {
    if a.date == b.date {
    } else if a.date.year < b.date.year || (a.date.year == b.date.year && (a.date.month < b.date.month || (a.date.month == b.date.month && a.date.day < b.date.day))) {
      DateOrder(a.date, b.date);
    } else {
      DateOrder(b.date, a.date);
    }
  }

  /** Distinct valid date-times have distinct minute counts. */
  lemma StampInjective(a: DateTime, b: DateTime)
    requires ValidDateTime(a) && ValidDateTime(b) && Stamp(a) == Stamp(b)
    ensures a == b
  {
    BeforeIsStampOrder(a, b);
    BeforeIsStampOrder(b, a);
  }

  /** `<` is a strict total order. */
  lemma BeforeTransitive(a: DateTime, b: DateTime, c: DateTime)
    requires Before(a, b) && Before(b, c)
    ensures Before(a, c)
  {
  }

  lemma BeforeTrichotomy(a: DateTime, b: DateTime)
    ensures Before(a, b) || Before(b, a) || a == b
  {
  }

  /** `datetime.min` and `datetime.max` at minute precision. */
  const Earliest := DateTime(FirstDate, 0, 0)
  const Latest := DateTime(LastDate, 23, 59)

  /** Every valid date-time lies between the two. */
  lemma WithinCalendar(t: DateTime)
    requires ValidDateTime(t)
    ensures !Before(t, Earliest) && !Before(Latest, t)
  {
  }

  // ---------------------------------------------------------------------------
  // Text form: strftime / strptime with '%Y-%m-%d', '%H:%M' and '%Y-%m-%d %H:%M'

  function FormatDate(d: Date): (s: string)
    requires ValidDate(d)
    ensures |s| == 10
  {
    Pad(d.year, 4) + "-" + Pad(d.month, 2) + "-" + Pad(d.day, 2)
  }

  function FormatClock(hour: int, minute: int): (s: string)
    requires 0 <= hour < 24 && 0 <= minute < 60
    ensures |s| == 5
  {
    Pad(hour, 2) + ":" + Pad(minute, 2)
  }

  /** `t.strftime('%Y-%m-%d %H:%M')`. */
  function Format(t: DateTime): (s: string)
    requires ValidDateTime(t)
    ensures |s| == 16
  {
    FormatDate(t.date) + " " + FormatClock(t.hour, t.minute)
  }

  /** `strptime(s, '%Y-%m-%d')`, with every field at its full width. */
  function ParseDate(s: string): (r: Option<Date>)
    ensures r.Some? ==> ValidDate(r.value)
  {
    if |s| == 10 && s[4] == '-' && s[7] == '-'
       && AllDigits(s[..4]) && AllDigits(s[5..7]) && AllDigits(s[8..])
    then
      var d := Date(DigitsValue(s[..4]), DigitsValue(s[5..7]), DigitsValue(s[8..]));
      if ValidDate(d) then Some(d) else None
    else None
  }

  /** `strptime(s, '%H:%M')` as (hour, minute), with both fields two digits wide. */
  function ParseClock(s: string): (r: Option<(int, int)>)
    ensures r.Some? ==> 0 <= r.value.0 < 24 && 0 <= r.value.1 < 60
  {
    if |s| == 5 && s[2] == ':' && AllDigits(s[..2]) && AllDigits(s[3..]) then
      var h, m := DigitsValue(s[..2]), DigitsValue(s[3..]);
      if h < 24 && m < 60 then Some((h, m)) else None
    else None
  }

  /** `strptime(s, '%Y-%m-%d %H:%M')`. */
  function Parse(s: string): (r: Option<DateTime>)
    ensures r.Some? ==> ValidDateTime(r.value)
  {
    if |s| == 16 && s[10] == ' ' then
      match (ParseDate(s[..10]), ParseClock(s[11..]))
      case (Some(d), Some((h, m))) => Some(DateTime(d, h, m))
      case _ => None
    else None
  }

  lemma FormatDateParse(d: Date)
    requires ValidDate(d)
    ensures ParseDate(FormatDate(d)) == Some(d)
  {
    var s := FormatDate(d);
    PadValue(d.year, 4);
    PadValue(d.month, 2);
    PadValue(d.day, 2);
    assert s[..4] == Pad(d.year, 4);
    assert s[5..7] == Pad(d.month, 2);
    assert s[8..] == Pad(d.day, 2);
  }

  lemma FormatClockParse(hour: int, minute: int)
    requires 0 <= hour < 24 && 0 <= minute < 60
    ensures ParseClock(FormatClock(hour, minute)) == Some((hour, minute))
  {
    var s := FormatClock(hour, minute);
    PadValue(hour, 2);
    PadValue(minute, 2);
    assert s[..2] == Pad(hour, 2);
    assert s[3..] == Pad(minute, 2);
  }

  /** Reading back what was written gives the same date-time. */
  lemma FormatThenParse(t: DateTime)
    requires ValidDateTime(t)
    ensures Parse(Format(t)) == Some(t)
  {
    var s := Format(t);
    FormatDateParse(t.date);
    FormatClockParse(t.hour, t.minute);
    assert s[..10] == FormatDate(t.date);
    assert s[11..] == FormatClock(t.hour, t.minute);
  }

  lemma ParseDateFormat(s: string)
    requires ParseDate(s).Some?
    ensures FormatDate(ParseDate(s).value) == s
  {
    ValuePad(s[..4]);
    ValuePad(s[5..7]);
    ValuePad(s[8..]);
    assert s == s[..4] + "-" + s[5..7] + "-" + s[8..];
  }

  lemma ParseClockFormat(s: string)
    requires ParseClock(s).Some?
    ensures FormatClock(ParseClock(s).value.0, ParseClock(s).value.1) == s
  {
    ValuePad(s[..2]);
    ValuePad(s[3..]);
    assert s == s[..2] + ":" + s[3..];
  }

  /** Every text that parses is the formatted form of what it parses to, so
      the text form and the date-times are in one-to-one correspondence. */
  lemma ParseThenFormat(s: string)
    requires Parse(s).Some?
    ensures Format(Parse(s).value) == s
  {
    ParseDateFormat(s[..10]);
    ParseClockFormat(s[11..]);
    assert s == s[..10] + " " + s[11..];
  }
}
