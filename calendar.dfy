/**
 * Calendar days as the home page steps them. A date is an RFC 3339
 * full-date (`YYYY-MM-DD`, section 5.6 of RFC 3339) on the proleptic
 * Gregorian calendar, with the month lengths and leap-year rule of section
 * 5.7 and Appendix C of RFC 3339. JavaScript keeps a date as a count of
 * milliseconds; here that count is a day number counted from 0000-01-01,
 * and stepping a day is proved to move that number by exactly one.
 */
module Calendar {
  import opened Wrappers
  import Decimal

  datatype FullDate = FullDate(year: int, month: int, day: int)

  predicate IsLeapYear(y: int) {
    y % 4 == 0 && (y % 100 != 0 || y % 400 == 0)
  }

  function DaysInMonth(y: int, m: int): (n: int)
    requires 1 <= m <= 12
    ensures 28 <= n <= 31
    ensures n == 29 <==> m == 2 && IsLeapYear(y)
  {
    if m == 2 then (if IsLeapYear(y) then 29 else 28)
    else if m == 4 || m == 6 || m == 9 || m == 11 then 30
    else 31
  }

  function YearLength(y: int): int {
    if IsLeapYear(y) then 366 else 365
  }

  /** A four-digit year, a month 1..12 and a day that exists in that month. */
  predicate Valid(d: FullDate) {
    && 0 <= d.year <= 9999
    && 1 <= d.month <= 12
    && 1 <= d.day <= DaysInMonth(d.year, d.month)
  }

  const MinDate := FullDate(0, 1, 1)
  const MaxDate := FullDate(9999, 12, 31)

  /** The following calendar day, rolling over month and year ends. */
  function NextDay(d: FullDate): (r: FullDate)
    requires Valid(d) && d != MaxDate
    ensures Valid(r) && r != MinDate
    ensures r.year == d.year || (r.year == d.year + 1 && r.month == 1 && r.day == 1 && d.month == 12 && d.day == 31)
  {
    if d.day < DaysInMonth(d.year, d.month) then FullDate(d.year, d.month, d.day + 1)
    else if d.month < 12 then FullDate(d.year, d.month + 1, 1)
    else FullDate(d.year + 1, 1, 1)
  }

  /** The preceding calendar day, going back over month and year starts. */
  function PrevDay(d: FullDate): (r: FullDate)
    requires Valid(d) && d != MinDate
    ensures Valid(r) && r != MaxDate
    ensures r.year == d.year || (r.year == d.year - 1 && r.month == 12 && r.day == 31 && d.month == 1 && d.day == 1)
  {
    if d.day > 1 then FullDate(d.year, d.month, d.day - 1)
    else if d.month > 1 then FullDate(d.year, d.month - 1, DaysInMonth(d.year, d.month - 1))
    else FullDate(d.year - 1, 12, 31)
  }

  lemma PrevDayOfNextDay(d: FullDate)
    requires Valid(d) && d != MaxDate
    ensures PrevDay(NextDay(d)) == d
  {
  }

  lemma NextDayOfPrevDay(d: FullDate)
    requires Valid(d) && d != MinDate
    ensures NextDay(PrevDay(d)) == d
  {
  }

  // ---------------------------------------------------------------------
  // Day numbers: the day-granular part of a JavaScript time value.

  /** Days from 0000-01-01 to the first day of year `y`. */
  function DaysBeforeYear(y: nat): nat {
    if y == 0 then 0 else DaysBeforeYear(y - 1) + YearLength(y - 1)
  }

  /** The count of leap years before `y`, in closed form. */
  lemma {:induction false} DaysBeforeYearClosedForm(y: nat)
    ensures DaysBeforeYear(y) == 365 * y + (y + 3) / 4 - (y + 99) / 100 + (y + 399) / 400
  {
    if y > 0 {
      DaysBeforeYearClosedForm(y - 1);
      LeapCountStep(y - 1);
    }
  }

  /** Moving past year `x` adds one to the closed-form leap count exactly when `x` is a leap year. */
  lemma LeapCountStep(x: nat)
    ensures (x + 4) / 4 - (x + 100) / 100 + (x + 400) / 400
         == (x + 3) / 4 - (x + 99) / 100 + (x + 399) / 400 + (if IsLeapYear(x) then 1 else 0)
  {
    assert (x + 4) / 4 == (x + 3) / 4 + (if x % 4 == 0 then 1 else 0);
    assert (x + 100) / 100 == (x + 99) / 100 + (if x % 100 == 0 then 1 else 0);
    assert (x + 400) / 400 == (x + 399) / 400 + (if x % 400 == 0 then 1 else 0);
  }

  /** Days from the first of January to the first day of month `m`. */
  function DaysBeforeMonth(y: int, m: int): (n: nat)
    requires 1 <= m <= 12
    ensures n <= 335
  {
    var common := [0, 31, 59, 90, 120, 151, 181, 212, 243, 273, 304, 334][m - 1];
    if IsLeapYear(y) && m > 2 then common + 1 else common
  }

  /** Number of days from 0000-01-01 to `d`. */
  function DayNumber(d: FullDate): (n: nat)
    requires Valid(d)
    ensures n < DaysBeforeYear(10000)
  {
    DaysBeforeYearFit(d.year);
    DaysBeforeMonthFit(d.year, d.month);
    DaysBeforeYear(d.year) + DaysBeforeMonth(d.year, d.month) + d.day - 1
  }

  lemma DaysBeforeNextYear(y: nat)
    ensures DaysBeforeYear(y + 1) == DaysBeforeYear(y) + YearLength(y)
  {
  }

  lemma {:induction false} DaysBeforeYearMonotone(a: nat, b: nat)
    requires a < b
    ensures DaysBeforeYear(a) + YearLength(a) <= DaysBeforeYear(b)
    decreases b - a
  {
    DaysBeforeNextYear(a);
    if a + 1 < b {
      DaysBeforeYearMonotone(a + 1, b);
    }
  }

  lemma DaysBeforeYearFit(y: nat)
    requires y <= 9999
    ensures DaysBeforeYear(y) + YearLength(y) <= DaysBeforeYear(10000)
  {
    if y < 9999 {
      DaysBeforeYearMonotone(y, 10000);
    } else {
      DaysBeforeNextYear(y);
    }
  }

  lemma DaysBeforeNextMonth(y: int, m: int)
    requires 1 <= m < 12
    ensures DaysBeforeMonth(y, m + 1) == DaysBeforeMonth(y, m) + DaysInMonth(y, m)
  {
  }

  lemma DaysBeforeMonthFit(y: int, m: int)
    requires 1 <= m <= 12
    ensures DaysBeforeMonth(y, m) + DaysInMonth(y, m) <= YearLength(y)
    ensures m == 12 ==> DaysBeforeMonth(y, m) + DaysInMonth(y, m) == YearLength(y)
  {
  }

  lemma {:induction false} DaysBeforeMonthMonotone(y: int, a: int, b: int)
    requires 1 <= a < b <= 12
    ensures DaysBeforeMonth(y, a) + DaysInMonth(y, a) <= DaysBeforeMonth(y, b)
    decreases b - a
  {
    DaysBeforeNextMonth(y, a);
    if a + 1 < b {
      DaysBeforeMonthMonotone(y, a + 1, b);
    }
  }

  /** Stepping forward is adding one day to the time value. */
  lemma NextDayAddsOne(d: FullDate)
    requires Valid(d) && d != MaxDate
    ensures DayNumber(NextDay(d)) == DayNumber(d) + 1
  {
    if d.day == DaysInMonth(d.year, d.month) {
      if d.month < 12 {
        DaysBeforeNextMonth(d.year, d.month);
      } else {
        DaysBeforeMonthFit(d.year, 12);
        DaysBeforeNextYear(d.year);
      }
    }
  }

  /** Stepping back is subtracting one day from the time value. */
  lemma PrevDaySubtractsOne(d: FullDate)
    requires Valid(d) && d != MinDate
    ensures DayNumber(PrevDay(d)) + 1 == DayNumber(d)
  {
    NextDayOfPrevDay(d);
    NextDayAddsOne(PrevDay(d));
  }

  /** Distinct valid dates have distinct day numbers. */
  lemma DayNumberInjective(d1: FullDate, d2: FullDate)
    requires Valid(d1) && Valid(d2)
    requires DayNumber(d1) == DayNumber(d2)
    ensures d1 == d2
  {
    DaysBeforeMonthFit(d1.year, d1.month);
    DaysBeforeMonthFit(d2.year, d2.month);
    if d1.year < d2.year {
      DaysBeforeYearMonotone(d1.year, d2.year);
    } else if d2.year < d1.year {
      DaysBeforeYearMonotone(d2.year, d1.year);
    } else if d1.month < d2.month {
      DaysBeforeMonthMonotone(d1.year, d1.month, d2.month);
    } else if d2.month < d1.month {
      DaysBeforeMonthMonotone(d1.year, d2.month, d1.month);
    }
  }

  /** Splits `n` days after the start of year `y` into a year and a day of that year. */
  function YearOf(n: nat, y: nat): (r: (nat, nat))
    requires y <= 9999 && DaysBeforeYear(y) + n < DaysBeforeYear(10000)
    ensures y <= r.0 <= 9999 && r.1 < YearLength(r.0)
    ensures DaysBeforeYear(r.0) + r.1 == DaysBeforeYear(y) + n
    decreases 10000 - y
  {
    if n < YearLength(y) then (y, n)
    else
      DaysBeforeNextYear(y);
      YearOf(n - YearLength(y), y + 1)
  }

  /** Splits `r` days after the start of month `m` of year `y` into a month and a day offset. */
  function MonthOf(r: nat, y: int, m: int): (res: (int, nat))
    requires 1 <= m <= 12 && DaysBeforeMonth(y, m) + r < YearLength(y)
    ensures m <= res.0 <= 12 && res.1 < DaysInMonth(y, res.0)
    ensures DaysBeforeMonth(y, res.0) + res.1 == DaysBeforeMonth(y, m) + r
    decreases 12 - m
  {
    DaysBeforeMonthFit(y, m);
    if r < DaysInMonth(y, m) || m == 12 then (m, r)
    else
      DaysBeforeNextMonth(y, m);
      MonthOf(r - DaysInMonth(y, m), y, m + 1)
  }

  /** The date whose day number is `n`: the date part of `toISOString`. */
  function DateOfDayNumber(n: nat): (d: FullDate)
    requires n < DaysBeforeYear(10000)
    ensures Valid(d) && DayNumber(d) == n
  {
    var (y, r) := YearOf(n, 0);
    DaysBeforeMonthFit(y, 1);
    var (m, k) := MonthOf(r, y, 1);
    FullDate(y, m, k + 1)
  }

  lemma DateOfDayNumberOfDate(d: FullDate)
    requires Valid(d)
    ensures DateOfDayNumber(DayNumber(d)) == d
  {
    DayNumberInjective(DateOfDayNumber(DayNumber(d)), d);
  }

  /**
   * What the page computes (`setUTCDate(getUTCDate() + 1)` then read the date
   * back) is the succ function on dates.
   */
  lemma NextDayIsAddOne(d: FullDate)
    requires Valid(d) && d != MaxDate
    ensures DayNumber(d) + 1 < DaysBeforeYear(10000) && DateOfDayNumber(DayNumber(d) + 1) == NextDay(d)
  {
    NextDayAddsOne(d);
    DateOfDayNumberOfDate(NextDay(d));
  }

  lemma PrevDayIsSubtractOne(d: FullDate)
    requires Valid(d) && d != MinDate
    ensures DayNumber(d) >= 1 && DateOfDayNumber(DayNumber(d) - 1) == PrevDay(d)
  {
    PrevDaySubtractsOne(d);
    DateOfDayNumberOfDate(PrevDay(d));
  }

  // ---------------------------------------------------------------------
  // Text form `YYYY-MM-DD`.

  /** `YYYY-MM-DD` with zero-padded fields, as `toISOString().slice(0, 10)` writes it. */
  function Format(d: FullDate): (s: string)
    requires Valid(d)
    ensures |s| == 10 && s[4] == '-' && s[7] == '-'
  {
    Decimal.FixedDigits(d.year, 4) + "-" + Decimal.FixedDigits(d.month, 2) + "-" + Decimal.FixedDigits(d.day, 2)
  }

  /** Reads a full-date; anything that is not exactly `YYYY-MM-DD` naming an existing day is `None`. */
  function Parse(s: string): (r: Option<FullDate>)
    ensures r.Some? ==> Valid(r.value)
  {
    if |s| == 10 && s[4] == '-' && s[7] == '-'
       && Decimal.AllDigits(s[..4]) && Decimal.AllDigits(s[5..7]) && Decimal.AllDigits(s[8..])
    then
      var d := FullDate(Decimal.ParseDigits(s[..4]), Decimal.ParseDigits(s[5..7]), Decimal.ParseDigits(s[8..]));
      if 1 <= d.month <= 12 && 1 <= d.day <= DaysInMonth(d.year, d.month) then
        Decimal.ParseDigitsBound(s[..4]);
        Some(d)
      else None
    else None
  }

  lemma ParseFormat(d: FullDate)
    requires Valid(d)
    ensures Parse(Format(d)) == Some(d)
  {
    var s := Format(d);
    assert s[..4] == Decimal.FixedDigits(d.year, 4);
    assert s[5..7] == Decimal.FixedDigits(d.month, 2);
    assert s[8..] == Decimal.FixedDigits(d.day, 2);
    Decimal.ParseFixedDigits(d.year, 4);
    Decimal.ParseFixedDigits(d.month, 2);
    Decimal.ParseFixedDigits(d.day, 2);
  }

  lemma FormatParse(s: string)
    requires Parse(s).Some?
    ensures Format(Parse(s).value) == s
  {
    Decimal.FixedDigitsOfParse(s[..4]);
    Decimal.FixedDigitsOfParse(s[5..7]);
    Decimal.FixedDigitsOfParse(s[8..]);
    assert s == s[..4] + "-" + s[5..7] + "-" + s[8..];
  }

  /** The "next day" button: the full-date one day after `s`. */
  function StepForward(s: string): (r: string)
    requires Parse(s).Some? && Parse(s).value != MaxDate
    ensures Parse(r).Some?
    ensures DayNumber(Parse(r).value) == DayNumber(Parse(s).value) + 1
  {
    var d := NextDay(Parse(s).value);
    ParseFormat(d);
    NextDayAddsOne(Parse(s).value);
    Format(d)
  }

  /** The "previous day" button: the full-date one day before `s`. */
  function StepBack(s: string): (r: string)
    requires Parse(s).Some? && Parse(s).value != MinDate
    ensures Parse(r).Some?
    ensures DayNumber(Parse(r).value) + 1 == DayNumber(Parse(s).value)
  {
    var d := PrevDay(Parse(s).value);
    ParseFormat(d);
    PrevDaySubtractsOne(Parse(s).value);
    Format(d)
  }

  lemma StepBackOfStepForward(s: string)
    requires Parse(s).Some? && Parse(s).value != MaxDate
    ensures Parse(StepForward(s)).value != MinDate
    ensures StepBack(StepForward(s)) == s
  {
    var d := Parse(s).value;
    ParseFormat(NextDay(d));
    ParseFormat(PrevDay(NextDay(d)));
    PrevDayOfNextDay(d);
    FormatParse(s);
  }

  lemma StepForwardOfStepBack(s: string)
    requires Parse(s).Some? && Parse(s).value != MinDate
    ensures Parse(StepBack(s)).value != MaxDate
    ensures StepForward(StepBack(s)) == s
  {
    var d := Parse(s).value;
    ParseFormat(PrevDay(d));
    ParseFormat(NextDay(PrevDay(d)));
    NextDayOfPrevDay(d);
    FormatParse(s);
  }

  // ---------------------------------------------------------------------
  // The current day, from a clock reading.

  /** Whole UTC days since 1970-01-01 at a clock reading in milliseconds, rounded down. */
  function DaysSinceEpoch(nowMs: int): int {
    nowMs / 86_400_000
  }

  const UnixEpoch := FullDate(1970, 1, 1)
  /** Day number of 1970-01-01. */
  const UnixEpochDay := 719_528
  /** Day number of 10000-01-01, the first day without a four-digit year. */
  const DayLimit := 3_652_425

  lemma DayConstants()
    ensures DayNumber(UnixEpoch) == DaysBeforeYear(1970) == UnixEpochDay
    ensures DaysBeforeYear(10000) == DayLimit
  {
    DaysBeforeYearClosedForm(1970);
    DaysBeforeYearClosedForm(10000);
  }

  /** A clock reading (milliseconds since 1970-01-01T00:00Z) whose UTC day has a four-digit year. */
  predicate InFourDigitYears(nowMs: int) {
    0 <= DaysSinceEpoch(nowMs) + UnixEpochDay < DayLimit
  }

  /** `new Date().toISOString().slice(0, 10)` for the clock reading `nowMs`. */
  function TodayText(nowMs: int): (s: string)
    requires InFourDigitYears(nowMs)
    ensures |s| == 10
  {
    DayConstants();
    Format(DateOfDayNumber(DaysSinceEpoch(nowMs) + UnixEpochDay))
  }

  /** Today's text is a full-date whose day number is that of 1970-01-01 plus the whole days elapsed since. */
  lemma TodayTextDay(nowMs: int)
    requires InFourDigitYears(nowMs)
    ensures Parse(TodayText(nowMs)).Some?
    ensures DayNumber(Parse(TodayText(nowMs)).value) == DaysSinceEpoch(nowMs) + DayNumber(UnixEpoch)
  {
    DayConstants();
    ParseFormat(DateOfDayNumber(DaysSinceEpoch(nowMs) + UnixEpochDay));
  }

  /** The Unix epoch's text form. */
  lemma EpochText()
    ensures Format(UnixEpoch) == "1970-01-01"
  {
    assert Decimal.FixedDigits(1970, 4) == "1970";
    assert Decimal.FixedDigits(1, 2) == "01";
  }

  /** Any clock reading during the first day of 1970 gives "1970-01-01". */
  lemma TodayOnEpochDay(nowMs: int)
    requires 0 <= nowMs < 86_400_000
    ensures InFourDigitYears(nowMs) && TodayText(nowMs) == "1970-01-01"
  {
    assert DaysSinceEpoch(nowMs) == 0;
    DayConstants();
    TodayTextOfDate(nowMs, UnixEpoch);
    EpochText();
  }

  /** The clock shows the text form of whichever date has the clock's day number. */
  lemma TodayTextOfDate(nowMs: int, d: FullDate)
    requires Valid(d) && DayNumber(d) == DaysSinceEpoch(nowMs) + UnixEpochDay
    requires InFourDigitYears(nowMs)
    ensures TodayText(nowMs) == Format(d)
  {
    DateOfDayNumberOfDate(d);
  }

}
