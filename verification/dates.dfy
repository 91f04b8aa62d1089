/** Small Option type and JavaScript's numeric fallback, shared by the modules below. */
module Wrappers {
  datatype Option<+T> = None | Some(value: T)

  /**
   * JavaScript's `value || fallback` on a possibly missing number: a missing
   * value and 0 are both falsy and give the fallback.
   */
  function NumberOr(value: Option<int>, fallback: int): (r: int)
    ensures value.Some? && value.value != 0 ==> r == value.value
    ensures value.None? || value.value == 0 ==> r == fallback
  {
    if value.Some? && value.value != 0 then value.value else fallback
  }
}

/**
 * Calendar arithmetic used throughout the app: Gregorian month lengths and
 * the day numbering that JavaScript's `Date` uses (days counted from
 * 1970-01-01, proleptic Gregorian calendar).
 */
module Dates {

  /** One calendar day; `month` is 1-based as in an ISO `YYYY-MM-DD` string. */
  datatype Date = Date(year: int, month: int, day: int)

  /** A displayed month; `month` is 1-based. */
  datatype YearMonth = YearMonth(year: int, month: int)

  predicate ValidYearMonth(ym: YearMonth) {
    1 <= ym.month <= 12
  }

  predicate IsLeapYear(y: int) {
    y % 4 == 0 && (y % 100 != 0 || y % 400 == 0)
  }

  /**
   * Length of a month: the value of `new Date(year, month, 0).getDate()` for
   * years the constructor takes as given (it reads 0 to 99 as 1900 to 1999).
   */
  function DaysInMonth(year: int, month: int): (n: int)
    requires 1 <= month <= 12
    ensures 28 <= n <= 31
    ensures month == 2 ==> (n == 29 <==> IsLeapYear(year))
  {
    if month == 2 then (if IsLeapYear(year) then 29 else 28)
    else if month == 4 || month == 6 || month == 9 || month == 11 then 30
    else 31
  }

  predicate ValidDate(d: Date) {
    1 <= d.month <= 12 && 1 <= d.day <= DaysInMonth(d.year, d.month)
  }

  predicate InMonth(d: Date, ym: YearMonth) {
    d.year == ym.year && d.month == ym.month
  }

  /** The month after `ym`, December wrapping to January of the next year. */
  function NextMonth(ym: YearMonth): YearMonth {
    if ym.month == 12 then YearMonth(ym.year + 1, 1) else YearMonth(ym.year, ym.month + 1)
  }

  /** Number of days in year `y`. */
  function DaysInYear(y: int): int {
    if IsLeapYear(y) then 366 else 365
  }

  /** Day number of January 1st of year `y`, counted from 1970-01-01. */
  function DayFromYear(y: int): int {
    365 * (y - 1970) + (y - 1969) / 4 - (y - 1901) / 100 + (y - 1601) / 400
  }

  /** Days of year `y` that precede the first day of `month`: the cumulative table. */
  function DaysBeforeMonth(y: int, month: int): int
    requires 1 <= month <= 12
  {
    var leap := if IsLeapYear(y) then 1 else 0;
    match month
    case 1 => 0
    case 2 => 31
    case 3 => 59 + leap
    case 4 => 90 + leap
    case 5 => 120 + leap
    case 6 => 151 + leap
    case 7 => 181 + leap
    case 8 => 212 + leap
    case 9 => 243 + leap
    case 10 => 273 + leap
    case 11 => 304 + leap
    case _ => 334 + leap
  }

  /** Day number of a date, counted from 1970-01-01 (day 0). */
  function DayNumber(d: Date): int
    requires 1 <= d.month <= 12
  {
    DayFromYear(d.year) + DaysBeforeMonth(d.year, d.month) + d.day - 1
  }

  /** Day of the week, 0 = Sunday, as `Date.prototype.getDay`; 1970-01-01 was a Thursday. */
  function WeekDay(d: Date): (w: int)
    requires 1 <= d.month <= 12
    ensures 0 <= w < 7
  {
    (DayNumber(d) + 4) % 7
  }

  lemma StepOfFloorDiv(a: int, k: int)
    requires k == 4 || k == 100 || k == 400
    ensures (a + 1) / k - a / k == if (a + 1) % k == 0 then 1 else 0
  {
    var q, r := a / k, a % k;
    assert a == q * k + r && 0 <= r < k;
    if r + 1 < k {
      assert a + 1 == q * k + (r + 1);
    } else {
      assert a + 1 == (q + 1) * k + 0;
    }
  }

  /** Consecutive years are as far apart as the length of the earlier one. */
  lemma {:induction false} DayFromYearStep(y: int)
    ensures DayFromYear(y + 1) == DayFromYear(y) + DaysInYear(y)
  {
    StepOfFloorDiv(y - 1969, 4);
    StepOfFloorDiv(y - 1901, 100);
    StepOfFloorDiv(y - 1601, 400);
    assert (y - 1968) % 4 == 0 <==> y % 4 == 0;
    assert (y - 1900) % 100 == 0 <==> y % 100 == 0;
    assert (y - 1600) % 400 == 0 <==> y % 400 == 0;
  }

  /**
   * The month length agrees with the day numbering: the first of the next
   * month comes `DaysInMonth` days after the first of this month, so the
   * day before it (`new Date(y, m, 0)`) is day `DaysInMonth` of this month.
   */
  lemma {:induction false} DaysInMonthIsGap(ym: YearMonth)
    requires ValidYearMonth(ym)
    ensures DayNumber(Date(NextMonth(ym).year, NextMonth(ym).month, 1))
         == DayNumber(Date(ym.year, ym.month, 1)) + DaysInMonth(ym.year, ym.month)
  {
    if ym.month == 12 {
      DayFromYearStep(ym.year);
    }
  }
}
