/**
 * The record types of the app and the arithmetic identities their field
 * comments promise.
 */
module MessTypes {
  import opened Dates

  /**
   * Attendance of one calendar day. The date stands for the day's
   * `YYYY-MM-DD` string (see MonthRange.IsoDate, which is injective on
   * four-digit years), so it identifies exactly one day.
   */
  datatype DayAttendance = DayAttendance(date: Date, isLunchPresent: bool, isDinnerPresent: bool)

  /** The settings of one month. */
  datatype MonthlyRecord = MonthlyRecord(
    month: int,
    year: int,
    advanceGiven: int,
    carriedFromPrevious: int,
    lunchCost: int,
    dinnerCost: int)

  /** The figures computed for one month. */
  datatype MonthSummary = MonthSummary(
    month: int,
    year: int,
    advanceGiven: int,
    carriedFromPrevious: int,
    effectiveAdvance: int,
    totalLunches: int,
    totalDinners: int,
    lunchCost: int,
    dinnerCost: int,
    totalSpent: int,
    remaining: int,
    totalDaysInMonth: int,
    daysWithBothMeals: int,
    daysWithOnlyLunch: int,
    daysWithOnlyDinner: int,
    daysAbsent: int)

  /** The money identities written beside the summary's fields. */
  predicate Reconciled(s: MonthSummary) {
    && s.effectiveAdvance == s.advanceGiven + s.carriedFromPrevious
    && s.totalSpent == s.totalLunches * s.lunchCost + s.totalDinners * s.dinnerCost
    && s.remaining == s.effectiveAdvance - s.totalSpent
  }

  /** Every day of the month is of exactly one of the four day types. */
  predicate DaysPartitioned(s: MonthSummary) {
    && s.daysWithBothMeals + s.daysWithOnlyLunch + s.daysWithOnlyDinner + s.daysAbsent == s.totalDaysInMonth
    && 0 <= s.daysWithBothMeals && 0 <= s.daysWithOnlyLunch
    && 0 <= s.daysWithOnlyDinner && 0 <= s.daysAbsent
  }

  /** The summary's month is a month of the year and its length is that month's. */
  predicate SummaryMonthValid(s: MonthSummary) {
    1 <= s.month <= 12 && s.totalDaysInMonth == DaysInMonth(s.year, s.month)
  }
}
