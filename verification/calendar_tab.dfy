/**
 * The calendar screen of the local-only revision: the month grid of blank
 * cells and day buttons, the style of each day, the day tap and the month
 * navigation.
 */
module CalendarTab {
  import opened Dates
  import opened AbsentDates

  /** `firstDayOfMonth`: weekday (0 = Sunday) of the first of the displayed month. */
  function FirstDayOfMonth(ym: YearMonth): (w: int)
    requires ValidYearMonth(ym)
    ensures 0 <= w < 7
  {
    WeekDay(Date(ym.year, ym.month, 1))
  }

  /** `Math.ceil((firstDay + daysInMonth) / 7) * 7`, for non-negative operands. */
  function TotalCells(firstDay: nat, daysInMonth: nat): (n: nat)
    ensures n % 7 == 0
    ensures firstDay + daysInMonth <= n < firstDay + daysInMonth + 7
  {
    (firstDay + daysInMonth + 6) / 7 * 7
  }

  /** The three looks a day button can have. */
  datatype DayStyle = TodayStyle | AbsentStyle | DefaultStyle

  /** `getDayClass`: an absent day is struck through even when it is today. */
  function DayClass(isToday: bool, isAbsent: bool): (s: DayStyle)
    ensures s == TodayStyle <==> isToday && !isAbsent
    ensures s == AbsentStyle <==> isAbsent
    ensures s == DefaultStyle <==> !isToday && !isAbsent
  {
    if isToday && !isAbsent then TodayStyle
    else if isAbsent then AbsentStyle
    else DefaultStyle
  }

  /** One cell of the grid: an empty placeholder or the button of a day. */
  datatype Cell = Blank | DayButton(day: int, style: DayStyle)

  /** The cell at position `i`: a button for positions that hold a day of the month, otherwise blank. */
  function CellAt(ym: YearMonth, absent: seq<Date>, today: Date, i: int): (c: Cell)
    requires ValidYearMonth(ym)
    ensures c.DayButton? <==> FirstDayOfMonth(ym) <= i < FirstDayOfMonth(ym) + DaysInMonth(ym.year, ym.month)
    ensures c.DayButton? ==> 1 <= c.day <= DaysInMonth(ym.year, ym.month) && c.day == i - FirstDayOfMonth(ym) + 1
  {
    var fd := FirstDayOfMonth(ym);
    if i < fd || i >= fd + DaysInMonth(ym.year, ym.month) then Blank
    else
      var day := i - fd + 1;
      var date := Date(ym.year, ym.month, day);
      DayButton(day, DayClass(date == today, date in absent))
  }

  /**
   * `renderCalendarDays`: push one cell per position of whole weeks. Every
   * position holds the cell `CellAt` describes.
   */
  method RenderCalendarDays(ym: YearMonth, absent: seq<Date>, today: Date) returns (cells: seq<Cell>)
    requires ValidYearMonth(ym)
    ensures |cells| == TotalCells(FirstDayOfMonth(ym), DaysInMonth(ym.year, ym.month))
    ensures forall i :: 0 <= i < |cells| ==> cells[i] == CellAt(ym, absent, today, i)
  {
    var firstDay := FirstDayOfMonth(ym);
    var daysInMonth := DaysInMonth(ym.year, ym.month);
    var totalCells := TotalCells(firstDay, daysInMonth);
    cells := [];
    var i := 0;
    while i < totalCells
      invariant 0 <= i <= totalCells
      invariant |cells| == i
      invariant forall k :: 0 <= k < i ==> cells[k] == CellAt(ym, absent, today, k)
    {
      if i < firstDay || i >= firstDay + daysInMonth {
        cells := cells + [Blank];
      } else {
        var day := i - firstDay + 1;
        var date := Date(ym.year, ym.month, day);
        cells := cells + [DayButton(day, DayClass(date == today, date in absent))];
      }
      i := i + 1;
    }
  }

  lemma ModShift(a: int, q: int)
    ensures (a + 7 * q) % 7 == a % 7
  {
    var r := a % 7;
    assert a == a / 7 * 7 + r;
    assert a + 7 * q == (a / 7 + q) * 7 + r;
  }

  lemma ModOfSum(a: int, b: int)
    ensures (a % 7 + b) % 7 == (a + b) % 7
  {
    ModShift(a % 7 + b, a / 7);
    assert a % 7 + b + 7 * (a / 7) == a + b;
  }

  /**
   * The grid is laid out under the weekday headers Sun..Sat: every day of the
   * month sits in exactly one cell, the one at `firstDay + day - 1`, and that
   * cell's column is the day's weekday.
   */
  lemma {:induction false} DayCellIsUnique(ym: YearMonth, absent: seq<Date>, today: Date, day: int, i: int)
    requires ValidYearMonth(ym)
    requires 1 <= day <= DaysInMonth(ym.year, ym.month)
    ensures (CellAt(ym, absent, today, i).DayButton? && CellAt(ym, absent, today, i).day == day)
        <==> i == FirstDayOfMonth(ym) + day - 1
    ensures i == FirstDayOfMonth(ym) + day - 1 ==> i % 7 == WeekDay(Date(ym.year, ym.month, day))
  {
    var first := Date(ym.year, ym.month, 1);
    var date := Date(ym.year, ym.month, day);
    assert DayNumber(date) == DayNumber(first) + day - 1;
    ModOfSum(DayNumber(first) + 4, day - 1);
  }

  /**
   * The blanks after the last day fill the rest of its week, and the next
   * month's grid starts in the column where those blanks begin.
   */
  lemma {:induction false} NextMonthStartsAfterLastDay(ym: YearMonth)
    requires ValidYearMonth(ym)
    ensures FirstDayOfMonth(NextMonth(ym)) == (FirstDayOfMonth(ym) + DaysInMonth(ym.year, ym.month)) % 7
  {
    DaysInMonthIsGap(ym);
    var n := DayNumber(Date(ym.year, ym.month, 1));
    ModOfSum(n + 4, DaysInMonth(ym.year, ym.month));
  }

  /** `handleDayClick(day)`: toggle the date of that day of the displayed month. */
  method HandleDayClick(data: MessData, day: int)
    modifies data`absentDates
    ensures data.currentMonth == old(data.currentMonth)
    ensures data.absentDates == Toggled(old(data.absentDates), Date(data.currentMonth.year, data.currentMonth.month, day))
  {
    var ym := data.currentMonth;
    data.ToggleAbsentDate(Date(ym.year, ym.month, day));
  }

  /**
   * `new Date(year, monthIndex, 1)` with a 0-based month index that may run
   * past either end of the year: JavaScript carries the overflow into the
   * year. (For a year of 0 to 99 the constructor also adds 1900; the model
   * does not.)
   */
  function MonthFromIndex(year: int, monthIndex: int): (ym: YearMonth)
    ensures ValidYearMonth(ym)
    ensures ym.year * 12 + ym.month - 1 == year * 12 + monthIndex
  {
    YearMonth(year + monthIndex / 12, monthIndex % 12 + 1)
  }

  /** Months counted from year 0, so that navigation is a step of one. */
  function MonthNumber(ym: YearMonth): int {
    ym.year * 12 + ym.month - 1
  }

  /** `goToPreviousMonth`. */
  function PreviousMonth(ym: YearMonth): (p: YearMonth)
    ensures ValidYearMonth(p) && MonthNumber(p) == MonthNumber(ym) - 1
  {
    MonthFromIndex(ym.year, ym.month - 1 - 1)
  }

  /** `goToNextMonth`. */
  function FollowingMonth(ym: YearMonth): (f: YearMonth)
    ensures ValidYearMonth(f) && MonthNumber(f) == MonthNumber(ym) + 1
  {
    MonthFromIndex(ym.year, ym.month - 1 + 1)
  }

  /**
   * Both buttons move by exactly one month and land on a valid month; the
   * next button agrees with the December-to-January wrap, the previous one
   * wraps January back to December; each undoes the other.
   */
  lemma {:induction false} NavigationSteps(ym: YearMonth)
    requires ValidYearMonth(ym)
    ensures ValidYearMonth(PreviousMonth(ym)) && ValidYearMonth(FollowingMonth(ym))
    ensures MonthNumber(PreviousMonth(ym)) == MonthNumber(ym) - 1
    ensures MonthNumber(FollowingMonth(ym)) == MonthNumber(ym) + 1
    ensures FollowingMonth(ym) == NextMonth(ym)
    ensures ym.month == 1 ==> PreviousMonth(ym) == YearMonth(ym.year - 1, 12)
    ensures ym.month > 1 ==> PreviousMonth(ym) == YearMonth(ym.year, ym.month - 1)
    ensures PreviousMonth(FollowingMonth(ym)) == ym && FollowingMonth(PreviousMonth(ym)) == ym
  {
    MonthNumberInjective(PreviousMonth(FollowingMonth(ym)), ym);
    MonthNumberInjective(FollowingMonth(PreviousMonth(ym)), ym);
    MonthNumberInjective(FollowingMonth(ym), NextMonth(ym));
    if ym.month == 1 {
      MonthNumberInjective(PreviousMonth(ym), YearMonth(ym.year - 1, 12));
    } else {
      MonthNumberInjective(PreviousMonth(ym), YearMonth(ym.year, ym.month - 1));
    }
  }

  lemma MonthNumberInjective(a: YearMonth, b: YearMonth)
    requires ValidYearMonth(a) && ValidYearMonth(b)
    requires MonthNumber(a) == MonthNumber(b)
    ensures a == b
  {
  }
}
