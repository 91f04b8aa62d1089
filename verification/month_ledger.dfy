/**
 * The month summary of the account-backed revision: meal totals obtained by
 * subtracting stored absences from the month length, the day-type counts,
 * and the money figures; and the local update of the monthly advance.
 */
module MonthLedger {
  import opened Wrappers
  import opened Dates
  import opened MessTypes
  import opened Attendance

  /** The five record filters the summary counts. */
  datatype Absence = LunchAbsent | DinnerAbsent | BothAbsent | OnlyLunchAbsent | OnlyDinnerAbsent

  predicate Matches(q: Absence, a: DayAttendance) {
    match q
    case LunchAbsent => !a.isLunchPresent
    case DinnerAbsent => !a.isDinnerPresent
    case BothAbsent => !a.isLunchPresent && !a.isDinnerPresent
    case OnlyLunchAbsent => !a.isLunchPresent && a.isDinnerPresent
    case OnlyDinnerAbsent => a.isLunchPresent && !a.isDinnerPresent
  }

  /** `rows.filter(m => <q>).length`. */
  function CountRows(q: Absence, rows: seq<DayAttendance>): (n: nat)
    ensures n <= |rows|
    ensures n == 0 <==> forall x :: x in rows ==> !Matches(q, x)
  {
    if rows == [] then 0
    else (if Matches(q, rows[0]) then 1 else 0) + CountRows(q, rows[1..])
  }

  /** The records the summary reads: distinct, valid days of the displayed month. */
  predicate WellFormed(rows: seq<DayAttendance>, ym: YearMonth) {
    UniqueDates(rows) && forall x :: x in rows ==> InMonth(x.date, ym) && ValidDate(x.date)
  }

  function DayOf(ym: YearMonth, day: int): Date {
    Date(ym.year, ym.month, day)
  }

  // Reference counts: walk the days 1..n of the month and ask getAttendance.

  /** Days among 1..n whose reported attendance matches filter `q`. */
  function AbsentDays(q: Absence, rows: seq<DayAttendance>, ym: YearMonth, n: nat): nat {
    if n == 0 then 0
    else AbsentDays(q, rows, ym, n - 1) + (if Matches(q, GetAttendance(rows, DayOf(ym, n))) then 1 else 0)
  }

  /** Days among 1..n on which `meal` is reported present. */
  function MealDays(meal: Meal, rows: seq<DayAttendance>, ym: YearMonth, n: nat): nat {
    if n == 0 then 0
    else MealDays(meal, rows, ym, n - 1) + (if Eats(GetAttendance(rows, DayOf(ym, n)), meal) then 1 else 0)
  }

  /** Days among 1..n on which both meals are reported present. */
  function FullDays(rows: seq<DayAttendance>, ym: YearMonth, n: nat): nat {
    if n == 0 then 0
    else
      var a := GetAttendance(rows, DayOf(ym, n));
      FullDays(rows, ym, n - 1) + (if a.isLunchPresent && a.isDinnerPresent then 1 else 0)
  }

  /** The monthly ledger row (`monthlyData`); absent when nothing is stored for the month. */
  datatype LedgerRow = LedgerRow(
    advanceGiven: int,
    carriedFromPrevious: int,
    effectiveAdvance: int,
    totalSpent: int,
    remainingBalance: int)

  /** The ledger row's own identities. */
  predicate Balanced(r: LedgerRow) {
    r.effectiveAdvance == r.advanceGiven + r.carriedFromPrevious
    && r.remainingBalance == r.effectiveAdvance - r.totalSpent
  }

  /** `monthlyData?.advance_given || 0`. */
  function AdvanceOf(row: Option<LedgerRow>): (r: int)
    ensures row.None? ==> r == 0
    ensures row.Some? ==> r == row.value.advanceGiven
  {
    if row.Some? then row.value.advanceGiven else 0
  }

  /** `monthlyData?.carried_from_previous || 0`. */
  function CarriedOf(row: Option<LedgerRow>): (r: int)
    ensures row.None? ==> r == 0
    ensures row.Some? ==> r == row.value.carriedFromPrevious
  {
    if row.Some? then row.value.carriedFromPrevious else 0
  }

  /** `prev?.total_spent || 0`. */
  function SpentOf(row: Option<LedgerRow>): (r: int)
    ensures row.None? ==> r == 0
    ensures row.Some? ==> r == row.value.totalSpent
  {
    if row.Some? then row.value.totalSpent else 0
  }

  /**
   * `currentMonthSummary`: the month's figures from its stored records, the
   * ledger row and the single meal price.
   */
  function Summarize(rows: seq<DayAttendance>, ym: YearMonth, monthlyData: Option<LedgerRow>, mealPrice: int): (s: MonthSummary)
    requires ValidYearMonth(ym)
    ensures Reconciled(s) && SummaryMonthValid(s)
    ensures s.year == ym.year && s.month == ym.month
    ensures s.lunchCost == mealPrice && s.dinnerCost == mealPrice
    ensures s.advanceGiven == AdvanceOf(monthlyData) && s.carriedFromPrevious == CarriedOf(monthlyData)
    ensures s.daysWithBothMeals + s.daysWithOnlyLunch + s.daysWithOnlyDinner + s.daysAbsent == s.totalDaysInMonth
  {
    var totalDaysInMonth := DaysInMonth(ym.year, ym.month);
    var totalLunches := totalDaysInMonth - CountRows(LunchAbsent, rows);
    var totalDinners := totalDaysInMonth - CountRows(DinnerAbsent, rows);
    var daysWithBothAbsent := CountRows(BothAbsent, rows);
    var daysWithOnlyLunchAbsent := CountRows(OnlyLunchAbsent, rows);
    var daysWithOnlyDinnerAbsent := CountRows(OnlyDinnerAbsent, rows);
    var daysWithBothMeals := totalDaysInMonth - daysWithBothAbsent - daysWithOnlyLunchAbsent - daysWithOnlyDinnerAbsent;
    var totalSpent := totalLunches * mealPrice + totalDinners * mealPrice;
    var advance := AdvanceOf(monthlyData);
    var carried := CarriedOf(monthlyData);
    MonthSummary(
      month := ym.month,
      year := ym.year,
      advanceGiven := advance,
      carriedFromPrevious := carried,
      effectiveAdvance := advance + carried,
      totalLunches := totalLunches,
      totalDinners := totalDinners,
      lunchCost := mealPrice,
      dinnerCost := mealPrice,
      totalSpent := totalSpent,
      remaining := advance + carried - totalSpent,
      totalDaysInMonth := totalDaysInMonth,
      daysWithBothMeals := daysWithBothMeals,
      daysWithOnlyLunch := daysWithOnlyDinnerAbsent,
      daysWithOnlyDinner := daysWithOnlyLunchAbsent,
      daysAbsent := daysWithBothAbsent)
  }

  lemma GetAttendanceCons(r: DayAttendance, rest: seq<DayAttendance>, x: Date)
    ensures GetAttendance([r] + rest, x) == if r.date == x then r else GetAttendance(rest, x)
  {
    assert ([r] + rest)[0] == r && ([r] + rest)[1..] == rest;
  }

  /** Counting from the empty list: every day is present for both meals. */
  lemma {:induction false} AbsentDaysOfNoRows(q: Absence, ym: YearMonth, n: nat)
    ensures AbsentDays(q, [], ym, n) == 0
  {
    if n > 0 {
      AbsentDaysOfNoRows(q, ym, n - 1);
    }
  }

  /** Adding a record for a date that has none adds that record's day to the count. */
  lemma {:induction false} AbsentDaysPeel(q: Absence, r: DayAttendance, rest: seq<DayAttendance>, ym: YearMonth, n: nat)
    requires forall x :: x in rest ==> x.date != r.date
    ensures AbsentDays(q, [r] + rest, ym, n)
         == AbsentDays(q, rest, ym, n) + (if r.date == DayOf(ym, r.date.day) && 1 <= r.date.day <= n && Matches(q, r) then 1 else 0)
  {
    if n > 0 {
      AbsentDaysPeel(q, r, rest, ym, n - 1);
      var day := DayOf(ym, n);
      var here := r.date == DayOf(ym, r.date.day);
      GetAttendanceCons(r, rest, day);
      if r.date == day {
        assert GetAttendance(rest, day) == DefaultAttendance(day);
        assert !Matches(q, DefaultAttendance(day));
        assert here && r.date.day == n;
      } else {
        assert GetAttendance([r] + rest, day) == GetAttendance(rest, day);
        assert (here && 1 <= r.date.day <= n) == (here && 1 <= r.date.day <= n - 1);
      }
    }
  }

  /**
   * Sparse storage is transparent to the summary's filters: for records of
   * distinct days inside the month, counting the stored records that match a
   * filter gives the number of days of the month whose reported attendance
   * matches it, a day without a record counting as present for both meals.
   */
  lemma {:induction false} AbsentDaysMatchRows(q: Absence, rows: seq<DayAttendance>, ym: YearMonth)
    requires ValidYearMonth(ym)
    requires WellFormed(rows, ym)
    ensures AbsentDays(q, rows, ym, DaysInMonth(ym.year, ym.month)) == CountRows(q, rows)
  {
    var n := DaysInMonth(ym.year, ym.month);
    if rows == [] {
      AbsentDaysOfNoRows(q, ym, n);
    } else {
      var r, rest := rows[0], rows[1..];
      assert rows == [r] + rest;
      assert WellFormed(rest, ym);
      AbsentDaysMatchRows(q, rest, ym);
      AbsentDaysPeel(q, r, rest, ym, n);
      assert r in rows;
    }
  }

  /**
   * Day types partition the days: every day either has a meal or misses it,
   * and is exactly one of full, lunch only, dinner only, or absent.
   */
  lemma {:induction false} DayTypesPartition(rows: seq<DayAttendance>, ym: YearMonth, n: nat)
    ensures MealDays(Lunch, rows, ym, n) + AbsentDays(LunchAbsent, rows, ym, n) == n
    ensures MealDays(Dinner, rows, ym, n) + AbsentDays(DinnerAbsent, rows, ym, n) == n
    ensures FullDays(rows, ym, n) + AbsentDays(OnlyDinnerAbsent, rows, ym, n)
          + AbsentDays(OnlyLunchAbsent, rows, ym, n) + AbsentDays(BothAbsent, rows, ym, n) == n
  {
    if n > 0 {
      DayTypesPartition(rows, ym, n - 1);
    }
  }

  /**
   * The subtraction-based summary agrees with counting the month day by day
   * through getAttendance: lunches and dinners are the days that meal is
   * eaten, and the four day-type counts are the days of each type, so none
   * of them is negative.
   */
  lemma {:induction false} SummaryMatchesCalendar(rows: seq<DayAttendance>, ym: YearMonth, monthlyData: Option<LedgerRow>, mealPrice: int)
    requires ValidYearMonth(ym)
    requires WellFormed(rows, ym)
    ensures var s := Summarize(rows, ym, monthlyData, mealPrice);
      var n := DaysInMonth(ym.year, ym.month);
      && s.totalLunches == MealDays(Lunch, rows, ym, n)
      && s.totalDinners == MealDays(Dinner, rows, ym, n)
      && s.daysWithBothMeals == FullDays(rows, ym, n)
      && s.daysWithOnlyLunch == AbsentDays(OnlyDinnerAbsent, rows, ym, n)
      && s.daysWithOnlyDinner == AbsentDays(OnlyLunchAbsent, rows, ym, n)
      && s.daysAbsent == AbsentDays(BothAbsent, rows, ym, n)
      && DaysPartitioned(s)
  {
    var n := DaysInMonth(ym.year, ym.month);
    AbsentDaysMatchRows(LunchAbsent, rows, ym);
    AbsentDaysMatchRows(DinnerAbsent, rows, ym);
    AbsentDaysMatchRows(BothAbsent, rows, ym);
    AbsentDaysMatchRows(OnlyLunchAbsent, rows, ym);
    AbsentDaysMatchRows(OnlyDinnerAbsent, rows, ym);
    DayTypesPartition(rows, ym, n);
  }

  /** With no stored records every meal of every day is counted and paid. */
  lemma {:induction false} SummaryOfEmptyMonth(ym: YearMonth, monthlyData: Option<LedgerRow>, mealPrice: int)
    requires ValidYearMonth(ym)
    ensures var s := Summarize([], ym, monthlyData, mealPrice);
      && s.totalLunches == s.totalDinners == s.daysWithBothMeals == s.totalDaysInMonth
      && s.daysWithOnlyLunch == s.daysWithOnlyDinner == s.daysAbsent == 0
      && s.totalSpent == 2 * s.totalDaysInMonth * mealPrice
      && s.remaining == AdvanceOf(monthlyData) + CarriedOf(monthlyData) - 2 * s.totalDaysInMonth * mealPrice
  {
    var s := Summarize([], ym, monthlyData, mealPrice);
    assert s.totalSpent == s.totalDaysInMonth * mealPrice + s.totalDaysInMonth * mealPrice;
  }

  /** Two lists that report the same attendance on every day but `j` differ in a meal count only there. */
  lemma {:induction false} MealDaysOneDayApart(meal: Meal, a: seq<DayAttendance>, b: seq<DayAttendance>, ym: YearMonth, n: nat, j: int)
    requires forall k :: 1 <= k <= n && k != j ==> GetAttendance(a, DayOf(ym, k)) == GetAttendance(b, DayOf(ym, k))
    ensures MealDays(meal, b, ym, n)
         == MealDays(meal, a, ym, n)
          - (if 1 <= j <= n && Eats(GetAttendance(a, DayOf(ym, j)), meal) then 1 else 0)
          + (if 1 <= j <= n && Eats(GetAttendance(b, DayOf(ym, j)), meal) then 1 else 0)
  {
    if n > 0 {
      MealDaysOneDayApart(meal, a, b, ym, n - 1, j);
    }
  }

  function MealTotal(s: MonthSummary, meal: Meal): int {
    match meal
    case Lunch => s.totalLunches
    case Dinner => s.totalDinners
  }

  lemma ToggleKeepsWellFormed(rows: seq<DayAttendance>, ym: YearMonth, d: Date, meal: Meal)
    requires WellFormed(rows, ym) && InMonth(d, ym) && ValidDate(d)
    ensures WellFormed(Toggle(rows, d, meal), ym)
  {
    ToggleKeepsInvariants(rows, d, meal);
    var c := GetAttendance(rows, d);
    var lunch := if meal == Lunch then !c.isLunchPresent else c.isLunchPresent;
    var dinner := if meal == Dinner then !c.isDinnerPresent else c.isDinnerPresent;
    assert Toggle(rows, d, meal) == Put(rows, d, lunch, dinner);
    forall x | x in Put(rows, d, lunch, dinner) ensures InMonth(x.date, ym) && ValidDate(x.date) {
      if x !in RemoveDate(rows, d) {
        assert x == DayAttendance(d, lunch, dinner);
      }
    }
  }

  /** Day by day, a local toggle changes one meal of one day of the month. */
  lemma {:induction false} ToggleMovesMealDays(rows: seq<DayAttendance>, ym: YearMonth, d: Date, meal: Meal)
    requires ValidYearMonth(ym) && InMonth(d, ym) && ValidDate(d)
    ensures var n := DaysInMonth(ym.year, ym.month);
      var toggled := Toggle(rows, d, meal);
      var delta := if Eats(GetAttendance(rows, d), meal) then -1 else 1;
      && MealDays(meal, toggled, ym, n) == MealDays(meal, rows, ym, n) + delta
      && MealDays(OtherMeal(meal), toggled, ym, n) == MealDays(OtherMeal(meal), rows, ym, n)
  {
    var toggled := Toggle(rows, d, meal);
    var n := DaysInMonth(ym.year, ym.month);
    forall k | 1 <= k <= n && k != d.day
      ensures GetAttendance(rows, DayOf(ym, k)) == GetAttendance(toggled, DayOf(ym, k))
    {
      ToggleFlipsOneMeal(rows, d, meal, DayOf(ym, k));
    }
    ToggleFlipsOneMeal(rows, d, meal, d);
    assert d == DayOf(ym, d.day);
    MealDaysOneDayApart(meal, rows, toggled, ym, n, d.day);
    MealDaysOneDayApart(OtherMeal(meal), rows, toggled, ym, n, d.day);
  }

  /**
   * A local toggle of a day of the displayed month moves that meal's total
   * by one (down when the meal was present, up when it was absent), leaves
   * the other meal's total alone, and moves the amount spent and the
   * remaining balance by one meal price.
   */
  lemma {:induction false} ToggleMovesTotals(rows: seq<DayAttendance>, ym: YearMonth, d: Date, meal: Meal,
                                             monthlyData: Option<LedgerRow>, mealPrice: int)
    requires ValidYearMonth(ym) && WellFormed(rows, ym)
    requires InMonth(d, ym) && ValidDate(d)
    ensures var before := Summarize(rows, ym, monthlyData, mealPrice);
      var after := Summarize(Toggle(rows, d, meal), ym, monthlyData, mealPrice);
      var delta := if Eats(GetAttendance(rows, d), meal) then -1 else 1;
      && MealTotal(after, meal) == MealTotal(before, meal) + delta
      && MealTotal(after, OtherMeal(meal)) == MealTotal(before, OtherMeal(meal))
      && after.totalSpent == before.totalSpent + delta * mealPrice
      && after.remaining == before.remaining - delta * mealPrice
  {
    var toggled := Toggle(rows, d, meal);
    var n := DaysInMonth(ym.year, ym.month);
    ToggleKeepsWellFormed(rows, ym, d, meal);
    SummaryMatchesCalendar(rows, ym, monthlyData, mealPrice);
    SummaryMatchesCalendar(toggled, ym, monthlyData, mealPrice);
    ToggleMovesMealDays(rows, ym, d, meal);
    var before := Summarize(rows, ym, monthlyData, mealPrice);
    var after := Summarize(toggled, ym, monthlyData, mealPrice);
    var delta := if Eats(GetAttendance(rows, d), meal) then -1 else 1;
    assert after.totalLunches + after.totalDinners == before.totalLunches + before.totalDinners + delta by {
      assert meal == Lunch || meal == Dinner;
    }
    SpendingShift(before.totalLunches, before.totalDinners, after.totalLunches, after.totalDinners, delta, mealPrice);
  }

  lemma SpendingShift(lunches: int, dinners: int, lunches': int, dinners': int, delta: int, price: int)
    requires lunches' + dinners' == lunches + dinners + delta
    ensures lunches' * price + dinners' * price == lunches * price + dinners * price + delta * price
  {
    calc {
      lunches' * price + dinners' * price;
      (lunches' + dinners') * price;
      (lunches + dinners + delta) * price;
      lunches * price + dinners * price + delta * price;
    }
  }

  /**
   * The local branch of `updateMonthlyAdvance`: the new advance, the kept
   * carried amount and amount spent (a missing row reads as 0), and the two
   * derived fields recomputed from them.
   */
  function ApplyAdvance(prev: Option<LedgerRow>, amount: int): (r: LedgerRow)
    ensures r.advanceGiven == amount
    ensures r.carriedFromPrevious == CarriedOf(prev) && r.totalSpent == SpentOf(prev)
    ensures Balanced(r)
  {
    var carried := CarriedOf(prev);
    var spent := SpentOf(prev);
    LedgerRow(
      advanceGiven := amount,
      carriedFromPrevious := carried,
      effectiveAdvance := amount + carried,
      totalSpent := spent,
      remainingBalance := amount + carried - spent)
  }

  /**
   * The new advance reaches the summary with the carried amount unchanged;
   * the row's own stored balance agrees with the summary's remaining amount
   * exactly when its stored amount spent equals the recomputed one.
   */
  lemma AdvanceReachesSummary(rows: seq<DayAttendance>, ym: YearMonth, prev: Option<LedgerRow>, amount: int, mealPrice: int)
    requires ValidYearMonth(ym)
    ensures var row := ApplyAdvance(prev, amount);
      var s := Summarize(rows, ym, Some(row), mealPrice);
      && s.advanceGiven == amount
      && s.carriedFromPrevious == CarriedOf(prev)
      && s.effectiveAdvance == amount + CarriedOf(prev)
      && (row.remainingBalance == s.remaining <==> SpentOf(prev) == s.totalSpent)
  {
  }
}
