/**
 * The state of the account-backed hook when no account is signed in (or a
 * remote call failed): the displayed month, the meal price, the month's
 * ledger row and the month's sparse attendance records, updated in place by
 * the toggles, the advance update and the reset; and the local save and load
 * of that state.
 */
module MessHook {
  import opened Wrappers
  import opened Dates
  import opened MessTypes
  import opened Attendance
  import opened MonthLedger

  const DefaultMealPrice := 50

  /** What the local save writes: the price, every month's records, and ledger rows by month. */
  datatype StoredData = StoredData(
    mealPrice: Option<int>,
    dailyMeals: seq<DayAttendance>,
    monthlyDataMap: map<YearMonth, LedgerRow>)

  /** The local save: merge the displayed month's records and ledger row into what was stored. */
  function Save(stored: StoredData, mealPrice: int, dailyMeals: seq<DayAttendance>,
                monthlyData: Option<LedgerRow>, ym: YearMonth): (r: StoredData)
    ensures r.mealPrice == Some(mealPrice)
    ensures forall x :: x in r.dailyMeals <==> (x in stored.dailyMeals && !InMonth(x.date, ym)) || x in dailyMeals
    ensures forall k :: k in r.monthlyDataMap <==> k in stored.monthlyDataMap || (k == ym && monthlyData.Some?)
    ensures forall k :: k in stored.monthlyDataMap && k != ym ==> r.monthlyDataMap[k] == stored.monthlyDataMap[k]
    ensures monthlyData.Some? ==> r.monthlyDataMap[ym] == monthlyData.value
  {
    StoredData(
      Some(mealPrice),
      MergeMonth(stored.dailyMeals, dailyMeals, ym),
      if monthlyData.Some? then stored.monthlyDataMap[ym := monthlyData.value] else stored.monthlyDataMap)
  }

  /** The price the local load reads: `data.mealPrice || 50`. */
  function LoadedPrice(stored: StoredData): (p: int)
    ensures p != 0
    ensures stored.mealPrice.None? || stored.mealPrice.value == 0 ==> p == DefaultMealPrice
    ensures stored.mealPrice.Some? && stored.mealPrice.value != 0 ==> p == stored.mealPrice.value
  {
    NumberOr(stored.mealPrice, DefaultMealPrice)
  }

  /** The ledger row the local load reads: `monthlyDataMap[monthKey] || null`. */
  function LoadedLedger(stored: StoredData, ym: YearMonth): (r: Option<LedgerRow>)
    ensures r.None? <==> ym !in stored.monthlyDataMap
    ensures r.Some? ==> r.value == stored.monthlyDataMap[ym]
  {
    if ym in stored.monthlyDataMap then Some(stored.monthlyDataMap[ym]) else None
  }

  /**
   * Saving and then loading the same month gives back its in-memory records
   * of that month and its ledger row (an absent row leaves the stored one in
   * place), and the price, except that a price of 0 comes back as 50. Every
   * other month's rows are as stored before; its records are as stored
   * before followed by any in-memory record of that month, and exactly as
   * stored before when every in-memory record lies in the saved month.
   */
  lemma {:induction false} SaveThenLoad(stored: StoredData, mealPrice: int, dailyMeals: seq<DayAttendance>,
                                        monthlyData: Option<LedgerRow>, ym: YearMonth, other: YearMonth)
    requires other != ym
    ensures var saved := Save(stored, mealPrice, dailyMeals, monthlyData, ym);
      && LoadedPrice(saved) == (if mealPrice == 0 then DefaultMealPrice else mealPrice)
      && MonthRows(saved.dailyMeals, ym) == MonthRows(dailyMeals, ym)
      && LoadedLedger(saved, ym) == (if monthlyData.Some? then monthlyData else LoadedLedger(stored, ym))
      && MonthRows(saved.dailyMeals, other) == MonthRows(stored.dailyMeals, other) + MonthRows(dailyMeals, other)
      && LoadedLedger(saved, other) == LoadedLedger(stored, other)
    ensures (forall x :: x in dailyMeals ==> InMonth(x.date, ym)) ==>
      var saved := Save(stored, mealPrice, dailyMeals, monthlyData, ym);
      && MonthRows(saved.dailyMeals, ym) == dailyMeals
      && MonthRows(saved.dailyMeals, other) == MonthRows(stored.dailyMeals, other)
  {
    MergeThenLoad(stored.dailyMeals, dailyMeals, ym, ym);
    MergeThenLoad(stored.dailyMeals, dailyMeals, ym, other);
  }

  /**
   * What the local save starts from once the stored entry has been removed:
   * no price, no records, no ledger rows.
   */
  const EmptyStore := StoredData(None, [], map[])

  /**
   * After a reset the save writes over the emptied store, so every month
   * loads with no records and no ledger row, at price 50.
   */
  lemma ResetErasesEveryMonth(ym: YearMonth, other: YearMonth)
    ensures var saved := Save(EmptyStore, DefaultMealPrice, [], None, ym);
      && saved == StoredData(Some(DefaultMealPrice), [], map[])
      && LoadedPrice(saved) == DefaultMealPrice
      && MonthRows(saved.dailyMeals, other) == []
      && LoadedLedger(saved, other) == None
  {
    var saved := Save(EmptyStore, DefaultMealPrice, [], None, ym);
    assert saved.dailyMeals == [];
  }

  class MessStore {
    var current: YearMonth
    var mealPrice: int
    var monthlyData: Option<LedgerRow>
    var dailyMeals: seq<DayAttendance>

    /** The displayed month is a real month; records may repeat a date, as loaded data can. */
    ghost predicate Valid()
      reads this
    {
      ValidYearMonth(current)
    }

    /** The initial state: this month, price 50, nothing stored. */
    constructor (today: YearMonth)
      requires ValidYearMonth(today)
      ensures Valid() && UniqueDates(dailyMeals)
      ensures current == today && mealPrice == DefaultMealPrice
      ensures monthlyData == None && dailyMeals == []
    {
      current := today;
      mealPrice := DefaultMealPrice;
      monthlyData := None;
      dailyMeals := [];
    }

    /** `getAttendance` on the current records. */
    function AttendanceOn(d: Date): DayAttendance
      reads this
    {
      GetAttendance(dailyMeals, d)
    }

    /**
     * `currentMonthSummary`: it meets the documented identities, and when the
     * records are distinct valid days of the displayed month its four day
     * counts partition the month.
     */
    function CurrentMonthSummary(): (s: MonthSummary)
      reads this
      requires Valid()
      ensures Reconciled(s) && SummaryMonthValid(s)
      ensures s.year == current.year && s.month == current.month
      ensures WellFormed(dailyMeals, current) ==> DaysPartitioned(s)
    {
      var s := Summarize(dailyMeals, current, monthlyData, mealPrice);
      assert WellFormed(dailyMeals, current) ==> DaysPartitioned(s) by {
        if WellFormed(dailyMeals, current) {
          SummaryMatchesCalendar(dailyMeals, current, monthlyData, mealPrice);
        }
      }
      s
    }

    /** Local `toggleLunch`: rebuild the list without `d`, then push the new record if a meal is absent. */
    method ToggleLunch(d: Date)
      requires Valid()
      modifies this`dailyMeals
      ensures Valid()
      ensures dailyMeals == Toggle(old(dailyMeals), d, Lunch)
      ensures AttendanceOn(d).isLunchPresent == !old(AttendanceOn(d)).isLunchPresent
      ensures AttendanceOn(d).isDinnerPresent == old(AttendanceOn(d)).isDinnerPresent
      ensures forall x :: x != d ==> AttendanceOn(x) == old(AttendanceOn(x))
      ensures UniqueDates(old(dailyMeals)) ==> UniqueDates(dailyMeals)
      ensures Sparse(old(dailyMeals)) ==> Sparse(dailyMeals)
      ensures WellFormed(old(dailyMeals), current) && InMonth(d, current) && ValidDate(d) ==>
        var delta := if old(AttendanceOn(d)).isLunchPresent then -1 else 1;
        && WellFormed(dailyMeals, current)
        && CurrentMonthSummary().totalLunches == old(CurrentMonthSummary()).totalLunches + delta
        && CurrentMonthSummary().totalDinners == old(CurrentMonthSummary()).totalDinners
        && CurrentMonthSummary().remaining == old(CurrentMonthSummary()).remaining - delta * mealPrice
    {
      ghost var before := dailyMeals;
      var currentDay := GetAttendance(dailyMeals, d);
      var newValue := !currentDay.isLunchPresent;
      var updated := RemoveDate(dailyMeals, d);
      if !newValue || !currentDay.isDinnerPresent {
        updated := updated + [DayAttendance(d, newValue, currentDay.isDinnerPresent)];
      }
      dailyMeals := updated;
      assert dailyMeals == Toggle(before, d, Lunch);
      ToggleKeepsInvariants(before, d, Lunch);
      ToggleFlipsOneMeal(before, d, Lunch, d);
      forall x | x != d ensures GetAttendance(dailyMeals, x) == GetAttendance(before, x) {
        ToggleFlipsOneMeal(before, d, Lunch, x);
      }
      if WellFormed(before, current) && InMonth(d, current) && ValidDate(d) {
        ToggleKeepsWellFormed(before, current, d, Lunch);
        ToggleMovesTotals(before, current, d, Lunch, monthlyData, mealPrice);
      }
    }

    /** Local `toggleDinner`, symmetric to ToggleLunch. */
    method ToggleDinner(d: Date)
      requires Valid()
      modifies this`dailyMeals
      ensures Valid()
      ensures dailyMeals == Toggle(old(dailyMeals), d, Dinner)
      ensures AttendanceOn(d).isDinnerPresent == !old(AttendanceOn(d)).isDinnerPresent
      ensures AttendanceOn(d).isLunchPresent == old(AttendanceOn(d)).isLunchPresent
      ensures forall x :: x != d ==> AttendanceOn(x) == old(AttendanceOn(x))
      ensures UniqueDates(old(dailyMeals)) ==> UniqueDates(dailyMeals)
      ensures Sparse(old(dailyMeals)) ==> Sparse(dailyMeals)
      ensures WellFormed(old(dailyMeals), current) && InMonth(d, current) && ValidDate(d) ==>
        var delta := if old(AttendanceOn(d)).isDinnerPresent then -1 else 1;
        && WellFormed(dailyMeals, current)
        && CurrentMonthSummary().totalDinners == old(CurrentMonthSummary()).totalDinners + delta
        && CurrentMonthSummary().totalLunches == old(CurrentMonthSummary()).totalLunches
        && CurrentMonthSummary().remaining == old(CurrentMonthSummary()).remaining - delta * mealPrice
    {
      ghost var before := dailyMeals;
      var currentDay := GetAttendance(dailyMeals, d);
      var newValue := !currentDay.isDinnerPresent;
      var updated := RemoveDate(dailyMeals, d);
      if !currentDay.isLunchPresent || !newValue {
        updated := updated + [DayAttendance(d, currentDay.isLunchPresent, newValue)];
      }
      dailyMeals := updated;
      assert dailyMeals == Toggle(before, d, Dinner);
      ToggleKeepsInvariants(before, d, Dinner);
      ToggleFlipsOneMeal(before, d, Dinner, d);
      forall x | x != d ensures GetAttendance(dailyMeals, x) == GetAttendance(before, x) {
        ToggleFlipsOneMeal(before, d, Dinner, x);
      }
      if WellFormed(before, current) && InMonth(d, current) && ValidDate(d) {
        ToggleKeepsWellFormed(before, current, d, Dinner);
        ToggleMovesTotals(before, current, d, Dinner, monthlyData, mealPrice);
      }
    }

    /**
     * Local `updateMonthlyAdvance`: the row of the displayed month gets the
     * new advance; the month and year arguments are not consulted.
     */
    method UpdateMonthlyAdvance(month: int, year: int, amount: int)
      requires Valid()
      modifies this`monthlyData
      ensures Valid()
      ensures monthlyData == Some(ApplyAdvance(old(monthlyData), amount))
      ensures Balanced(monthlyData.value) && monthlyData.value.advanceGiven == amount
      ensures monthlyData.value.carriedFromPrevious == CarriedOf(old(monthlyData))
      ensures monthlyData.value.totalSpent == SpentOf(old(monthlyData))
    {
      monthlyData := Some(ApplyAdvance(monthlyData, amount));
    }

    /**
     * `resetData`: no records, no ledger row, price 50; the displayed month
     * stays. The stored entry is removed, so the store it returns is empty,
     * and the next save over it keeps nothing of any month.
     */
    method ResetData() returns (storage: StoredData)
      requires Valid()
      modifies this`dailyMeals, this`monthlyData, this`mealPrice
      ensures Valid()
      ensures dailyMeals == [] && monthlyData == None && mealPrice == DefaultMealPrice
      ensures storage == EmptyStore
      ensures Saved(storage) == StoredData(Some(DefaultMealPrice), [], map[])
    {
      dailyMeals := [];
      monthlyData := None;
      mealPrice := DefaultMealPrice;
      storage := EmptyStore;
      ResetErasesEveryMonth(current, current);
    }

    /**
     * The local save of the current state into what was stored before: a
     * later load of the displayed month sees its records and its ledger row.
     */
    function Saved(stored: StoredData): (r: StoredData)
      reads this
      ensures r.mealPrice == Some(mealPrice)
      ensures MonthRows(r.dailyMeals, current) == MonthRows(dailyMeals, current)
      ensures LoadedLedger(r, current) == if monthlyData.Some? then monthlyData else LoadedLedger(stored, current)
    {
      MonthRowsAppend(OtherMonthRows(stored.dailyMeals, current), dailyMeals, current);
      MonthRowsOfOtherMonths(stored.dailyMeals, current, current);
      Save(stored, mealPrice, dailyMeals, monthlyData, current)
    }

    /** The local load of the displayed month. */
    method LoadLocal(stored: StoredData)
      requires Valid()
      modifies this`dailyMeals, this`monthlyData, this`mealPrice
      ensures Valid()
      ensures mealPrice == LoadedPrice(stored)
      ensures dailyMeals == MonthRows(stored.dailyMeals, current)
      ensures monthlyData == LoadedLedger(stored, current)
      ensures UniqueDates(stored.dailyMeals) ==> UniqueDates(dailyMeals)
      ensures UniqueDates(stored.dailyMeals) && (forall x :: x in stored.dailyMeals ==> ValidDate(x.date)) ==>
        WellFormed(dailyMeals, current)
    {
      mealPrice := LoadedPrice(stored);
      dailyMeals := MonthRows(stored.dailyMeals, current);
      monthlyData := LoadedLedger(stored, current);
      if UniqueDates(stored.dailyMeals) {
        UniqueMonthRows(stored.dailyMeals, current);
      }
    }
  }

  lemma {:induction false} UniqueMonthRows(rows: seq<DayAttendance>, ym: YearMonth)
    requires UniqueDates(rows)
    ensures UniqueDates(MonthRows(rows, ym))
  {
    if rows != [] {
      var rest := MonthRows(rows[1..], ym);
      UniqueMonthRows(rows[1..], ym);
      if InMonth(rows[0].date, ym) {
        assert MonthRows(rows, ym) == [rows[0]] + rest;
        assert ([rows[0]] + rest)[0] == rows[0] && ([rows[0]] + rest)[1..] == rest;
        assert forall x :: x in rest ==> x in rows[1..];
      } else {
        assert MonthRows(rows, ym) == rest;
      }
    }
  }
}
