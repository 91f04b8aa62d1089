/**
 * The sparse per-meal attendance list of the account-backed revision of the
 * app: a list of day records in which a day without a record counts as
 * present for both meals, read with `getAttendance` and rewritten by the
 * local branches of `toggleLunch` / `toggleDinner`; and the per-month filter
 * and merge that the local save and load use.
 */
module Attendance {
  import opened Wrappers
  import opened Dates
  import opened MessTypes

  datatype Meal = Lunch | Dinner

  function Eats(a: DayAttendance, meal: Meal): bool {
    match meal
    case Lunch => a.isLunchPresent
    case Dinner => a.isDinnerPresent
  }

  function OtherMeal(meal: Meal): Meal {
    match meal
    case Lunch => Dinner
    case Dinner => Lunch
  }

  /** The record reported for a day without a stored record. */
  function DefaultAttendance(d: Date): DayAttendance {
    DayAttendance(d, true, true)
  }

  /** No two records are for the same date. */
  predicate UniqueDates(rows: seq<DayAttendance>)
    decreases |rows|
  {
    |rows| == 0 ||
    ((forall x :: x in rows[1..] ==> x.date != rows[0].date) && UniqueDates(rows[1..]))
  }

  /** Every stored record has at least one absent meal. */
  predicate Sparse(rows: seq<DayAttendance>) {
    forall x :: x in rows ==> !x.isLunchPresent || !x.isDinnerPresent
  }

  /** The first record for date `d`, as `rows.find(m => m.date === d)`. */
  function Find(rows: seq<DayAttendance>, d: Date): (r: Option<DayAttendance>)
    ensures r.None? <==> forall x :: x in rows ==> x.date != d
    ensures r.Some? ==> r.value in rows && r.value.date == d
  {
    if rows == [] then None
    else if rows[0].date == d then Some(rows[0])
    else Find(rows[1..], d)
  }

  /** The record `find` returns is the first one for the date: no earlier record has it. */
  lemma {:induction false} FindIsFirst(rows: seq<DayAttendance>, d: Date)
    ensures Find(rows, d).Some? ==>
      exists i :: 0 <= i < |rows| && rows[i] == Find(rows, d).value && forall j :: 0 <= j < i ==> rows[j].date != d
  {
    if rows != [] && rows[0].date != d && Find(rows, d).Some? {
      FindIsFirst(rows[1..], d);
      var r := Find(rows[1..], d);
      var i :| 0 <= i < |rows[1..]| && rows[1..][i] == r.value && forall j :: 0 <= j < i ==> rows[1..][j].date != d;
      forall j | 0 < j < i + 1 ensures rows[j].date != d {
        assert rows[j] == rows[1..][j - 1];
      }
      assert rows[i + 1] == r.value;
    } else if rows != [] && rows[0].date == d {
      assert rows[0] == Find(rows, d).value;
    }
  }

  /**
   * `getAttendance`: the stored record for `d`, or present for both meals
   * when there is none.
   */
  function GetAttendance(rows: seq<DayAttendance>, d: Date): (a: DayAttendance)
    ensures a.date == d
    ensures (forall x :: x in rows ==> x.date != d) ==> a == DefaultAttendance(d)
    ensures forall x :: x in rows && x.date == d && UniqueDates(rows) ==> a == x
  {
    match Find(rows, d)
    case Some(r) => UniqueFind(rows, d); r
    case None => DefaultAttendance(d)
  }

  /**
   * With or without duplicate dates, `getAttendance` reports the first
   * record for the date, as `find` does.
   */
  lemma {:induction false} GetAttendanceIsFirstRecord(rows: seq<DayAttendance>, d: Date, i: int)
    requires 0 <= i < |rows| && rows[i].date == d
    requires forall j :: 0 <= j < i ==> rows[j].date != d
    ensures GetAttendance(rows, d) == rows[i]
  {
    if i > 0 {
      assert rows[1..][i - 1] == rows[i];
      forall j | 0 <= j < i - 1 ensures rows[1..][j].date != d {
        assert rows[1..][j] == rows[j + 1];
      }
      GetAttendanceIsFirstRecord(rows[1..], d, i - 1);
    }
  }

  /** In a list with unique dates, the record found for a date is the only one. */
  lemma {:induction false} UniqueFind(rows: seq<DayAttendance>, d: Date)
    ensures UniqueDates(rows) && Find(rows, d).Some? ==>
      forall x :: x in rows && x.date == d ==> x == Find(rows, d).value
  {
    if rows != [] && UniqueDates(rows) && Find(rows, d).Some? {
      if rows[0].date != d {
        UniqueFind(rows[1..], d);
        forall x | x in rows && x.date == d ensures x == Find(rows, d).value {
          assert x in rows[1..];
        }
      }
    }
  }

  /** `rows.filter(m => m.date !== d)`. */
  function RemoveDate(rows: seq<DayAttendance>, d: Date): (r: seq<DayAttendance>)
    ensures forall x :: x in r <==> x in rows && x.date != d
    ensures |r| <= |rows|
  {
    if rows == [] then []
    else (if rows[0].date != d then [rows[0]] else []) + RemoveDate(rows[1..], d)
  }

  /** The records for date `x`, in list order. */
  function RowsFor(rows: seq<DayAttendance>, x: Date): seq<DayAttendance> {
    if rows == [] then []
    else (if rows[0].date == x then [rows[0]] else []) + RowsFor(rows[1..], x)
  }

  /**
   * The update both local toggles perform: drop every record for `d`, then
   * store the new record only when some meal is absent.
   */
  function Put(rows: seq<DayAttendance>, d: Date, lunch: bool, dinner: bool): (r: seq<DayAttendance>)
    ensures forall x :: x in r <==> (x in rows && x.date != d) || (x == DayAttendance(d, lunch, dinner) && (!lunch || !dinner))
  {
    RemoveDate(rows, d) + (if !lunch || !dinner then [DayAttendance(d, lunch, dinner)] else [])
  }

  /** The local branch of `toggleLunch` (Lunch) or `toggleDinner` (Dinner). */
  function Toggle(rows: seq<DayAttendance>, d: Date, meal: Meal): (r: seq<DayAttendance>)
    ensures forall x: DayAttendance :: x.date != d ==> (x in r <==> x in rows)
    ensures forall x :: x in r && x.date == d ==> !x.isLunchPresent || !x.isDinnerPresent
  {
    var current := GetAttendance(rows, d);
    match meal
    case Lunch => Put(rows, d, !current.isLunchPresent, current.isDinnerPresent)
    case Dinner => Put(rows, d, current.isLunchPresent, !current.isDinnerPresent)
  }

  lemma {:induction false} FindAppend(s: seq<DayAttendance>, r: DayAttendance, x: Date)
    ensures Find(s + [r], x) == if Find(s, x).Some? then Find(s, x) else if r.date == x then Some(r) else None
  {
    if s != [] {
      assert (s + [r])[1..] == s[1..] + [r];
      FindAppend(s[1..], r, x);
    }
  }

  lemma {:induction false} FindRemoveDate(rows: seq<DayAttendance>, d: Date, x: Date)
    requires x != d
    ensures Find(RemoveDate(rows, d), x) == Find(rows, x)
  {
    if rows != [] {
      var rest := RemoveDate(rows[1..], d);
      FindRemoveDate(rows[1..], d, x);
      if rows[0].date != d {
        assert RemoveDate(rows, d) == [rows[0]] + rest;
        assert ([rows[0]] + rest)[1..] == rest;
      } else {
        assert RemoveDate(rows, d) == rest;
      }
    }
  }

  lemma {:induction false} RowsForAppend(s: seq<DayAttendance>, t: seq<DayAttendance>, x: Date)
    ensures RowsFor(s + t, x) == RowsFor(s, x) + RowsFor(t, x)
  {
    if s == [] {
      assert s + t == t;
    } else {
      var head := if s[0].date == x then [s[0]] else [];
      assert (s + t)[0] == s[0] && (s + t)[1..] == s[1..] + t;
      RowsForAppend(s[1..], t, x);
      assert RowsFor(s + t, x) == head + (RowsFor(s[1..], x) + RowsFor(t, x));
    }
  }

  lemma {:induction false} RowsForRemoveDate(rows: seq<DayAttendance>, d: Date, x: Date)
    ensures RowsFor(RemoveDate(rows, d), x) == if x == d then [] else RowsFor(rows, x)
  {
    if rows != [] {
      RowsForRemoveDate(rows[1..], d, x);
      var head := if rows[0].date != d then [rows[0]] else [];
      RowsForAppend(head, RemoveDate(rows[1..], d), x);
    }
  }

  lemma {:induction false} UniqueAppend(s: seq<DayAttendance>, r: DayAttendance)
    requires UniqueDates(s)
    requires forall x :: x in s ==> x.date != r.date
    ensures UniqueDates(s + [r])
  {
    if s != [] {
      assert (s + [r])[1..] == s[1..] + [r];
      UniqueAppend(s[1..], r);
    }
  }

  lemma {:induction false} UniqueRemoveDate(rows: seq<DayAttendance>, d: Date)
    requires UniqueDates(rows)
    ensures UniqueDates(RemoveDate(rows, d))
  {
    if rows != [] {
      var rest := RemoveDate(rows[1..], d);
      UniqueRemoveDate(rows[1..], d);
      if rows[0].date != d {
        assert RemoveDate(rows, d) == [rows[0]] + rest;
        assert ([rows[0]] + rest)[0] == rows[0] && ([rows[0]] + rest)[1..] == rest;
        assert forall x :: x in rest ==> x in rows[1..];
      } else {
        assert RemoveDate(rows, d) == rest;
      }
    }
  }

  /** What `getAttendance` reports after a store: the new flags at `d`, nothing else changed. */
  lemma {:induction false} PutAttendance(rows: seq<DayAttendance>, d: Date, lunch: bool, dinner: bool, x: Date)
    ensures GetAttendance(Put(rows, d, lunch, dinner), x)
         == if x == d then DayAttendance(d, lunch, dinner) else GetAttendance(rows, x)
  {
    var kept := RemoveDate(rows, d);
    if !lunch || !dinner {
      FindAppend(kept, DayAttendance(d, lunch, dinner), x);
    } else {
      assert Put(rows, d, lunch, dinner) == kept;
    }
    if x != d {
      FindRemoveDate(rows, d, x);
    }
  }

  /** A store leaves the records of every other date as they were and keeps at most one for `d`. */
  lemma {:induction false} PutRows(rows: seq<DayAttendance>, d: Date, lunch: bool, dinner: bool, x: Date)
    ensures RowsFor(Put(rows, d, lunch, dinner), x)
         == if x != d then RowsFor(rows, x)
            else if lunch && dinner then [] else [DayAttendance(d, lunch, dinner)]
  {
    var tail := if !lunch || !dinner then [DayAttendance(d, lunch, dinner)] else [];
    RowsForAppend(RemoveDate(rows, d), tail, x);
    RowsForRemoveDate(rows, d, x);
    if tail != [] {
      assert RowsFor(tail, x) == (if tail[0].date == x then [tail[0]] else []) + RowsFor([], x);
    }
  }

  /**
   * A local toggle flips the toggled meal reported for `d`, keeps the other
   * meal, and changes nothing reported for any other date.
   */
  lemma {:induction false} ToggleFlipsOneMeal(rows: seq<DayAttendance>, d: Date, meal: Meal, x: Date)
    ensures Eats(GetAttendance(Toggle(rows, d, meal), d), meal) == !Eats(GetAttendance(rows, d), meal)
    ensures Eats(GetAttendance(Toggle(rows, d, meal), d), OtherMeal(meal))
         == Eats(GetAttendance(rows, d), OtherMeal(meal))
    ensures x != d ==> GetAttendance(Toggle(rows, d, meal), x) == GetAttendance(rows, x)
  {
    var c := GetAttendance(rows, d);
    var lunch := if meal == Lunch then !c.isLunchPresent else c.isLunchPresent;
    var dinner := if meal == Dinner then !c.isDinnerPresent else c.isDinnerPresent;
    assert Toggle(rows, d, meal) == Put(rows, d, lunch, dinner);
    PutAttendance(rows, d, lunch, dinner, d);
    PutAttendance(rows, d, lunch, dinner, x);
  }

  /**
   * After a local toggle the list holds at most one record for `d`, none
   * exactly when both meals are then present, and the same records as
   * before for every other date.
   */
  lemma {:induction false} ToggleStorage(rows: seq<DayAttendance>, d: Date, meal: Meal, x: Date)
    ensures |RowsFor(Toggle(rows, d, meal), d)| <= 1
    ensures RowsFor(Toggle(rows, d, meal), d) == [] <==>
      GetAttendance(Toggle(rows, d, meal), d) == DefaultAttendance(d)
    ensures x != d ==> RowsFor(Toggle(rows, d, meal), x) == RowsFor(rows, x)
  {
    var c := GetAttendance(rows, d);
    var lunch := if meal == Lunch then !c.isLunchPresent else c.isLunchPresent;
    var dinner := if meal == Dinner then !c.isDinnerPresent else c.isDinnerPresent;
    assert Toggle(rows, d, meal) == Put(rows, d, lunch, dinner);
    PutRows(rows, d, lunch, dinner, d);
    PutRows(rows, d, lunch, dinner, x);
    PutAttendance(rows, d, lunch, dinner, d);
  }

  /** Toggling the same meal of the same day twice restores every reported attendance. */
  lemma {:induction false} ToggleTwice(rows: seq<DayAttendance>, d: Date, meal: Meal, x: Date)
    ensures GetAttendance(Toggle(Toggle(rows, d, meal), d, meal), x) == GetAttendance(rows, x)
  {
    var once := Toggle(rows, d, meal);
    ToggleFlipsOneMeal(rows, d, meal, x);
    ToggleFlipsOneMeal(once, d, meal, x);
    if x == d {
      ToggleFlipsOneMeal(rows, d, meal, d);
      ToggleFlipsOneMeal(once, d, meal, d);
      assert meal == Lunch || meal == Dinner;
    }
  }

  /** Local toggles keep dates unique and keep the storage sparse. */
  lemma {:induction false} ToggleKeepsInvariants(rows: seq<DayAttendance>, d: Date, meal: Meal)
    ensures UniqueDates(rows) ==> UniqueDates(Toggle(rows, d, meal))
    ensures Sparse(rows) ==> Sparse(Toggle(rows, d, meal))
  {
    var c := GetAttendance(rows, d);
    var lunch := if meal == Lunch then !c.isLunchPresent else c.isLunchPresent;
    var dinner := if meal == Dinner then !c.isDinnerPresent else c.isDinnerPresent;
    assert Toggle(rows, d, meal) == Put(rows, d, lunch, dinner);
    if UniqueDates(rows) {
      UniqueRemoveDate(rows, d);
      if !lunch || !dinner {
        var kept := RemoveDate(rows, d);
        assert forall x :: x in kept ==> x.date != d;
        UniqueAppend(kept, DayAttendance(d, lunch, dinner));
        assert Put(rows, d, lunch, dinner) == kept + [DayAttendance(d, lunch, dinner)];
      } else {
        assert Put(rows, d, lunch, dinner) == RemoveDate(rows, d);
      }
    }
  }

  /** The records dated in month `ym` (the local load's filter). */
  function MonthRows(rows: seq<DayAttendance>, ym: YearMonth): (r: seq<DayAttendance>)
    ensures forall x :: x in r <==> x in rows && InMonth(x.date, ym)
  {
    if rows == [] then []
    else (if InMonth(rows[0].date, ym) then [rows[0]] else []) + MonthRows(rows[1..], ym)
  }

  /** The records dated outside month `ym` (the local save's filter). */
  function OtherMonthRows(rows: seq<DayAttendance>, ym: YearMonth): (r: seq<DayAttendance>)
    ensures forall x :: x in r <==> x in rows && !InMonth(x.date, ym)
  {
    if rows == [] then []
    else (if !InMonth(rows[0].date, ym) then [rows[0]] else []) + OtherMonthRows(rows[1..], ym)
  }

  /** The local save: records of other months as stored, then the displayed month's records. */
  function MergeMonth(stored: seq<DayAttendance>, current: seq<DayAttendance>, ym: YearMonth): (r: seq<DayAttendance>)
    ensures forall x :: x in r <==> (x in stored && !InMonth(x.date, ym)) || x in current
  {
    OtherMonthRows(stored, ym) + current
  }

  lemma {:induction false} MonthRowsAppend(s: seq<DayAttendance>, t: seq<DayAttendance>, ym: YearMonth)
    ensures MonthRows(s + t, ym) == MonthRows(s, ym) + MonthRows(t, ym)
  {
    if s == [] {
      assert s + t == t;
    } else {
      var head := if InMonth(s[0].date, ym) then [s[0]] else [];
      assert (s + t)[0] == s[0] && (s + t)[1..] == s[1..] + t;
      MonthRowsAppend(s[1..], t, ym);
      assert MonthRows(s + t, ym) == head + (MonthRows(s[1..], ym) + MonthRows(t, ym));
    }
  }

  lemma {:induction false} MonthRowsOfOtherMonths(rows: seq<DayAttendance>, ym: YearMonth, ym2: YearMonth)
    ensures MonthRows(OtherMonthRows(rows, ym), ym2) == if ym2 == ym then [] else MonthRows(rows, ym2)
  {
    if rows != [] {
      MonthRowsOfOtherMonths(rows[1..], ym, ym2);
      var head := if !InMonth(rows[0].date, ym) then [rows[0]] else [];
      MonthRowsAppend(head, OtherMonthRows(rows[1..], ym), ym2);
    }
  }

  lemma {:induction false} MonthRowsWithin(rows: seq<DayAttendance>, ym: YearMonth, ym2: YearMonth)
    requires forall x :: x in rows ==> InMonth(x.date, ym)
    ensures MonthRows(rows, ym2) == if ym2 == ym then rows else []
  {
    if rows != [] {
      MonthRowsWithin(rows[1..], ym, ym2);
    }
  }

  /**
   * Loading a month after a save gives the in-memory records of that month
   * when it is the saved month, and otherwise what was stored for it followed
   * by whatever in-memory records fall in it (the save does not filter them).
   * When every in-memory record lies in the saved month, the saved month loads
   * exactly those records and every other month exactly what was stored.
   */
  lemma {:induction false} MergeThenLoad(stored: seq<DayAttendance>, current: seq<DayAttendance>, ym: YearMonth, ym2: YearMonth)
    ensures MonthRows(MergeMonth(stored, current, ym), ym2)
         == if ym2 == ym then MonthRows(current, ym) else MonthRows(stored, ym2) + MonthRows(current, ym2)
    ensures (forall x :: x in current ==> InMonth(x.date, ym)) ==>
      MonthRows(MergeMonth(stored, current, ym), ym2) == if ym2 == ym then current else MonthRows(stored, ym2)
  {
    MonthRowsAppend(OtherMonthRows(stored, ym), current, ym2);
    MonthRowsOfOtherMonths(stored, ym, ym2);
    if forall x :: x in current ==> InMonth(x.date, ym) {
      MonthRowsWithin(current, ym, ym2);
      assert MonthRows(stored, ym2) + [] == MonthRows(stored, ym2);
    }
  }

  lemma {:induction false} OtherMonthRowsTwice(rows: seq<DayAttendance>, ym: YearMonth)
    ensures OtherMonthRows(OtherMonthRows(rows, ym), ym) == OtherMonthRows(rows, ym)
  {
    if rows != [] {
      var rest := OtherMonthRows(rows[1..], ym);
      OtherMonthRowsTwice(rows[1..], ym);
      if !InMonth(rows[0].date, ym) {
        assert OtherMonthRows(rows, ym) == [rows[0]] + rest;
        assert ([rows[0]] + rest)[0] == rows[0] && ([rows[0]] + rest)[1..] == rest;
      } else {
        assert OtherMonthRows(rows, ym) == rest;
      }
    }
  }

  lemma {:induction false} OtherMonthRowsAppend(s: seq<DayAttendance>, t: seq<DayAttendance>, ym: YearMonth)
    ensures OtherMonthRows(s + t, ym) == OtherMonthRows(s, ym) + OtherMonthRows(t, ym)
  {
    if s == [] {
      assert s + t == t;
    } else {
      var head := if !InMonth(s[0].date, ym) then [s[0]] else [];
      var a, b := OtherMonthRows(s[1..], ym), OtherMonthRows(t, ym);
      OtherMonthRowsUnfold(s, t, ym);
      OtherMonthRowsAppend(s[1..], t, ym);
      assert head + (a + b) == (head + a) + b;
    }
  }

  lemma OtherMonthRowsUnfold(s: seq<DayAttendance>, t: seq<DayAttendance>, ym: YearMonth)
    requires s != []
    ensures OtherMonthRows(s + t, ym)
         == (if !InMonth(s[0].date, ym) then [s[0]] else []) + OtherMonthRows(s[1..] + t, ym)
  {
    assert (s + t)[0] == s[0] && (s + t)[1..] == s[1..] + t;
  }

  lemma {:induction false} OtherMonthRowsWithin(rows: seq<DayAttendance>, ym: YearMonth)
    requires forall x :: x in rows ==> InMonth(x.date, ym)
    ensures OtherMonthRows(rows, ym) == []
  {
    if rows != [] {
      OtherMonthRowsWithin(rows[1..], ym);
    }
  }

  /**
   * Saving the same month twice stores the same list as saving it once
   * exactly when every in-memory record lies in that month; a record of
   * another month is stored once more by every save.
   */
  lemma {:induction false} MergeIdempotent(stored: seq<DayAttendance>, current: seq<DayAttendance>, ym: YearMonth)
    ensures MergeMonth(MergeMonth(stored, current, ym), current, ym) == MergeMonth(stored, current, ym)
        <==> forall x :: x in current ==> InMonth(x.date, ym)
  {
    var kept, strays := OtherMonthRows(stored, ym), OtherMonthRows(current, ym);
    SavedOtherMonths(stored, current, ym);
    assert MergeMonth(MergeMonth(stored, current, ym), current, ym) == kept + strays + current;
    assert |kept + strays + current| == |kept + current| + |strays|;
    if forall x :: x in current ==> InMonth(x.date, ym) {
      OtherMonthRowsWithin(current, ym);
      assert kept + strays == kept;
    } else {
      var x :| x in current && !InMonth(x.date, ym);
      assert x in strays;
    }
  }

  /** The other months of a saved list are the stored ones followed by the in-memory records of other months. */
  lemma {:induction false} SavedOtherMonths(stored: seq<DayAttendance>, current: seq<DayAttendance>, ym: YearMonth)
    ensures OtherMonthRows(OtherMonthRows(stored, ym) + current, ym) == OtherMonthRows(stored, ym) + OtherMonthRows(current, ym)
  {
    OtherMonthRowsAppend(OtherMonthRows(stored, ym), current, ym);
    OtherMonthRowsTwice(stored, ym);
  }
}
