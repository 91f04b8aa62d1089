/**
 * The summary screen of the local-only revision: absences of the displayed
 * month, present days and the estimated bill.
 */
module SummaryTab {
  import opened Dates
  import opened AbsentDates

  /** `daysAbsent`: the listed dates whose year and month are the displayed ones. */
  function DaysAbsent(absent: seq<Date>, ym: YearMonth): (n: nat)
    ensures n <= |absent|
  {
    if absent == [] then 0
    else (if InMonth(absent[0], ym) then 1 else 0) + DaysAbsent(absent[1..], ym)
  }

  /** `daysPresent = totalDaysInMonth - daysAbsent`. */
  function DaysPresent(absent: seq<Date>, ym: YearMonth): (n: int)
    requires ValidYearMonth(ym)
    ensures DaysInMonth(ym.year, ym.month) - |absent| <= n <= DaysInMonth(ym.year, ym.month)
  {
    DaysInMonth(ym.year, ym.month) - DaysAbsent(absent, ym)
  }

  /** `estimatedBill = daysPresent * dailyCost`. */
  function EstimatedBill(absent: seq<Date>, ym: YearMonth, dailyCost: int): (bill: int)
    requires ValidYearMonth(ym)
    ensures dailyCost >= 0 ==> bill <= DaysInMonth(ym.year, ym.month) * dailyCost
  {
    var present := DaysPresent(absent, ym);
    MulMonotone(present, DaysInMonth(ym.year, ym.month), dailyCost);
    present * dailyCost
  }

  lemma MulMonotone(a: int, b: int, k: int)
    requires a <= b
    ensures k >= 0 ==> a * k <= b * k
  {
    if k >= 0 {
      assert b * k - a * k == (b - a) * k;
    }
  }

  // Reference counts: walk the days 1..n of the month and ask isDateAbsent.

  /** Days among 1..n of the month that are listed absent. */
  function AbsentCalendarDays(absent: seq<Date>, ym: YearMonth, n: nat): nat {
    if n == 0 then 0
    else AbsentCalendarDays(absent, ym, n - 1) + (if Date(ym.year, ym.month, n) in absent then 1 else 0)
  }

  /** Days among 1..n of the month that are not listed, so present. */
  function PresentCalendarDays(absent: seq<Date>, ym: YearMonth, n: nat): nat {
    if n == 0 then 0
    else PresentCalendarDays(absent, ym, n - 1) + (if Date(ym.year, ym.month, n) in absent then 0 else 1)
  }

  lemma {:induction false} CalendarDaysSplit(absent: seq<Date>, ym: YearMonth, n: nat)
    ensures AbsentCalendarDays(absent, ym, n) + PresentCalendarDays(absent, ym, n) == n
  {
    if n > 0 {
      CalendarDaysSplit(absent, ym, n - 1);
    }
  }

  lemma {:induction false} AbsentCalendarDaysPeel(e: Date, rest: seq<Date>, ym: YearMonth, n: nat)
    requires e !in rest
    ensures AbsentCalendarDays([e] + rest, ym, n)
         == AbsentCalendarDays(rest, ym, n) + (if InMonth(e, ym) && 1 <= e.day <= n then 1 else 0)
  {
    if n > 0 {
      AbsentCalendarDaysPeel(e, rest, ym, n - 1);
    } else {
      AbsentCalendarDaysOfNone(ym, n);
      assert AbsentCalendarDays([e] + rest, ym, 0) == 0;
    }
  }

  lemma {:induction false} AbsentCalendarDaysOfNone(ym: YearMonth, n: nat)
    ensures AbsentCalendarDays([], ym, n) == 0
  {
    if n > 0 {
      AbsentCalendarDaysOfNone(ym, n - 1);
    }
  }

  /**
   * For a duplicate-free list of real dates, `daysAbsent` is the number of
   * days of the displayed month marked absent, so `daysPresent` is the number
   * of days not marked, lies between 0 and the month length, and the bill
   * charges exactly those days.
   */
  lemma {:induction false} DaysPresentCountsPresentDays(absent: seq<Date>, ym: YearMonth, dailyCost: int)
    requires ValidYearMonth(ym)
    requires NoDuplicates(absent)
    requires forall d :: d in absent ==> ValidDate(d)
    ensures var n := DaysInMonth(ym.year, ym.month);
      && DaysAbsent(absent, ym) == AbsentCalendarDays(absent, ym, n)
      && DaysPresent(absent, ym) == PresentCalendarDays(absent, ym, n)
      && 0 <= DaysPresent(absent, ym) <= n
      && EstimatedBill(absent, ym, dailyCost) == PresentCalendarDays(absent, ym, n) * dailyCost
  {
    var n := DaysInMonth(ym.year, ym.month);
    DaysAbsentCountsAbsentDays(absent, ym);
    CalendarDaysSplit(absent, ym, n);
  }

  lemma {:induction false} DaysAbsentCountsAbsentDays(absent: seq<Date>, ym: YearMonth)
    requires ValidYearMonth(ym)
    requires NoDuplicates(absent)
    requires forall d :: d in absent ==> ValidDate(d)
    ensures DaysAbsent(absent, ym) == AbsentCalendarDays(absent, ym, DaysInMonth(ym.year, ym.month))
  {
    var n := DaysInMonth(ym.year, ym.month);
    if absent == [] {
      AbsentCalendarDaysOfNone(ym, n);
    } else {
      var e, rest := absent[0], absent[1..];
      assert absent == [e] + rest;
      assert NoDuplicates(rest);
      assert e !in rest by {
        forall i | 0 <= i < |rest| ensures rest[i] != e {
          assert rest[i] == absent[i + 1];
        }
      }
      DaysAbsentCountsAbsentDays(rest, ym);
      AbsentCalendarDaysPeel(e, rest, ym, n);
      assert e in absent;
    }
  }

  /** With no absence in the displayed month the bill is every day of it at the daily cost. */
  lemma {:induction false} BillWithoutAbsences(absent: seq<Date>, ym: YearMonth, dailyCost: int)
    requires ValidYearMonth(ym)
    requires forall d :: d in absent ==> !InMonth(d, ym)
    ensures DaysAbsent(absent, ym) == 0
    ensures EstimatedBill(absent, ym, dailyCost) == DaysInMonth(ym.year, ym.month) * dailyCost
  {
    if absent != [] {
      assert absent[0] in absent;
      assert forall d :: d in absent[1..] ==> d in absent;
      BillWithoutAbsences(absent[1..], ym, dailyCost);
    }
  }

  /**
   * Tapping a day of the displayed month in the calendar: a present day
   * becomes absent and costs one day less; an absent day becomes present
   * again (every copy of it is removed), and for a duplicate-free list the
   * bill goes up by exactly one daily cost.
   */
  lemma {:induction false} ToggleMovesBill(absent: seq<Date>, ym: YearMonth, d: Date, dailyCost: int)
    requires ValidYearMonth(ym)
    requires InMonth(d, ym)
    ensures DaysPresent(Toggled(absent, d), ym)
         == DaysPresent(absent, ym) + (if d in absent then multiset(absent)[d] else -1)
    ensures NoDuplicates(absent) ==>
      EstimatedBill(Toggled(absent, d), ym, dailyCost)
        == EstimatedBill(absent, ym, dailyCost) + (if d in absent then dailyCost else -dailyCost)
  {
    var t := Toggled(absent, d);
    DaysAbsentByMultiset(absent, ym, d);
    DaysAbsentByMultiset(t, ym, d);
    if d in absent {
      DaysAbsentExceptWithout(absent, ym, d);
      assert multiset(t)[d] == 0;
      if NoDuplicates(absent) {
        NoDuplicatesCountsOnce(absent, d);
        ScaleShift(DaysPresent(absent, ym), DaysPresent(t, ym), 1, dailyCost);
      }
    } else {
      DaysAbsentExceptAppend(absent, ym, d);
      assert multiset(t)[d] == multiset(absent)[d] + 1;
      ScaleShift(DaysPresent(absent, ym), DaysPresent(t, ym), -1, dailyCost);
    }
  }

  lemma ScaleShift(before: int, after: int, delta: int, k: int)
    requires after == before + delta
    ensures after * k == before * k + delta * k
  {
  }

  lemma {:induction false} DaysAbsentExceptWithout(s: seq<Date>, ym: YearMonth, d: Date)
    ensures DaysAbsentExcept(Without(s, d), ym, d) == DaysAbsentExcept(s, ym, d)
  {
    if s != [] {
      DaysAbsentExceptWithout(s[1..], ym, d);
      var rest := Without(s[1..], d);
      if s[0] != d {
        assert Without(s, d) == [s[0]] + rest;
        assert ([s[0]] + rest)[1..] == rest;
      } else {
        assert Without(s, d) == rest;
      }
    }
  }

  lemma {:induction false} DaysAbsentExceptAppend(s: seq<Date>, ym: YearMonth, d: Date)
    ensures DaysAbsentExcept(s + [d], ym, d) == DaysAbsentExcept(s, ym, d)
  {
    if s == [] {
      assert [] + [d] == [d];
      assert [d][1..] == [];
    } else {
      assert (s + [d])[0] == s[0] && (s + [d])[1..] == s[1..] + [d];
      DaysAbsentExceptAppend(s[1..], ym, d);
    }
  }

  /** Removing or adding one date of the month changes the count by its multiplicity. */
  lemma {:induction false} DaysAbsentByMultiset(absent: seq<Date>, ym: YearMonth, d: Date)
    requires InMonth(d, ym)
    ensures DaysAbsent(absent, ym) == DaysAbsentExcept(absent, ym, d) + multiset(absent)[d]
  {
    if absent != [] {
      assert absent == [absent[0]] + absent[1..];
      DaysAbsentByMultiset(absent[1..], ym, d);
    }
  }

  /** The month's absences other than `d`. */
  function DaysAbsentExcept(absent: seq<Date>, ym: YearMonth, d: Date): nat {
    if absent == [] then 0
    else (if InMonth(absent[0], ym) && absent[0] != d then 1 else 0) + DaysAbsentExcept(absent[1..], ym, d)
  }

  lemma {:induction false} NoDuplicatesCountsOnce(s: seq<Date>, d: Date)
    requires NoDuplicates(s) && d in s
    ensures multiset(s)[d] == 1
  {
    if s[0] == d {
      assert d !in s[1..] by {
        forall i | 0 <= i < |s| - 1 ensures s[1..][i] != d {
          assert s[1..][i] == s[i + 1];
        }
      }
      assert s == [s[0]] + s[1..];
    } else {
      assert NoDuplicates(s[1..]);
      NoDuplicatesCountsOnce(s[1..], d);
      assert s == [s[0]] + s[1..];
    }
  }
}
