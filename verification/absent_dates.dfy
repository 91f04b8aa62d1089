/**
 * The earlier, local-only revision of the app: a list of absent dates, a
 * single daily cost and the displayed month. A date toggles in and out of
 * the list; every date not in it counts as present.
 */
module AbsentDates {
  import opened Wrappers
  import opened Dates

  const DefaultDailyCost := 100

  predicate NoDuplicates(s: seq<Date>) {
    forall i, j :: 0 <= i < j < |s| ==> s[i] != s[j]
  }

  /** `prev.filter(x => x !== d)`: every occurrence of `d` removed, the rest kept. */
  function Without(s: seq<Date>, d: Date): (r: seq<Date>)
    ensures multiset(r) == multiset(s)[d := 0]
  {
    if s == [] then []
    else
      assert s == [s[0]] + s[1..];
      (if s[0] != d then [s[0]] else []) + Without(s[1..], d)
  }

  /**
   * The list after `toggleAbsentDate(d)`: every occurrence of a listed date
   * removed, an unlisted one appended once; no other date's count changes.
   */
  function Toggled(s: seq<Date>, d: Date): (r: seq<Date>)
    ensures multiset(r) == if d in s then multiset(s)[d := 0] else multiset(s) + multiset{d}
  {
    if d in s then Without(s, d) else s + [d]
  }

  /** A toggle flips whether `d` is absent and leaves every other date as it was. */
  lemma ToggleFlipsMembership(s: seq<Date>, d: Date, x: Date)
    ensures (x in Toggled(s, d)) == if x == d then x !in s else x in s
  {
    assert x in Toggled(s, d) <==> multiset(Toggled(s, d))[x] > 0;
    assert x in s <==> multiset(s)[x] > 0;
  }

  /** A toggle keeps a duplicate-free list duplicate-free. */
  lemma ToggleKeepsNoDuplicates(s: seq<Date>, d: Date)
    requires NoDuplicates(s)
    ensures NoDuplicates(Toggled(s, d))
  {
    if d in s {
      NoDuplicatesWithout(s, d);
    }
  }

  lemma {:induction false} NoDuplicatesWithout(s: seq<Date>, d: Date)
    requires NoDuplicates(s)
    ensures NoDuplicates(Without(s, d))
  {
    if s != [] {
      var rest := Without(s[1..], d);
      assert NoDuplicates(s[1..]);
      NoDuplicatesWithout(s[1..], d);
      if s[0] != d {
        assert s[0] !in s[1..];
        assert multiset(rest)[s[0]] == 0 by {
          assert multiset(s[1..])[s[0]] == 0;
        }
        assert Without(s, d) == [s[0]] + rest;
      }
    }
  }

  /**
   * Toggling twice restores whether every date is absent; when `d` was not
   * listed it restores the list itself.
   */
  lemma ToggleTwice(s: seq<Date>, d: Date, x: Date)
    ensures (x in Toggled(Toggled(s, d), d)) == (x in s)
    ensures d !in s ==> Toggled(Toggled(s, d), d) == s
  {
    ToggleFlipsMembership(s, d, x);
    ToggleFlipsMembership(Toggled(s, d), d, x);
    if d !in s {
      WithoutAbsent(s + [d], d, s);
    }
  }

  lemma {:induction false} WithoutAbsent(s: seq<Date>, d: Date, prefix: seq<Date>)
    requires s == prefix + [d] && d !in prefix
    ensures Without(s, d) == prefix
  {
    if prefix == [] {
      assert s == [d];
      assert Without(s, d) == [] + Without(s[1..], d);
    } else {
      assert s[1..] == prefix[1..] + [d];
      WithoutAbsent(s[1..], d, prefix[1..]);
    }
  }

  /** `data.dailyCost || 100`: a missing or zero stored cost loads as 100. */
  function LoadedDailyCost(stored: Option<int>): (c: int)
    ensures c != 0
    ensures c == DefaultDailyCost <==> stored.None? || stored.value == 0 || stored.value == DefaultDailyCost
    ensures stored.Some? && stored.value != 0 ==> c == stored.value
  {
    NumberOr(stored, DefaultDailyCost)
  }

  /** What the local save writes. */
  datatype StoredMessData = StoredMessData(
    dailyCost: Option<int>,
    absentDates: Option<seq<Date>>,
    currentMonth: YearMonth)

  class MessData {
    var dailyCost: int
    var absentDates: seq<Date>
    var currentMonth: YearMonth

    /** The initial state: cost 100, no absences, the month of `today`. */
    constructor (today: YearMonth)
      ensures dailyCost == DefaultDailyCost && absentDates == [] && currentMonth == today
    {
      dailyCost := DefaultDailyCost;
      absentDates := [];
      currentMonth := today;
    }

    /** `isDateAbsent`: `includes`, a scan for an equal entry. */
    predicate IsDateAbsent(d: Date)
      reads this
      ensures IsDateAbsent(d) <==> exists i :: 0 <= i < |absentDates| && absentDates[i] == d
    {
      d in absentDates
    }

    /** `toggleAbsentDate`. */
    method ToggleAbsentDate(d: Date)
      modifies this`absentDates
      ensures absentDates == Toggled(old(absentDates), d)
      ensures IsDateAbsent(d) == !old(IsDateAbsent(d))
      ensures forall x :: x != d ==> IsDateAbsent(x) == old(IsDateAbsent(x))
      ensures NoDuplicates(old(absentDates)) ==> NoDuplicates(absentDates)
    {
      ghost var before := absentDates;
      if d in absentDates {
        absentDates := Without(absentDates, d);
      } else {
        absentDates := absentDates + [d];
      }
      ToggleFlipsMembership(before, d, d);
      forall x | x != d ensures (x in absentDates) == (x in before) {
        ToggleFlipsMembership(before, d, x);
      }
      if NoDuplicates(before) {
        ToggleKeepsNoDuplicates(before, d);
      }
    }

    /** `resetData`: cost 100, no absences, back to the month of `today`. */
    method ResetData(today: YearMonth)
      modifies this
      ensures dailyCost == DefaultDailyCost && absentDates == [] && currentMonth == today
    {
      dailyCost := DefaultDailyCost;
      absentDates := [];
      currentMonth := today;
    }

    /** The local load, with `|| 100` and `|| []` for missing values. */
    method Load(stored: StoredMessData)
      modifies this
      ensures dailyCost == LoadedDailyCost(stored.dailyCost)
      ensures absentDates == (if stored.absentDates.Some? then stored.absentDates.value else [])
      ensures currentMonth == stored.currentMonth
    {
      dailyCost := LoadedDailyCost(stored.dailyCost);
      absentDates := if stored.absentDates.Some? then stored.absentDates.value else [];
      currentMonth := stored.currentMonth;
    }
  }
}
