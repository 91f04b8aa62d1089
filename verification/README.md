# Messly bookkeeping core in Dafny

Messly is a small mobile web app for tracking meals at a mess (a shared
canteen paid in advance). This project models its attendance-and-budget
bookkeeping and proves properties of that model. Two revisions of the app
are covered.

The account-backed revision keeps a sparse list of per-day records, each with
a lunch flag and a dinner flag. A day without a record counts as present for
both meals. `getAttendance` reads the list. The local branches of
`toggleLunch` and `toggleDinner` rewrite it. The month summary turns it into
meal totals, a four-way partition of the days and money figures. The local
`updateMonthlyAdvance` recomputes the month's ledger row. The local save and
load merge the displayed month into, and filter it out of, everything stored.

The earlier, local-only revision keeps a list of absent dates and one daily
cost. Its summary screen derives present days and an estimated bill. Its
calendar screen lays the month out in whole weeks, styles each day and moves
between months.

Finally, the remote month query fetches a month with a `[YYYY-MM-01,
next-month-01)` window of ISO date strings.

Files:

- `dates.dfy`:
  - `Wrappers`: an Option type, plus JavaScript's `value || fallback` on
    numbers.
  - `Dates`: the abstract `Date(year, month, day)` and `YearMonth`, Gregorian
    month lengths, and the ECMAScript day numbering that
    `new Date(y, m, 0)` and `getDay()` follow.
- `mess_types.dfy` (`MessTypes`): the record types and their documented
  identities, as predicates.
- `attendance.dfy` (`Attendance`): the sparse record list, `getAttendance`,
  the toggles, and the per-month filter and merge.
- `month_ledger.dfy` (`MonthLedger`): the month summary, day-by-day reference
  counts for it, the ledger row and the advance update.
- `mess_hook.dfy` (`MessHook`): the hook's state as the class `MessStore`, and
  the local save and load.
- `absent_dates.dfy` (`AbsentDates`): the absent-date list and the class
  `MessData` of the local-only revision.
- `summary_tab.dfy` (`SummaryTab`): absent days, present days and the
  estimated bill.
- `calendar_tab.dfy` (`CalendarTab`): the grid, the day style, the day tap and
  month navigation.
- `month_range.dfy` (`MonthRange`): the query window's bounds, ISO date
  strings and their order.

## Model

| member | source | states |
|---|---|---|
| Dates.DaysInMonth | src/components/SummaryTab.tsx:10-14 | a month has 28 to 31 days; February has 29 exactly in a leap year |
| Wrappers.NumberOr | src/hooks/useMessDataWithSupabase.ts:41 | JavaScript's falsy fallback on a number that may be missing: the fallback for a missing value or 0, the value otherwise |
| Dates.DaysInMonthIsGap | src/components/CalendarTab.tsx:21 | the first of the next month comes `DaysInMonth` days after the first of this month, so day 0 of the next month is this month's last day |
| CalendarTab.FirstDayOfMonth | src/components/CalendarTab.tsx:20 | the weekday of the first of the month is a column 0..6 (Sunday first) |
| Attendance.Find | src/hooks/useMessDataWithSupabase.ts:132 | no result exactly when no record has the date; a result is a stored record for that date |
| Attendance.FindIsFirst | src/hooks/useMessDataWithSupabase.ts:132 | like `Array.prototype.find`, the result is the record at the first position holding the date: no earlier record has it |
| Attendance.GetAttendance | src/hooks/useMessDataWithSupabase.ts:131-137 | the reported day is the requested one; it is present for both meals when no record exists; with unique dates it is the stored record |
| Attendance.GetAttendanceIsFirstRecord | src/hooks/useMessDataWithSupabase.ts:131-137 | with duplicate dates, the attendance reported is the first record for the date |
| Attendance.RemoveDate | src/hooks/useMessDataWithSupabase.ts:159 | keeps exactly the records for other dates |
| Attendance.Put | src/hooks/useMessDataWithSupabase.ts:158-168 | the filter-and-push update keeps exactly the other dates' records and adds the new record only when a meal is absent |
| Attendance.Toggle | src/hooks/useMessDataWithSupabase.ts:158-168 | a toggle keeps every other date's records and leaves only records with an absent meal for the date |
| Attendance.PutAttendance | src/hooks/useMessDataWithSupabase.ts:158-168 | after the filter-and-push update, `getAttendance` reports the new flags at the date and the old attendance everywhere else |
| Attendance.PutRows | src/hooks/useMessDataWithSupabase.ts:158-168 | the update leaves other dates' records untouched; it leaves no record for the date when both meals are present, and exactly one otherwise |
| Attendance.ToggleFlipsOneMeal | src/hooks/useMessDataWithSupabase.ts:141-183 | a toggle flips the toggled meal at the date, keeps the other meal, and changes no other date's attendance |
| Attendance.ToggleStorage | src/hooks/useMessDataWithSupabase.ts:158-167 | after a toggle there is at most one record for the date, none exactly when the day is back to present for both meals; other dates keep their records |
| Attendance.ToggleTwice | src/hooks/useMessDataWithSupabase.ts:141-226 | toggling the same meal twice restores the attendance of every date |
| Attendance.ToggleKeepsInvariants | src/hooks/useMessDataWithSupabase.ts:203-211 | toggles keep the dates unique and every stored record with an absent meal |
| Attendance.MonthRows | src/hooks/useMessDataWithSupabase.ts:45-48 | the load keeps exactly the stored records of the displayed month |
| Attendance.OtherMonthRows | src/hooks/useMessDataWithSupabase.ts:108-111 | the save keeps exactly the stored records of other months |
| Attendance.MergeMonth | src/hooks/useMessDataWithSupabase.ts:108-113 | the saved list holds exactly the stored records of other months and the displayed month's records |
| Attendance.MergeThenLoad | src/hooks/useMessDataWithSupabase.ts:108-113 | loading the saved month after the save gives the in-memory records of that month; loading another month gives its earlier records followed by any in-memory record of it, since the save does not filter the in-memory list; when every in-memory record lies in the saved month, other months load exactly as before |
| Attendance.MergeIdempotent | src/hooks/useMessDataWithSupabase.ts:108-113 | saving the same month twice stores the same list as saving it once exactly when every in-memory record lies in that month; otherwise each save stores the other months' in-memory records once more |
| MonthLedger.Summarize | src/hooks/useMessDataWithSupabase.ts:277-314 | the summary meets the documented identities (effective = advance + carried, spent = lunches·cost + dinners·cost, remaining = effective − spent); it reports the month's length and the displayed month; it charges the one meal price for both meals; a missing ledger row reads as 0; the four day counts add up to the month length |
| MonthLedger.CountRows | src/hooks/useMessDataWithSupabase.ts:280-289 | a record filter counts at most the stored records, and none exactly when no record matches |
| MonthLedger.AdvanceOf | src/hooks/useMessDataWithSupabase.ts:300 | 0 without a row, the row's advance otherwise |
| MonthLedger.CarriedOf | src/hooks/useMessDataWithSupabase.ts:301 | the carried amount of the row, or 0 without a row |
| MonthLedger.SpentOf | src/hooks/useMessDataWithSupabase.ts:242 | the row's amount spent, or 0 without a row |
| MonthLedger.AbsentDaysMatchRows | src/hooks/useMessDataWithSupabase.ts:279-289 | for unique records inside the month, each record filter counts exactly the days whose attendance matches it |
| MonthLedger.DayTypesPartition | src/hooks/useMessDataWithSupabase.ts:287-293 | every day is exactly one of: both meals, only lunch, only dinner, both absent |
| MonthLedger.SummaryMatchesCalendar | src/hooks/useMessDataWithSupabase.ts:279-313 | for unique records inside the month: the meal totals count the days each meal is eaten (a missing record counts as present), and the four day counts are the days of each type, so none is negative |
| MonthLedger.SummaryOfEmptyMonth | src/hooks/useMessDataWithSupabase.ts:277-306 | with no records every meal of every day is counted and paid |
| MonthLedger.MealDaysOneDayApart | src/hooks/useMessDataWithSupabase.ts:283-284 | two lists that agree on every day but one give meal totals that differ only by that day |
| MonthLedger.ToggleMovesMealDays | src/hooks/useMessDataWithSupabase.ts:141-168 | a toggle changes the toggled meal's day count by one and leaves the other meal's count alone |
| MonthLedger.ToggleMovesTotals | src/hooks/useMessDataWithSupabase.ts:295-304 | a toggle moves that meal's total by one, the spending by one meal price and the remaining balance by minus one meal price |
| MonthLedger.ApplyAdvance | src/hooks/useMessDataWithSupabase.ts:237-244 | the new row has the new advance, keeps the carried amount and the amount spent (a missing row reads as 0), and satisfies effective = advance + carried and remaining = effective − spent |
| MonthLedger.AdvanceReachesSummary | src/hooks/useMessDataWithSupabase.ts:237-244 | the new advance and the unchanged carried amount reach the summary; the row's own balance agrees with the summary's remaining amount exactly when its stored spending equals the recomputed spending |
| MessHook.SaveThenLoad | src/hooks/useMessDataWithSupabase.ts:36-54 | after a save, the load gives back the month's in-memory records and its ledger row and the price (0 loads as 50); other months keep their rows, and their records are as stored before followed by any in-memory record of theirs, so exactly as before when every in-memory record lies in the saved month |
| MessHook.Save | src/hooks/useMessDataWithSupabase.ts:92-128 | the saved price is the current one; the saved records are the stored records of other months plus the displayed month's; the ledger map gains or replaces the displayed month's row only when there is one, and keeps every other month's row |
| MessHook.LoadedPrice | src/hooks/useMessDataWithSupabase.ts:41 | a missing or zero stored price loads as 50, any other stored price unchanged; the loaded price is never 0 |
| MessHook.LoadedLedger | src/hooks/useMessDataWithSupabase.ts:52-54 | no row exactly when the month has no key in the stored map; otherwise the stored row |
| MessHook.ResetErasesEveryMonth | src/hooks/useMessDataWithSupabase.ts:316-321 | after the storage is cleared, the save that follows stores only the price 50: every month loads with no records and no ledger row |
| MessHook.MessStore.constructor | src/hooks/useMessDataWithSupabase.ts:9-13 | initial state: this month, price 50, no ledger row, no records |
| MessHook.MessStore.ToggleLunch | src/hooks/useMessDataWithSupabase.ts:141-183 | the records become the toggled list; lunch at the date flips, dinner is kept, other dates are unchanged; unique dates are preserved when they held, and stored records keep an absent meal; for well-formed records and a real date of the month, the month summary's lunch total moves by one, its dinner total stays, and the remaining balance moves by one meal price the other way |
| MessHook.MessStore.ToggleDinner | src/hooks/useMessDataWithSupabase.ts:186-226 | symmetric to ToggleLunch |
| MessHook.MessStore.UpdateMonthlyAdvance | src/hooks/useMessDataWithSupabase.ts:229-257 | the month's row gets the new advance, keeps carried and spent, and is balanced; the displayed month stays valid |
| MessHook.MessStore.ResetData | src/hooks/useMessDataWithSupabase.ts:316-321 | no records, no ledger row, price 50; the displayed month is kept; the storage is cleared, so the next save stores only the price 50 with no records and no ledger rows |
| MessHook.MessStore.CurrentMonthSummary | src/types/mess.ts:24-42 | the summary of the displayed month meets the identities written beside the summary's fields (effective = advance + carried, spent = lunches·lunch cost + dinners·dinner cost, remaining = effective − spent) and is the displayed month with its length; for well-formed records the four day counts partition the month |
| MessHook.MessStore.Saved | src/hooks/useMessDataWithSupabase.ts:92-128 | what the save effect writes from the current state: the current price, the displayed month's records as they are now, and its ledger row when there is one (the stored row otherwise) |
| MessHook.MessStore.LoadLocal | src/hooks/useMessDataWithSupabase.ts:36-54 | the price with the 50 fallback, the displayed month's records and its ledger row; stored records with unique real dates load as well-formed records of the month |
| AbsentDates.Without | src/hooks/useMessData.ts:44 | removes every occurrence of the date and keeps everything else |
| AbsentDates.Toggled | src/hooks/useMessData.ts:41-48 | a listed date loses every occurrence; an unlisted one is appended once; other dates' counts are unchanged |
| AbsentDates.ToggleFlipsMembership | src/hooks/useMessData.ts:41-52 | after a toggle the date is absent exactly when it was not; other dates keep their membership |
| AbsentDates.ToggleKeepsNoDuplicates | src/hooks/useMessData.ts:43-46 | a toggle keeps a duplicate-free list duplicate-free |
| AbsentDates.ToggleTwice | src/hooks/useMessData.ts:41-48 | two toggles restore membership, and restore the list itself when the date was not listed |
| AbsentDates.LoadedDailyCost | src/hooks/useMessData.ts:22 | a missing or zero stored cost loads as 100; any other value loads unchanged |
| AbsentDates.MessData.constructor | src/hooks/useMessData.ts:12-14 | cost 100, no absences, this month |
| AbsentDates.MessData.IsDateAbsent | src/hooks/useMessData.ts:50-52 | a date counts as absent exactly when some entry of the list equals it |
| AbsentDates.MessData.ToggleAbsentDate | src/hooks/useMessData.ts:41-48 | membership of the date flips, others are unchanged, and no duplicates are introduced |
| AbsentDates.MessData.ResetData | src/hooks/useMessData.ts:54-59 | cost 100, no absences, this month |
| AbsentDates.MessData.Load | src/hooks/useMessData.ts:17-29 | the stored cost with the 100 fallback, the stored dates or none, and the stored month |
| SummaryTab.DaysAbsent | src/components/SummaryTab.tsx:16-22 | counts at most the listed entries |
| SummaryTab.DaysPresent | src/components/SummaryTab.tsx:24 | present days lie between the month length less the listed entries and the month length |
| SummaryTab.EstimatedBill | src/components/SummaryTab.tsx:25 | with a non-negative daily cost the bill is at most a full month's cost |
| SummaryTab.DaysAbsentCountsAbsentDays | src/components/SummaryTab.tsx:16-22 | for a duplicate-free list of real dates, the count is the number of days of the displayed month marked absent |
| SummaryTab.DaysPresentCountsPresentDays | src/components/SummaryTab.tsx:24-25 | present days are the days of the month not marked absent, between 0 and the month length, and the bill charges exactly those days |
| SummaryTab.BillWithoutAbsences | src/components/SummaryTab.tsx:24-25 | with no absence in the month the bill is the month length times the daily cost |
| SummaryTab.ToggleMovesBill | src/components/SummaryTab.tsx:24-25 | tapping a present day removes one present day; tapping an absent day adds back as many days as it was listed; with no duplicates the bill moves by one daily cost |
| CalendarTab.TotalCells | src/components/CalendarTab.tsx:61 | the grid is a whole number of weeks, holds every day after the leading blanks, and has fewer than a week of trailing blanks |
| CalendarTab.DayClass | src/components/CalendarTab.tsx:36-52 | "today" exactly when today and not absent, "absent" exactly when absent, otherwise "default": absent beats today |
| CalendarTab.CellAt | src/components/CalendarTab.tsx:63-79 | a position is a day button exactly inside the month's span, and the button shows day `i − firstDay + 1`, a day of the month |
| CalendarTab.RenderCalendarDays | src/components/CalendarTab.tsx:59-81 | one cell per grid position; a position is a day button exactly inside the month's span, showing day `i − firstDay + 1` in its style |
| CalendarTab.DayCellIsUnique | src/components/CalendarTab.tsx:59-81 | each day of the month is in exactly one cell, at `firstDay + day − 1`, so in increasing order, and that cell's column is the day's weekday |
| CalendarTab.NextMonthStartsAfterLastDay | src/components/CalendarTab.tsx:20-21 | the next month's first column is where this month's trailing blanks begin |
| CalendarTab.HandleDayClick | src/components/CalendarTab.tsx:54-57 | a tap toggles the date of that day of the hook's current month, and leaves the current month as it is |
| CalendarTab.MonthFromIndex | src/components/CalendarTab.tsx:28-34 | an overflowing month index carries into the year and always gives a valid month at the same absolute position |
| CalendarTab.PreviousMonth | src/components/CalendarTab.tsx:28-30 | gives a valid month exactly one month earlier |
| CalendarTab.FollowingMonth | src/components/CalendarTab.tsx:32-34 | gives a valid month exactly one month later |
| CalendarTab.NavigationSteps | src/components/CalendarTab.tsx:28-34 | previous and next move by exactly one month; next from December is January of the next year; previous from January is December of the year before; each undoes the other |
| MonthRange.PadStart2 | src/hooks/useSupabaseSync.ts:113 | `padStart(2, '0')`: the string is kept as the suffix, preceded by zeros up to length 2 |
| MonthRange.NatToStringDigits | src/hooks/useSupabaseSync.ts:113 | `${n}` of a number with exactly w digits is its w-digit decimal form |
| MonthRange.PaddedMonth | src/hooks/useSupabaseSync.ts:113 | a month number padded to two characters is its two-digit form |
| MonthRange.LowerBound | src/hooks/useSupabaseSync.ts:113 | for a four-digit year the lower bound is the ISO form of the first of the month, with the month zero-padded |
| MonthRange.UpperBound | src/hooks/useSupabaseSync.ts:114 | the upper bound is the lower bound of the following month, and December's upper bound is January 1 of the next year |
| MonthRange.IsoDateOrder | src/hooks/useSupabaseSync.ts:113-114 | ISO strings compare lexicographically as their dates compare in time, and equal strings mean equal dates |
| MonthRange.DigitsOrder | src/hooks/useSupabaseSync.ts:113-114 | zero-padded fixed-width numbers compare as text exactly as they compare as numbers |
| MonthRange.WindowIsTheMonth | src/hooks/useSupabaseSync.ts:113-114 | for four-digit years the lower bound sorts strictly before the upper one, and a date's ISO form lies in the window exactly when the date is in the requested month |

## Left out

- Server calls are not modelled: sign-in, the table queries and upserts, and the remote branches of the load, the toggles, the advance update and the meal-cost update (src/hooks/useMessDataWithSupabase.ts:24-34, 146-156, 191-200, 231-234, 265-270). Their results come from the server.
- The carried-forward amount is computed by a server-side procedure whose body is not part of this model. The model takes it as an input.
- `updateMealCosts` is left out (src/hooks/useMessDataWithSupabase.ts:260-274). It sets the price to the floating-point average of two costs. Money is modelled as integers throughout.
- MessHook.MessStore.LoadLocal: always loads a `StoredData`. The source skips the load when nothing is stored (src/hooks/useMessDataWithSupabase.ts:38) and keeps its state. Nothing is stored only before the first save or right after a reset, and then the state is the initial one, which is what loading `EmptyStore` gives.
- Browser storage and JSON are modelled as values: `StoredData` and `StoredMessData`. Parse failures, the `catch` branches that only log, and the `isLoading` guard on the save effect are not modelled.
- The ledger map's `${year}-${month}` string key is modelled as the `YearMonth` value itself.
- MessHook.MessStore.UpdateMonthlyAdvance: the other fields that `...prev` copies into the new row (row id, user id, month) are not modelled.
- MessHook.MessStore.UpdateMonthlyAdvance: the local branch ignores its month and year arguments and always updates the displayed month's row. The model does the same.
- Years 0 to 99 are not modelled as JavaScript does. `new Date(y, m, d)` reads such a year as 1900 + y. `DaysInMonth` and `MonthFromIndex` take the year as given.
- The `MonthlyRecord` type of src/types/mess.ts:9-16 is declared, but no operation of this model reads or writes it. The hook keeps its ledger rows as `LedgerRow`.
- Time zones are not modelled.
  - `new Date("YYYY-MM-DD")` parses as UTC and is then read with local-time getters (src/hooks/useMessDataWithSupabase.ts:46, src/components/SummaryTab.tsx:17).
  - `toISOString()` of a local midnight can name the previous day east of UTC (src/components/CalendarTab.tsx:37, 55).
  - The model uses the calendar date directly.
- The wall-clock "today" and `new Date()` for the initial month are parameters (`today`).
- `currentMonth` is a `YearMonth`, not a `Date`.
- `new Date(data.currentMonth) || new Date()` never falls back, because a `Date` object is always truthy. Its invalid-date case is not modelled.
- The plain setters `setDailyCost`, `setCurrentMonth` and `setMealPrice` are not modelled.
- Presentation is not modelled: class-name strings, the month title, icons and markup. A day's look is the `DayStyle` value.
- MonthRange.WindowIsTheMonth: holds only for years of four digits. `${year}` is not zero-padded, so below year 1000 the lower bound does not match the stored four-digit ISO form.
- The window comparison is modelled as comparison of ISO text. `IsoDateOrder` shows that text order and date order agree, so the window is the same if the server compares the column as dates.
- SummaryTab.DaysPresentCountsPresentDays: assumes the absent list has no duplicates and holds real dates. A duplicated date would count twice. `toggleAbsentDate` never creates duplicates (`ToggleKeepsNoDuplicates`).
- MonthLedger.SummaryMatchesCalendar: assumes the records have unique dates inside the displayed month. The toggles keep dates unique when they were unique before. The load keeps only that month's records, but they have unique dates only if the stored ones did. The save does not guarantee that: an in-memory record of another month is stored again by every save (`MergeIdempotent`), and can then load as a duplicate.
