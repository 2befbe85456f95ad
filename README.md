# Habit statistics and calendar windows

This project is a Dafny model of the statistics engine of a habit-tracking web app. Each habit keeps a
sparse calendar that maps a day to one of four statuses: check-in, miss, day-off or special. The app
derives several things from that calendar:

- a streak: consecutive check-ins counted back from today, over at most 365 days, where a day-off
  neither breaks nor extends the run;
- a consistency percentage over the selected week, month or year window;
- a per-day cell colour;
- two grid views built from those windows:
  - a multi-habit heatmap, with one row per week and a count of completed habits per day;
  - a one-year contribution graph, with one column per week.

The model covers the date arithmetic those components use. That means JavaScript's `new Date(y, m, d)`
for years from 100 on, including month and day overflow, plus `getFullYear`, `getMonth` and `getDate`, and date-fns'
`startOfWeek`, `endOfWeek` and `eachDayOfInterval`. It also covers the three window shapes, the
streak and consistency calculations, the click-cycle and today-toggle mutations and the statistics refresh
that follows them, the prev/next navigation, and the layout of both grids and their colour scales.

Modules:

- `Gregorian` (gregorian.dfy): proleptic Gregorian days.
  - Day 0 is 1970-01-01, and weeks start on Sunday.
  - Dates are built and taken apart with proved round trips.
- `Calendars` (calendar.dfy): the status map. It also counts check-ins, over the whole calendar and over an interval.
- `Windows` (windows.dfy): the week, month and year window around a reference day.
- `HabitTracker` (habit_tracker.dfy): the per-habit tracker component.
  - The click cycle, the today toggle, the streak and consistency, and the navigation are pure functions.
  - The mutable part is two classes: `Habit`, whose cached statistics are overwritten in place, and
    `Tracker`, which holds the selected view and reference day.
- `HabitStatsGraph` (habit_stats_graph.dfy): the multi-habit heatmap. It covers the week rows, the colour
  tiers, the legend and the completed-habit filter.
- `ContributionGraph` (contribution_graph.dfy): the single-habit year grid and its colours.

Neither grid builds its weeks the way it evidently intends to (see "## Findings"). Each grid module therefore
holds the loop as written, lemmas that show the gap, and a corrected loop with its covering property proved.

## Model

| member | source | states |
|---|---|---|
| Gregorian.MakeDate | components/HabitTracker.tsx:145-150 | `new Date(y, m, day)` with month and day overflow. Its behaviour is stated by PartsOfMakeDate, MakeDateOfParts, MakeDateCarry, MakeDateOverflow, MonthEnd and YearBoundsSpan |
| Gregorian.DayOfWeek | components/ContribuitionGraph.tsx:32-33 | `getDay`: 0..6 with Sunday as 0, against which `startOfWeek` and `endOfWeek` are stated |
| Gregorian.FullYear | components/HabitTracker.tsx:145 | `getFullYear`: the day lies between the first day of the returned year and the first day of the next year |
| Gregorian.MonthIndex | components/HabitTracker.tsx:145 | `getMonth`: a month index 0..11, and the day falls inside that month of its year |
| Gregorian.DayOfMonth | components/HabitTracker.tsx:190-193 | `getDate`: between 1 and the length of the day's month |
| Gregorian.MakeDateOfParts | components/HabitTracker.tsx:190-193 | rebuilding a date from its year, month and day of month gives the same date |
| Gregorian.PartsOfMakeDate | components/HabitTracker.tsx:145-150 | for a month 0..11 and a day within that month, `new Date(y, m, day)` reads back exactly y, m and day |
| Gregorian.YearUnique | components/HabitTracker.tsx:145 | at most one year contains a given day, so the year of a day is well defined |
| Gregorian.MonthEnd | components/HabitTracker.tsx:146 | day 0 of the next month is the last day of the month: first day plus month length minus one |
| Gregorian.YearBoundsSpan | components/HabitTracker.tsx:149-150 | January 1 is the year's first day, and December 31 is its first day plus the year's length minus one |
| Gregorian.MakeDateCarry | components/HabitTracker.tsx:192 | an out-of-range month index carries whole years, as `setMonth` does |
| Gregorian.MakeDateOverflow | components/HabitTracker.tsx:217 | a day past the end of a month (not December) becomes that many days into the next month |
| Gregorian.DaysBeforeYearClosedForm | components/HabitTracker.tsx:149 | the day of January 1 equals the usual closed form in leap-year counts (divisible by 4, not 100, or by 400) |
| Gregorian.StartOfWeek | components/HabitTracker.tsx:141 | `startOfWeek`: a Sunday, on or before the day, and the gap is the day's weekday |
| Gregorian.EndOfWeek | components/HabitTracker.tsx:142 | `endOfWeek`: a Saturday on or after the day, six days after its start of week |
| Gregorian.StartOfWeekShift | components/HabitStatsGraph.tsx:47 | moving a day by k weeks moves its start of week by k weeks |
| Gregorian.SameWeek | components/ContribuitionGraph.tsx:32 | every day of the 7 days from a Sunday has that Sunday as its start of week |
| Gregorian.EachDayOfInterval | components/HabitTracker.tsx:154 | `eachDayOfInterval`: exactly the days from start to end, ascending, end - start + 1 of them |
| Calendars.StatusOn | components/HabitTracker.tsx:17 | a recorded status exactly when the day has an entry, and that entry |
| Calendars.CheckInCount | components/HabitTracker.tsx:113 | the number of check-in entries: at most the number of entries, and 0 exactly when none is a check-in |
| Calendars.CheckInsAmong | components/HabitTracker.tsx:156-158 | the check-ins among a list of days never exceed the number of days |
| Calendars.IntervalCountIsCardinality | components/HabitTracker.tsx:154-158 | filtering the days of an interval counts exactly the set of check-in days recorded inside it |
| Calendars.IntervalCountAtMostTotal | components/HabitTracker.tsx:113-115 | a window's check-in count never exceeds the habit's total check-in count |
| Windows.YearBounds | components/HabitTracker.tsx:148-151 | the year window starts on the year's first day and is as long as the year |
| Windows.ResolveWindow | components/HabitTracker.tsx:139-152 | every window contains its reference day |
| Windows.WeekWindowShape | components/HabitTracker.tsx:140-143 | a week window runs Sunday to Saturday, 7 days, around the date |
| Windows.MonthWindowShape | components/HabitTracker.tsx:144-147 | a month window runs from day 1 to the last day of the date's month, 28 to 31 days |
| Windows.YearWindowShape | components/HabitTracker.tsx:148-151 | a year window runs from January 1 to December 31 of the date's year; it has 366 days exactly in leap years |
| Windows.WindowAtLeastAWeek | components/HabitTracker.tsx:154-155 | every window has 7 to 366 days, so the total-days divisor is never zero |
| HabitTracker.CycleNext | components/HabitTracker.tsx:83-91 | the click cycle: unrecorded, check-in, miss, day-off, back to unrecorded, with anything else deleted. Its behaviour is stated by FourClicksRestore, EveryStateReached and SpecialLeavesCycle |
| HabitTracker.TodayNext | components/HabitTracker.tsx:101-105 | today's toggle: check-in is deleted, and anything else becomes check-in. Its behaviour is stated by TodayTwice |
| HabitTracker.FourClicksRestore | components/HabitTracker.tsx:83-91 | four clicks return any unrecorded, check-in, miss or day-off day to where it was |
| HabitTracker.EveryStateReached | components/HabitTracker.tsx:83-91 | every status but special is reached within three clicks, or four when starting from special |
| HabitTracker.SpecialLeavesCycle | components/HabitTracker.tsx:89-90 | a click on a special day clears it, and clicking never produces special |
| HabitTracker.TodayTwice | components/HabitTracker.tsx:101-105 | today's toggle sets check-in unless already checked in; toggling twice restores the day only from unrecorded or check-in, and otherwise leaves it unrecorded |
| HabitTracker.StreakFrom | components/HabitTracker.tsx:122-131 | a walk with k days left counts at most k days |
| HabitTracker.Streak | components/HabitTracker.tsx:119-133 | the streak never exceeds 365 |
| HabitTracker.CalculateStreak | components/HabitTracker.tsx:119-133 | the backward loop with its early break returns the streak, at most 365 |
| HabitTracker.StreakFromCountsRun | components/HabitTracker.tsx:122-131 | if the k days ending at a day are all check-ins or day-offs, and the walk stops after them, the walk counts exactly the check-ins among those k days |
| HabitTracker.StreakCountsCheckInsBeforeBreak | components/HabitTracker.tsx:119-133 | from today: the streak is the number of check-ins before the first day that is neither a check-in nor a day-off, looking at most 365 days back |
| HabitTracker.StreakToday | components/HabitTracker.tsx:126-130 | a miss, special or unrecorded today gives 0; a day-off today defers to yesterday; a check-in today adds one to it |
| HabitTracker.ThreeDayStreak | components/HabitTracker.tsx:119-133 | check-ins on today and the two days before, with a miss before that, give a streak of 3 |
| HabitTracker.DayOffBridgesStreak | components/HabitTracker.tsx:126-130 | check-in, day-off, check-in gives 2: the day-off keeps the run going but is not counted |
| HabitTracker.RoundedPercent | components/HabitTracker.tsx:160 | `Math.round(c / t * 100) \|\| 0` in exact arithmetic: the nearest integer with halves rounded up; 0 when t is 0; at most 100 when c <= t; 100 when c == t |
| HabitTracker.CalculateConsistency | components/HabitTracker.tsx:135-161 | the rounded percentage that the window's recorded check-in days make of its length, at most 100 |
| HabitTracker.EmptyCalendarStats | components/HabitTracker.tsx:112-117 | an empty calendar has 0 check-ins, streak 0 and consistency 0 in every view |
| HabitTracker.FirstCheckInStats | components/HabitTracker.tsx:112-117 | a single check-in today gives 1 check-in and streak 1, and consistency is one day's rounded share of the window when today lies in it, 0 otherwise |
| HabitTracker.RenderCalendarDays | components/HabitTracker.tsx:163-182 | the rendered cells are exactly the window's days in order, at least 7, the same days the consistency counts |
| HabitTracker.CalendarCellColor | components/HabitTracker.tsx:235-240 | the colour chain of a day button. Its behaviour is stated by CalendarCellColors |
| HabitTracker.CalendarCellColors | components/HabitTracker.tsx:235-240 | green marks exactly check-in; special looks like unrecorded; otherwise distinct statuses get distinct colours |
| HabitTracker.StepAsWritten | components/HabitTracker.tsx:189-220 | both buttons as written, "previous" (lines 189-195) and "next" (lines 214-220): 7 days, `setMonth(getMonth() ± 1)` keeping the day of the month, `setFullYear(getFullYear() ± 1)`. Its behaviour is stated by SetFullYearLandsInYear, StepAsWrittenSkipsMonth and StepAsWrittenPreviousStays |
| HabitTracker.Step | components/HabitTracker.tsx:189-220 | the step of both buttons, "previous" (lines 189-195) and "next" (lines 214-220), with the day clamped to the target month's length. Its behaviour is stated by ClampedDateLands and StepWindowsAdjacent |
| HabitTracker.SetFullYearLandsInYear | components/HabitTracker.tsx:218 | `setFullYear(getFullYear() ± 1)` always lands in the neighbouring year, even from February 29 |
| HabitTracker.ClampedDateLands | components/HabitTracker.tsx:217 | the corrected month step lands in the carried target month for any day of the month |
| HabitTracker.StepWindowsAdjacent | components/HabitTracker.tsx:214-220 | after "next", the window starts the day after the old window ends; after "previous", it ends the day before the old one starts, in every view |
| HabitTracker.StepAsWrittenSkipsMonth | components/HabitTracker.tsx:217 | as written, "next" from a day the next month lacks lands two months on, and the new month window does not follow the old one |
| HabitTracker.StepAsWrittenPreviousStays | components/HabitTracker.tsx:192 | as written, "previous" from a day the preceding month lacks stays in the same month, so the month window does not change |
| HabitTracker.Habit.WithCalendar | components/HabitTracker.tsx:93 | the copy equals the habit in every field except the calendar |
| HabitTracker.Tracker.constructor | components/HabitTracker.tsx:27-28 | the tracker starts on the week view around today |
| HabitTracker.Tracker.UpdateHabitStats | components/HabitTracker.tsx:112-117 | after the update, check-ins, consistency (for the selected view and date) and streak all agree with the calendar, and the calendar and description are unchanged |
| HabitTracker.Tracker.ToggleCheckIn | components/HabitTracker.tsx:81-96 | a new habit whose status on the day is the next step of the click cycle, where every other day, the description and the original are unchanged, and all statistics are current |
| HabitTracker.Tracker.ToggleTodayCheckIn | components/HabitTracker.tsx:98-110 | the same, with today's toggle on today |
| HabitTracker.Tracker.SetCalendarView | components/HabitTracker.tsx:199 | the view changes and the reference day stays |
| HabitTracker.Tracker.Previous | components/HabitTracker.tsx:189-195 | the view stays, and the new window ends the day before the old one starts |
| HabitTracker.Tracker.Next | components/HabitTracker.tsx:214-220 | the view stays, and the new window starts the day after the old one ends |
| HabitStatsGraph.RowCount | components/HabitStatsGraph.tsx:38-48 | the loop runs once for each 7-day step from start that is still on or before end |
| HabitStatsGraph.Row | components/HabitStatsGraph.tsx:41-46 | row k as written: the days from start + 7k to the earlier of its Saturday and the window's end, 1 to 7 of them. Its shape is stated by RowShape |
| HabitStatsGraph.Grid | components/HabitStatsGraph.tsx:38-48 | the rows as written, one per turn of the loop. Its behaviour is stated by RowShape, RowsOrdered, NoDayTwice, CoveredFromSunday and SkipsNextSunday |
| HabitStatsGraph.HeatmapGrid | components/HabitStatsGraph.tsx:23-48 | the window of the view, then the rows over it. Its behaviour is stated by WeekViewOneRow, ShownExactly and MonthOrYearSkipsADay |
| HabitStatsGraph.HeatmapRows | components/HabitStatsGraph.tsx:38-48 | the while loop builds exactly the row partition as written |
| HabitStatsGraph.RowShape | components/HabitStatsGraph.tsx:41-46 | row k has 1 to 7 consecutive days, all inside the window. It runs from start + 7k to the earlier of that day's Saturday and the window's end, so every day of it shares one Sunday-to-Saturday week |
| HabitStatsGraph.RowsOrdered | components/HabitStatsGraph.tsx:38-48 | every day of an earlier row comes before every day of a later row |
| HabitStatsGraph.NoDayTwice | components/HabitStatsGraph.tsx:38-48 | no day appears in two places |
| HabitStatsGraph.WeekViewOneRow | components/HabitStatsGraph.tsx:24-27 | the week view is one row of 7 days, Sunday to Saturday |
| HabitStatsGraph.CoveredFromSunday | components/HabitStatsGraph.tsx:38-48 | when the window starts on a Sunday, every day of it is in row (d - start) / 7 at position (d - start) % 7 |
| HabitStatsGraph.SkipsNextSunday | components/HabitStatsGraph.tsx:47 | when the window starts on another weekday, the next Sunday is inside it but in no row |
| HabitStatsGraph.MonthOrYearSkipsADay | components/HabitStatsGraph.tsx:28-35 | a month or year view whose first day is not a Sunday omits a day of its window |
| HabitStatsGraph.ShownExactly | components/HabitStatsGraph.tsx:38-48 | a day of the window is in some row if and only if its offset from start, modulo 7, is at most the number of days from start's weekday to Saturday |
| HabitStatsGraph.AlignedRowCount | components/HabitStatsGraph.tsx:38-48 | the corrected grid has one row per calendar week that meets the window |
| HabitStatsGraph.HeatmapRowsAligned | components/HabitStatsGraph.tsx:38-48 | the corrected loop, which continues from the day after each row, builds the aligned partition |
| HabitStatsGraph.AlignedCovers | components/HabitStatsGraph.tsx:38-48 | every day of the window appears in the row of its calendar week |
| HabitStatsGraph.AlignedRowShape | components/HabitStatsGraph.tsx:41-45 | each corrected row holds only window days of a single Sunday-to-Saturday week |
| HabitStatsGraph.AlignedAgreesFromSunday | components/HabitStatsGraph.tsx:38-48 | from a Sunday start, the corrected grid and the grid as written coincide |
| HabitStatsGraph.CompletionColor | components/HabitStatsGraph.tsx:50-57 | `getCompletionColor`. Its behaviour is stated by LegendMatchesColor, DarkModeOnlyZero and ColorShowsTier |
| HabitStatsGraph.CompletionTier | components/HabitStatsGraph.tsx:50-57 | the tier is min((count + 1) / 2, 5) and is 0 exactly for count 0 |
| HabitStatsGraph.Legend | components/HabitStatsGraph.tsx:133-157 | the legend has six entries |
| HabitStatsGraph.LegendMatchesColor | components/HabitStatsGraph.tsx:133-157 | each count falls into exactly one legend entry, namely its tier's, and that entry shows the colour the cell gets |
| HabitStatsGraph.TierMonotone | components/HabitStatsGraph.tsx:50-57 | more completed habits never give a lighter tier |
| HabitStatsGraph.DarkModeOnlyZero | components/HabitStatsGraph.tsx:51 | the theme changes the cell colour exactly for count 0 |
| HabitStatsGraph.ColorShowsTier | components/HabitStatsGraph.tsx:50-57 | two counts share a colour exactly when they share a tier |
| HabitStatsGraph.CompletedOn | components/HabitStatsGraph.tsx:60-62 | a habit completed a day when it shows a check-in or special on it. This is used by CompletedHabits |
| HabitStatsGraph.CompletedHabits | components/HabitStatsGraph.tsx:59-63 | the filter keeps exactly the habits with a check-in or special on that day |
| HabitStatsGraph.CompletedHabitsAppend | components/HabitStatsGraph.tsx:59-63 | filtering a concatenation is concatenating the filtered parts, so order is kept |
| HabitStatsGraph.AllCompleted | components/HabitStatsGraph.tsx:92-94 | the count equals the number of habits exactly when every habit completed that day |
| HabitStatsGraph.CellColor | components/HabitStatsGraph.tsx:92-101 | a cell's colour: the completion colour of the number of habits completed that day. Its behaviour is stated by EmptyCell |
| HabitStatsGraph.EmptyCell | components/HabitStatsGraph.tsx:92-101 | a cell shows the zero colour exactly when no habit completed that day |
| ContributionGraph.WeekOf | components/ContribuitionGraph.tsx:32-34 | a column is the 7 days from the Sunday of the current date's week |
| ContributionGraph.ColumnCount | components/ContribuitionGraph.tsx:31-37 | the loop runs once per 7-day step from January 1 still on or before December 31 |
| ContributionGraph.Columns | components/ContribuitionGraph.tsx:31-37 | the columns as written, one week per turn of the loop. Its behaviour is stated by FiftyThreeColumns, ColumnsContiguous and LastColumnHoldsLastDay |
| ContributionGraph.ContributionGrid | components/ContribuitionGraph.tsx:20-37 | the columns over the year's January 1 to December 31. Its behaviour is stated by YearGridDecember31 |
| ContributionGraph.WeekColumns | components/ContribuitionGraph.tsx:27-37 | the while loop builds exactly the columns as written |
| ContributionGraph.YearWeeks | components/ContribuitionGraph.tsx:20-37 | the component's weeks for a year are the columns over that year's window |
| ContributionGraph.YearSpan | components/ContribuitionGraph.tsx:23-24 | the year spans 365 or 366 days; it is a 366-day year from a Saturday exactly when it is a leap year whose January 1 is a Saturday |
| ContributionGraph.FiftyThreeColumns | components/ContribuitionGraph.tsx:31-37 | the loop always builds 53 columns |
| ContributionGraph.ColumnsContiguous | components/ContribuitionGraph.tsx:31-37 | the columns hold the 371 consecutive days from the Sunday of January 1's week, with row i being weekday i |
| ContributionGraph.FirstColumnHoldsFirstDay | components/ContribuitionGraph.tsx:31-34 | January 1 is in the first column, on its weekday's row |
| ContributionGraph.LastColumnHoldsLastDay | components/ContribuitionGraph.tsx:31-37 | December 31 is in the last column if and only if the year is not a 366-day year from a Saturday |
| ContributionGraph.LastDayMissing | components/ContribuitionGraph.tsx:31-37 | in a 366-day year from a Saturday, December 31 is in no column |
| ContributionGraph.YearGridDecember31 | components/ContribuitionGraph.tsx:20-37 | for a calendar year: 53 columns, and December 31 in the last one unless the year is a leap year starting on a Saturday |
| ContributionGraph.Year2028 | components/ContribuitionGraph.tsx:21-24 | 2028 is a leap year whose January 1 (day 21184) is a Saturday |
| ContributionGraph.CoveringColumnCount | components/ContribuitionGraph.tsx:31-37 | the corrected loop runs once per Sunday from January 1's week that is not after December 31 |
| ContributionGraph.CoveringWeekColumns | components/ContribuitionGraph.tsx:27-37 | the corrected while loop, stepping from a Sunday, builds exactly the covering columns |
| ContributionGraph.YearWeeksCovering | components/ContribuitionGraph.tsx:20-37 | the corrected grid of a year is the covering columns over its window |
| ContributionGraph.CoveringHoldsEveryDay | components/ContribuitionGraph.tsx:31-37 | every day of the year is in the corrected grid, in its week's column and its weekday's row |
| ContributionGraph.CoveringAgrees | components/ContribuitionGraph.tsx:31-37 | except for 366-day years from a Saturday, the corrected grid is the grid as written |
| ContributionGraph.CoveringAddsColumn | components/ContribuitionGraph.tsx:31-37 | in such a year the corrected grid has a 54th column, beginning with December 31 |
| ContributionGraph.ContributionLevel | components/ContribuitionGraph.tsx:50-63 | `getContributionLevel`. Its behaviour is stated by LevelTiers and LevelThemeOnlyNeutral |
| ContributionGraph.CellColor | components/ContribuitionGraph.tsx:99-107 | a cell's colour: the level of the status recorded for that day. Its behaviour is stated by LevelTiers |
| ContributionGraph.LevelTiers | components/ContribuitionGraph.tsx:50-63 | the neutral colour marks exactly day-off and unrecorded days; otherwise distinct statuses get distinct colours |
| ContributionGraph.LevelThemeOnlyNeutral | components/ContribuitionGraph.tsx:58-61 | the theme changes a cell's colour exactly for day-off and unrecorded days |

## Left out

- **Server and session code:** HTTP calls, persistence, sessions and authentication are not modelled.
  - This covers `editHabit`, adding and removing habits, the API routes and the database layer.
  - They do not compute statistics. The model ends at the updated habit record `editHabit` would receive.
- **Rendering:** JSX, animation, tooltips, labels, the month label row and the automatic scroll to the
  current month (components/ContribuitionGraph.tsx:39-47) are not modelled. Only the cell colour classes are.
- **The wall clock:** it is a parameter. `today` is passed to the streak and toggle operations, and the
  contribution graph takes its `year`.
- **Date keys:** the calendar is keyed by day number, not by `yyyy-MM-dd` strings.
  - The tracker builds its keys with `toISOString()`, which is UTC. The windows and the heatmap use local time.
  - Outside UTC, the two can name different days. The model uses one local day throughout and does not model time zones.
- **Floating point:** it is not modelled. `Math.round((checkIns / totalDays) * 100)` is replaced by exact half-up rounding. The quotient is never `NaN`, because every window has at least 7 days.
- **Integer width:** the `Habit` record's numeric fields are unbounded integers.
- **Dates:** there is no time-of-day or millisecond timestamp, and no timezone or DST shift. A `Date` is a whole local day.
- **Special days and the tracker:** only check-in counts. The heatmap counts special as completed
  (components/HabitStatsGraph.tsx:61).
  - The tracker's `checkIns`, streak and consistency count only `'check-in'` (components/HabitTracker.tsx:113,
    126, 157). A special day ends a streak.
  - The tracker's cell colour treats special like unrecorded, and its click cycle sends a special day to unrecorded.
- **Special days and the graphs:** the heatmap counts special as completed. The contribution graph gives it its own colour.
- **HabitTracker.DayOffBridgesStreak:** check-in, day-off, check-in gives 2, because the loop at
  components/HabitTracker.tsx:126-130 counts only check-ins.
- **HabitTracker.TodayTwice:** toggling today twice restores the day only from unrecorded or check-in. From a miss, day-off or special it ends unrecorded.
- **HabitTracker.Tracker.Next and Previous:** they use the corrected month step, which clamps the day to the
  target month's length.
  - The code's step, `HabitTracker.StepAsWritten`, is kept. It is shown to skip a month going forward and to stay on the same month going back (see "## Findings").
  - In the week and year views the two steps coincide.
- Gregorian.MakeDate: years are taken as given, for dates in years from 100 on and inside the `Date` range.
  - JavaScript's `new Date(y, m, d)` reads a year 0..99 as 1900..1999. The model does not.
  - JavaScript turns a time beyond 8.64e15 ms either side of 1970 into an Invalid Date. The model's days are unbounded.
  - `setFullYear` has no such mapping. So about 1,900 presses of "previous" in the year view reach a year below 100,
    where the component's window would be built in the 1900s. `Windows.ResolveWindow`'s promise that the window
    contains its date holds only in the modelled range.
- **Default heatmap view:** `HabitStatsGraph.HeatmapGrid` always takes a view. The component's default
  `view = 'year'` (components/HabitStatsGraph.tsx:19) is not modelled, and callers must pass the view.

## Findings

| source | as written | input that shows it | evidently intended | confidence | as-written member | corrected member |
|---|---|---|---|---|---|---|
| components/HabitTracker.tsx:217 | "next" in the month view keeps the day of the month and lets `setMonth` overflow | January 31, 2025 goes to March 3, 2025, so this press skips February (likewise March 31, May 31, August 31, October 31) | the next month, with the day clamped to its length | not executed | HabitTracker.StepAsWrittenSkipsMonth | HabitTracker.StepWindowsAdjacent |
| components/HabitTracker.tsx:192 | "previous" in the month view keeps the day of the month and lets `setMonth` overflow | March 31, 2025 goes to "February 31", which is March 3, 2025, so the view stays on March (likewise May 31, July 31, October 31, December 31) | the previous month, with the day clamped to its length | not executed | HabitTracker.StepAsWrittenPreviousStays | HabitTracker.StepWindowsAdjacent |
| components/HabitStatsGraph.tsx:47 | rows advance from the window's first day by 7 days, while each row stops at a Saturday | month view of January 2025 (January 1 is a Wednesday): January 5-7 (Sunday to Tuesday), and the Sunday to Tuesday of every later week, are in no row | each row is one Sunday-to-Saturday week of the window, and every day of the window is shown | not executed | HabitStatsGraph.ShownExactly | HabitStatsGraph.AlignedCovers |
| components/ContribuitionGraph.tsx:31 | exactly 53 weekly columns, counted from January 1 | 2028, a leap year beginning on Saturday (day 21184): Sunday, December 31, 2028 is in no column | one column for every week that meets the year, 54 in such a year | not executed | ContributionGraph.LastDayMissing | ContributionGraph.CoveringHoldsEveryDay |
