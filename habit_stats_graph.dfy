/**
 * The multi-habit heatmap: the days of the selected window laid out in
 * columns ("rows" of the `weeks` array), each day coloured by how many
 * habits were completed on it.
 */
module HabitStatsGraph {
  import opened Gregorian
  import opened Calendars
  import opened Windows

  // ---------------------------------------------------------------------------
  // The row partition, as written

  /** Number of rows the loop produces: one per start `start + 7 * k` that is not after `end`. */
  function RowCount(start: Date, end: Date): (n: nat)
    ensures start <= end ==> n >= 1 && start + 7 * (n - 1) <= end < start + 7 * n
    ensures start > end ==> n == 0
  {
    if start <= end then (end - start) / 7 + 1 else 0
  }

  /** Row `k`: from `start + 7 * k` to the Saturday of that day's week, cut off at `end`. */
  function Row(start: Date, end: Date, k: nat): (row: seq<Date>)
    requires start + 7 * k <= end
    ensures 1 <= |row| <= 7
  {
    var first := start + 7 * k;
    EachDayOfInterval(first, Min(EndOfWeek(first), end))
  }

  /** All rows of the window [start, end]. */
  function Grid(start: Date, end: Date): (grid: seq<seq<Date>>)
    ensures |grid| == RowCount(start, end)
  {
    seq(RowCount(start, end), k requires 0 <= k < RowCount(start, end) => Row(start, end, k))
  }

  /**
   * The `weeks` loop: each row starts where the previous one started plus one
   * week (`addWeeks(currentWeekStart, 1)`), and ends at `endOfWeek` of its
   * start or at the end of the window, whichever comes first.
   */
  method HeatmapRows(start: Date, end: Date) returns (weeks: seq<seq<Date>>)
    ensures weeks == Grid(start, end)
  {
    weeks := [];
    var currentWeekStart := start;
    while currentWeekStart <= end
      invariant currentWeekStart == start + 7 * |weeks|
      invariant |weeks| <= RowCount(start, end)
      invariant weeks == Grid(start, end)[..|weeks|]
      decreases end - currentWeekStart
    {
      var weekEnd := EndOfWeek(currentWeekStart);
      var days := EachDayOfInterval(currentWeekStart, if weekEnd > end then end else weekEnd);
      weeks := weeks + [days];
      currentWeekStart := currentWeekStart + 7;
    }
  }

  /** The rows of the heatmap for a view around `date`. */
  function HeatmapGrid(view: View, date: Date): seq<seq<Date>>
  {
    var w := ResolveWindow(view, date);
    Grid(w.start, w.end)
  }

  /**
   * Every row is a non-empty run of consecutive days inside the window, from
   * `start + 7 * k` to the Saturday of that day's week or the window's end,
   * whichever comes first, so all of it lies in one Sunday-to-Saturday week.
   */
  lemma RowShape(start: Date, end: Date, k: nat)
    requires k < RowCount(start, end)
    ensures var row := Grid(start, end)[k];
      && 1 <= |row| <= 7
      && row[0] == start + 7 * k
      && row[|row| - 1] == Min(EndOfWeek(start + 7 * k), end)
      && (forall i :: 0 <= i < |row| ==> row[i] == start + 7 * k + i && start <= row[i] <= end)
      && (forall i :: 0 <= i < |row| ==> StartOfWeek(row[i]) == StartOfWeek(start + 7 * k))
  {
    var first := start + 7 * k;
    var row := Grid(start, end)[k];
    forall i | 0 <= i < |row|
      ensures StartOfWeek(row[i]) == StartOfWeek(first)
    {
      SameWeek(StartOfWeek(first), row[i]);
    }
  }

  /**
   * Exactly which days of the window the rows show: a day is in some row if and
   * only if it lies no further into its seven-day stride from `start` than the
   * number of days from `start`'s weekday to Saturday. From a Wednesday start,
   * say, every Sunday, Monday and Tuesday is missing.
   */
  lemma ShownExactly(start: Date, end: Date, d: Date)
    requires start <= d <= end
    ensures (exists k, i :: 0 <= k < RowCount(start, end) && 0 <= i < |Grid(start, end)[k]| && Grid(start, end)[k][i] == d)
        <==> (d - start) % 7 <= 6 - DayOfWeek(start)
  {
    var k, r := (d - start) / 7, (d - start) % 7;
    assert d == start + 7 * k + r;
    if r <= 6 - DayOfWeek(start) {
      RowReaches(start, end, k);
      assert Grid(start, end)[k][r] == d;
    } else {
      forall m, i | 0 <= m < RowCount(start, end) && 0 <= i < |Grid(start, end)[m]|
        ensures Grid(start, end)[m][i] != d
      {
        RowPosition(start, end, m, i);
      }
    }
  }

  /** Day `i` of row `m` is `start + 7 * m + i`, and `i` never passes the distance from `start`'s weekday to Saturday. */
  lemma RowPosition(start: Date, end: Date, m: nat, i: nat)
    requires m < RowCount(start, end) && i < |Grid(start, end)[m]|
    ensures Grid(start, end)[m][i] == start + 7 * m + i
    ensures i <= 6 - DayOfWeek(start)
  {
    RowShape(start, end, m);
    DayOfWeekPeriodic(start, m);
  }

  /** Row `m` reaches as far as its Saturday or the window's end. */
  lemma RowReaches(start: Date, end: Date, m: nat)
    requires m < RowCount(start, end)
    ensures |Grid(start, end)[m]| == Min(6 - DayOfWeek(start), end - (start + 7 * m)) + 1
  {
    RowShape(start, end, m);
    DayOfWeekPeriodic(start, m);
  }

  /** Every day of an earlier row comes before every day of a later row. */
  lemma RowsOrdered(start: Date, end: Date, k1: nat, i1: nat, k2: nat, i2: nat)
    requires k1 < k2 < RowCount(start, end)
    requires i1 < |Grid(start, end)[k1]| && i2 < |Grid(start, end)[k2]|
    ensures Grid(start, end)[k1][i1] < Grid(start, end)[k2][i2]
  {
    RowPosition(start, end, k1, i1);
    RowPosition(start, end, k2, i2);
  }

  /** No day appears at two places of the grid. */
  lemma NoDayTwice(start: Date, end: Date, k1: nat, i1: nat, k2: nat, i2: nat)
    requires k1 < RowCount(start, end) && k2 < RowCount(start, end)
    requires i1 < |Grid(start, end)[k1]| && i2 < |Grid(start, end)[k2]|
    requires k1 != k2 || i1 != i2
    ensures Grid(start, end)[k1][i1] != Grid(start, end)[k2][i2]
  {
    RowPosition(start, end, k1, i1);
    RowPosition(start, end, k2, i2);
  }

  /** The week view is a single row of the seven days Sunday to Saturday. */
  lemma WeekViewOneRow(date: Date)
    ensures var grid := HeatmapGrid(Week, date);
      && |grid| == 1 && |grid[0]| == 7
      && grid[0][0] == StartOfWeek(date)
      && forall i :: 0 <= i < 7 ==> DayOfWeek(grid[0][i]) == i
  {
    var s := StartOfWeek(date);
    assert RowCount(s, EndOfWeek(date)) == 1;
    var row := HeatmapGrid(Week, date)[0];
    assert EndOfWeek(s) == s + 6 by {
      SameWeek(s, s);
    }
    forall i | 0 <= i < 7
      ensures DayOfWeek(row[i]) == i
    {
      assert row[i] == s + i;
    }
  }

  /** When the window starts on a Sunday, every day of it lies in row `(d - start) / 7`. */
  lemma CoveredFromSunday(start: Date, end: Date, d: Date)
    requires DayOfWeek(start) == 0 && start <= d <= end
    ensures var k, i := (d - start) / 7, (d - start) % 7;
      && k < RowCount(start, end) && i < |Grid(start, end)[k]| && Grid(start, end)[k][i] == d
  {
    var k, i := (d - start) / 7, (d - start) % 7;
    assert d == start + 7 * k + i;
    var first := start + 7 * k;
    DayOfWeekPeriodic(start, k);
    SameWeek(first, first);
    assert EndOfWeek(first) == first + 6;
  }

  /**
   * When the window does not start on a Sunday, the Sunday after its first day
   * is in no row: row 0 stops at the Saturday before it, and every later row
   * starts after it.
   */
  lemma SkipsNextSunday(start: Date, end: Date)
    requires DayOfWeek(start) != 0 && start + 7 - DayOfWeek(start) <= end
    ensures var sunday := start + 7 - DayOfWeek(start);
      && DayOfWeek(sunday) == 0 && start < sunday <= end
      && forall k, i :: 0 <= k < RowCount(start, end) && 0 <= i < |Grid(start, end)[k]| ==> Grid(start, end)[k][i] != sunday
  {
    var sunday := start + 7 - DayOfWeek(start);
    DayOfWeekPeriodic(StartOfWeek(start), 1);
    forall k, i | 0 <= k < RowCount(start, end) && 0 <= i < |Grid(start, end)[k]|
      ensures Grid(start, end)[k][i] != sunday
    {
      RowShape(start, end, k);
      if k == 0 {
        assert Grid(start, end)[0][i] <= EndOfWeek(start);
      }
    }
  }

  /** Every month and year window that does not begin on a Sunday loses a day from the heatmap. */
  lemma MonthOrYearSkipsADay(view: View, date: Date)
    requires view != Week && DayOfWeek(ResolveWindow(view, date).start) != 0
    ensures var w := ResolveWindow(view, date);
      var sunday := w.start + 7 - DayOfWeek(w.start);
      && w.start < sunday <= w.end
      && forall k, i :: 0 <= k < RowCount(w.start, w.end) && 0 <= i < |Grid(w.start, w.end)[k]| ==> Grid(w.start, w.end)[k][i] != sunday
  {
    var w := ResolveWindow(view, date);
    WindowAtLeastAWeek(view, date);
    SkipsNextSunday(w.start, w.end);
  }

  // ---------------------------------------------------------------------------
  // The row partition, aligned to Sunday-to-Saturday weeks

  /** With rows aligned to weeks: one row per week that meets the window. */
  function AlignedRowCount(start: Date, end: Date): (n: nat)
    ensures start <= end ==> n >= 1 && StartOfWeek(start) + 7 * (n - 1) <= end < StartOfWeek(start) + 7 * n
    ensures start > end ==> n == 0
  {
    if start <= end then (end - StartOfWeek(start)) / 7 + 1 else 0
  }

  /** Row `k` of the aligned grid: the days of the `k`-th week of the window that lie in the window. */
  function AlignedRow(start: Date, end: Date, k: nat): (row: seq<Date>)
    requires k < AlignedRowCount(start, end)
    ensures 1 <= |row| <= 7
  {
    var sunday := StartOfWeek(start) + 7 * k;
    EachDayOfInterval(Max(start, sunday), Min(sunday + 6, end))
  }

  function AlignedGrid(start: Date, end: Date): (grid: seq<seq<Date>>)
    ensures |grid| == AlignedRowCount(start, end)
  {
    seq(AlignedRowCount(start, end), k requires 0 <= k < AlignedRowCount(start, end) => AlignedRow(start, end, k))
  }

  /** The loop with each row starting the day after the previous row's Saturday. */
  method HeatmapRowsAligned(start: Date, end: Date) returns (weeks: seq<seq<Date>>)
    ensures weeks == AlignedGrid(start, end)
  {
    weeks := [];
    var currentWeekStart := start;
    while currentWeekStart <= end
      invariant currentWeekStart == Max(start, StartOfWeek(start) + 7 * |weeks|)
      invariant |weeks| <= AlignedRowCount(start, end)
      invariant weeks == AlignedGrid(start, end)[..|weeks|]
      decreases end - currentWeekStart
    {
      var weekEnd := EndOfWeek(currentWeekStart);
      assert weekEnd == StartOfWeek(start) + 7 * |weeks| + 6 by {
        StartOfWeekShift(start, |weeks|);
        DayOfWeekPeriodic(StartOfWeek(start), |weeks|);
        SameWeek(StartOfWeek(start) + 7 * |weeks|, currentWeekStart);
      }
      var days := EachDayOfInterval(currentWeekStart, if weekEnd > end then end else weekEnd);
      weeks := weeks + [days];
      currentWeekStart := weekEnd + 1;
    }
  }

  /** Every day of the window lies in the aligned grid, in the row of its week. */
  lemma AlignedCovers(start: Date, end: Date, d: Date)
    requires start <= d <= end
    ensures var k := (d - StartOfWeek(start)) / 7;
      && k < AlignedRowCount(start, end)
      && exists i :: 0 <= i < |AlignedGrid(start, end)[k]| && AlignedGrid(start, end)[k][i] == d
  {
    var sw := StartOfWeek(start);
    var k := (d - sw) / 7;
    var row := AlignedGrid(start, end)[k];
    var i := d - Max(start, sw + 7 * k);
    assert 0 <= i < |row| && row[i] == d;
  }

  /** Every row of the aligned grid lies inside the window and inside one Sunday-to-Saturday week. */
  lemma AlignedRowShape(start: Date, end: Date, k: nat)
    requires k < AlignedRowCount(start, end)
    ensures var row := AlignedGrid(start, end)[k];
      forall i :: 0 <= i < |row| ==> start <= row[i] <= end && StartOfWeek(row[i]) == StartOfWeek(start) + 7 * k
  {
    var sunday := StartOfWeek(start) + 7 * k;
    var row := AlignedGrid(start, end)[k];
    DayOfWeekPeriodic(StartOfWeek(start), k);
    forall i | 0 <= i < |row|
      ensures start <= row[i] <= end && StartOfWeek(row[i]) == sunday
    {
      SameWeek(sunday, row[i]);
    }
  }

  /** For a window that starts on a Sunday, the aligned grid is the grid as written. */
  lemma AlignedAgreesFromSunday(start: Date, end: Date)
    requires DayOfWeek(start) == 0
    ensures AlignedGrid(start, end) == Grid(start, end)
  {
    SameWeek(start, start);
    assert AlignedRowCount(start, end) == RowCount(start, end);
    forall k | 0 <= k < RowCount(start, end)
      ensures AlignedGrid(start, end)[k] == Grid(start, end)[k]
    {
      var first := start + 7 * k;
      DayOfWeekPeriodic(start, k);
      SameWeek(first, first);
    }
  }

  // ---------------------------------------------------------------------------
  // Colours

  /** The colour tier of a completion count: 0, 1-2, 3-4, 5-6, 7-8, 9 or more. */
  function CompletionTier(count: nat): (t: nat)
    ensures t == Min((count + 1) / 2, 5)
    ensures t == 0 <==> count == 0
  {
    if count == 0 then 0
    else if count <= 2 then 1
    else if count <= 4 then 2
    else if count <= 6 then 3
    else if count <= 8 then 4
    else 5
  }

  /** `getCompletionColor`. */
  function CompletionColor(count: nat, darkMode: bool): string
  {
    if count == 0 then (if darkMode then "bg-[#20242C90]" else "bg-[#E5E6E6]")
    else if count <= 2 then "bg-green-100"
    else if count <= 4 then "bg-green-200"
    else if count <= 6 then "bg-green-300"
    else if count <= 8 then "bg-green-400"
    else "bg-green-500"
  }

  /** One entry of the legend under the heatmap: a swatch and the counts it stands for. */
  datatype LegendEntry = LegendEntry(color: string, low: nat, high: Option<nat>)

  /** The legend, in the order it is shown; the last entry has no upper bound ("9+"). */
  function Legend(darkMode: bool): (legend: seq<LegendEntry>)
    ensures |legend| == 6
  {
    [ LegendEntry(if darkMode then "bg-[#20242C90]" else "bg-[#E5E6E6]", 0, Some(0)),
      LegendEntry("bg-green-100", 1, Some(2)),
      LegendEntry("bg-green-200", 3, Some(4)),
      LegendEntry("bg-green-300", 5, Some(6)),
      LegendEntry("bg-green-400", 7, Some(8)),
      LegendEntry("bg-green-500", 9, None) ]
  }

  predicate InEntry(count: nat, e: LegendEntry)
  {
    e.low <= count && (e.high.None? || count <= e.high.value)
  }

  /** Each count falls in exactly one legend entry, the entry of its tier, and is drawn in that entry's colour. */
  lemma LegendMatchesColor(count: nat, darkMode: bool)
    ensures var legend := Legend(darkMode);
      && InEntry(count, legend[CompletionTier(count)])
      && CompletionColor(count, darkMode) == legend[CompletionTier(count)].color
      && forall j :: 0 <= j < 6 && InEntry(count, legend[j]) ==> j == CompletionTier(count)
  {
  }

  /** More completed habits never give a lighter tier. */
  lemma TierMonotone(c1: nat, c2: nat)
    requires c1 <= c2
    ensures CompletionTier(c1) <= CompletionTier(c2)
  {
  }

  /** Dark mode changes only the colour of days with no completed habit. */
  lemma DarkModeOnlyZero(count: nat)
    ensures CompletionColor(count, true) == CompletionColor(count, false) <==> count > 0
  {
  }

  /** Distinct tiers have distinct colours, so the colour shows the tier. */
  lemma ColorShowsTier(c1: nat, c2: nat, darkMode: bool)
    ensures CompletionColor(c1, darkMode) == CompletionColor(c2, darkMode) <==> CompletionTier(c1) == CompletionTier(c2)
  {
  }

  // ---------------------------------------------------------------------------
  // Completed habits

  datatype GraphHabit = GraphHabit(name: string, calendar: Calendar)

  /** A habit counts as completed on a day marked check-in or special. */
  predicate CompletedOn(h: GraphHabit, d: Date)
  {
    StatusOn(h.calendar, d) == Some(CheckIn) || StatusOn(h.calendar, d) == Some(Special)
  }

  /** `getCompletedHabits`: the habits completed on `d`, in their original order. */
  function CompletedHabits(habits: seq<GraphHabit>, d: Date): (r: seq<GraphHabit>)
    ensures |r| <= |habits|
    ensures forall h :: h in r <==> h in habits && CompletedOn(h, d)
  {
    if habits == [] then []
    else (if CompletedOn(habits[0], d) then [habits[0]] else []) + CompletedHabits(habits[1..], d)
  }

  /** Filtering keeps the order: it distributes over concatenation. */
  lemma {:induction false} CompletedHabitsAppend(a: seq<GraphHabit>, b: seq<GraphHabit>, d: Date)
    ensures CompletedHabits(a + b, d) == CompletedHabits(a, d) + CompletedHabits(b, d)
  {
    if a == [] {
      assert a + b == b;
    } else {
      assert (a + b)[0] == a[0];
      assert (a + b)[1..] == a[1..] + b;
      CompletedHabitsAppend(a[1..], b, d);
    }
  }

  /** The count is the full number of habits exactly when every habit was completed. */
  lemma {:induction false} AllCompleted(habits: seq<GraphHabit>, d: Date)
    ensures |CompletedHabits(habits, d)| == |habits| <==> forall i :: 0 <= i < |habits| ==> CompletedOn(habits[i], d)
  {
    if habits != [] {
      AllCompleted(habits[1..], d);
      if forall i :: 0 <= i < |habits| - 1 ==> CompletedOn(habits[1..][i], d) {
        assert forall i :: 1 <= i < |habits| ==> CompletedOn(habits[i], d) by {
          forall i | 1 <= i < |habits| ensures CompletedOn(habits[i], d) {
            assert habits[i] == habits[1..][i - 1];
          }
        }
      }
    }
  }

  /** The colour of a heatmap cell. */
  function CellColor(habits: seq<GraphHabit>, d: Date, darkMode: bool): string
  {
    CompletionColor(|CompletedHabits(habits, d)|, darkMode)
  }

  /** A day on which no habit was completed is drawn in the empty colour, and only such a day. */
  lemma EmptyCell(habits: seq<GraphHabit>, d: Date, darkMode: bool)
    ensures CellColor(habits, d, darkMode) == CompletionColor(0, darkMode)
        <==> forall h :: h in habits ==> !CompletedOn(h, d)
  {
    if exists h :: h in habits && CompletedOn(h, d) {
      var h :| h in habits && CompletedOn(h, d);
      assert h in CompletedHabits(habits, d);
    } else {
      var r := CompletedHabits(habits, d);
      if r != [] {
        assert r[0] in r;
      }
    }
  }
}
