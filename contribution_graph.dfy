/**
 * The single-habit contribution grid: the current year drawn as columns of
 * Sunday-to-Saturday weeks, each day coloured by the habit's status on it.
 */
module ContributionGraph {
  import opened Gregorian
  import opened Calendars
  import opened Windows

  // ---------------------------------------------------------------------------
  // The week columns, as written

  /** The Sunday-to-Saturday week around `d`. */
  function WeekOf(d: Date): (days: seq<Date>)
    ensures |days| == 7
    ensures forall i :: 0 <= i < 7 ==> days[i] == StartOfWeek(d) + i
  {
    EachDayOfInterval(StartOfWeek(d), EndOfWeek(d))
  }

  /** A year runs from January 1 to December 31, 365 or 366 days. */
  predicate IsYearSpan(first: Date, last: Date)
  {
    364 <= last - first <= 365
  }

  /** The year of 366 days whose January 1 is a Saturday: the one shape the grid as written does not fit. */
  predicate IsLongYearFromSaturday(first: Date, last: Date)
  {
    last - first == 365 && DayOfWeek(first) == 6
  }

  /** Number of loop turns: one per day `first + 7 * k` that is not after `last`. */
  function ColumnCount(first: Date, last: Date): (n: nat)
    requires first <= last
    ensures first + 7 * (n - 1) <= last < first + 7 * n
  {
    (last - first) / 7 + 1
  }

  /** The grid as the loop builds it: column `k` is the week around `first + 7 * k`. */
  function Columns(first: Date, last: Date): (grid: seq<seq<Date>>)
    requires first <= last
    ensures |grid| == ColumnCount(first, last)
  {
    seq(ColumnCount(first, last), k => WeekOf(first + 7 * k))
  }

  /** The grid of the year: from `new Date(year, 0, 1)` to `new Date(year, 11, 31)`. */
  function ContributionGrid(year: int): (grid: seq<seq<Date>>)
  {
    var w := YearBounds(year);
    Columns(w.start, w.end)
  }

  /** The component: the bounds of the year of `today`, then the `weeks` loop over them. */
  method YearWeeks(year: int) returns (weeks: seq<seq<Date>>)
    ensures weeks == ContributionGrid(year)
  {
    var bounds := YearBounds(year);
    weeks := WeekColumns(bounds.start, bounds.end);
  }

  /** The `weeks` loop: the week around `currentDate`, then `currentDate` one week on, while not after `yearEnd`. */
  method WeekColumns(yearStart: Date, yearEnd: Date) returns (weeks: seq<seq<Date>>)
    requires yearStart <= yearEnd
    ensures weeks == Columns(yearStart, yearEnd)
  {
    weeks := [];
    var currentDate := yearStart;
    while currentDate <= yearEnd
      invariant currentDate == yearStart + 7 * |weeks|
      invariant |weeks| <= ColumnCount(yearStart, yearEnd)
      invariant weeks == Columns(yearStart, yearEnd)[..|weeks|]
      decreases yearEnd - currentDate
    {
      var weekStart := StartOfWeek(currentDate);
      var weekEnd := EndOfWeek(currentDate);
      var days := EachDayOfInterval(weekStart, weekEnd);
      weeks := weeks + [days];
      currentDate := currentDate + 7;
    }
  }

  /** The year window is a span of 365 or 366 days, of 366 exactly in leap years. */
  lemma YearSpan(year: int)
    ensures var w := YearBounds(year);
      && w.start == DaysBeforeYear(year)
      && IsYearSpan(w.start, w.end)
      && (IsLongYearFromSaturday(w.start, w.end) <==> IsLeapYear(year) && DayOfWeek(DaysBeforeYear(year)) == 6)
  {
  }

  /** The loop always runs 53 times, in common and in leap years. */
  lemma FiftyThreeColumns(first: Date, last: Date)
    requires IsYearSpan(first, last)
    ensures ColumnCount(first, last) == 53
  {
  }

  /**
   * The grid is the 371 consecutive days from the Sunday on or before
   * January 1, seven to a column, each column Sunday to Saturday.
   */
  lemma ColumnsContiguous(first: Date, last: Date, k: nat, i: nat)
    requires IsYearSpan(first, last) && k < 53 && i < 7
    ensures && |Columns(first, last)| == 53
      && Columns(first, last)[k][i] == StartOfWeek(first) + 7 * k + i
      && DayOfWeek(Columns(first, last)[k][i]) == i
  {
    FiftyThreeColumns(first, last);
    StartOfWeekShift(first, k);
    DayOfWeekPeriodic(StartOfWeek(first), k);
    assert DayOfWeek(StartOfWeek(first) + 7 * k + i) == i;
  }

  /** The first column holds January 1, on the row of its weekday. */
  lemma FirstColumnHoldsFirstDay(first: Date, last: Date)
    requires IsYearSpan(first, last)
    ensures Columns(first, last)[0][DayOfWeek(first)] == first
  {
    ColumnsContiguous(first, last, 0, DayOfWeek(first));
  }

  /** The last column holds December 31 except in a year of 366 days that begins on a Saturday. */
  lemma LastColumnHoldsLastDay(first: Date, last: Date)
    requires IsYearSpan(first, last)
    ensures |Columns(first, last)| == 53
    ensures last in Columns(first, last)[52] <==> !IsLongYearFromSaturday(first, last)
  {
    FiftyThreeColumns(first, last);
    StartOfWeekShift(first, 52);
    var start := StartOfWeek(first) + 7 * 52;
    var column := Columns(first, last)[52];
    assert forall i :: 0 <= i < 7 ==> column[i] == start + i;
    if last <= start + 6 {
      assert column[last - start] == last;
    }
  }

  /** In such a year, December 31 is in no column at all. */
  lemma LastDayMissing(first: Date, last: Date)
    requires IsYearSpan(first, last) && IsLongYearFromSaturday(first, last)
    ensures forall k, i :: 0 <= k < |Columns(first, last)| && 0 <= i < |Columns(first, last)[k]| ==>
              Columns(first, last)[k][i] != last
  {
    FiftyThreeColumns(first, last);
    forall k, i | 0 <= k < |Columns(first, last)| && 0 <= i < |Columns(first, last)[k]|
      ensures Columns(first, last)[k][i] != last
    {
      ColumnsContiguous(first, last, k, i);
    }
  }

  /** For the year grid: 53 columns, and December 31 in the last one unless the year is a leap year beginning on a Saturday. */
  lemma YearGridDecember31(year: int)
    ensures |ContributionGrid(year)| == 53
    ensures YearBounds(year).end in ContributionGrid(year)[52]
        <==> !(IsLeapYear(year) && DayOfWeek(DaysBeforeYear(year)) == 6)
  {
    var w := YearBounds(year);
    YearSpan(year);
    LastColumnHoldsLastDay(w.start, w.end);
  }

  /** 2028 is such a year: a leap year whose January 1 (day 21184) is a Saturday. */
  lemma Year2028()
    ensures IsLeapYear(2028) && DaysBeforeYear(2028) == 21184 && DayOfWeek(21184) == 6
  {
    DaysBeforeYearClosedForm(2028);
  }

  // ---------------------------------------------------------------------------
  // The week columns, covering the whole year

  /** With columns from the week of January 1 to the week of December 31. */
  function CoveringColumnCount(first: Date, last: Date): (n: nat)
    requires first <= last
    ensures StartOfWeek(first) + 7 * (n - 1) <= last < StartOfWeek(first) + 7 * n
  {
    (last - StartOfWeek(first)) / 7 + 1
  }

  function CoveringColumns(first: Date, last: Date): (grid: seq<seq<Date>>)
    requires first <= last
    ensures |grid| == CoveringColumnCount(first, last)
  {
    seq(CoveringColumnCount(first, last), k => WeekOf(StartOfWeek(first) + 7 * k))
  }

  function CoveringGrid(year: int): seq<seq<Date>>
  {
    var w := YearBounds(year);
    CoveringColumns(w.start, w.end)
  }

  /** The component with the loop started from the Sunday on or before January 1. */
  method YearWeeksCovering(year: int) returns (weeks: seq<seq<Date>>)
    ensures weeks == CoveringGrid(year)
  {
    var bounds := YearBounds(year);
    weeks := CoveringWeekColumns(bounds.start, bounds.end);
  }

  method CoveringWeekColumns(yearStart: Date, yearEnd: Date) returns (weeks: seq<seq<Date>>)
    requires yearStart <= yearEnd
    ensures weeks == CoveringColumns(yearStart, yearEnd)
  {
    weeks := [];
    var currentDate := StartOfWeek(yearStart);
    while currentDate <= yearEnd
      invariant currentDate == StartOfWeek(yearStart) + 7 * |weeks|
      invariant |weeks| <= CoveringColumnCount(yearStart, yearEnd)
      invariant weeks == CoveringColumns(yearStart, yearEnd)[..|weeks|]
      decreases yearEnd - currentDate
    {
      var weekStart := StartOfWeek(currentDate);
      var weekEnd := EndOfWeek(currentDate);
      var days := EachDayOfInterval(weekStart, weekEnd);
      weeks := weeks + [days];
      currentDate := currentDate + 7;
    }
  }

  /** Every day of the year lies in the covering grid, in the column of its week and the row of its weekday. */
  lemma CoveringHoldsEveryDay(first: Date, last: Date, d: Date)
    requires first <= d <= last
    ensures var k := (d - StartOfWeek(first)) / 7;
      && k < |CoveringColumns(first, last)|
      && CoveringColumns(first, last)[k][DayOfWeek(d)] == d
  {
    var sunday := StartOfWeek(first);
    var k := (d - sunday) / 7;
    DayOfWeekPeriodic(sunday, k);
    SameWeek(sunday + 7 * k, d);
  }

  /** Outside that one shape of year, the covering grid is the grid as written. */
  lemma CoveringAgrees(first: Date, last: Date)
    requires IsYearSpan(first, last) && !IsLongYearFromSaturday(first, last)
    ensures CoveringColumns(first, last) == Columns(first, last)
  {
    FiftyThreeColumns(first, last);
    assert CoveringColumnCount(first, last) == 53;
    forall k | 0 <= k < 53
      ensures CoveringColumns(first, last)[k] == Columns(first, last)[k]
    {
      StartOfWeekShift(first, k);
      DayOfWeekPeriodic(StartOfWeek(first), k);
      SameWeek(StartOfWeek(first) + 7 * k, StartOfWeek(first) + 7 * k);
    }
  }

  /** In that shape of year the covering grid has a 54th column, which starts on December 31. */
  lemma CoveringAddsColumn(first: Date, last: Date)
    requires IsYearSpan(first, last) && IsLongYearFromSaturday(first, last)
    ensures |CoveringColumns(first, last)| == 54
    ensures CoveringColumns(first, last)[53][0] == last
  {
    var sunday := StartOfWeek(first);
    DayOfWeekPeriodic(sunday, 53);
    SameWeek(sunday + 7 * 53, sunday + 7 * 53);
  }

  // ---------------------------------------------------------------------------
  // Colours

  /** The neutral colour of the current theme. */
  function Neutral(darkMode: bool): string
  {
    if darkMode then "bg-[#20242C90]" else "bg-[#E5E6E6]"
  }

  /** `getContributionLevel`. */
  function ContributionLevel(status: Option<DayStatus>, darkMode: bool): string
  {
    match status
    case Some(CheckIn) => "bg-green-500"
    case Some(Special) => "bg-green-600"
    case Some(Miss) => "bg-red-300/50"
    case Some(DayOff) => Neutral(darkMode)
    case None => Neutral(darkMode)
  }

  /**
   * Day-off and unrecorded days share the neutral colour; check-in, special
   * and miss each have a colour of their own, distinct from it and from each other.
   */
  lemma LevelTiers(s: Option<DayStatus>, t: Option<DayStatus>, darkMode: bool)
    ensures ContributionLevel(s, darkMode) == Neutral(darkMode) <==> s == None || s == Some(DayOff)
    ensures ContributionLevel(s, darkMode) == ContributionLevel(t, darkMode)
        <==> s == t || (s in {None, Some(DayOff)} && t in {None, Some(DayOff)})
  {
  }

  /** Only the neutral colour depends on the theme. */
  lemma LevelThemeOnlyNeutral(s: Option<DayStatus>)
    ensures ContributionLevel(s, true) != ContributionLevel(s, false) <==> s == None || s == Some(DayOff)
  {
  }

  /** The colour the grid gives day `d` of a habit's calendar. */
  function CellColor(calendar: Calendar, d: Date, darkMode: bool): string
  {
    ContributionLevel(StatusOn(calendar, d), darkMode)
  }
}
