/**
 * The week / month / year window that the habit views are scoped to. The
 * same switch appears in the tracker's consistency calculation, in its
 * calendar rendering and in the multi-habit heatmap; it is defined once here.
 */
module Windows {
  import opened Gregorian

  datatype View = Week | Month | Year

  /** An inclusive range of days. */
  datatype Window = Window(start: Date, end: Date)

  /** Number of days in a window (`eachDayOfInterval(...).length`). */
  function Length(w: Window): int
  {
    w.end - w.start + 1
  }

  /** `new Date(year, 0, 1)` to `new Date(year, 11, 31)`. */
  function YearBounds(year: int): (w: Window)
    ensures w.start == DaysBeforeYear(year)
    ensures Length(w) == DaysInYear(year)
  {
    YearBoundsSpan(year);
    Window(MakeDate(year, 0, 1), MakeDate(year, 11, 31))
  }

  /** The window of `view` around the reference day `date`. */
  function ResolveWindow(view: View, date: Date): (w: Window)
    ensures w.start <= date <= w.end
  {
    match view
    case Week => Window(StartOfWeek(date), EndOfWeek(date))
    case Month =>
      var y := FullYear(date);
      var mi := MonthIndex(date);
      MonthAround(date, y, mi);
      Window(MakeDate(y, mi, 1), MakeDate(y, mi + 1, 0))
    case Year =>
      YearStep(FullYear(date));
      YearBounds(FullYear(date))
  }

  /** A week window runs from the Sunday on or before the date to the Saturday on or after it. */
  lemma WeekWindowShape(date: Date)
    ensures var w := ResolveWindow(Week, date);
      && DayOfWeek(w.start) == 0 && w.start <= date < w.start + 7
      && DayOfWeek(w.end) == 6 && Length(w) == 7
  {
  }

  /** A month window runs from day 1 to the last day of the date's month. */
  lemma MonthWindowShape(date: Date)
    ensures var w := ResolveWindow(Month, date);
      && FullYear(w.start) == FullYear(date) && MonthIndex(w.start) == MonthIndex(date)
      && DayOfMonth(w.start) == 1
      && FullYear(w.end) == FullYear(date) && MonthIndex(w.end) == MonthIndex(date)
      && DayOfMonth(w.end) == DaysInMonth(FullYear(date), MonthIndex(date))
      && 28 <= Length(w) <= 31
  {
    var y, mi := FullYear(date), MonthIndex(date);
    var w := ResolveWindow(Month, date);
    assert w.start == MakeDate(y, mi, 1);
    assert w.end == MakeDate(y, mi, DaysInMonth(y, mi)) by {
      MonthEnd(y, mi);
      MakeDateInYear(y, mi, 1);
      MakeDateInYear(y, mi, DaysInMonth(y, mi));
    }
    PartsOfMakeDate(y, mi, 1);
    PartsOfMakeDate(y, mi, DaysInMonth(y, mi));
  }

  /** A year window runs from January 1 to December 31 of the date's year. */
  lemma YearWindowShape(date: Date)
    ensures var w := ResolveWindow(Year, date);
      && FullYear(w.start) == FullYear(date) && MonthIndex(w.start) == 0 && DayOfMonth(w.start) == 1
      && FullYear(w.end) == FullYear(date) && MonthIndex(w.end) == 11 && DayOfMonth(w.end) == 31
      && Length(w) == DaysInYear(FullYear(date))
      && (Length(w) == 366 <==> IsLeapYear(FullYear(date)))
  {
    var y := FullYear(date);
    PartsOfMakeDate(y, 0, 1);
    PartsOfMakeDate(y, 11, 31);
  }

  /** Every window holds at least a week (and at most a leap year). */
  lemma WindowAtLeastAWeek(view: View, date: Date)
    ensures 7 <= Length(ResolveWindow(view, date)) <= 366
  {
    match view {
      case Week => WeekWindowShape(date);
      case Month => MonthWindowShape(date);
      case Year => YearWindowShape(date);
    }
  }
}
