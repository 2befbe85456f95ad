/**
 * Proleptic Gregorian calendar arithmetic on local calendar days.
 *
 * A date is an integer day number; day 0 is 1970-01-01, a Thursday. The
 * functions here stand for the pieces of JavaScript's `Date` and of date-fns
 * that the habit components use: `new Date(year, monthIndex, day)` (with its
 * month and day overflow), `getFullYear`, `getMonth`, `getDate`, `getDay`,
 * and date-fns' `startOfWeek`, `endOfWeek` and `eachDayOfInterval` with
 * weeks starting on Sunday. Months are numbered 0..11, as `getMonth` does.
 * Years are taken as given: `new Date` reading a year 0..99 as 1900..1999, and
 * its limit of 8.64e15 ms either side of 1970, are not modelled.
 */
module Gregorian {

  /** A local calendar day, counted from 1970-01-01. */
  type Date = int

  predicate IsLeapYear(y: int)
  {
    y % 4 == 0 && (y % 100 != 0 || y % 400 == 0)
  }

  function DaysInYear(y: int): (n: int)
    ensures n == 365 || n == 366
    ensures n == 366 <==> IsLeapYear(y)
  {
    if IsLeapYear(y) then 366 else 365
  }

  /** Length of month `mi` (0 = January) of year `y`. */
  function DaysInMonth(y: int, mi: int): (n: int)
    requires 0 <= mi < 12
    ensures 28 <= n <= 31
  {
    if mi == 1 then (if IsLeapYear(y) then 29 else 28)
    else if mi == 3 || mi == 5 || mi == 8 || mi == 10 then 30
    else 31
  }

  /** Days of year `y` that lie before month `mi`; `mi == 12` gives the whole year. */
  function DaysBeforeMonth(y: int, mi: int): (n: int)
    requires 0 <= mi <= 12
    ensures 28 * mi <= n <= 31 * mi
  {
    if mi == 0 then 0 else DaysBeforeMonth(y, mi - 1) + DaysInMonth(y, mi - 1)
  }

  lemma MonthStep(y: int, mi: int)
    requires 0 <= mi < 12
    ensures DaysBeforeMonth(y, mi + 1) == DaysBeforeMonth(y, mi) + DaysInMonth(y, mi)
  {
  }

  lemma WholeYear(y: int)
    ensures DaysBeforeMonth(y, 12) == DaysInYear(y)
  {
    assert DaysBeforeMonth(y, 1) == 31;
    assert DaysBeforeMonth(y, 2) == 31 + DaysInMonth(y, 1);
    assert DaysBeforeMonth(y, 3) == DaysBeforeMonth(y, 2) + 31;
    assert DaysBeforeMonth(y, 4) == DaysBeforeMonth(y, 3) + 30;
    assert DaysBeforeMonth(y, 5) == DaysBeforeMonth(y, 4) + 31;
    assert DaysBeforeMonth(y, 6) == DaysBeforeMonth(y, 5) + 30;
    assert DaysBeforeMonth(y, 7) == DaysBeforeMonth(y, 6) + 31;
    assert DaysBeforeMonth(y, 8) == DaysBeforeMonth(y, 7) + 31;
    assert DaysBeforeMonth(y, 9) == DaysBeforeMonth(y, 8) + 30;
    assert DaysBeforeMonth(y, 10) == DaysBeforeMonth(y, 9) + 31;
    assert DaysBeforeMonth(y, 11) == DaysBeforeMonth(y, 10) + 30;
    assert DaysBeforeMonth(y, 12) == DaysBeforeMonth(y, 11) + 31;
  }

  lemma {:induction false} MonthsOrdered(y: int, m1: int, m2: int)
    requires 0 <= m1 <= m2 <= 12
    ensures DaysBeforeMonth(y, m1) <= DaysBeforeMonth(y, m2)
    ensures m1 < m2 ==> DaysBeforeMonth(y, m1 + 1) <= DaysBeforeMonth(y, m2)
    decreases m2 - m1
  {
    if m1 < m2 {
      MonthStep(y, m1);
      MonthsOrdered(y, m1 + 1, m2);
    }
  }

  /** Day number of January 1 of year `y`: the lengths of the years from 1970 to `y`. */
  function DaysBeforeYear(y: int): int
    decreases if y >= 1970 then y - 1970 else 1970 - y
  {
    if y == 1970 then 0
    else if y > 1970 then DaysBeforeYear(y - 1) + DaysInYear(y - 1)
    else DaysBeforeYear(y + 1) - DaysInYear(y)
  }

  lemma YearStep(y: int)
    ensures DaysBeforeYear(y + 1) == DaysBeforeYear(y) + DaysInYear(y)
  {
  }

  /** The usual closed form: 365 days a year plus one for each leap year. */
  function ClosedDaysBeforeYear(y: int): int
  {
    365 * (y - 1970) + (y - 1) / 4 - (y - 1) / 100 + (y - 1) / 400 - 477
  }

  lemma {:induction false} DaysBeforeYearClosedForm(y: int)
    ensures DaysBeforeYear(y) == ClosedDaysBeforeYear(y)
    decreases if y >= 1970 then y - 1970 else 1970 - y
  {
    if y > 1970 {
      DaysBeforeYearClosedForm(y - 1);
      ClosedFormStep(y - 1);
    } else if y < 1970 {
      DaysBeforeYearClosedForm(y + 1);
      ClosedFormStep(y);
    }
  }

  /** The closed form grows by the length of each year. */
  lemma ClosedFormStep(y: int)
    ensures ClosedDaysBeforeYear(y + 1) == ClosedDaysBeforeYear(y) + DaysInYear(y)
  {
    LeapDivisions(y);
    CenturiesAreQuadrennial(y);
  }

  lemma CenturiesAreQuadrennial(y: int)
    ensures y % 100 == 0 ==> y % 4 == 0
    ensures y % 400 == 0 ==> y % 100 == 0
  {
    if y % 100 == 0 {
      var c := y / 100;
      assert y == 100 * c;
      assert y / 4 == 25 * c;
    }
    if y % 400 == 0 {
      var c := y / 400;
      assert y == 400 * c;
      assert y / 100 == 4 * c;
    }
  }


  /** How the leap-year divisions change from one year to the next. */
  lemma LeapDivisions(y: int)
    ensures y / 4 == (y - 1) / 4 + (if y % 4 == 0 then 1 else 0)
    ensures y / 100 == (y - 1) / 100 + (if y % 100 == 0 then 1 else 0)
    ensures y / 400 == (y - 1) / 400 + (if y % 400 == 0 then 1 else 0)
  {
  }

  /** Every 400 Gregorian years hold exactly 146097 days. */
  lemma EraStart(q: int)
    ensures DaysBeforeYear(1970 + 400 * q) == 146097 * q
  {
    DaysBeforeYearClosedForm(1970 + 400 * q);
    var a := 1969 + 400 * q;
    assert a == 4 * (492 + 100 * q) + 1;
    assert a / 4 == 492 + 100 * q;
    assert a == 100 * (19 + 4 * q) + 69;
    assert a / 100 == 19 + 4 * q;
    assert a == 400 * (4 + q) + 369;
    assert a / 400 == 4 + q;
  }

  lemma {:induction false} YearsOrdered(y1: int, y2: int)
    requires y1 < y2
    ensures DaysBeforeYear(y1 + 1) <= DaysBeforeYear(y2)
    decreases y2 - y1
  {
    YearStep(y1);
    if y1 + 1 < y2 {
      YearsOrdered(y1 + 1, y2);
      YearStep(y1 + 1);
    }
  }

  /** The year containing day `d`, searched between `y` and `limit`. */
  function FindYear(d: Date, y: int, limit: int): (r: int)
    requires y < limit && DaysBeforeYear(y) <= d < DaysBeforeYear(limit)
    ensures y <= r < limit && DaysBeforeYear(r) <= d < DaysBeforeYear(r + 1)
    decreases limit - y
  {
    if d < DaysBeforeYear(y + 1) then y else FindYear(d, y + 1, limit)
  }

  /** `getFullYear`: the year whose days include `d`. */
  function FullYear(d: Date): (y: int)
    ensures DaysBeforeYear(y) <= d < DaysBeforeYear(y + 1)
  {
    var q := d / 146097;
    EraStart(q);
    EraStart(q + 1);
    FindYear(d, 1970 + 400 * q, 1970 + 400 * (q + 1))
  }

  /** The month of year `y` holding its `r`-th day, searched from month `mi`. */
  function FindMonth(y: int, r: int, mi: int): (m: int)
    requires 0 <= mi < 12 && DaysBeforeMonth(y, mi) <= r < DaysInYear(y)
    ensures mi <= m < 12 && DaysBeforeMonth(y, m) <= r < DaysBeforeMonth(y, m + 1)
    decreases 12 - mi
  {
    WholeYear(y);
    if r < DaysBeforeMonth(y, mi + 1) then mi else FindMonth(y, r, mi + 1)
  }

  /** `getMonth`: the month (0 = January) holding `d`. */
  function MonthIndex(d: Date): (mi: int)
    ensures 0 <= mi < 12
    ensures DaysBeforeMonth(FullYear(d), mi) <= d - DaysBeforeYear(FullYear(d)) < DaysBeforeMonth(FullYear(d), mi + 1)
  {
    var y := FullYear(d);
    YearStep(y);
    FindMonth(y, d - DaysBeforeYear(y), 0)
  }

  /** `getDate`: the day of the month (1-based) of `d`. */
  function DayOfMonth(d: Date): (day: int)
    ensures 1 <= day <= DaysInMonth(FullYear(d), MonthIndex(d))
  {
    var y := FullYear(d);
    var mi := MonthIndex(d);
    MonthStep(y, mi);
    d - DaysBeforeYear(y) - DaysBeforeMonth(y, mi) + 1
  }

  /**
   * `new Date(y, mi, day)`: a month index outside 0..11 moves into a neighbouring
   * year, and a day outside the month runs on into the neighbouring months.
   */
  function MakeDate(y: int, mi: int, day: int): Date
  {
    var year := y + mi / 12;
    DaysBeforeYear(year) + DaysBeforeMonth(year, mi % 12) + day - 1
  }

  /** `new Date(y, m, day)` carries whole years out of an overflowing month index. */
  lemma MakeDateCarry(y: int, m: int, day: int)
    ensures MakeDate(y, m, day) == MakeDate(y + m / 12, m % 12, day)
  {
    var a, b := m / 12, m % 12;
    assert b / 12 == 0 && b % 12 == b;
  }

  /** Moving one month on carries into the next year exactly from December. */
  lemma MonthCarryStep(m: int)
    ensures (m + 1) / 12 == m / 12 + (if m % 12 == 11 then 1 else 0)
    ensures (m + 1) % 12 == (if m % 12 == 11 then 0 else m % 12 + 1)
  {
  }

  /** The day argument of `new Date` counts days one by one. */
  lemma MakeDateNextDay(y: int, m: int, day: int)
    ensures MakeDate(y, m, day) + 1 == MakeDate(y, m, day + 1)
  {
  }

  lemma MakeDateInYear(y: int, mi: int, day: int)
    requires 0 <= mi < 12
    ensures MakeDate(y, mi, day) == DaysBeforeYear(y) + DaysBeforeMonth(y, mi) + day - 1
  {
    assert mi / 12 == 0 && mi % 12 == mi;
  }

  /** A day past the end of a month (other than December) runs on into the next month. */
  lemma MakeDateOverflow(y: int, mi: int, day: int)
    requires 0 <= mi < 11
    ensures MakeDate(y, mi, day) == MakeDate(y, mi + 1, day - DaysInMonth(y, mi))
  {
    MakeDateInYear(y, mi, day);
    MakeDateInYear(y, mi + 1, day - DaysInMonth(y, mi));
    MonthStep(y, mi);
  }

  /** The month of a date runs from its day 1 to day 0 of the following month. */
  lemma MonthAround(d: Date, y: int, mi: int)
    requires 0 <= mi < 12
    requires DaysBeforeMonth(y, mi) <= d - DaysBeforeYear(y) < DaysBeforeMonth(y, mi + 1)
    ensures MakeDate(y, mi, 1) <= d <= MakeDate(y, mi + 1, 0)
  {
    MakeDateInYear(y, mi, 1);
    MonthEnd(y, mi);
    MonthStep(y, mi);
  }

  /** Reading the parts of a date and building it again gives the same date. */
  lemma MakeDateOfParts(d: Date)
    ensures MakeDate(FullYear(d), MonthIndex(d), DayOfMonth(d)) == d
  {
    MakeDateInYear(FullYear(d), MonthIndex(d), DayOfMonth(d));
  }

  /** At most one year holds a given day. */
  lemma YearUnique(d: Date, y1: int, y2: int)
    requires DaysBeforeYear(y1) <= d < DaysBeforeYear(y1 + 1)
    requires DaysBeforeYear(y2) <= d < DaysBeforeYear(y2 + 1)
    ensures y1 == y2
  {
    if y1 < y2 {
      YearsOrdered(y1, y2);
    } else if y2 < y1 {
      YearsOrdered(y2, y1);
    }
  }

  /** At most one month of a year holds a given day of that year. */
  lemma MonthUnique(y: int, r: int, m1: int, m2: int)
    requires 0 <= m1 < 12 && 0 <= m2 < 12
    requires DaysBeforeMonth(y, m1) <= r < DaysBeforeMonth(y, m1 + 1)
    requires DaysBeforeMonth(y, m2) <= r < DaysBeforeMonth(y, m2 + 1)
    ensures m1 == m2
  {
    if m1 < m2 {
      MonthsOrdered(y, m1, m2);
    } else if m2 < m1 {
      MonthsOrdered(y, m2, m1);
    }
  }

  /** Building a date from in-range parts and reading them back gives the parts. */
  lemma PartsOfMakeDate(y: int, mi: int, day: int)
    requires 0 <= mi < 12 && 1 <= day <= DaysInMonth(y, mi)
    ensures FullYear(MakeDate(y, mi, day)) == y
    ensures MonthIndex(MakeDate(y, mi, day)) == mi
    ensures DayOfMonth(MakeDate(y, mi, day)) == day
  {
    var d := MakeDate(y, mi, day);
    assert DaysBeforeYear(y) <= d < DaysBeforeYear(y + 1) by {
      MakeDateInYear(y, mi, day);
      MonthStep(y, mi);
      MonthsOrdered(y, mi + 1, 12);
      WholeYear(y);
      YearStep(y);
    }
    assert FullYear(d) == y by {
      YearUnique(d, FullYear(d), y);
    }
    assert MonthIndex(d) == mi by {
      MakeDateInYear(y, mi, day);
      MonthStep(y, mi);
      MonthUnique(y, d - DaysBeforeYear(y), MonthIndex(d), mi);
    }
    MakeDateInYear(y, mi, day);
  }

  /** The first and last day of a year, as the components build them. */
  lemma YearBoundsSpan(y: int)
    ensures MakeDate(y, 0, 1) == DaysBeforeYear(y)
    ensures MakeDate(y, 11, 31) == DaysBeforeYear(y) + DaysInYear(y) - 1
  {
    MakeDateInYear(y, 0, 1);
    MakeDateInYear(y, 11, 31);
    MonthStep(y, 11);
    WholeYear(y);
  }

  /** Day 0 of the month after `mi` is the last day of month `mi`. */
  lemma MonthEnd(y: int, mi: int)
    requires 0 <= mi < 12
    ensures MakeDate(y, mi + 1, 0) == MakeDate(y, mi, 1) + DaysInMonth(y, mi) - 1
  {
    MonthStep(y, mi);
    MakeDateInYear(y, mi, 1);
    if mi == 11 {
      YearStep(y);
      WholeYear(y);
      assert MakeDate(y, 12, 0) == DaysBeforeYear(y + 1) - 1;
    } else {
      MakeDateInYear(y, mi + 1, 0);
    }
  }

  /** `getDay`: 0 = Sunday, ..., 6 = Saturday. */
  function DayOfWeek(d: Date): (w: int)
    ensures 0 <= w < 7
  {
    (d + 4) % 7
  }

  lemma DayOfWeekPeriodic(d: Date, k: int)
    ensures DayOfWeek(d + 7 * k) == DayOfWeek(d)
  {
  }

  /** date-fns `startOfWeek` with weeks starting on Sunday: the Sunday on or before `d`. */
  function StartOfWeek(d: Date): (s: Date)
    ensures DayOfWeek(s) == 0 && s <= d < s + 7
    ensures d - s == DayOfWeek(d)
  {
    d - DayOfWeek(d)
  }

  /** date-fns `endOfWeek` with weeks starting on Sunday: the Saturday on or after `d`. */
  function EndOfWeek(d: Date): (e: Date)
    ensures DayOfWeek(e) == 6 && d <= e < d + 7
    ensures e == StartOfWeek(d) + 6
  {
    StartOfWeek(d) + 6
  }

  lemma StartOfWeekShift(d: Date, k: int)
    ensures StartOfWeek(d + 7 * k) == StartOfWeek(d) + 7 * k
  {
    DayOfWeekPeriodic(d, k);
  }

  /** Two days of the same Sunday-to-Saturday week have the same week start. */
  lemma SameWeek(s: Date, d: Date)
    requires DayOfWeek(s) == 0 && s <= d < s + 7
    ensures StartOfWeek(d) == s
  {
    assert (d + 4) % 7 == d - s by {
      assert d + 4 == (s + 4) + (d - s);
    }
  }

  function Min(a: int, b: int): int
  {
    if a <= b then a else b
  }

  function Max(a: int, b: int): int
  {
    if a <= b then b else a
  }

  /** date-fns `eachDayOfInterval`: every day from `start` to `end`, ascending. */
  function EachDayOfInterval(start: Date, end: Date): (days: seq<Date>)
    requires start <= end
    ensures |days| == end - start + 1
    ensures forall i :: 0 <= i < |days| ==> days[i] == start + i
  {
    seq(end - start + 1, i => start + i)
  }
}
