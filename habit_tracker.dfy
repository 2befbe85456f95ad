/**
 * The habit tracker component's logic: the two day toggles, the statistics
 * refresh that follows every toggle (check-in count, streak, consistency),
 * the calendar shown for the selected view and its previous/next navigation.
 * Persistence calls are not part of this model: each toggle returns the
 * updated habit that the component would send to the server.
 */
module HabitTracker {
  import opened Gregorian
  import opened Calendars
  import opened Windows

  // ---------------------------------------------------------------------------
  // The click cycle and the "today" toggle

  /** The next status of a day clicked in the calendar: unrecorded, check-in, miss, day-off, unrecorded. */
  function CycleNext(s: Option<DayStatus>): Option<DayStatus>
  {
    match s
    case None => Some(CheckIn)
    case Some(CheckIn) => Some(Miss)
    case Some(Miss) => Some(DayOff)
    case Some(_) => None
  }

  /** `n` clicks on the same day. */
  function CycleIterate(s: Option<DayStatus>, n: nat): Option<DayStatus>
    decreases n
  {
    if n == 0 then s else CycleIterate(CycleNext(s), n - 1)
  }

  /** Four clicks bring every status of the cycle back to itself. */
  lemma FourClicksRestore(s: Option<DayStatus>)
    requires s != Some(Special)
    ensures CycleIterate(s, 4) == s
  {
    assert CycleIterate(s, 4) == CycleNext(CycleNext(CycleNext(CycleNext(s)))) by {
      assert CycleIterate(CycleNext(CycleNext(CycleNext(CycleNext(s)))), 0)
          == CycleNext(CycleNext(CycleNext(CycleNext(s))));
    }
  }

  /** Every status of the cycle is reached within three clicks, or four from a special day. */
  lemma EveryStateReached(s: Option<DayStatus>, t: Option<DayStatus>)
    requires t != Some(Special)
    ensures exists k :: 0 <= k < (if s == Some(Special) then 5 else 4) && CycleIterate(s, k) == t
  {
    var s1 := CycleNext(s);
    var s2 := CycleNext(s1);
    var s3 := CycleNext(s2);
    var s4 := CycleNext(s3);
    assert CycleIterate(s4, 0) == s4;
    assert CycleIterate(s3, 1) == s4;
    assert CycleIterate(s2, 2) == s4;
    assert CycleIterate(s1, 3) == s4;
    assert CycleIterate(s, 4) == s4;
    assert CycleIterate(s, 3) == s3;
    assert CycleIterate(s, 2) == s2;
    assert CycleIterate(s, 1) == s1;
    assert CycleIterate(s, 0) == s;
    if t == s {
      assert CycleIterate(s, 0) == t;
    } else if t == s1 {
      assert CycleIterate(s, 1) == t;
    } else if t == s2 {
      assert CycleIterate(s, 2) == t;
    } else if t == s3 {
      assert CycleIterate(s, 3) == t;
    } else {
      assert s == Some(Special) && t == s4 by {
        assert t in {None, Some(CheckIn), Some(Miss), Some(DayOff)} by {
          match t {
            case None =>
            case Some(x) => assert x != Special;
          }
        }
        match s {
          case None =>
          case Some(x) =>
        }
      }
      assert CycleIterate(s, 4) == t;
    }
  }

  /** A special day is not part of the cycle: a click deletes it, and it is never reached again. */
  lemma SpecialLeavesCycle(s: Option<DayStatus>, n: nat)
    ensures CycleNext(Some(Special)) == None
    ensures s != Some(Special) ==> CycleIterate(s, n) != Some(Special)
    decreases n
  {
    if n > 0 && s != Some(Special) {
      SpecialLeavesCycle(CycleNext(s), n - 1);
    }
  }

  /** The "today" button: a check-in is removed, anything else becomes a check-in. */
  function TodayNext(s: Option<DayStatus>): Option<DayStatus>
  {
    if s == Some(CheckIn) then None else Some(CheckIn)
  }

  /** Pressing the "today" button twice restores only an unrecorded day or a check-in; anything else ends up unrecorded. */
  lemma TodayTwice(s: Option<DayStatus>)
    ensures TodayNext(TodayNext(s)) == s <==> (s == None || s == Some(CheckIn))
    ensures s != Some(CheckIn) ==> TodayNext(TodayNext(s)) == None
    ensures TodayNext(s) == Some(CheckIn) <==> s != Some(CheckIn)
  {
  }

  // ---------------------------------------------------------------------------
  // Streak

  /** How many days back `calculateStreak` looks. */
  const StreakHorizon: nat := 365

  /** A status that lets the backward walk go on: check-in (counted) or day-off (skipped). */
  predicate Continues(s: Option<DayStatus>)
  {
    s == Some(CheckIn) || s == Some(DayOff)
  }

  /** The walk of `calculateStreak` from `day` backwards, with `remaining` days still to look at. */
  function StreakFrom(calendar: Calendar, day: Date, remaining: nat): (n: nat)
    ensures n <= remaining
    decreases remaining
  {
    if remaining == 0 then 0
    else match StatusOn(calendar, day)
      case Some(CheckIn) => 1 + StreakFrom(calendar, day - 1, remaining - 1)
      case Some(DayOff) => StreakFrom(calendar, day - 1, remaining - 1)
      case _ => 0
  }

  /** The streak shown for a habit on day `today`. */
  function Streak(calendar: Calendar, today: Date): (n: nat)
    ensures n <= StreakHorizon
  {
    StreakFrom(calendar, today, StreakHorizon)
  }

  /** `calculateStreak`: a bounded loop that counts check-ins, skips day-offs and stops at anything else. */
  method CalculateStreak(calendar: Calendar, today: Date) returns (streak: nat)
    ensures streak == Streak(calendar, today)
    ensures streak <= StreakHorizon
  {
    streak := 0;
    for i := 0 to StreakHorizon
      invariant streak + StreakFrom(calendar, today - i, StreakHorizon - i) == Streak(calendar, today)
    {
      var status := StatusOn(calendar, today - i);
      ghost var rest := StreakFrom(calendar, today - i - 1, StreakHorizon - i - 1);
      assert StreakFrom(calendar, today - i, StreakHorizon - i)
          == if status == Some(CheckIn) then 1 + rest else if status == Some(DayOff) then rest else 0;
      if status == Some(CheckIn) {
        streak := streak + 1;
      } else if status != Some(DayOff) {
        break;
      }
    }
  }

  /**
   * The walk counts exactly the check-ins among the days before the first day that
   * is neither a check-in nor a day-off (or among all the days it looks at).
   */
  lemma {:induction false} StreakFromCountsRun(calendar: Calendar, day: Date, remaining: nat, k: nat)
    requires k <= remaining
    requires forall d :: day - k < d <= day ==> Continues(StatusOn(calendar, d))
    requires k == remaining || !Continues(StatusOn(calendar, day - k))
    ensures StreakFrom(calendar, day, remaining)
         == if k == 0 then 0 else CheckInsAmong(calendar, EachDayOfInterval(day - k + 1, day))
    decreases k
  {
    if k > 0 {
      var here := if StatusOn(calendar, day) == Some(CheckIn) then 1 else 0;
      assert StreakFrom(calendar, day, remaining) == here + StreakFrom(calendar, day - 1, remaining - 1) by {
        assert Continues(StatusOn(calendar, day));
      }
      StreakFromCountsRun(calendar, day - 1, remaining - 1, k - 1);
      if k == 1 {
        assert CheckInsAmong(calendar, EachDayOfInterval(day, day)) == here by {
          assert EachDayOfInterval(day, day)[..0] == [];
        }
      } else {
        IntervalCountLast(calendar, day - k + 1, day);
      }
    }
  }

  /** The streak is the number of check-ins walking back from today before the first breaking day, within 365 days. */
  lemma StreakCountsCheckInsBeforeBreak(calendar: Calendar, today: Date, k: nat)
    requires k <= StreakHorizon
    requires forall d :: today - k < d <= today ==> Continues(StatusOn(calendar, d))
    requires k == StreakHorizon || !Continues(StatusOn(calendar, today - k))
    ensures Streak(calendar, today)
         == if k == 0 then 0 else CheckInsAmong(calendar, EachDayOfInterval(today - k + 1, today))
  {
    StreakFromCountsRun(calendar, today, StreakHorizon, k);
  }

  /** Unrecorded, missed or special today: no streak. A day-off today neither adds nor breaks. */
  lemma StreakToday(calendar: Calendar, today: Date)
    ensures !Continues(StatusOn(calendar, today)) ==> Streak(calendar, today) == 0
    ensures StatusOn(calendar, today) == Some(DayOff)
        ==> Streak(calendar, today) == StreakFrom(calendar, today - 1, StreakHorizon - 1)
    ensures StatusOn(calendar, today) == Some(CheckIn)
        ==> Streak(calendar, today) == 1 + StreakFrom(calendar, today - 1, StreakHorizon - 1)
  {
  }

  /** Three check-ins in a row after a miss make a streak of three. */
  lemma ThreeDayStreak(today: Date)
    ensures Streak(map[today := CheckIn, today - 1 := CheckIn, today - 2 := CheckIn, today - 3 := Miss], today) == 3
  {
    var calendar := map[today := CheckIn, today - 1 := CheckIn, today - 2 := CheckIn, today - 3 := Miss];
    assert StreakFrom(calendar, today - 3, StreakHorizon - 3) == 0;
    assert StreakFrom(calendar, today - 2, StreakHorizon - 2) == 1;
    assert StreakFrom(calendar, today - 1, StreakHorizon - 1) == 2;
  }

  /** A day-off between two check-ins keeps the streak going without counting itself. */
  lemma DayOffBridgesStreak(today: Date)
    ensures Streak(map[today := CheckIn, today - 1 := DayOff, today - 2 := CheckIn], today) == 2
  {
    var calendar := map[today := CheckIn, today - 1 := DayOff, today - 2 := CheckIn];
    assert StreakFrom(calendar, today - 3, StreakHorizon - 3) == 0;
    assert StreakFrom(calendar, today - 2, StreakHorizon - 2) == 1;
    assert StreakFrom(calendar, today - 1, StreakHorizon - 1) == 1;
  }

  // ---------------------------------------------------------------------------
  // Consistency

  /** `Math.round((c / t) * 100) || 0` on exact rationals: 100·c/t rounded half up, and 0 when `t` is 0. */
  function RoundedPercent(c: nat, t: nat): (r: nat)
    ensures t > 0 ==> 2 * t * r <= 200 * c + t < 2 * t * (r + 1)
    ensures c <= t ==> r <= 100
    ensures c == 0 || t == 0 ==> r == 0
    ensures 0 < t && c == t ==> r == 100
  {
    if t == 0 then 0
    else
      var r := (200 * c + t) / (2 * t);
      PercentFacts(c, t, r);
      r
  }

  lemma DivBounds(n: int, m: int)
    requires m > 0
    ensures m * (n / m) <= n < m * (n / m) + m
  {
  }

  lemma MulMonotone(m: int, a: int, b: int)
    requires m > 0 && a <= b
    ensures m * a <= m * b
  {
    assert m * b - m * a == m * (b - a);
  }

  /** Only one multiple of `m` steps over `x`. */
  lemma QuotientUnique(m: int, x: int, q1: int, q2: int)
    requires m > 0
    requires m * q1 <= x < m * q1 + m
    requires m * q2 <= x < m * q2 + m
    ensures q1 == q2
  {
    if q1 < q2 {
      MulMonotone(m, q1 + 1, q2);
    } else if q2 < q1 {
      MulMonotone(m, q2 + 1, q1);
    }
  }

  lemma PercentFacts(c: nat, t: nat, r: int)
    requires t > 0 && r == (200 * c + t) / (2 * t)
    ensures 2 * t * r <= 200 * c + t < 2 * t * (r + 1)
    ensures r >= 0
    ensures c <= t ==> r <= 100
    ensures c == 0 ==> r == 0
    ensures c == t ==> r == 100
  {
    var n, m := 200 * c + t, 2 * t;
    DivBounds(n, m);
    assert m * (r + 1) == m * r + m;
    assert 2 * t * r == m * r && 2 * t * (r + 1) == m * (r + 1);
    if r < 0 {
      MulMonotone(m, r + 1, 0);
    }
    if c <= t && r > 100 {
      MulMonotone(m, 101, r);
    }
    if c == 0 {
      QuotientUnique(m, n, r, 0);
    }
    if c == t {
      QuotientUnique(m, n, r, 100);
    }
  }

  /** `calculateConsistency`: the share of check-in days in the view's window, as a rounded percentage. */
  function CalculateConsistency(calendar: Calendar, view: View, date: Date): (r: nat)
    ensures r <= 100
    ensures var w := ResolveWindow(view, date);
      r == RoundedPercent(|CheckInDaysBetween(calendar, w.start, w.end)|, Length(w))
  {
    var w := ResolveWindow(view, date);
    var days := EachDayOfInterval(w.start, w.end);
    var checkIns := CheckInsAmong(calendar, days);
    IntervalCountIsCardinality(calendar, w.start, w.end);
    assert checkIns == |CheckInDaysBetween(calendar, w.start, w.end)| && |days| == Length(w);
    RoundedPercent(checkIns, |days|)
  }

  /** An empty calendar has no check-ins, no streak and no consistency. */
  lemma EmptyCalendarStats(view: View, date: Date, today: Date)
    ensures CheckInCount(map[]) == 0
    ensures Streak(map[], today) == 0
    ensures CalculateConsistency(map[], view, date) == 0
  {
    var w := ResolveWindow(view, date);
    IntervalCountIsCardinality(map[], w.start, w.end);
    assert CheckInDaysBetween(map[], w.start, w.end) == {};
  }

  /** A first check-in today gives one check-in, a streak of one, and one day's share of the window. */
  lemma FirstCheckInStats(today: Date, view: View, date: Date)
    ensures CheckInCount(map[today := CheckIn]) == 1
    ensures Streak(map[today := CheckIn], today) == 1
    ensures var w := ResolveWindow(view, date);
      CalculateConsistency(map[today := CheckIn], view, date)
        == RoundedPercent(if w.start <= today <= w.end then 1 else 0, Length(w))
  {
    var calendar := map[today := CheckIn];
    assert CheckInDays(calendar) == {today};
    assert StreakFrom(calendar, today - 1, StreakHorizon - 1) == 0;
    var w := ResolveWindow(view, date);
    IntervalCountIsCardinality(calendar, w.start, w.end);
    if w.start <= today <= w.end {
      assert CheckInDaysBetween(calendar, w.start, w.end) == {today};
    } else {
      assert CheckInDaysBetween(calendar, w.start, w.end) == {};
    }
  }

  // ---------------------------------------------------------------------------
  // The calendar of the selected view

  /** The days `renderCalendar` lays out: every day of the view's window. */
  function RenderCalendarDays(view: View, date: Date): (days: seq<Date>)
    ensures |days| == Length(ResolveWindow(view, date)) && |days| >= 7
    ensures forall i :: 0 <= i < |days| ==> days[i] == ResolveWindow(view, date).start + i
    ensures forall calendar: Calendar {:trigger CalculateConsistency(calendar, view, date)} ::
      CalculateConsistency(calendar, view, date) == RoundedPercent(CheckInsAmong(calendar, days), |days|)
  {
    var w := ResolveWindow(view, date);
    WindowAtLeastAWeek(view, date);
    EachDayOfInterval(w.start, w.end)
  }

  /** The colour class of a day button in the tracker's calendar. */
  function CalendarCellColor(s: Option<DayStatus>): string
  {
    match s
    case Some(CheckIn) => "bg-green-500"
    case Some(Miss) => "bg-red-500"
    case Some(DayOff) => "bg-gray-500"
    case _ => "bg-gray-200"
  }

  /** Green buttons are exactly the check-ins that consistency counts; a special day looks unrecorded. */
  lemma CalendarCellColors(s: Option<DayStatus>, t: Option<DayStatus>)
    ensures CalendarCellColor(s) == "bg-green-500" <==> s == Some(CheckIn)
    ensures CalendarCellColor(Some(Special)) == CalendarCellColor(None)
    ensures CalendarCellColor(s) == CalendarCellColor(t) <==> (s == t || (s in {None, Some(Special)} && t in {None, Some(Special)}))
  {
  }

  /**
   * The previous/next buttons as written: a week moves by 7 days, a month with
   * `setMonth(getMonth() ± 1)` keeping the day of the month (so a day past the
   * end of the target month runs on into the month after it), a year with
   * `setFullYear(getFullYear() ± 1)`.
   */
  function StepAsWritten(view: View, date: Date, delta: int): Date
  {
    match view
    case Week => date + 7 * delta
    case Month => MakeDate(FullYear(date), MonthIndex(date) + delta, DayOfMonth(date))
    case Year => MakeDate(FullYear(date) + delta, MonthIndex(date), DayOfMonth(date))
  }

  /** The previous/next step with the day of the month clamped to the length of the target month. */
  function Step(view: View, date: Date, delta: int): Date
  {
    match view
    case Month => ClampedMakeDate(FullYear(date), MonthIndex(date) + delta, DayOfMonth(date))
    case _ => StepAsWritten(view, date, delta)
  }

  /** `new Date(y, m, day)` with the day first clamped to the length of the (carried) month. */
  function ClampedMakeDate(y: int, m: int, day: int): Date
  {
    var ty, tm := y + m / 12, m % 12;
    MakeDate(ty, tm, Min(day, DaysInMonth(ty, tm)))
  }

  /** A date of year `y` moved to year `y + delta` by `setFullYear` lies in year `y + delta`. */
  lemma SetFullYearLandsInYear(date: Date, delta: int)
    ensures FullYear(StepAsWritten(Year, date, delta)) == FullYear(date) + delta
  {
    var y, mi, day := FullYear(date), MonthIndex(date), DayOfMonth(date);
    var ty := y + delta;
    if day <= DaysInMonth(ty, mi) {
      PartsOfMakeDate(ty, mi, day);
    } else {
      assert mi == 1 && day == 29;
      MakeDateInYear(ty, 1, 29);
      MakeDateInYear(ty, 2, 1);
      MonthStep(ty, 1);
      PartsOfMakeDate(ty, 2, 1);
    }
  }

  lemma ClampedDateLands(y: int, m: int, day: int)
    requires 1 <= day
    ensures FullYear(ClampedMakeDate(y, m, day)) == y + m / 12
    ensures MonthIndex(ClampedMakeDate(y, m, day)) == m % 12
  {
    var ty, tm := y + m / 12, m % 12;
    var clamped := Min(day, DaysInMonth(ty, tm));
    assert ClampedMakeDate(y, m, day) == MakeDate(ty, tm, clamped);
    PartsOfMakeDate(ty, tm, clamped);
  }

  /** The clamped step's date: the month moved by `delta`, the day clamped. */
  lemma StepMonthIsClamped(date: Date, delta: int)
    ensures Step(Month, date, delta) == ClampedMakeDate(FullYear(date), MonthIndex(date) + delta, DayOfMonth(date))
    ensures 1 <= DayOfMonth(date)
  {
  }

  /** The window shown after a clamped step is the whole (carried) target month. */
  lemma ClampedWindow(y: int, m: int, day: int)
    requires 1 <= day
    ensures ResolveWindow(Month, ClampedMakeDate(y, m, day)).start == MakeDate(y, m, 1)
    ensures ResolveWindow(Month, ClampedMakeDate(y, m, day)).end + 1 == MakeDate(y, m + 1, 1)
  {
    var n := ClampedMakeDate(y, m, day);
    ClampedDateLands(y, m, day);
    MonthWindowStart(n, y, m);
    MonthWindowEnd(n, y, m);
  }

  /** "Next" shows the window right after the current one, and "previous" the one right before it. */
  lemma StepWindowsAdjacent(view: View, date: Date)
    ensures ResolveWindow(view, Step(view, date, 1)).start == ResolveWindow(view, date).end + 1
    ensures ResolveWindow(view, Step(view, date, -1)).end + 1 == ResolveWindow(view, date).start
  {
    match view {
      case Week =>
        StartOfWeekShift(date, 1);
        StartOfWeekShift(date, -1);
      case Month =>
        MonthNextAdjacent(date);
        MonthPreviousAdjacent(date);
      case Year =>
        YearNextAdjacent(date);
        YearPreviousAdjacent(date);
    }
  }

  lemma MonthNextAdjacent(date: Date)
    ensures ResolveWindow(Month, Step(Month, date, 1)).start == ResolveWindow(Month, date).end + 1
  {
    var y, mi, day := FullYear(date), MonthIndex(date), DayOfMonth(date);
    StepMonthIsClamped(date, 1);
    ClampedWindow(y, mi + 1, day);
    MonthWindowEndAt(date, y, mi);
    MakeDateNextDay(y, mi + 1, 0);
  }

  lemma MonthPreviousAdjacent(date: Date)
    ensures ResolveWindow(Month, Step(Month, date, -1)).end + 1 == ResolveWindow(Month, date).start
  {
    var y, mi, day := FullYear(date), MonthIndex(date), DayOfMonth(date);
    StepMonthIsClamped(date, -1);
    ClampedWindow(y, mi - 1, day);
    MonthWindowStart(date, y, mi);
  }

  /** The month window of a day of month `m` of year `y`, with `m` allowed to overflow, starts at `new Date(y, m, 1)`. */
  lemma MonthWindowStart(n: Date, y: int, m: int)
    requires FullYear(n) == y + m / 12 && MonthIndex(n) == m % 12
    ensures ResolveWindow(Month, n).start == MakeDate(y, m, 1)
  {
    MakeDateCarry(y, m, 1);
  }

  /** ... and it ends on the day before `new Date(y, m + 1, 1)`. */
  lemma MonthWindowEnd(n: Date, y: int, m: int)
    requires FullYear(n) == y + m / 12 && MonthIndex(n) == m % 12
    ensures ResolveWindow(Month, n).end + 1 == MakeDate(y, m + 1, 1)
  {
    var ty, tm := y + m / 12, m % 12;
    MonthWindowEndAt(n, ty, tm);
    MakeDateNextDay(ty, tm + 1, 0);
    MonthCarryAgrees(ty, tm, y, m);
  }

  lemma MonthWindowEndAt(n: Date, ty: int, tm: int)
    requires FullYear(n) == ty && MonthIndex(n) == tm
    ensures ResolveWindow(Month, n).end == MakeDate(ty, tm + 1, 0)
  {
  }

  lemma MonthCarryAgrees(ty: int, tm: int, y: int, m: int)
    requires ty == y + m / 12 && tm == m % 12
    ensures MakeDate(ty, tm + 1, 1) == MakeDate(y, m + 1, 1)
  {
    MakeDateCarry(ty, tm + 1, 1);
    MakeDateCarry(y, m + 1, 1);
    MonthCarryStep(m);
    MonthCarryStep(tm);
  }

  lemma YearNextAdjacent(date: Date)
    ensures ResolveWindow(Year, Step(Year, date, 1)).start == ResolveWindow(Year, date).end + 1
  {
    SetFullYearLandsInYear(date, 1);
    YearStep(FullYear(date));
  }

  lemma YearPreviousAdjacent(date: Date)
    ensures ResolveWindow(Year, Step(Year, date, -1)).end + 1 == ResolveWindow(Year, date).start
  {
    SetFullYearLandsInYear(date, -1);
    YearStep(FullYear(date) - 1);
  }

  /**
   * As written, "next" from a day that the following month does not have (January 29-31,
   * March 31, May 31, August 31, October 31) overflows into the month after that, so the
   * following month is never shown: January 31, 2025 goes to March 3, 2025.
   */
  lemma StepAsWrittenSkipsMonth(y: int, mi: int, day: int)
    requires 0 <= mi < 11 && DaysInMonth(y, mi + 1) < day <= DaysInMonth(y, mi)
    ensures var date := MakeDate(y, mi, day);
      && MonthIndex(date) == mi
      && MonthIndex(StepAsWritten(Month, date, 1)) == mi + 2
      && ResolveWindow(Month, StepAsWritten(Month, date, 1)).start != ResolveWindow(Month, date).end + 1
  {
    var date := MakeDate(y, mi, day);
    PartsOfMakeDate(y, mi, day);
    var over := day - DaysInMonth(y, mi + 1);
    var next := StepAsWritten(Month, date, 1);
    assert next == MakeDate(y, mi + 1, day);
    MakeDateOverflow(y, mi + 1, day);
    PartsOfMakeDate(y, mi + 2, over);
    MonthWindowStart(next, y, mi + 2);
    MonthWindowEnd(date, y, mi);
    MakeDateOverflow(y, mi + 1, 1);
  }

  /**
   * As written, "previous" from a day that the preceding month does not have (March 29-31
   * in a common year, March 30-31 in a leap year, May 31, July 31, October 31, December 31)
   * overflows back into the same month, so the view does not move: March 31, 2025 goes to
   * "February 31", which is March 3, 2025.
   */
  lemma StepAsWrittenPreviousStays(y: int, mi: int, day: int)
    requires 1 <= mi < 12 && DaysInMonth(y, mi - 1) < day <= DaysInMonth(y, mi)
    ensures var date := MakeDate(y, mi, day);
      && MonthIndex(StepAsWritten(Month, date, -1)) == MonthIndex(date) == mi
      && ResolveWindow(Month, StepAsWritten(Month, date, -1)) == ResolveWindow(Month, date)
  {
    var date := MakeDate(y, mi, day);
    PartsOfMakeDate(y, mi, day);
    var over := day - DaysInMonth(y, mi - 1);
    var prev := StepAsWritten(Month, date, -1);
    assert prev == MakeDate(y, mi - 1, day);
    MakeDateOverflow(y, mi - 1, day);
    var back := MakeDate(y, mi, over);
    assert prev == back;
    PartsOfMakeDate(y, mi, over);
    SameMonthSameWindow(prev, date, y, mi);
  }

  /** The month window depends only on the year and month of the reference day. */
  lemma SameMonthSameWindow(a: Date, b: Date, y: int, mi: int)
    requires FullYear(a) == y && MonthIndex(a) == mi
    requires FullYear(b) == y && MonthIndex(b) == mi
    ensures ResolveWindow(Month, a) == ResolveWindow(Month, b)
  {
  }

  // ---------------------------------------------------------------------------
  // Habits and the tracker component

  /** A habit record; the tracker recomputes its three statistics after every change of its calendar. */
  class Habit {
    var id: string
    var name: string
    var icon: string
    var time: Option<string>
    var streak: int
    var consistency: int
    var checkIns: int
    var calendar: Calendar

    constructor (id: string, name: string, icon: string, time: Option<string>,
                 streak: int, consistency: int, checkIns: int, calendar: Calendar)
      ensures this.id == id && this.name == name && this.icon == icon && this.time == time
      ensures this.streak == streak && this.consistency == consistency && this.checkIns == checkIns
      ensures this.calendar == calendar
    {
      this.id, this.name, this.icon, this.time := id, name, icon, time;
      this.streak, this.consistency, this.checkIns := streak, consistency, checkIns;
      this.calendar := calendar;
    }

    /** `{ ...habit, calendar: newCalendar }`: a new record equal to `habit` except for its calendar. */
    constructor WithCalendar(habit: Habit, newCalendar: Calendar)
      ensures id == habit.id && name == habit.name && icon == habit.icon && time == habit.time
      ensures streak == habit.streak && consistency == habit.consistency && checkIns == habit.checkIns
      ensures calendar == newCalendar
    {
      id, name, icon, time := habit.id, habit.name, habit.icon, habit.time;
      streak, consistency, checkIns := habit.streak, habit.consistency, habit.checkIns;
      calendar := newCalendar;
    }
  }

  /** The habit's cached statistics agree with its calendar for the given view, reference day and today. */
  predicate StatsCurrent(habit: Habit, view: View, date: Date, today: Date)
    reads habit
  {
    && habit.checkIns == CheckInCount(habit.calendar)
    && habit.consistency == CalculateConsistency(habit.calendar, view, date)
    && habit.streak == Streak(habit.calendar, today)
  }

  /** The same habit apart from its calendar and statistics. */
  predicate SameDescription(a: Habit, b: Habit)
    reads a, b
  {
    a.id == b.id && a.name == b.name && a.icon == b.icon && a.time == b.time
  }

  /** The tracker component's view state: the selected view and the reference day. */
  class Tracker {
    var calendarView: View
    var currentDate: Date

    /** The component starts on the week view around today. */
    constructor (today: Date)
      ensures calendarView == Week && currentDate == today
    {
      calendarView := Week;
      currentDate := today;
    }

    /** `updateHabitStats`: overwrites the three statistics of `habit` and nothing else. */
    method UpdateHabitStats(habit: Habit, today: Date)
      modifies habit
      ensures StatsCurrent(habit, calendarView, currentDate, today)
      ensures habit.calendar == old(habit.calendar)
      ensures habit.id == old(habit.id) && habit.name == old(habit.name)
      ensures habit.icon == old(habit.icon) && habit.time == old(habit.time)
    {
      var checkIns := CheckInCount(habit.calendar);
      habit.checkIns := checkIns;
      habit.consistency := CalculateConsistency(habit.calendar, calendarView, currentDate);
      var streak := CalculateStreak(habit.calendar, today);
      habit.streak := streak;
    }

    /** `toggleCheckIn`: a copy of the habit with `date` moved one step along the click cycle, statistics refreshed. */
    method ToggleCheckIn(habit: Habit, date: Date, today: Date) returns (updated: Habit)
      ensures fresh(updated) && unchanged(habit)
      ensures StatusOn(updated.calendar, date) == CycleNext(StatusOn(habit.calendar, date))
      ensures forall d :: d != date ==> StatusOn(updated.calendar, d) == StatusOn(habit.calendar, d)
      ensures SameDescription(updated, habit)
      ensures StatsCurrent(updated, calendarView, currentDate, today)
    {
      var newCalendar := habit.calendar;
      var current := StatusOn(newCalendar, date);
      if current == None {
        newCalendar := newCalendar[date := CheckIn];
      } else if current == Some(CheckIn) {
        newCalendar := newCalendar[date := Miss];
      } else if current == Some(Miss) {
        newCalendar := newCalendar[date := DayOff];
      } else {
        newCalendar := newCalendar - {date};
      }
      updated := new Habit.WithCalendar(habit, newCalendar);
      UpdateHabitStats(updated, today);
    }

    /** `toggleTodayCheckIn`: a copy of the habit with today's check-in removed or set, statistics refreshed. */
    method ToggleTodayCheckIn(habit: Habit, today: Date) returns (updated: Habit)
      ensures fresh(updated) && unchanged(habit)
      ensures StatusOn(updated.calendar, today) == TodayNext(StatusOn(habit.calendar, today))
      ensures forall d :: d != today ==> StatusOn(updated.calendar, d) == StatusOn(habit.calendar, d)
      ensures SameDescription(updated, habit)
      ensures StatsCurrent(updated, calendarView, currentDate, today)
    {
      var newCalendar := habit.calendar;
      if StatusOn(newCalendar, today) == Some(CheckIn) {
        newCalendar := newCalendar - {today};
      } else {
        newCalendar := newCalendar[today := CheckIn];
      }
      updated := new Habit.WithCalendar(habit, newCalendar);
      UpdateHabitStats(updated, today);
    }

    /** Choosing a view in the selector. */
    method SetCalendarView(view: View)
      modifies this
      ensures calendarView == view && currentDate == old(currentDate)
    {
      calendarView := view;
    }

    /** The "previous" button. */
    method Previous()
      modifies this
      ensures calendarView == old(calendarView)
      ensures currentDate == Step(calendarView, old(currentDate), -1)
      ensures ResolveWindow(calendarView, currentDate).end + 1 == ResolveWindow(calendarView, old(currentDate)).start
    {
      StepWindowsAdjacent(calendarView, currentDate);
      currentDate := Step(calendarView, currentDate, -1);
    }

    /** The "next" button. */
    method Next()
      modifies this
      ensures calendarView == old(calendarView)
      ensures currentDate == Step(calendarView, old(currentDate), 1)
      ensures ResolveWindow(calendarView, currentDate).start == ResolveWindow(calendarView, old(currentDate)).end + 1
    {
      StepWindowsAdjacent(calendarView, currentDate);
      currentDate := Step(calendarView, currentDate, 1);
    }
  }
}
