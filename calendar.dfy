/**
 * A habit's calendar: a sparse map from local day to the status recorded
 * for it. A day with no entry and a day whose entry is `null` are the same
 * thing ("unrecorded"); the model has no entry for either.
 */
module Calendars {
  import opened Gregorian

  datatype DayStatus = CheckIn | Miss | DayOff | Special

  datatype Option<T> = None | Some(value: T)

  type Calendar = map<Date, DayStatus>

  /** What `habit.calendar[date]` reads: the status, or `None` when nothing is recorded. */
  function StatusOn(calendar: Calendar, d: Date): (s: Option<DayStatus>)
    ensures s.Some? <==> d in calendar
    ensures s.Some? ==> s.value == calendar[d]
  {
    if d in calendar then Some(calendar[d]) else None
  }

  /** `days.filter(day => calendar[day] === 'check-in').length`. */
  function CheckInsAmong(calendar: Calendar, days: seq<Date>): (n: nat)
    ensures n <= |days|
  {
    if days == [] then 0
    else
      CheckInsAmong(calendar, days[..|days| - 1])
        + (if StatusOn(calendar, days[|days| - 1]) == Some(CheckIn) then 1 else 0)
  }

  /** The recorded days whose status is check-in. */
  function CheckInDays(calendar: Calendar): set<Date>
  {
    set d | d in calendar && calendar[d] == CheckIn
  }

  /** `Object.values(calendar).filter(v => v === 'check-in').length`, over the whole calendar. */
  function CheckInCount(calendar: Calendar): (n: nat)
    ensures n <= |calendar|
    ensures n == 0 <==> forall d :: d in calendar ==> calendar[d] != CheckIn
  {
    CheckInDaysFacts(calendar);
    |CheckInDays(calendar)|
  }

  lemma CheckInDaysFacts(calendar: Calendar)
    ensures |CheckInDays(calendar)| <= |calendar|
    ensures CheckInDays(calendar) == {} <==> forall d :: d in calendar ==> calendar[d] != CheckIn
  {
    SubsetCardinality(CheckInDays(calendar), calendar.Keys);
    if exists d :: d in calendar && calendar[d] == CheckIn {
      var d :| d in calendar && calendar[d] == CheckIn;
      assert d in CheckInDays(calendar);
    }
  }

  lemma SubsetCardinality<T>(a: set<T>, b: set<T>)
    requires a <= b
    ensures |a| <= |b|
  {
    if a != {} {
      var x :| x in a;
      SubsetCardinality(a - {x}, b - {x});
    }
  }

  /** The check-in days of `calendar` that lie in [lo, hi]. */
  function CheckInDaysBetween(calendar: Calendar, lo: Date, hi: Date): set<Date>
  {
    set d | d in CheckInDays(calendar) && lo <= d <= hi
  }

  /** Counting the days of an interval one by one finds exactly the check-in days recorded in it. */
  lemma {:induction false} IntervalCountIsCardinality(calendar: Calendar, lo: Date, hi: Date)
    requires lo <= hi
    ensures CheckInsAmong(calendar, EachDayOfInterval(lo, hi)) == |CheckInDaysBetween(calendar, lo, hi)|
    decreases hi - lo
  {
    var days := EachDayOfInterval(lo, hi);
    if lo == hi {
      assert days[..0] == [];
      if lo in CheckInDays(calendar) {
        assert CheckInDaysBetween(calendar, lo, hi) == {lo};
      } else {
        assert CheckInDaysBetween(calendar, lo, hi) == {};
      }
    } else {
      assert days[..|days| - 1] == EachDayOfInterval(lo, hi - 1);
      IntervalCountIsCardinality(calendar, lo, hi - 1);
      if hi in CheckInDays(calendar) {
        assert CheckInDaysBetween(calendar, lo, hi) == CheckInDaysBetween(calendar, lo, hi - 1) + {hi};
      } else {
        assert CheckInDaysBetween(calendar, lo, hi) == CheckInDaysBetween(calendar, lo, hi - 1);
      }
    }
  }

  /** No window holds more check-ins than the whole calendar. */
  lemma IntervalCountAtMostTotal(calendar: Calendar, lo: Date, hi: Date)
    requires lo <= hi
    ensures CheckInsAmong(calendar, EachDayOfInterval(lo, hi)) <= CheckInCount(calendar)
  {
    IntervalCountIsCardinality(calendar, lo, hi);
    SubsetCardinality(CheckInDaysBetween(calendar, lo, hi), CheckInDays(calendar));
  }

  /** Splitting off the last day of an interval. */
  lemma IntervalCountLast(calendar: Calendar, lo: Date, hi: Date)
    requires lo < hi
    ensures CheckInsAmong(calendar, EachDayOfInterval(lo, hi))
         == CheckInsAmong(calendar, EachDayOfInterval(lo, hi - 1))
            + (if StatusOn(calendar, hi) == Some(CheckIn) then 1 else 0)
  {
    var days := EachDayOfInterval(lo, hi);
    assert days[..|days| - 1] == EachDayOfInterval(lo, hi - 1);
  }
}
