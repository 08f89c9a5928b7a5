// Business calendars: which dates are closed, validation of a snapshot, and rolling an
// occurrence forward to the next open date (schedule/business_calendar.go).
module BusinessCalendar {
  import opened Text
  import opened Civil
  import opened WallClock
  import opened WorkingIntervals

  const MAXIMUM_SEARCH_DAYS := 3660

  // weekday is what ParseWeekday made of the text: 0 (Sunday) to 6, anything else is invalid.
  datatype WeeklySchedule = WeeklySchedule(weekday: int, intervals: seq<TimeInterval>)

  // A date is a day number.
  datatype DateException = DateException(date: int, intervals: seq<TimeInterval>)

  // A zone text: its trimmed name, the offset the zone database has for that name, if any
  // (for "Local" the host's own), and whether the text is padded with white space.
  datatype Zone = Zone(name: string, known: Option<int>, padded: bool) {
    // Whether the text loads as it is written.
    predicate Loads() { known.Some? && !padded }

    const offset: int := if known.Some? then known.value else 0
  }

  datatype Calendar = Calendar(
    key: string,
    revision: string,
    zone: Zone,
    weekly: seq<WeeklySchedule>,
    holidays: seq<int>,
    exceptions: seq<DateException>)
  {
    const offset: int := zone.offset
  }

  const LOCAL := "Local"

  // ---------- validation ----------

  function ExceptionDates(exceptions: seq<DateException>): (dates: seq<int>)
    ensures |dates| == |exceptions|
    ensures forall i :: 0 <= i < |dates| ==> dates[i] == exceptions[i].date
  {
    seq(|exceptions|, i requires 0 <= i < |exceptions| => exceptions[i].date)
  }

  ghost predicate Distinct<T>(s: seq<T>) {
    forall i, j :: 0 <= i < j < |s| ==> s[i] != s[j]
  }

  ghost predicate ValidWeekly(w: WeeklySchedule) {
    0 <= w.weekday <= 6 && 1 <= |w.intervals| <= 8 && Accepted(w.intervals)
  }

  ghost predicate ValidException(e: DateException) {
    |e.intervals| <= 8 && Accepted(e.intervals)
  }

  ghost predicate DistinctWeekdays(weekly: seq<WeeklySchedule>) {
    forall i, j :: 0 <= i < j < |weekly| ==> weekly[i].weekday != weekly[j].weekday
  }

  ghost predicate ValidCalendar(c: Calendar) {
    && !Blank(c.key) && !Blank(c.revision) && c.zone.known.Some? && c.zone.name != LOCAL
    && 1 <= |c.weekly| <= 7
    && (forall i :: 0 <= i < |c.weekly| ==> ValidWeekly(c.weekly[i]))
    && DistinctWeekdays(c.weekly)
    && |c.holidays| <= 366 && |c.exceptions| <= 366
    && (forall i :: 0 <= i < |c.exceptions| ==> ValidException(c.exceptions[i]))
    && Distinct(c.holidays + ExceptionDates(c.exceptions))
  }

  // What validation decides, field by field, from any valid calendar.
  lemma CalendarFields(c: Calendar, text: string, zone: Zone, dates: seq<int>, exception: DateException,
                       weekly: WeeklySchedule)
    requires ValidCalendar(c)
    ensures ValidCalendar(c.(key := text)) <==> TrimSpace(text) != ""
    ensures ValidCalendar(c.(revision := text)) <==> TrimSpace(text) != ""
    ensures ValidCalendar(c.(zone := zone)) <==> zone.known.Some? && zone.name != "Local"
    ensures ValidCalendar(c.(holidays := dates, exceptions := [])) <==> |dates| <= 366 && Distinct(dates)
    ensures ValidCalendar(c.(holidays := [], exceptions := [exception])) <==>
              |exception.intervals| <= 8 && Accepted(exception.intervals)
    ensures ValidCalendar(c.(weekly := [weekly])) <==>
              0 <= weekly.weekday < 7 && 0 < |weekly.intervals| <= 8 && Accepted(weekly.intervals)
    ensures !ValidCalendar(c.(weekly := []))
  {
    hide Accepted, TrimSpace;
    assert dates + ExceptionDates([]) == dates;
    var none: seq<int> := [];
    assert none + ExceptionDates([exception]) == [exception.date];
    assert [weekly][0] == weekly && [exception][0] == exception;
  }

  lemma CalendarLimits(c: Calendar, exceptions: seq<DateException>, day: int)
    requires ValidCalendar(c)
    requires forall i :: 0 <= i < |exceptions| ==> exceptions[i] == DateException(day + i, [])
    ensures ValidCalendar(c.(holidays := [], exceptions := exceptions)) <==> |exceptions| <= 366
  {
    hide TrimSpace;
    var none: seq<int> := [];
    assert none + ExceptionDates(exceptions) == ExceptionDates(exceptions);
  }

  // ValidateBusinessCalendar, whose three loops are the three methods below.
  method ValidateBusinessCalendar(c: Calendar) returns (ok: bool)
    ensures ok <==> ValidCalendar(c)
  {
    hide ValidWeekly, ValidException, TrimSpace;
    if Blank(c.key) || Blank(c.revision) { return false; }
    if c.zone.known.None? || c.zone.name == LOCAL { return false; }
    if |c.weekly| == 0 || |c.weekly| > 7 { return false; }
    ok := ValidateWeekly(c.weekly);
    if !ok || |c.holidays| > 366 || |c.exceptions| > 366 { return false; }
    var dates;
    ok, dates := ValidateHolidays(c.holidays);
    assert (c.holidays + ExceptionDates(c.exceptions))[..|c.holidays|] == c.holidays;
    if !ok {
      assert !Distinct(c.holidays + ExceptionDates(c.exceptions)) by {
        var i, j :| 0 <= i < j < |c.holidays| && c.holidays[i] == c.holidays[j];
        assert (c.holidays + ExceptionDates(c.exceptions))[i] == (c.holidays + ExceptionDates(c.exceptions))[j];
      }
      return false;
    }
    ok := ValidateExceptions(c.holidays, c.exceptions, dates);
  }

  method ValidateWeekly(weekly: seq<WeeklySchedule>) returns (ok: bool)
    ensures ok <==> (forall i :: 0 <= i < |weekly| ==> ValidWeekly(weekly[i])) && DistinctWeekdays(weekly)
  {
    hide Accepted;
    var weekdays: set<int> := {};
    for n := 0 to |weekly|
      invariant forall i :: 0 <= i < n ==> ValidWeekly(weekly[i])
      invariant weekdays == set i | 0 <= i < n :: weekly[i].weekday
      invariant forall i, j :: 0 <= i < j < n ==> weekly[i].weekday != weekly[j].weekday
    {
      var day := weekly[n];
      if !(0 <= day.weekday <= 6) || day.weekday in weekdays || |day.intervals| == 0 || |day.intervals| > 8 {
        return false;
      }
      weekdays := weekdays + {day.weekday};
      var accepted := ValidateIntervals(day.intervals);
      if !accepted { return false; }
    }
    return true;
  }

  method ValidateHolidays(holidays: seq<int>) returns (ok: bool, dates: set<int>)
    ensures ok <==> Distinct(holidays)
    ensures ok ==> dates == set d | d in holidays
  {
    dates := {};
    for n := 0 to |holidays|
      invariant dates == set i | 0 <= i < n :: holidays[i]
      invariant forall i, j :: 0 <= i < j < n ==> holidays[i] != holidays[j]
    {
      if holidays[n] in dates { return false, dates; }
      dates := dates + {holidays[n]};
    }
    return true, dates;
  }

  lemma PrefixElements(a: seq<int>, b: seq<int>)
    ensures (set d | d in a) == set i | 0 <= i < |a| :: (a + b)[i]
  {
    forall d | d in a ensures exists i :: 0 <= i < |a| && (a + b)[i] == d {
      var i :| 0 <= i < |a| && a[i] == d;
      assert (a + b)[i] == d;
    }
  }

  method ValidateExceptions(holidays: seq<int>, exceptions: seq<DateException>, taken: set<int>) returns (ok: bool)
    requires Distinct(holidays) && taken == set d | d in holidays
    ensures ok <==> (forall i :: 0 <= i < |exceptions| ==> ValidException(exceptions[i]))
                    && Distinct(holidays + ExceptionDates(exceptions))
  {
    hide Accepted;
    var all := holidays + ExceptionDates(exceptions);
    var dates := taken;
    PrefixElements(holidays, ExceptionDates(exceptions));
    for n := 0 to |exceptions|
      invariant dates == set i | 0 <= i < |holidays| + n :: all[i]
      invariant forall i, j :: 0 <= i < j < |holidays| + n ==> all[i] != all[j]
      invariant forall i :: 0 <= i < n ==> ValidException(exceptions[i])
    {
      var exception := exceptions[n];
      assert all[|holidays| + n] == exception.date;
      if exception.date in dates || |exception.intervals| > 8 { return false; }
      dates := dates + {exception.date};
      var accepted := ValidateIntervals(exception.intervals);
      if !accepted { return false; }
    }
    return true;
  }

  // ---------- open and closed dates ----------

  // What the first exception for a date says, if there is one: does it close the date?
  function ExceptionVerdict(exceptions: seq<DateException>, day: int): Option<bool> {
    if exceptions == [] then None
    else if exceptions[0].date == day then Some(exceptions[0].intervals == [])
    else ExceptionVerdict(exceptions[1..], day)
  }

  function WeeklyVerdict(weekly: seq<WeeklySchedule>, weekday: int): Option<bool> {
    if weekly == [] then None
    else if weekly[0].weekday == weekday then Some(weekly[0].intervals == [])
    else WeeklyVerdict(weekly[1..], weekday)
  }

  // An exception decides first, then a holiday, then the weekday; an unlisted weekday is closed.
  predicate Closed(c: Calendar, day: int) {
    var exception := ExceptionVerdict(c.exceptions, day);
    var weekly := WeeklyVerdict(c.weekly, Weekday(day));
    if exception.Some? then exception.value
    else day in c.holidays || weekly.None? || weekly.value
  }

  // When the zone text does not load as written, every instant but the zero time is closed.
  predicate NonWorking(calendar: Option<Calendar>, t: int) {
    calendar.Some? && t != ZERO_TIME &&
    (!calendar.value.zone.Loads() || Closed(calendar.value, LocalDay(t, calendar.value.offset)))
  }

  // IsNonWorkingOccurrence
  method IsNonWorkingOccurrence(calendar: Option<Calendar>, t: int) returns (closed: bool)
    ensures closed == NonWorking(calendar, t)
  {
    hide Civil.MonthOf;
    if calendar.None? || t == ZERO_TIME { return false; }
    var c := calendar.value;
    if !c.zone.Loads() { return true; }
    var day := LocalDay(t, c.offset);
    for n := 0 to |c.exceptions|
      invariant ExceptionVerdict(c.exceptions, day) == ExceptionVerdict(c.exceptions[n..], day)
    {
      if c.exceptions[n].date == day { return |c.exceptions[n].intervals| == 0; }
    }
    for n := 0 to |c.holidays|
      invariant forall i :: 0 <= i < n ==> c.holidays[i] != day
    {
      if c.holidays[n] == day { return true; }
    }
    for n := 0 to |c.weekly|
      invariant WeeklyVerdict(c.weekly, Weekday(day)) == WeeklyVerdict(c.weekly[n..], Weekday(day))
    {
      if c.weekly[n].weekday == Weekday(day) { return |c.weekly[n].intervals| == 0; }
    }
    return true;
  }

  // ---------- rolling forward ----------

  // The occurrence moved by the fewest days, at least k and at most the search limit, that
  // lands on an open date; the zero time when there is none.
  function RollFrom(c: Calendar, t: int, k: int): int
    decreases MAXIMUM_SEARCH_DAYS - k
  {
    var moved := t + k * 86_400_000_000_000;
    if k > MAXIMUM_SEARCH_DAYS then ZERO_TIME
    else if !NonWorking(Some(c), moved) then moved
    else RollFrom(c, t, k + 1)
  }

  function RolledForward(calendar: Option<Calendar>, t: int): int {
    if !NonWorking(calendar, t) then t
    else if !calendar.value.zone.Loads() then ZERO_TIME
    else RollFrom(calendar.value, t, 1)
  }

  // rollForwardBusinessOccurrence
  method RollForwardBusinessOccurrence(calendar: Option<Calendar>, t: int) returns (r: int)
    ensures r == RolledForward(calendar, t)
  {
    hide Closed, AddDate, Date;
    if calendar.None? { return t; }
    var closed := IsNonWorkingOccurrence(calendar, t);
    if !closed { return t; }
    var c := calendar.value;
    if !c.zone.Loads() { return ZERO_TIME; }
    for k := 1 to MAXIMUM_SEARCH_DAYS + 1
      invariant RolledForward(calendar, t) == RollFrom(c, t, k)
    {
      var day := LocalDay(AddDate(t, c.offset, 0, 0, k), c.offset);
      var candidate := At(DayNumber(Year(day), Month(day), DayOfMonth(day)), LocalNanos(t, c.offset), c.offset);
      MovedByDays(t, c.offset, k);
      closed := IsNonWorkingOccurrence(calendar, candidate);
      if !closed { return candidate; }
    }
    return ZERO_TIME;
  }

  lemma MovedByDays(t: int, offset: int, k: int)
    ensures var day := LocalDay(AddDate(t, offset, 0, 0, k), offset);
            At(DayNumber(Year(day), Month(day), DayOfMonth(day)), LocalNanos(t, offset), offset)
            == t + k * 86_400_000_000_000
  {
    hide AddDate, MonthOf, MonthStart;
    AddDays(t, offset, k);
    JoinThenSplit(LocalDay(t, offset) + k, LocalNanos(t, offset), offset);
    DateRoundTrip(LocalDay(t, offset) + k);
    SplitThenJoin(t, offset);
  }
}
