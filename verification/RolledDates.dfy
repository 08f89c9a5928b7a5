// Rolling forward seen on dates: where an occurrence goes is decided by runs of closed dates.
module RolledDates {
  import opened Text
  import opened Civil
  import opened WallClock
  import opened WorkingIntervals
  import opened BusinessCalendar
  import opened RollForward

  // Every date from a up to b, b excluded, is closed.
  ghost predicate ClosedFrom(c: Calendar, a: int, b: int) {
    forall d :: a <= d < b ==> Closed(c, d)
  }

  // A wall-clock instant on a date, in the calendar's zone.
  function OnDate(c: Calendar, day: int, clock: Clock): int {
    At(day, ClockNanos(clock), c.offset)
  }

  ghost predicate CanRoll(c: Calendar, day: int, clock: Clock) {
    0 < OnDate(c, day, clock) && RolledForward(Some(c), OnDate(c, day, clock)) != ZERO_TIME
  }

  lemma OnDateLater(c: Calendar, day: int, clock: Clock, k: int)
    ensures DaysLater(OnDate(c, day, clock), k) == OnDate(c, day + k, clock)
    ensures Working(c, OnDate(c, day, clock)) <==> !Closed(c, day)
  {
    hide Closed, LocalDay, LocalNanos;
    JoinThenSplit(day, ClockNanos(clock), c.offset);
  }

  // The occurrence of a date rolls to the first open date from there on.
  lemma RollsTo(c: Calendar, day: int, clock: Clock) returns (r: int)
    requires CanRoll(c, day, clock)
    ensures day <= r && ClosedFrom(c, day, r) && !Closed(c, r)
    ensures RolledForward(Some(c), OnDate(c, day, clock)) == OnDate(c, r, clock)
  {
    hide Closed, Working, RolledForward, OnDate;
    var t := OnDate(c, day, clock);
    RolledLoads(c, t);
    var n := FirstWorking(c, t);
    r := day + n;
    OnDateLater(c, day, clock, n);
    OnDateLater(c, r, clock, 0);
    forall d | day <= d < r ensures Closed(c, d) {
      OnDateLater(c, day, clock, d - day);
      OnDateLater(c, d, clock, 0);
      assert !Working(c, DaysLater(t, d - day));
    }
  }

  // Any later date up to the one an earlier date rolls to rolls there as well.
  lemma RollsOnto(c: Calendar, a: int, b: int, clock: Clock, r: int)
    requires CanRoll(c, a, clock) && RolledForward(Some(c), OnDate(c, a, clock)) == OnDate(c, r, clock) && a <= b <= r
    ensures RolledForward(Some(c), OnDate(c, b, clock)) == OnDate(c, r, clock)
  {
    hide RolledForward, OnDate;
    OnDateLater(c, a, clock, b - a);
    OnDateLater(c, a, clock, r - a);
    OnTheClock(OnDate(c, a, clock), b - a);
    RolledOnto(c, OnDate(c, a, clock), OnDate(c, b, clock));
  }

  // Two dates roll to the same one exactly when all dates between them are closed.
  lemma RollTogether(c: Calendar, a: int, b: int, clock: Clock)
    requires a <= b && CanRoll(c, a, clock) && CanRoll(c, b, clock)
    ensures RolledForward(Some(c), OnDate(c, a, clock)) == RolledForward(Some(c), OnDate(c, b, clock)) <==>
            ClosedFrom(c, a, b)
  {
    hide Closed, RolledForward, CanRoll;
    var x := RollsTo(c, a, clock);
    var y := RollsTo(c, b, clock);
  }

  // ---------- a calendar with one closed date ----------

  // A calendar open on every weekday, with one holiday.
  function OneHoliday(holiday: int): Calendar {
    Calendar("key", "revision", UTC,
      seq(7, i => WeeklySchedule(i, [TimeInterval("09:00", "18:00")])), [holiday], [])
  }

  lemma OneHolidayCloses(holiday: int, day: int)
    ensures Closed(OneHoliday(holiday), day) <==> day == holiday
  {
    hide Weekday;
    var c := OneHoliday(holiday);
    var w := Weekday(day);
    assert c.weekly[w].weekday == w && c.weekly[w].intervals != [];
    WeeklyVerdictOpen(c.weekly, w);
  }

  lemma OneHolidayIsValid(holiday: int)
    ensures ValidCalendar(OneHoliday(holiday))
  {
    hide Accepted, TrimSpace;
    TrimmedIsFixed("key");
    TrimmedIsFixed("revision");
    OfficeHoursAccepted();
  }

  lemma OneHolidayOffset(holiday: int)
    ensures OneHoliday(holiday).zone == UTC && OneHoliday(holiday).offset == 0
  {
  }
}
