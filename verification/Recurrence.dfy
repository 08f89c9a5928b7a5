// Schedules, their validation, and the next occurrence (schedule/schedule.go).
// A schedule is taken after its texts have been parsed: the kind of rule, the clock, the
// weekday and the zone's fixed offset. A cron rule is the function that the cron library
// makes of its expression: it gives a later instant, or zero when it finds none.
module Recurrence {
  import opened Text
  import opened Civil
  import opened WallClock
  import opened WallRules
  import opened BusinessCalendar
  import opened RollForward
  import Int64

  datatype Rule =
    | Once(at: int)
    | Interval(seconds: int)
    | DailyAt(clock: Clock)
    | WeeklyAt(weekday: int, clock: Clock)
    | MonthlyAt(day: int, clock: Clock)
    | Cron(next: int -> int)

  // The zone is None when its text is empty, which means UTC. Evaluation trims the zone text,
  // so that padding does not matter to it.
  datatype Schedule = Schedule(
    rule: Rule, zone: Option<Zone>, calendar: Option<Calendar>, nonWorkingDayPolicy: string)
  {
    const offset: int := if zone.Some? then zone.value.offset else 0
  }

  const SKIP := "skip"
  const ROLL_FORWARD := "roll_forward"

  // ---------- validation ----------

  predicate ValidRule(rule: Rule) {
    match rule
    case Once(_) => true
    case Interval(seconds) => seconds > 0
    case DailyAt(_) => true
    case WeeklyAt(weekday, _) => 0 <= weekday <= 6
    case MonthlyAt(day, _) => 1 <= day <= 31
    case Cron(_) => true
  }

  ghost predicate Valid(s: Schedule) {
    && ValidRule(s.rule)
    && (s.zone.Some? ==> s.zone.value.Loads())
    && (s.calendar.None? ==> Blank(s.nonWorkingDayPolicy))
    && (s.calendar.Some? ==>
          && !s.rule.Once? && !s.rule.Interval?
          && ValidCalendar(s.calendar.value)
          && s.zone.Some? && s.zone.value.name != "" && s.zone.value.name == s.calendar.value.zone.name
          && s.offset == s.calendar.value.offset
          && (TrimSpace(s.nonWorkingDayPolicy) == SKIP || TrimSpace(s.nonWorkingDayPolicy) == ROLL_FORWARD))
  }

  // Both zones come from one database: a name has one offset.
  predicate OneDatabase(s: Schedule) {
    s.zone.Some? && s.calendar.Some? && s.zone.value.name == s.calendar.value.zone.name ==>
      s.zone.value.known == s.calendar.value.zone.known
  }

  method Validate(s: Schedule) returns (ok: bool)
    requires OneDatabase(s)
    ensures ok <==> Valid(s)
  {
    hide ValidCalendar, TrimSpace;
    if !ValidRule(s.rule) { return false; }
    if s.zone.Some? && !s.zone.value.Loads() { return false; }
    if s.calendar.None? { return Blank(s.nonWorkingDayPolicy); }
    if s.rule.Once? || s.rule.Interval? { return false; }
    ok := ValidateBusinessCalendar(s.calendar.value);
    if !ok || s.zone.None? || s.zone.value.name == "" { return false; }
    if s.zone.value.name != s.calendar.value.zone.name { return false; }
    return TrimSpace(s.nonWorkingDayPolicy) == SKIP || TrimSpace(s.nonWorkingDayPolicy) == ROLL_FORWARD;
  }

  // What validation decides, field by field, from any valid schedule.
  lemma ScheduleFields(s: Schedule, n: int, clock: Clock, text: string, zone: Option<Zone>, next: int -> int)
    requires Valid(s)
    ensures Valid(s.(rule := Once(n))) <==> s.calendar.None?
    ensures Valid(s.(rule := Interval(n))) <==> s.calendar.None? && n > 0
    ensures Valid(s.(rule := DailyAt(clock))) && Valid(s.(rule := Cron(next)))
    ensures Valid(s.(rule := WeeklyAt(n, clock))) <==> 0 <= n < 7
    ensures Valid(s.(rule := MonthlyAt(n, clock))) <==> 0 < n < 32
    ensures Valid(s.(nonWorkingDayPolicy := text)) <==>
              if s.calendar.None? then TrimSpace(text) == "" else TrimSpace(text) in {"skip", "roll_forward"}
    ensures Valid(s.(calendar := None)) <==> TrimSpace(s.nonWorkingDayPolicy) == ""
    ensures Valid(s.(zone := zone)) <==>
              if zone.None? then s.calendar.None?
              else zone.value.known.Some? && !zone.value.padded &&
                   (s.calendar.Some? ==>
                      zone.value.name == s.calendar.value.zone.name != "" &&
                      zone.value.known == s.calendar.value.zone.known)
  {
    hide ValidCalendar, TrimSpace;
    if s.calendar.Some? { ZoneKnown(s.calendar.value); }
  }

  lemma CalendarGiven(s: Schedule, c: Calendar)
    requires Valid(s) && s.calendar.None?
    requires s.zone.Some? ==> s.zone.value.name == c.zone.name ==> s.zone.value.known == c.zone.known
    ensures Valid(s.(calendar := Some(c), nonWorkingDayPolicy := "skip")) <==>
            ValidCalendar(c) && !s.rule.Once? && !s.rule.Interval? &&
            s.zone.Some? && s.zone.value.name == c.zone.name != ""
  {
    hide ValidCalendar, TrimSpace;
    TrimmedIsFixed(SKIP);
  }

  // How values that validation refuses are still evaluated: an interval that is not positive as a
  // day, no weekday as Monday (5 January 1970), no day of a month as the nearest one from 1 to 31.
  lemma EvaluationDefaults(n: int, d: int, offset: int, now: int)
    ensures n <= 0 ==> Next(Interval(n), offset, now) == now + 24 * 60 * 60 * 1_000_000_000
    ensures TargetWeekday(n) == if 0 <= n < 7 then n else Weekday(DayNumber(1970, 1, 5))
    ensures 1 <= TargetDay(n) <= 31
    ensures 1 <= d <= 31 ==> Distance(n, TargetDay(n)) <= Distance(n, d)
  {
    DayByDefault(n, offset, now);
    EpochIsThursday(4);
    hide Next, MonthStart, Weekday;
  }

  lemma DayByDefault(n: int, offset: int, now: int)
    ensures n <= 0 ==> Next(Interval(n), offset, now) == now + 24 * 60 * 60 * 1_000_000_000
  {
    hide NextDaily, WeeklyAfter, NextMonthly;
  }

  function Distance(a: int, b: int): int {
    if a < b then b - a else a - b
  }

  predicate Skips(s: Schedule) { s.nonWorkingDayPolicy == SKIP }

  predicate Rolls(s: Schedule) { s.calendar.Some? && s.nonWorkingDayPolicy == ROLL_FORWARD }

  // Validation trims the policy but evaluation compares it as written: a validated policy
  // takes effect exactly when its text is not padded.
  lemma PolicyTakesEffectExactly(s: Schedule)
    requires Valid(s) && s.calendar.Some?
    ensures Skips(s) || Rolls(s) <==> TrimSpace(s.nonWorkingDayPolicy) == s.nonWorkingDayPolicy
    ensures (Skips(s) <==> s.nonWorkingDayPolicy == "skip") && (Rolls(s) <==> s.nonWorkingDayPolicy == "roll_forward")
  {
    hide ValidCalendar, TrimSpace;
    TrimmedIsFixed(SKIP);
    TrimmedIsFixed(ROLL_FORWARD);
  }

  // For instance "skip " passes validation and then neither skips nor rolls.
  lemma PaddedPolicyHasNoEffect(c: Calendar, rule: Rule)
    requires ValidCalendar(c) && c.zone.name != "" && !c.zone.padded
    requires ValidRule(rule) && !rule.Once? && !rule.Interval?
    ensures var s := Schedule(rule, Some(c.zone), Some(c), "skip ");
            Valid(s) && !Skips(s) && !Rolls(s)
  {
    hide ValidCalendar, IsSpace;
    SpacesTrimmed();
    assert c.zone.known.Some? by { ZoneKnown(c); }
  }

  lemma SpacesTrimmed()
    ensures TrimSpace("skip ") == "skip"
  {
    assert "skip "[..4] == "skip";
    assert TrimRight("skip ") == TrimRight("skip");
  }

  // ---------- the next occurrence ----------

  // The length of an interval in nanoseconds, as a 64-bit product.
  function Step(seconds: int): int {
    Int64.Wrap(seconds * 1_000_000_000)
  }

  // The length used for evaluation: a day when the seconds are not positive.
  function TargetStep(seconds: int): int {
    Step(if seconds <= 0 then 86_400 else seconds)
  }

  // The longest interval whose length in nanoseconds does not wrap around, about 292 years.
  const MAXIMUM_SECONDS := 9_223_372_036

  // The weekday used for evaluation: Monday when the text was not a weekday.
  function TargetWeekday(weekday: int): (w: int)
    ensures 0 <= w <= 6
  {
    if 0 <= weekday <= 6 then weekday else 1
  }

  // The day of the month used for evaluation.
  function TargetDay(day: int): (d: int)
    ensures 1 <= d <= 31
  {
    if day <= 0 then 1 else if day > 31 then 31 else day
  }

  function Next(rule: Rule, offset: int, now: int): int {
    match rule
    case Once(at) => at
    case Interval(seconds) => now + TargetStep(seconds)
    case DailyAt(clock) => NextDaily(now, offset, clock)
    case WeeklyAt(weekday, clock) => WeeklyAfter(now, offset, TargetWeekday(weekday), clock)
    case MonthlyAt(day, clock) => NextMonthly(now, offset, TargetDay(day), clock)
    case Cron(next) => next(now)
  }

  function NextOccurrence(s: Schedule, now: int): int {
    var next := Next(s.rule, s.offset, now);
    if Rolls(s) then RolledForward(s.calendar, next) else next
  }

  // NextSchedule, with the loops of nextWeekly and of the roll-forward search.
  method NextSchedule(s: Schedule, now: int) returns (r: int)
    ensures r == NextOccurrence(s, now)
  {
    hide WeeklyAfter, NextDaily, NextMonthly, RolledForward, Step;
    var next;
    if s.rule.WeeklyAt? {
      next := NextWeekly(now, s.offset, TargetWeekday(s.rule.weekday), s.rule.clock);
    } else {
      next := Next(s.rule, s.offset, now);
    }
    if s.calendar.None? || s.nonWorkingDayPolicy != ROLL_FORWARD { return next; }
    r := RollForwardBusinessOccurrence(s.calendar, next);
  }

  // ---------- progress ----------

  // What is assumed of the cron library.
  ghost predicate Advances(next: int -> int) {
    forall t :: next(t) == ZERO_TIME || t < next(t)
  }

  // Schedules that move on: every kind but once, with an interval whose 64-bit length is positive.
  ghost predicate Recurring(s: Schedule) {
    !s.rule.Once? && (s.rule.Interval? ==> 0 < TargetStep(s.rule.seconds)) &&
    (s.rule.Cron? ==> Advances(s.rule.next))
  }

  // An interval schedule moves forward exactly when its 64-bit length is positive; that is so
  // for every validated interval up to the maximum, and one second more already wraps around.
  lemma IntervalMovesExactly(seconds: int, offset: int, now: int)
    ensures now < Next(Interval(seconds), offset, now) <==> 0 < TargetStep(seconds)
    ensures seconds <= MAXIMUM_SECONDS ==> 0 < TargetStep(seconds)
    ensures 0 < seconds <= MAXIMUM_SECONDS ==> TargetStep(seconds) == seconds * 1_000_000_000
    ensures TargetStep(MAXIMUM_SECONDS + 1) < 0
  {
  }

  // That length is zero, and dividing by it fails, exactly for multiples of 2^55 seconds.
  lemma ZeroStepExactly(seconds: int)
    ensures Step(seconds) == 0 <==> seconds % 36_028_797_018_963_968 == 0
  {
    hide Int64.Wrap;
    var x := seconds * 1_000_000_000;
    WrapIsZero(x);
    if seconds % 36_028_797_018_963_968 == 0 {
      MultipleOfTwo64(seconds / 36_028_797_018_963_968 * 1_953_125);
    }
    if x % 18_446_744_073_709_551_616 == 0 {
      OddFactor(seconds, x / 18_446_744_073_709_551_616);
    }
  }

  lemma WrapIsZero(x: int)
    ensures Int64.Wrap(x) == 0 <==> x % 18_446_744_073_709_551_616 == 0
  {
  }

  lemma MultipleOfTwo64(k: int)
    ensures k * 18_446_744_073_709_551_616 % 18_446_744_073_709_551_616 == 0
  {
  }

  // 1953125 has an inverse modulo 2^55.
  lemma OddFactor(seconds: int, j: int)
    requires seconds * 1_953_125 == j * 36_028_797_018_963_968
    ensures seconds % 36_028_797_018_963_968 == 0
  {
    var q := j * 20_211_507_185_753_197 - seconds * 1_095_668;
    assert seconds == q * 36_028_797_018_963_968;
  }

  // A wall-clock rule shows its clock in its own zone, which is UTC when none is given or known:
  // k seconds east of Greenwich the clock shows the instant moved by k seconds.
  lemma ShowsItsClock(s: Schedule, now: int)
    requires s.rule.DailyAt? || s.rule.WeeklyAt? || s.rule.MonthlyAt?
    ensures var k := if s.zone.Some? && s.zone.value.known.Some? then s.zone.value.known.value else 0;
            (Next(s.rule, s.offset, now) + k * 1_000_000_000) % (24 * 60 * 60 * 1_000_000_000) ==
            s.rule.clock * 1_000_000_000
  {
    hide NextDaily, WeeklyAfter, NextMonthly, MonthOf, LocalDay, Weekday, MonthLength, DayOfMonth;
    match s.rule
    case DailyAt(clock) => NextDailyIsLeast(now, s.offset, clock);
    case WeeklyAt(weekday, clock) => WeeklyAfterIsLeast(now, s.offset, TargetWeekday(weekday), clock);
    case MonthlyAt(day, clock) => NextMonthlyIsLeastUnlessSkipping(now, s.offset, TargetDay(day), clock);
  }

  // A one-time schedule gives its instant for every now and is never moved.
  lemma OnceExactly(s: Schedule, now: int)
    requires s.rule.Once? && s.calendar.None?
    ensures NextOccurrence(s, now) == s.rule.at
  {
  }

  lemma NextAdvances(s: Schedule, now: int)
    requires Recurring(s)
    ensures now < Next(s.rule, s.offset, now) || (s.rule.Cron? && Next(s.rule, s.offset, now) == ZERO_TIME)
  {
    hide NextDaily, WeeklyAfter, NextMonthly, OnClock, OnMonthDay, Step, LocalDay, Weekday;
    match s.rule
    case Interval(seconds) =>
    case DailyAt(clock) => NextDailyIsLeast(now, s.offset, clock);
    case WeeklyAt(weekday, clock) => WeeklyAfterIsLeast(now, s.offset, TargetWeekday(weekday), clock);
    case MonthlyAt(day, clock) => NextMonthlyIsLeastUnlessSkipping(now, s.offset, TargetDay(day), clock);
    case Cron(next) => assert next(now) == ZERO_TIME || now < next(now);
  }

  lemma {:induction false} RollFromAdvances(c: Calendar, t: int, k: int)
    requires 0 <= k
    ensures RollFrom(c, t, k) == ZERO_TIME || t <= RollFrom(c, t, k)
    decreases MAXIMUM_SEARCH_DAYS - k
  {
    hide NonWorking;
    if k <= MAXIMUM_SEARCH_DAYS {
      RollFromAdvances(c, t, k + 1);
    }
  }

  // Every recurring schedule moves strictly forward, or reports that it found nothing.
  lemma OccurrenceAdvances(s: Schedule, now: int)
    requires Recurring(s)
    ensures NextOccurrence(s, now) == ZERO_TIME || now < NextOccurrence(s, now)
  {
    hide Next, RollFrom, NonWorking;
    NextAdvances(s, now);
    if Rolls(s) {
      ZeroIsWorking(s.calendar);
      RollFromAdvances(s.calendar.value, Next(s.rule, s.offset, now), 1);
    }
  }

  lemma ZeroIsWorking(calendar: Option<Calendar>)
    ensures !NonWorking(calendar, ZERO_TIME)
  {
  }

  // ---------- the least occurrence ----------

  // An instant the rule asks for, before any calendar.
  predicate Raw(s: Schedule, t: int)
    requires s.rule.DailyAt? || s.rule.WeeklyAt? || s.rule.MonthlyAt?
  {
    match s.rule
    case DailyAt(clock) => OnClock(t, s.offset, clock)
    case WeeklyAt(weekday, clock) =>
      OnClock(t, s.offset, clock) && Weekday(LocalDay(t, s.offset)) == TargetWeekday(weekday)
    case MonthlyAt(day, clock) => OnMonthDay(t, s.offset, TargetDay(day), clock)
  }

  predicate Occurs(s: Schedule, t: int)
    requires s.rule.DailyAt? || s.rule.WeeklyAt? || s.rule.MonthlyAt?
  {
    Raw(s, t) && (Rolls(s) ==> !NonWorking(s.calendar, t))
  }

  // Schedules whose next occurrence is the least one: weekly rules that do not roll, and
  // daily rules, which may roll.
  predicate Regular(s: Schedule) {
    s.rule.DailyAt? || (s.rule.WeeklyAt? && !Rolls(s))
  }

  ghost predicate SearchAlwaysSucceeds(c: Calendar) {
    forall t :: 0 < t ==> RolledForward(Some(c), t) != ZERO_TIME
  }

  // With two open weekdays, or few enough blocked dates, rolling never fails exactly when the
  // zone text of the calendar is not padded.
  lemma EnoughOpenDates(c: Calendar)
    requires ValidCalendar(c)
    requires |OpenWeekdays(c)| >= 2 || |Blocked(c)| < 523 * |OpenWeekdays(c)|
    ensures SearchAlwaysSucceeds(c) <==> !c.zone.padded
  {
    hide ValidCalendar, RolledForward, OpenWeekdays, Blocked;
    forall t | 0 < t ensures RolledForward(Some(c), t) != ZERO_TIME <==> !c.zone.padded {
      if |OpenWeekdays(c)| >= 2 { TwoWeekdaysSuffice(c, t); } else { SearchSucceeds(c, t); }
    }
    assert RolledForward(Some(c), 1) != ZERO_TIME <==> !c.zone.padded;
  }

  // A validated schedule with such a calendar: it rolls forward and never runs.
  lemma PaddedZoneNeverRuns(first: int, now: int)
    requires 0 <= now
    ensures var s := PaddedZoneDaily(first); Valid(s) && NextOccurrence(s, now) == ZERO_TIME
  {
    hide ValidCalendar, TrimSpace, NextDaily, OnClock, RolledForward, Weekday;
    var c := SparseCalendar(first, 0);
    SparseCalendarIsValid(first, 0);
    assert ValidCalendar(c.(zone := Zone("UTC", Some(0), true))) by { ZoneChanged(c, Zone("UTC", Some(0), true)); }
    TrimmedIsFixed(ROLL_FORWARD);
    NextDailyIsLeast(now, 0, 0);
    UnloadedClosesEverything(c.(zone := Zone("UTC", Some(0), true)), NextDaily(now, 0, 0));
  }

  lemma ZoneChanged(c: Calendar, zone: Zone)
    requires ValidCalendar(c) && zone.known.Some? && zone.name != LOCAL
    ensures ValidCalendar(c.(zone := zone))
  {
  }

  function PaddedZoneDaily(first: int): Schedule {
    Schedule(DailyAt(0), Some(UTC), Some(SparseCalendar(first, 0).(zone := Zone("UTC", Some(0), true))), ROLL_FORWARD)
  }

  lemma NextIsLeastRaw(s: Schedule, now: int)
    requires s.rule.DailyAt? || s.rule.WeeklyAt?
    ensures var r := Next(s.rule, s.offset, now);
            now < r && Raw(s, r) && forall u :: now < u && Raw(s, u) ==> r <= u
  {
    hide NextDaily, WeeklyAfter, OnClock, LocalDay, Weekday;
    match s.rule
    case DailyAt(clock) => NextDailyIsLeast(now, s.offset, clock);
    case WeeklyAt(weekday, clock) => WeeklyAfterIsLeast(now, s.offset, TargetWeekday(weekday), clock);
  }

  lemma SameClockOfDaily(t: int, u: int, offset: int, clock: Clock)
    requires OnClock(t, offset, clock)
    ensures OnClock(u, offset, clock) <==> SameClock(t, u)
  {
    hide LocalDay, ClockNanos;
    SplitThenJoin(t, offset);
    SplitThenJoin(u, offset);
    if SameClock(t, u) {
      var k := SameClockIsDaysLater(t, u);
      DaysLaterDay(t, offset, k);
    }
    if OnClock(u, offset, clock) {
      assert u - t == (LocalDay(u, offset) - LocalDay(t, offset)) * 86_400_000_000_000;
    }
  }

  // The next occurrence is the least one after now; for a rolling daily schedule, the least
  // instant on its clock that is not closed. Only such a schedule can have none, and then there
  // is none within the days searched.
  lemma NextIsLeast(s: Schedule, now: int)
    requires Regular(s) && 0 <= now
    ensures var r := NextOccurrence(s, now);
            if r == ZERO_TIME then
              Rolls(s) &&
              forall u :: now < u && Occurs(s, u) ==> DaysLater(Next(s.rule, s.offset, now), MAXIMUM_SEARCH_DAYS) < u
            else now < r && Occurs(s, r) && forall u :: now < u && Occurs(s, u) ==> r <= u
  {
    hide Next, RolledForward, OnClock, Working, LocalDay, Weekday;
    NextIsLeastRaw(s, now);
    if Rolls(s) {
      RolledDailyIsLeast(s, now);
    }
  }

  lemma RolledDailyIsLeast(s: Schedule, now: int)
    requires s.rule.DailyAt? && Rolls(s) && 0 <= now
    ensures var r := NextOccurrence(s, now);
            if r == ZERO_TIME then
              forall u :: now < u && Occurs(s, u) ==> DaysLater(Next(s.rule, s.offset, now), MAXIMUM_SEARCH_DAYS) < u
            else now < r && Occurs(s, r) && forall u :: now < u && Occurs(s, u) ==> r <= u
  {
    hide Next, RolledForward, OnClock, NonWorking, LocalDay;
    NextIsLeastRaw(s, now);
    var c := s.calendar.value;
    var raw, r := Next(s.rule, s.offset, now), NextOccurrence(s, now);
    var n := RolledIsFirst(c, raw);
    SameClockOfDaily(raw, DaysLater(raw, n), s.offset, s.rule.clock);
    OnTheClock(raw, n);
    forall u | now < u && Occurs(s, u) ensures DaysLater(raw, n) <= u {
      SameClockOfDaily(raw, u, s.offset, s.rule.clock);
      var k := SameClockIsDaysLater(raw, u);
    }
  }
}
