// When fast-forward equals iteration for a monthly rule that rolls forward. All is decided on
// dates: which month's occurrence each of the two ends on, and which dates are closed.
module RolledMonthly {
  import opened Text
  import opened Civil
  import opened WallClock
  import opened WallRules
  import opened BusinessCalendar
  import opened RollForward
  import opened RolledDates
  import opened Recurrence
  import opened Misfire
  import opened FastForward

  // What validation guarantees of a rolling monthly rule.
  predicate RollingMonthly(s: Schedule) {
    s.rule.MonthlyAt? && 1 <= s.rule.day <= 31 && Rolls(s) && s.calendar.value.offset == s.offset
  }

  // The date of a month's occurrence.
  function RawDay(month: int, day: int): int {
    MonthStart(month) + Min(day, MonthLength(month)) - 1
  }

  lemma RawDayInMonth(month: int, day: int)
    requires 1 <= day
    ensures MonthStart(month) <= RawDay(month, day) < MonthStart(month + 1)
  {
    hide MonthStart, MonthLength;
    MonthStartStep(month);
  }

  lemma RawDaysAscend(a: int, b: int, day: int)
    requires 1 <= day && a <= b
    ensures RawDay(a, day) <= RawDay(b, day)
    ensures a < b ==> RawDay(a, day) < MonthStart(b) <= RawDay(b, day)
  {
    hide MonthStart, RawDay;
    if a < b {
      RawDayInMonth(a, day);
      RawDayInMonth(b, day);
      MonthsAscend(a + 1, b);
    }
  }

  // A month's occurrence before rolling, and its rolled form, zero when the search fails.
  function MonthInstant(s: Schedule, k: int): int
    requires s.rule.MonthlyAt? && s.calendar.Some?
  {
    OnDate(s.calendar.value, RawDay(k, s.rule.day), s.rule.clock)
  }

  function RolledMonth(s: Schedule, k: int): int
    requires s.rule.MonthlyAt? && s.calendar.Some?
  {
    RolledForward(s.calendar, MonthInstant(s, k))
  }

  // The month whose occurrence nextMonthly gives.
  function NextTarget(s: Schedule, now: int): int
    requires s.rule.MonthlyAt?
  {
    var today := LocalDay(now, s.offset);
    var m := MonthOf(today);
    if now < MonthlyIn(m, s.offset, s.rule.day, s.rule.clock) then m
    else if DayOfMonth(today) <= MonthLength(m + 1) then m + 1
    else m + 2
  }

  // The last month whose occurrence is not after now.
  function LastMonth(s: Schedule, now: int): int
    requires s.rule.MonthlyAt?
  {
    var m := MonthOf(LocalDay(now, s.offset));
    if now < MonthlyIn(m, s.offset, s.rule.day, s.rule.clock) then m - 1 else m
  }

  // The first date on which the clock is after now.
  function DateAfter(s: Schedule, now: int): int
    requires s.rule.MonthlyAt?
  {
    var today := LocalDay(now, s.offset);
    if now < At(today, ClockNanos(s.rule.clock), s.offset) then today else today + 1
  }

  // Iteration passes over a month when the occurrence of the month before rolls to a date of
  // its own month that this month lacks.
  ghost predicate PassedOver(c: Calendar, month: int, day: int) {
    exists d :: RawDay(month - 1, day) <= d < MonthStart(month) && !Closed(c, d) &&
      ClosedFrom(c, RawDay(month - 1, day), d) && MonthLength(month) < d - MonthStart(month - 1) + 1
  }

  // The month whose rolled occurrence iteration ends on: the last one up to now when all its
  // dates so far are closed, else the next; and one later when that month is passed over.
  ghost function ChainTarget(s: Schedule, now: int): int
    requires s.rule.MonthlyAt? && s.calendar.Some?
  {
    var c, day := s.calendar.value, s.rule.day;
    var u := LastMonth(s, now);
    var first := if ClosedFrom(c, RawDay(u, day), DateAfter(s, now)) then u else u + 1;
    if PassedOver(c, first, day) then first + 1 else first
  }

  // The schedule ends at a month after an instant and up to now that is not passed over.
  ghost predicate EndsMonthly(s: Schedule, after: int, now: int)
    requires s.rule.MonthlyAt? && s.calendar.Some?
  {
    exists j :: after < MonthInstant(s, j) <= now && !PassedOver(s.calendar.value, j, s.rule.day) &&
      RolledMonth(s, j) == ZERO_TIME
  }

  // Every date from the earlier of two months' occurrences to the later is closed.
  ghost predicate ClosedBetween(s: Schedule, a: int, b: int)
    requires s.rule.MonthlyAt? && s.calendar.Some?
  {
    ClosedFrom(s.calendar.value, RawDay(if a < b then a else b, s.rule.day), RawDay(if a < b then b else a, s.rule.day))
  }

  // ---------- instants and dates ----------

  lemma MonthlyOnDate(s: Schedule, month: int)
    requires RollingMonthly(s)
    ensures MonthlyIn(month, s.offset, s.rule.day, s.rule.clock) == MonthInstant(s, month)
  {
    hide MonthStart, MonthLength, RolledForward;
  }

  lemma BeforeDateAfter(s: Schedule, d: int, now: int)
    requires RollingMonthly(s)
    ensures OnDate(s.calendar.value, d, s.rule.clock) <= now <==> d < DateAfter(s, now)
  {
    hide LocalDay, RolledForward;
    WithinItsDay(now, s.offset);
  }

  lemma NextIsTarget(s: Schedule, now: int)
    requires RollingMonthly(s)
    ensures Next(s.rule, s.offset, now) == MonthInstant(s, NextTarget(s, now)) > now
  {
    hide MonthOf, DayOfMonth, LocalDay, MonthlyIn, MonthLength, NextMonthly, RolledForward, OnDate, RawDay, OnMonthDay;
    NextMonthlyExactly(now, s.offset, s.rule.day, s.rule.clock);
    NextMonthlyIsLeastUnlessSkipping(now, s.offset, s.rule.day, s.rule.clock);
    MonthlyOnDate(s, NextTarget(s, now));
  }

  lemma LastMonthBounds(s: Schedule, now: int)
    requires RollingMonthly(s)
    ensures var u := LastMonth(s, now); RawDay(u, s.rule.day) < DateAfter(s, now) <= RawDay(u + 1, s.rule.day)
  {
    hide MonthOf, LocalDay, MonthlyIn, RolledForward, OnDate, RawDay, DateAfter;
    var m := MonthOf(LocalDay(now, s.offset));
    BeforeLaterMonth(now, m + 1, s.offset, s.rule.day, s.rule.clock);
    MonthlyInItsMonth(m - 1, s.offset, s.rule.day, s.rule.clock);
    LaterMonthIsLater(MonthlyIn(m - 1, s.offset, s.rule.day, s.rule.clock), now, s.offset);
    MonthlyOnDate(s, m - 1);
    MonthlyOnDate(s, m);
    MonthlyOnDate(s, m + 1);
    BeforeDateAfter(s, RawDay(m - 1, s.rule.day), now);
    BeforeDateAfter(s, RawDay(m, s.rule.day), now);
    BeforeDateAfter(s, RawDay(m + 1, s.rule.day), now);
  }

  // ---------- one step of the chain ----------

  // The occurrence of month k rolled to date r: the step goes to the first month t with an
  // occurrence after r, or to the one after it when that month is passed over.
  lemma StepTarget(s: Schedule, k: int, r: int) returns (t: int)
    requires RollingMonthly(s)
    requires RawDay(k, s.rule.day) <= r && ClosedFrom(s.calendar.value, RawDay(k, s.rule.day), r)
    requires !Closed(s.calendar.value, r)
    ensures k < t && RawDay(t - 1, s.rule.day) <= r < RawDay(t, s.rule.day)
    ensures NextTarget(s, OnDate(s.calendar.value, r, s.rule.clock)) ==
            if PassedOver(s.calendar.value, t, s.rule.day) then t + 1 else t
  {
    hide MonthOf, MonthStart, MonthLength, LocalDay, MonthlyIn, RolledForward, Closed, RawDay, PassedOver;
    var c, day := s.calendar.value, s.rule.day;
    var e := OnDate(c, r, s.rule.clock);
    JoinThenSplit(r, ClockNanos(s.rule.clock), s.offset);
    var m := MonthOf(r);
    MonthOfBounds(r);
    RawDaysAscend(m - 1, m, day);
    RawDaysAscend(m, m + 1, day);
    MonthlyOnDate(s, m);
    t := if r < RawDay(m, day) then m else m + 1;
    if t <= k { RawDaysAscend(t, k, day); }
    RawDaysAscend(k, t - 1, day);
    if t == m + 1 { PassedOverAt(c, t, day, r); } else { NotPassedOver(c, t, day, r); }
  }

  // A month is passed over or not by the first open date from the occurrence before it on.
  lemma PassedOverAt(c: Calendar, t: int, day: int, r: int)
    requires RawDay(t - 1, day) <= r < MonthStart(t) && ClosedFrom(c, RawDay(t - 1, day), r) && !Closed(c, r)
    ensures PassedOver(c, t, day) <==> MonthLength(t) < r - MonthStart(t - 1) + 1
  {
    hide MonthStart, MonthLength, Closed, RawDay;
  }

  lemma NotPassedOver(c: Calendar, t: int, day: int, r: int)
    requires RawDay(t - 1, day) <= r && MonthStart(t) <= r && ClosedFrom(c, RawDay(t - 1, day), r)
    ensures !PassedOver(c, t, day)
  {
    hide MonthStart, MonthLength, Closed, RawDay;
  }

  lemma PassedOverApart(c: Calendar, t: int, day: int)
    requires PassedOver(c, t, day)
    ensures !PassedOver(c, t + 1, day)
  {
    hide MonthStart, Closed, RawDay;
    assert MonthStart(t) == MonthStart(t - 1) + MonthLength(t - 1) by { MonthStartStep(t - 1); }
    assert MonthStart(t + 1) == MonthStart(t) + MonthLength(t) by { MonthStartStep(t); }
    assert MonthLength(t) < MonthLength(t - 1) <= 31;
    ShortMonthsAreApart(t);
  }

  // ---------- the whole chain ----------

  // The dates of the last step decide the month that iteration ends on: from date r, before
  // the date after now, to date q, not before it.
  lemma LastStep(s: Schedule, now: int, t: int, r: int, n: int, q: int)
    requires RollingMonthly(s)
    requires RawDay(t - 1, s.rule.day) <= r < DateAfter(s, now) && !Closed(s.calendar.value, r)
    requires r < RawDay(t, s.rule.day)
    requires n == if PassedOver(s.calendar.value, t, s.rule.day) then t + 1 else t
    requires RawDay(n, s.rule.day) <= q && ClosedFrom(s.calendar.value, RawDay(n, s.rule.day), q)
    requires DateAfter(s, now) <= q
    ensures n <= ChainTarget(s, now) && ClosedBetween(s, n, ChainTarget(s, now))
    ensures DateAfter(s, now) <= RawDay(n, s.rule.day) ==> ChainTarget(s, now) == n
  {
    hide MonthStart, MonthLength, Closed, RawDay, PassedOver, RolledForward, DateAfter, LastMonth;
    var c, day := s.calendar.value, s.rule.day;
    var u := LastMonth(s, now);
    LastMonthBounds(s, now);
    if u + 1 <= t - 1 { RawDaysAscend(u + 1, t - 1, day); }
    if n <= u { RawDaysAscend(n, u, day); }
    if PassedOver(c, t, day) { PassedOverApart(c, t, day); }
    if n < u {
      RawDaysAscend(n, u - 1, day);
      RawDaysAscend(u - 1, u, day);
      NotPassedOver(c, u, day, RawDay(u, day));
    } else if u < t {
      assert !ClosedFrom(c, RawDay(u, day), DateAfter(s, now));
    }
  }

  // Two months roll to the same instant, or both to nothing.
  ghost predicate RollAlike(s: Schedule, a: int, b: int)
    requires s.rule.MonthlyAt? && s.calendar.Some?
  {
    (RolledMonth(s, a) == ZERO_TIME <==> RolledMonth(s, b) == ZERO_TIME) &&
    (RolledMonth(s, a) != ZERO_TIME ==> ClosedBetween(s, a, b))
  }

  lemma RollAlikeExactly(s: Schedule, a: int, b: int)
    requires RollingMonthly(s) && 0 < MonthInstant(s, a) && 0 < MonthInstant(s, b)
    ensures RolledMonth(s, a) == RolledMonth(s, b) <==> RollAlike(s, a, b)
  {
    hide RolledForward, RawDay, ClosedFrom, OnDate;
    RawDaysAscend(if a < b then a else b, if a < b then b else a, s.rule.day);
    if RolledMonth(s, a) != ZERO_TIME && RolledMonth(s, b) != ZERO_TIME {
      RollTogether(s.calendar.value, RawDay(if a < b then a else b, s.rule.day),
                   RawDay(if a < b then b else a, s.rule.day), s.rule.clock);
    }
  }

  lemma LaterIsPositive(s: Schedule, a: int, b: int)
    requires RollingMonthly(s) && 0 < MonthInstant(s, a) && a <= b
    ensures 0 < MonthInstant(s, b)
  {
    hide RawDay;
    RawDaysAscend(a, b, s.rule.day);
  }

  // The step from a rolled occurrence: it goes to the first later month that is not passed over,
  // and every later such month up to where that one rolls to rolls there as well.
  lemma MonthStep(s: Schedule, k: int) returns (n: int)
    requires RollingMonthly(s) && 0 < MonthInstant(s, k) && RolledMonth(s, k) != ZERO_TIME
    ensures n == NextTarget(s, RolledMonth(s, k)) && !PassedOver(s.calendar.value, n, s.rule.day)
    ensures 0 < MonthInstant(s, k) <= RolledMonth(s, k) < MonthInstant(s, n)
    ensures NextOccurrence(s, RolledMonth(s, k)) == RolledMonth(s, n)
    ensures RolledMonth(s, n) != ZERO_TIME ==>
              MonthInstant(s, n) <= RolledMonth(s, n) &&
              forall j | RolledMonth(s, k) < MonthInstant(s, j) <= RolledMonth(s, n) &&
                         !PassedOver(s.calendar.value, j, s.rule.day) :: RolledMonth(s, j) == RolledMonth(s, n)
  {
    hide RolledForward, Closed, RawDay, PassedOver, NextTarget, ClosedFrom, Next;
    var c, day, clock := s.calendar.value, s.rule.day, s.rule.clock;
    var r := RollsTo(c, RawDay(k, day), clock);
    var e := OnDate(c, r, clock);
    var t := StepTarget(s, k, r);
    NextIsTarget(s, e);
    n := NextTarget(s, e);
    if PassedOver(c, t, day) { PassedOverApart(c, t, day); }
    if RolledMonth(s, n) != ZERO_TIME {
      var q := RollsTo(c, RawDay(n, day), clock);
      forall j | e < MonthInstant(s, j) <= RolledMonth(s, n) && !PassedOver(c, j, day)
        ensures RolledMonth(s, j) == RolledMonth(s, n)
      {
        if j < t { RawDaysAscend(j, t - 1, day); }
        RawDaysAscend(n, j, day);
        RollsOnto(c, RawDay(n, day), RawDay(j, day), clock, q);
      }
    }
  }

  // A step that leads past now, or to nothing.
  lemma LastMonthStep(s: Schedule, k: int, now: int, n: int)
    requires RollingMonthly(s) && 0 < MonthInstant(s, k) && RolledMonth(s, k) != ZERO_TIME
    requires RolledMonth(s, k) <= now && n == NextTarget(s, RolledMonth(s, k))
    requires if RolledMonth(s, n) == ZERO_TIME then now < MonthInstant(s, n) else now < RolledMonth(s, n)
    ensures 0 < MonthInstant(s, ChainTarget(s, now)) && RolledMonth(s, ChainTarget(s, now)) == RolledMonth(s, n)
  {
    hide RolledForward, Closed, RawDay, PassedOver, ChainTarget, LastMonth, DateAfter, NextTarget;
    hide ClosedFrom, Next, ClosedBetween;
    var c, day, clock := s.calendar.value, s.rule.day, s.rule.clock;
    var r := RollsTo(c, RawDay(k, day), clock);
    var t := StepTarget(s, k, r);
    NextIsTarget(s, OnDate(c, r, clock));
    BeforeDateAfter(s, r, now);
    BeforeDateAfter(s, RawDay(n, day), now);
    if RolledMonth(s, n) == ZERO_TIME {
      NoDates(c, RawDay(n, day));
      LastStep(s, now, t, r, n, RawDay(n, day));
    } else {
      var q := RollsTo(c, RawDay(n, day), clock);
      BeforeDateAfter(s, q, now);
      LastStep(s, now, t, r, n, q);
      LaterIsPositive(s, n, ChainTarget(s, now));
      ClosedRollsOnto(s, n, ChainTarget(s, now), q);
    }
  }

  lemma ClosedRollsOnto(s: Schedule, n: int, f: int, q: int)
    requires RollingMonthly(s) && n <= f && ClosedBetween(s, n, f)
    requires CanRoll(s.calendar.value, RawDay(n, s.rule.day), s.rule.clock)
    requires RolledMonth(s, n) == OnDate(s.calendar.value, q, s.rule.clock)
    requires RawDay(n, s.rule.day) <= q && !Closed(s.calendar.value, q)
    ensures RolledMonth(s, f) == RolledMonth(s, n)
  {
    hide RolledForward, Closed, RawDay, OnDate;
    RawDaysAscend(n, f, s.rule.day);
    RollsOnto(s.calendar.value, RawDay(n, s.rule.day), RawDay(f, s.rule.day), s.rule.clock, q);
  }

  lemma NoDates(c: Calendar, day: int)
    ensures ClosedFrom(c, day, day)
  {
  }

  // From any rolled occurrence, iteration ends with the schedule or on the rolled occurrence of
  // ChainTarget.
  lemma {:induction false} RolledMonthlyChain(s: Schedule, k: int, now: int)
    requires RollingMonthly(s) && 0 < MonthInstant(s, k)
    requires RolledMonth(s, k) != ZERO_TIME && RolledMonth(s, k) <= now
    ensures if EndsMonthly(s, RolledMonth(s, k), now) then FirstAfter(s, RolledMonth(s, k), now) == ZERO_TIME
            else 0 < MonthInstant(s, ChainTarget(s, now)) &&
                 FirstAfter(s, RolledMonth(s, k), now) == RolledMonth(s, ChainTarget(s, now))
    decreases now - RolledMonth(s, k)
  {
    hide MonthInstant, RolledMonth, PassedOver, ChainTarget, NextTarget, NextOccurrence;
    var e := RolledMonth(s, k);
    var n := MonthStep(s, k);
    var next := RolledMonth(s, n);
    assert Following(s, e) == next;
    if next == ZERO_TIME {
      if now < MonthInstant(s, n) {
        LastMonthStep(s, k, now, n);
      }
    } else if now < next {
      LastMonthStep(s, k, now, n);
    } else {
      RolledMonthlyChain(s, n, now);
    }
  }

  // For a rolling monthly rule and any cursor. The schedule ends on the way when the first step
  // finds nothing, or a later month up to now that is not passed over does; then fast-forward
  // equals iteration exactly when it finds nothing either. Else it does exactly when two months
  // roll alike, all dates between their occurrences being closed: the one that nextMonthly
  // takes from now, and the one that iteration ends on, which is that of its first step when
  // the step leads past now.
  lemma RollingMonthlyFastForward(s: Schedule, cursor: int, now: int)
    requires RollingMonthly(s) && 0 < cursor <= now
    ensures var next := NextOccurrence(s, cursor);
            NextAfter(s, cursor, now) == FirstAfter(s, cursor, now) <==>
            if next == ZERO_TIME || (next <= now && EndsMonthly(s, next, now))
            then NextAfter(s, cursor, now) == ZERO_TIME
            else RollAlike(s, NextTarget(s, now), if next <= now then ChainTarget(s, now) else NextTarget(s, cursor))
  {
    hide RolledForward, RawDay, ChainTarget, NextTarget, Next, NextMonthly, RollAlike, OnDate, EndsMonthly;
    NextIsTarget(s, cursor);
    NextIsTarget(s, now);
    var next := NextOccurrence(s, cursor);
    var n := NextTarget(s, cursor);
    assert next == RolledMonth(s, n);
    if next != ZERO_TIME && next <= now {
      RolledMonthlyChain(s, n, now);
      if !EndsMonthly(s, next, now) { RollAlikeExactly(s, NextTarget(s, now), ChainTarget(s, now)); }
    } else {
      RollAlikeExactly(s, NextTarget(s, now), n);
    }
  }
  // ---------- a failing input in every month ----------

  function HolidayMonth(month: int): Schedule {
    Schedule(MonthlyAt(15, 0), Some(UTC), Some(OneHoliday(RawDay(month, 15))), ROLL_FORWARD)
  }

  // One month's 15th is followed by the next one's.
  lemma NextFifteenth(month: int, holiday: int)
    ensures var s := HolidayMonth(holiday);
            var t := At(RawDay(month, 15), 0, 0);
            Raw(s, t) && Next(s.rule, s.offset, t) == At(RawDay(month + 1, 15), 0, 0)
    ensures LocalDay(At(RawDay(month, 15), 0, 0), 0) == RawDay(month, 15)
  {
    hide MonthOf, DayOfMonth, MonthStart, MonthLength, LocalDay, LocalNanos, NextMonthly;
    var t := At(RawDay(month, 15), 0, 0);
    assert t == MonthlyIn(month, 0, 15, 0);
    assert 28 <= MonthLength(month) && 28 <= MonthLength(month + 1);
    JoinThenSplit(RawDay(month, 15), 0, 0);
    MonthlyInItsMonth(month, 0, 15, 0);
    NextMonthlyExactly(t, 0, 15, 0);
  }

  // On the 15th of each month, rolling forward, with the 15th of one month a holiday, the
  // cursor a month before it and the clock on it: the holiday's occurrence rolls to the 16th,
  // and fast-forward passes over it to the next month.
  lemma RollingMonthlyCanSkip(month: int)
    requires 14 <= month
    ensures var s := HolidayMonth(month);
            var cursor, now := At(RawDay(month - 1, 15), 0, 0), At(RawDay(month, 15), 0, 0);
            Valid(s) && RollingMonthly(s) && SearchAlwaysSucceeds(s.calendar.value) && Occurs(s, cursor) &&
            NextAfter(s, cursor, now) == At(RawDay(month + 1, 15), 0, 0) &&
            FirstAfter(s, cursor, now) == At(RawDay(month, 15) + 1, 0, 0)
  {
    hide ValidCalendar, LocalDay, OneHoliday, RolledForward, Next, Raw, RawDay, TrimSpace, Closed;
    var s := HolidayMonth(month);
    var holiday := RawDay(month, 15);
    OneHolidayIsValid(holiday);
    OneHolidaySearch(holiday);
    OneHolidayOffset(holiday);
    TrimmedIsFixed(ROLL_FORWARD);
    FirstDates(month);
    NextFifteenth(month - 1, month);
    NextFifteenth(month, month);
    OneHolidayCloses(holiday, RawDay(month - 1, 15));
    OneHolidayRolls(holiday, holiday);
    OneHolidayRolls(holiday, RawDay(month + 1, 15));
    var cursor, now := At(RawDay(month - 1, 15), 0, 0), At(holiday, 0, 0);
    assert Following(s, cursor) == At(holiday + 1, 0, 0);
  }

  lemma FirstDates(month: int)
    requires 14 <= month
    ensures 0 < RawDay(month - 1, 15) < RawDay(month, 15) < RawDay(month + 1, 15)
  {
    hide MonthStart, RawDay;
    FirstMonth();
    MonthsAscend(12, month - 1);
    RawDayInMonth(month - 1, 15);
    RawDaysAscend(month - 1, month, 15);
    RawDaysAscend(month, month + 1, 15);
  }
}
