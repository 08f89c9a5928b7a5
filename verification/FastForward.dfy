// NextAfter is the fast form of "keep calling next": when it equals the first element after
// now of the chain cursor, next(cursor), next(next(cursor)), ..., and when it does not.
module FastForward {
  import opened Text
  import opened Civil
  import opened WallClock
  import opened WallRules
  import opened BusinessCalendar
  import opened RollForward
  import opened RolledDates
  import opened Recurrence
  import opened Misfire
  import opened Quotients
  import Int64

  // ---------- daily and weekly ----------

  // Rolling ends the schedule at some occurrence after the cursor and up to now: the search
  // from it finds nothing.
  ghost predicate Ends(s: Schedule, cursor: int, now: int)
    requires s.rule.DailyAt? || s.rule.WeeklyAt?
  {
    Rolls(s) && exists q :: cursor < q <= now && Raw(s, q) && RolledForward(s.calendar, q) == ZERO_TIME
  }

  // Weekly rules that do not roll, and daily rules whether they roll or not, for a cursor that
  // need not be an occurrence: iteration ends with the schedule or agrees with the fast form.
  lemma {:induction false} RegularChain(s: Schedule, cursor: int, now: int)
    requires Regular(s) && 0 < cursor <= now
    ensures FirstAfter(s, cursor, now) == if Ends(s, cursor, now) then ZERO_TIME else NextAfter(s, cursor, now)
    decreases now - cursor
  {
    hide Raw, Next, RolledForward;
    var next := NextOccurrence(s, cursor);
    assert Following(s, cursor) == next && NextAfter(s, cursor, now) == NextOccurrence(s, now);
    OccurrenceAdvances(s, cursor);
    if Rolls(s) {
      DailyStep(s, cursor, now);
    } else {
      NextIsLeastRaw(s, cursor);
      NextIsLeastRaw(s, now);
    }
    if next != ZERO_TIME && next <= now {
      RegularChain(s, next, now);
    }
  }

  lemma DailyStep(s: Schedule, cursor: int, now: int)
    requires s.rule.DailyAt? && Rolls(s) && 0 < cursor <= now
    ensures var next := NextOccurrence(s, cursor);
            if next == ZERO_TIME then Ends(s, cursor, now) || NextOccurrence(s, now) == ZERO_TIME
            else if now < next then !Ends(s, cursor, now) && NextOccurrence(s, now) == next
            else Ends(s, cursor, now) <==> Ends(s, next, now)
  {
    hide Next, RolledForward, Working, OnClock;
    var c := s.calendar.value;
    var q, r, next := Next(s.rule, s.offset, cursor), Next(s.rule, s.offset, now), NextOccurrence(s, cursor);
    NextIsLeastRaw(s, cursor);
    NextIsLeastRaw(s, now);
    if next != ZERO_TIME {
      RolledIsLeast(c, q);
      SameClockOfDaily(q, next, s.offset, s.rule.clock);
      if now < next {
        assert Raw(s, next);
        SameClockOfDaily(q, r, s.offset, s.rule.clock);
        RolledOnto(c, q, r);
      }
      forall u | cursor < u <= next && Raw(s, u) ensures RolledForward(s.calendar, u) == next {
        SameClockOfDaily(q, u, s.offset, s.rule.clock);
        RolledOnto(c, q, u);
      }
    }
  }

  // So they agree exactly when the schedule does not end on the way, or the fast form reports
  // the end as well.
  lemma RegularFastForward(s: Schedule, cursor: int, now: int)
    requires Regular(s) && 0 < cursor <= now
    ensures NextAfter(s, cursor, now) == FirstAfter(s, cursor, now) <==>
            !Ends(s, cursor, now) || NextAfter(s, cursor, now) == ZERO_TIME
  {
    hide NextAfter, FirstAfter, Ends;
    RegularChain(s, cursor, now);
  }

  function SparseDaily(first: int): Schedule {
    Schedule(DailyAt(0), Some(UTC), Some(SparseCalendar(first, 523)), ROLL_FORWARD)
  }

  // A failing input: a validated rolling daily schedule with one open weekday, whose next 523
  // dates are blocked. Iteration ends the schedule at the first of them; from two days later on
  // the search reaches the date after the last one, and fast-forward goes on there.
  lemma DailyCanEnd(first: int)
    requires 1 < first
    ensures var s := SparseDaily(first);
            var cursor, now := At(first - 1, 0, 0), At(first + 1, 0, 0);
            Valid(s) && FirstAfter(s, cursor, now) == ZERO_TIME && NextAfter(s, cursor, now) == At(first + 3661, 0, 0)
  {
    hide ValidCalendar, LocalDay, LocalNanos, NextDaily, SparseCalendar, RolledForward, Working, TrimSpace;
    var s := SparseDaily(first);
    var c := SparseCalendar(first, 523);
    SparseCalendarIsValid(first, 523);
    SparseZone(first);
    TrimmedIsFixed(ROLL_FORWARD);
    var cursor, now := At(first - 1, 0, 0), At(first + 1, 0, 0);
    JoinThenSplit(first - 1, 0, 0);
    JoinThenSplit(first + 1, 0, 0);
    NextDailyDay(cursor, 0, 0);
    NextDailyDay(now, 0, 0);
    var n := FirstWorking(c, At(first, 0, 0));
    if n <= MAXIMUM_SEARCH_DAYS { SparseStaysClosed(first, 523, n); }
    assert Following(s, cursor) == ZERO_TIME;
    var resumed := At(first + 2, 0, 0);
    forall k | 0 <= k < 3659 ensures !Working(c, DaysLater(resumed, k)) {
      SparseStaysClosed(first, 523, k + 2);
      assert DaysLater(resumed, k) == DaysLater(At(first, 0, 0), k + 2);
    }
    var m := FirstWorking(c, At(first + 2, 0, 0));
    SparseReopens(first);
    assert DaysLater(At(first + 2, 0, 0), 3659) == At(first + 3661, 0, 0);
    assert m == 3659;
  }

  lemma SparseZone(first: int)
    ensures SparseCalendar(first, 523).zone == UTC && SparseCalendar(first, 523).offset == 0
  {
  }

  lemma SparseReopens(first: int)
    ensures Working(SparseCalendar(first, 523), At(first + 3661, 0, 0))
  {
    hide Closed, ValidCalendar, OpenWeekdays, Blocked, SparseCalendar, Weekday, LocalDay, LocalNanos;
    SparseCalendarIsValid(first, 523);
    SparseWeekdays(first, 523);
    SparseBlocks(first, 523);
    SparseZone(first);
    JoinThenSplit(first + 3661, 0, 0);
    WeekdayMatches(first, Weekday(first), 3661);
    WeekdayMatches(first, Weekday(first), 0);
    OpenUnlessBlocked(SparseCalendar(first, 523), first + 3661);
  }

  // ---------- cron ----------

  // The function gives the least instant after its argument among those it ever gives: no
  // argument before that instant leads past it.
  ghost predicate GivesLeast(next: int -> int) {
    forall c, n :: c <= n && (next(c) == ZERO_TIME || n < next(c)) ==> next(n) == next(c)
  }

  lemma {:induction false} CronFastForward(s: Schedule, cursor: int, now: int)
    requires s.rule.Cron? && !Rolls(s) && Advances(s.rule.next) && GivesLeast(s.rule.next)
    requires 0 < cursor <= now
    ensures NextAfter(s, cursor, now) == FirstAfter(s, cursor, now)
    decreases now - cursor
  {
    var next := s.rule.next(cursor);
    assert Following(s, cursor) == next && NextAfter(s, cursor, now) == s.rule.next(now);
    if next != ZERO_TIME && next <= now {
      CronFastForward(s, next, now);
    }
  }

  // ---------- intervals ----------

  // The first instant after now at a whole number of steps from the cursor.
  function InPhaseAfter(cursor: int, now: int, step: int): int
    requires 0 < step
  {
    cursor + ((now - cursor) / step + 1) * step
  }

  lemma {:induction false} IntervalChain(s: Schedule, cursor: int, now: int)
    requires s.rule.Interval? && 0 < s.rule.seconds && 0 < Step(s.rule.seconds) && !Rolls(s)
    requires 0 < cursor <= now
    ensures FirstAfter(s, cursor, now) == InPhaseAfter(cursor, now, Step(s.rule.seconds))
    decreases now - cursor
  {
    hide Step;
    var step := Step(s.rule.seconds);
    var next := cursor + step;
    assert Following(s, cursor) == next;
    QuotientBounds(now - cursor, step);
    if next <= now {
      IntervalChain(s, next, now);
      ShiftQuotient(now - cursor, step);
      PhaseShift(cursor, (now - next) / step + 1, step);
    } else {
      assert (now - cursor) / step == 0 by { QuotientOfSmall(now - cursor, step); }
    }
  }

  lemma InPhaseBounds(cursor: int, now: int, step: int)
    requires 0 < step && cursor <= now
    ensures now < InPhaseAfter(cursor, now, step) <= now + step
    ensures (InPhaseAfter(cursor, now, step) - cursor) % step == 0
  {
    QuotientBounds(now - cursor, step);
    var q := (now - cursor) / step + 1;
    PhaseShift(cursor, q - 1, step);
    MultipleRemainder(q, step);
  }

  // The 64-bit computation gives that instant exactly when it lies within 2^63-1 nanoseconds
  // of the cursor; otherwise it wraps around and lands before the cursor.
  lemma IntervalFits(cursor: int, now: int, seconds: int)
    requires 0 < Step(seconds) && cursor <= now
    ensures var exact := InPhaseAfter(cursor, now, Step(seconds));
            var got := IntervalAfter(cursor, now, seconds);
            (got == exact <==> exact - cursor <= Int64.MAX) && (got != exact ==> got < cursor)
  {
    hide Step, Int64.Wrap;
    StepIsEven(seconds);
    var step := Step(seconds);
    var gap := Int64.SaturatingSub(now, cursor);
    QuotientBounds(gap, step);
    QuotientBounds(now - cursor, step);
    var steps := gap / step + 1;
    StepsAreSmall(gap / step, step, gap);
    WrapSmall(steps);
    PhaseShift(0, gap / step, step);
    if steps * step <= Int64.MAX {
      WrapSmall(steps * step);
    } else {
      WrapLarge(steps * step);
    }
  }

  lemma StepsAreSmall(q: int, step: int, gap: int)
    requires 2 <= step && 0 <= q && q * step <= gap <= Int64.MAX
    ensures q + 1 <= Int64.MAX
  {
    assert q * 2 <= q * step;
  }

  lemma StepIsEven(seconds: int)
    ensures Step(seconds) % 2 == 0 && Step(seconds) <= Int64.MAX
  {
    var k := seconds * 500_000_000;
    var q := (2 * k + 9_223_372_036_854_775_808) / 18_446_744_073_709_551_616;
    assert Step(seconds) == 2 * (k - q * 9_223_372_036_854_775_808);
  }

  lemma WrapSmall(x: int)
    requires 0 <= x <= Int64.MAX
    ensures Int64.Wrap(x) == x
  {
  }

  lemma WrapLarge(x: int)
    requires Int64.MAX < x <= 2 * Int64.MAX
    ensures Int64.Wrap(x) == x - 18_446_744_073_709_551_616 < 0
  {
  }

  lemma IntervalFastForward(s: Schedule, cursor: int, now: int)
    requires s.rule.Interval? && 0 < s.rule.seconds && 0 < Step(s.rule.seconds) && !Rolls(s)
    requires 0 < cursor <= now
    ensures NextAfter(s, cursor, now) == FirstAfter(s, cursor, now) <==>
            FirstAfter(s, cursor, now) - cursor <= Int64.MAX
  {
    hide Step, IntervalAfter;
    IntervalChain(s, cursor, now);
    IntervalFits(cursor, now, s.rule.seconds);
  }

  // ---------- monthly ----------

  // The first month, by its occurrence after now, that has the requested day.
  function LongMonthAfter(now: int, offset: int, day: int, clock: Clock): int
    requires 1 <= day <= 31
  {
    var m := MonthOf(LocalDay(now, offset));
    if now < MonthlyIn(m, offset, day, clock) && day <= MonthLength(m) then m else NextLongMonth(m, day)
  }

  lemma LongMonthReached(now: int, month: int, offset: int, day: int, clock: Clock)
    requires 1 <= day <= 31
    requires MonthlyIn(month, offset, day, clock) <= now < MonthlyIn(NextLongMonth(month, day), offset, day, clock)
    ensures LongMonthAfter(now, offset, day, clock) == NextLongMonth(month, day)
  {
    hide MonthOf, LocalDay, MonthlyIn, MonthLength;
    var m := MonthOf(LocalDay(now, offset));
    var next := NextLongMonth(month, day);
    MonthlyInItsMonth(month, offset, day, clock);
    MonthlyInItsMonth(next, offset, day, clock);
    if m < month { LaterMonthIsLater(now, MonthlyIn(month, offset, day, clock), offset); }
    if next < m { LaterMonthIsLater(MonthlyIn(next, offset, day, clock), now, offset); }
    if MonthLength(month + 1) < 31 { ShortMonthsAreApart(month + 1); }
  }

  // From an occurrence the chain visits exactly the months that have the requested day.
  lemma {:induction false} MonthlyChain(s: Schedule, month: int, now: int)
    requires s.rule.MonthlyAt? && 1 <= s.rule.day <= 31 && !Rolls(s)
    requires 0 < MonthlyIn(month, s.offset, s.rule.day, s.rule.clock) <= now
    ensures FirstAfter(s, MonthlyIn(month, s.offset, s.rule.day, s.rule.clock), now) ==
            MonthlyIn(LongMonthAfter(now, s.offset, s.rule.day, s.rule.clock), s.offset, s.rule.day, s.rule.clock)
    decreases now - MonthlyIn(month, s.offset, s.rule.day, s.rule.clock)
  {
    hide MonthlyIn, MonthLength, NextMonthly, LongMonthAfter;
    var day, clock := s.rule.day, s.rule.clock;
    var next := NextLongMonth(month, day);
    MonthlyChainIsUnclamped(month, s.offset, day, clock);
    MonthlyInAscends(month, next, s.offset, day, clock);
    var t := MonthlyIn(month, s.offset, day, clock);
    assert Following(s, t) == MonthlyIn(next, s.offset, day, clock);
    if MonthlyIn(next, s.offset, day, clock) <= now {
      MonthlyChain(s, next, now);
    } else {
      LongMonthReached(now, month, s.offset, day, clock);
    }
  }

  // Checked on now alone: when the month's occurrence is still to come, the month must have
  // the day; when it is past, now's day and the requested day must both exist in the next
  // month or both be missing from it.
  predicate MonthlyAgrees(now: int, offset: int, day: int, clock: Clock) {
    var today := LocalDay(now, offset);
    var m := MonthOf(today);
    if now < MonthlyIn(m, offset, day, clock) then day <= MonthLength(m)
    else DayOfMonth(today) <= MonthLength(m + 1) <==> day <= MonthLength(m + 1)
  }

  lemma MonthlyInInjective(a: int, b: int, offset: int, day: int, clock: Clock)
    requires 1 <= day
    ensures MonthlyIn(a, offset, day, clock) == MonthlyIn(b, offset, day, clock) <==> a == b
  {
    hide MonthlyIn;
    if a < b { MonthlyInAscends(a, b, offset, day, clock); }
    if b < a { MonthlyInAscends(b, a, offset, day, clock); }
  }

  // From a cursor that is an occurrence, fast-forward equals iteration exactly when
  // MonthlyAgrees holds.
  lemma MonthlyFastForward(s: Schedule, cursor: int, now: int)
    requires s.rule.MonthlyAt? && 1 <= s.rule.day <= 31 && !Rolls(s)
    requires 0 < cursor <= now && OnMonthDay(cursor, s.offset, s.rule.day, s.rule.clock)
    ensures NextAfter(s, cursor, now) == FirstAfter(s, cursor, now) <==>
            MonthlyAgrees(now, s.offset, s.rule.day, s.rule.clock)
  {
    hide MonthOf, LocalDay, MonthlyIn, MonthLength, NextMonthly, OnMonthDay;
    var offset, day, clock := s.offset, s.rule.day, s.rule.clock;
    OnMonthDayExactly(cursor, offset, day, clock);
    MonthlyChain(s, MonthOf(LocalDay(cursor, offset)), now);
    NextMonthlyExactly(now, offset, day, clock);
    var m := MonthOf(LocalDay(now, offset));
    var long := LongMonthAfter(now, offset, day, clock);
    MonthlyInInjective(m, long, offset, day, clock);
    MonthlyInInjective(m + 1, long, offset, day, clock);
    MonthlyInInjective(m + 2, long, offset, day, clock);
  }

  // The two ways in which a clock reading between a cursor of no particular phase and its
  // next occurrence misleads the fast form: it lies later in the cursor's month, on a day the
  // next month lacks although it has the cursor's; or it lies in a month that the cursor's
  // day skips, before that month's occurrence.
  predicate MonthlyMisleads(cursor: int, now: int, offset: int, day: int, clock: Clock) {
    var m := MonthOf(LocalDay(cursor, offset));
    var n := MonthOf(LocalDay(now, offset));
    var fits := DayOfMonth(LocalDay(cursor, offset)) <= MonthLength(m + 1);
    MonthlyIn(m, offset, day, clock) <= cursor &&
    ((n == m && fits && MonthLength(m + 1) < DayOfMonth(LocalDay(now, offset))) ||
     (n == m + 1 && !fits && now < MonthlyIn(m + 1, offset, day, clock)))
  }

  // Any cursor at all: after its first step it is on an occurrence and MonthlyAgrees decides;
  // before that, MonthlyMisleads does.
  lemma MonthlyFastForwardOffPhase(s: Schedule, cursor: int, now: int)
    requires s.rule.MonthlyAt? && 1 <= s.rule.day <= 31 && !Rolls(s)
    requires 0 < cursor <= now
    ensures NextAfter(s, cursor, now) == FirstAfter(s, cursor, now) <==>
            if NextOccurrence(s, cursor) <= now then MonthlyAgrees(now, s.offset, s.rule.day, s.rule.clock)
            else !MonthlyMisleads(cursor, now, s.offset, s.rule.day, s.rule.clock)
  {
    hide MonthOf, LocalDay, MonthlyIn, MonthLength, NextMonthly, OnMonthDay, MonthlyAgrees, MonthlyMisleads;
    var offset, day, clock := s.offset, s.rule.day, s.rule.clock;
    NextMonthlyIsLeastUnlessSkipping(cursor, offset, day, clock);
    var next := NextOccurrence(s, cursor);
    if next <= now {
      MonthlyFastForward(s, next, now);
      assert NextAfter(s, cursor, now) == NextAfter(s, next, now);
    } else {
      MisleadsExactly(cursor, now, offset, day, clock);
    }
  }

  lemma MisleadsExactly(cursor: int, now: int, offset: int, day: int, clock: Clock)
    requires 1 <= day && cursor <= now < NextMonthly(cursor, offset, day, clock)
    ensures NextMonthly(now, offset, day, clock) == NextMonthly(cursor, offset, day, clock) <==>
            !MonthlyMisleads(cursor, now, offset, day, clock)
  {
    hide MonthOf, LocalDay, MonthlyIn, MonthLength, NextMonthly;
    var m := MonthOf(LocalDay(cursor, offset));
    var n := MonthOf(LocalDay(now, offset));
    NextMonthlyExactly(cursor, offset, day, clock);
    NextMonthlyExactly(now, offset, day, clock);
    if n < m { LaterMonthIsLater(now, cursor, offset); }
    if n == m { SameMonthOrder(cursor, now, offset); }
    DaysOfMonth(now, offset);
    DaysOfMonth(cursor, offset);
    MonthlyInItsMonth(m, offset, day, clock);
    MonthlyInItsMonth(m + 1, offset, day, clock);
    MonthlyInItsMonth(m + 2, offset, day, clock);
    if m + 2 < n { LaterMonthIsLater(MonthlyIn(m + 2, offset, day, clock), now, offset); }
    if m < n { LaterMonthIsLater(MonthlyIn(m, offset, day, clock), now, offset); }
    if m + 1 < n { LaterMonthIsLater(MonthlyIn(m + 1, offset, day, clock), now, offset); }
    if MonthLength(m + 1) < 31 { ShortMonthsAreApart(m + 1); }
    MonthlyInInjective(m, m + 1, offset, day, clock);
    MonthlyInInjective(m, m + 2, offset, day, clock);
    MonthlyInInjective(m + 1, m + 2, offset, day, clock);
    MonthlyInInjective(m + 1, m + 3, offset, day, clock);
    MonthlyInInjective(m + 2, m + 3, offset, day, clock);
  }

  lemma SameMonthOrder(t: int, u: int, offset: int)
    requires t <= u && MonthOf(LocalDay(t, offset)) == MonthOf(LocalDay(u, offset))
    ensures DayOfMonth(LocalDay(t, offset)) <= DayOfMonth(LocalDay(u, offset))
  {
    hide MonthOf, DayOfMonth, MonthStart;
    MonthOfBounds(LocalDay(t, offset));
    MonthOfBounds(LocalDay(u, offset));
  }

  lemma DaysOfMonth(t: int, offset: int)
    ensures 1 <= DayOfMonth(LocalDay(t, offset)) <= MonthLength(MonthOf(LocalDay(t, offset))) <= 31
  {
    hide MonthOf, MonthStart, LocalDay;
    DateRoundTrip(LocalDay(t, offset));
  }

  // A failing input: on the 15th of each month, with the cursor on 15 January 2026 and the
  // clock on 30 January, fast-forward passes over 15 February.
  lemma MonthlyCanSkip()
    ensures var s := Schedule(MonthlyAt(15, 0), None, None, "");
            var cursor := Date(2026, 1, 15, 0, 0);
            var now := Date(2026, 1, 30, 0, 0);
            NextAfter(s, cursor, now) == Date(2026, 3, 15, 0, 0) &&
            FirstAfter(s, cursor, now) == Date(2026, 2, 15, 0, 0)
  {
    hide MonthOf, LocalDay, NextMonthly, MonthStart, MonthLength, Date, MonthlyIn, FirstAfter, OnMonthDay;
    var s := Schedule(MonthlyAt(15, 0), None, None, "");
    var january := 24312;
    Lengths2026();
    Dates2026(15);
    Dates2026(30);
    Positive2026();
    MonthlyInOrder(january, 15, 30);
    January30();
    MonthlyChain(s, january, Date(2026, 1, 30, 0, 0));
  }

  lemma January30()
    ensures var now := Date(2026, 1, 30, 0, 0);
            LongMonthAfter(now, 0, 15, 0) == 24313 && NextMonthly(now, 0, 15, 0) == MonthlyIn(24314, 0, 15, 0)
  {
    hide MonthOf, LocalDay, NextMonthly, MonthStart, MonthLength, Date, MonthlyIn, OnMonthDay;
    Lengths2026();
    Dates2026(30);
    MonthlyInItsMonth(24312, 0, 30, 0);
    MonthlyInOrder(24312, 15, 30);
    NextMonthlyExactly(Date(2026, 1, 30, 0, 0), 0, 15, 0);
  }

  lemma Lengths2026()
    ensures MonthLength(24312) == 31 && MonthLength(24313) == 28 && MonthLength(24314) == 31
  {
  }

  lemma Dates2026(day: int)
    requires 1 <= day <= 31
    ensures Date(2026, 1, day, 0, 0) == MonthlyIn(24312, 0, day, 0)
    ensures day <= 28 ==> Date(2026, 2, day, 0, 0) == MonthlyIn(24313, 0, day, 0)
    ensures Date(2026, 3, day, 0, 0) == MonthlyIn(24314, 0, day, 0)
  {
    hide MonthStart, MonthLength;
    Lengths2026();
  }

  lemma Positive2026()
    ensures 0 < MonthlyIn(24312, 0, 15, 0)
  {
    hide MonthLength;
    MonthsAscend(12, 24312);
    assert MonthStart(12) == 0;
    hide MonthStart;
  }

  lemma MonthlyInOrder(month: int, a: int, b: int)
    requires 1 <= a < b <= 28 || (MonthLength(month) == 31 && 1 <= a < b <= 31)
    ensures MonthlyIn(month, 0, a, 0) < MonthlyIn(month, 0, b, 0)
  {
    hide MonthStart, MonthLength;
  }

  // ---------- weekly rules that roll forward ----------

  // The last weekly instant at or before now.
  function WeeklyUpTo(s: Schedule, now: int): int
    requires s.rule.WeeklyAt?
  {
    DaysLater(WeeklyAfter(now, s.offset, TargetWeekday(s.rule.weekday), s.rule.clock), -7)
  }

  lemma WeeksApart(s: Schedule, t: int, u: int)
    requires s.rule.WeeklyAt? && Raw(s, t) && Raw(s, u)
    ensures SameClock(t, u) && (t < u ==> DaysLater(t, 7) <= u)
  {
    hide LocalDay;
    OnClockIsAt(t, s.offset, s.rule.clock);
    OnClockIsAt(u, s.offset, s.rule.clock);
    assert u - t == (LocalDay(u, s.offset) - LocalDay(t, s.offset)) * 86_400_000_000_000;
  }

  lemma WeeklyUpToIsGreatest(s: Schedule, now: int)
    requires s.rule.WeeklyAt?
    ensures var p := WeeklyUpTo(s, now);
            p <= now && Raw(s, p) && forall u :: u <= now && Raw(s, u) ==> u <= p
  {
    hide LocalDay, LocalNanos, WeeklyAfter, Raw;
    NextIsLeastRaw(s, now);
    var r := Next(s.rule, s.offset, now);
    var p := WeeklyUpTo(s, now);
    WeekEarlier(s, r);
    forall u | u <= now && Raw(s, u) ensures u <= p {
      WeeksApart(s, u, r);
    }
  }

  lemma WeekEarlier(s: Schedule, r: int)
    requires s.rule.WeeklyAt? && Raw(s, r)
    ensures Raw(s, DaysLater(r, -7)) && DaysLater(r, -7) < r
  {
    hide LocalDay, LocalNanos, Weekday;
    DaysLaterDay(r, s.offset, -7);
    var day := LocalDay(r, s.offset);
    WeekdayMatches(day - 7, Weekday(day), 7);
    WeekdayMatches(day - 7, Weekday(day - 7), 0);
  }

  // What iteration gives for a rolling weekly rule, when the schedule does not end on the way:
  // the rolled form of the last weekly instant up to now when the chain still has to reach it,
  // else the fast form's answer.
  lemma {:induction false} RollingWeeklyChain(s: Schedule, cursor: int, now: int)
    requires s.rule.WeeklyAt? && Rolls(s) && 0 < cursor <= now
    ensures var p := WeeklyUpTo(s, now);
            FirstAfter(s, cursor, now) ==
              if Ends(s, cursor, now) then ZERO_TIME
              else if cursor < p && now < RolledForward(s.calendar, p) then RolledForward(s.calendar, p)
              else NextAfter(s, cursor, now)
    decreases now - cursor
  {
    hide RolledForward, Raw, Next, WeeklyUpTo, Ends;
    var next := NextOccurrence(s, cursor);
    assert Following(s, cursor) == next && NextAfter(s, cursor, now) == NextOccurrence(s, now);
    OccurrenceAdvances(s, cursor);
    WeeklyStep(s, cursor, now);
    if next != ZERO_TIME && next <= now {
      RollingWeeklyChain(s, next, now);
    }
  }

  lemma WeeklyStep(s: Schedule, cursor: int, now: int)
    requires s.rule.WeeklyAt? && Rolls(s) && 0 < cursor <= now
    ensures var p, next := WeeklyUpTo(s, now), NextOccurrence(s, cursor);
            if next == ZERO_TIME then Ends(s, cursor, now) || (p <= cursor && NextOccurrence(s, now) == ZERO_TIME)
            else if now < next then
              !Ends(s, cursor, now) &&
              next == if cursor < p then RolledForward(s.calendar, p) else NextOccurrence(s, now)
            else
              (Ends(s, cursor, now) <==> Ends(s, next, now)) &&
              (cursor < p <= next ==> RolledForward(s.calendar, p) == next)
  {
    hide Next, RolledForward, Working, Raw, WeeklyUpTo;
    var p := WeeklyUpTo(s, now);
    var q, next := Next(s.rule, s.offset, cursor), NextOccurrence(s, cursor);
    NextIsLeastRaw(s, cursor);
    NextIsLeastRaw(s, now);
    WeeklyUpToIsGreatest(s, now);
    if next != ZERO_TIME {
      RolledIsLeast(s.calendar.value, q);
      forall u | cursor < u <= next && Raw(s, u) ensures RolledForward(s.calendar, u) == next {
        WeeksApart(s, q, u);
        RolledOnto(s.calendar.value, q, u);
      }
    }
  }

  // Some date from a weekly instant on, in its week, is open and not after now.
  ghost predicate OpenBy(c: Calendar, p: int, now: int) {
    exists k :: 0 <= k < 7 && DaysLater(p, k) <= now && Working(c, DaysLater(p, k))
  }

  ghost predicate WeekClosed(c: Calendar, p: int) {
    forall k :: 0 <= k < 7 ==> !Working(c, DaysLater(p, k))
  }

  // For a rolling weekly rule, when the schedule ends on the way, fast-forward equals iteration
  // exactly when it reports the end; else exactly when the last weekly instant up to now is no
  // later than the cursor, or an open date has come since then, or the whole week from that
  // instant on is closed.
  lemma RollingWeeklyFastForward(s: Schedule, cursor: int, now: int)
    requires s.rule.WeeklyAt? && Rolls(s) && 0 < cursor <= now
    ensures var p := WeeklyUpTo(s, now);
            NextAfter(s, cursor, now) == FirstAfter(s, cursor, now) <==>
            if Ends(s, cursor, now) then NextAfter(s, cursor, now) == ZERO_TIME
            else p <= cursor || OpenBy(s.calendar.value, p, now) || WeekClosed(s.calendar.value, p)
  {
    hide RolledForward, Raw, Next, OpenBy, WeekClosed;
    var p := WeeklyUpTo(s, now);
    RollingWeeklyChain(s, cursor, now);
    NextIsLeastRaw(s, now);
    WeeklyUpToIsGreatest(s, now);
    WeekLater(s, now);
    if cursor < p && !Ends(s, cursor, now) {
      assert RolledForward(s.calendar, p) != ZERO_TIME;
      RolledByNow(s.calendar.value, p, now);
      RolledPastWeek(s.calendar.value, p);
    }
  }

  lemma WeekLater(s: Schedule, now: int)
    requires s.rule.WeeklyAt?
    ensures DaysLater(WeeklyUpTo(s, now), 7) == Next(s.rule, s.offset, now)
  {
    hide WeeklyAfter;
  }

  lemma RolledByNow(c: Calendar, p: int, now: int)
    requires 0 < p && RolledForward(Some(c), p) != ZERO_TIME && now < DaysLater(p, 7)
    ensures RolledForward(Some(c), p) <= now <==> OpenBy(c, p, now)
  {
    hide RolledForward, Working;
    RolledIsLeast(c, p);
    var r := RolledForward(Some(c), p);
    if r <= now {
      var k := SameClockIsDaysLater(p, r);
      assert Working(c, DaysLater(p, k));
    } else if OpenBy(c, p, now) {
      var k :| 0 <= k < 7 && DaysLater(p, k) <= now && Working(c, DaysLater(p, k));
      OnTheClock(p, k);
    }
  }

  lemma RolledPastWeek(c: Calendar, p: int)
    requires 0 < p && RolledForward(Some(c), p) != ZERO_TIME
    ensures RolledForward(Some(c), p) == RolledForward(Some(c), DaysLater(p, 7)) <==> WeekClosed(c, p)
  {
    hide RolledForward, Working;
    var q := DaysLater(p, 7);
    RolledIsLeast(c, p);
    OnTheClock(p, 7);
    var r := RolledForward(Some(c), p);
    if WeekClosed(c, p) {
      var k := SameClockIsDaysLater(p, r);
      assert 7 <= k;
      RolledOnto(c, p, q);
    } else {
      var k :| 0 <= k < 7 && Working(c, DaysLater(p, k));
      OnTheClock(p, k);
      if RolledForward(Some(c), q) != ZERO_TIME { RolledIsLeast(c, q); }
    }
  }

  // A failing input for every holiday: a rule on its weekday, with the cursor a week before it
  // and the clock on it. The holiday's occurrence rolls to the next date, and fast-forward
  // passes over it to the following week.
  lemma RollingWeeklyCanSkip(holiday: int)
    requires 8 <= holiday
    ensures var s := HolidayWeek(holiday);
            var cursor, now := At(holiday - 7, 0, 0), At(holiday, 0, 0);
            Valid(s) && SearchAlwaysSucceeds(s.calendar.value) && Occurs(s, cursor) &&
            NextAfter(s, cursor, now) == At(holiday + 7, 0, 0) &&
            FirstAfter(s, cursor, now) == At(holiday + 1, 0, 0)
  {
    hide ValidCalendar, LocalDay, LocalNanos, Weekday, OneHoliday, RolledForward, WeeklyAfter, TrimSpace, FirstAfter;
    var s := HolidayWeek(holiday);
    var c := OneHoliday(holiday);
    OneHolidayIsValid(holiday);
    OneHolidayOffset(holiday);
    TrimmedIsFixed(ROLL_FORWARD);
    var cursor, now := At(holiday - 7, 0, 0), At(holiday, 0, 0);
    JoinThenSplit(holiday - 7, 0, 0);
    JoinThenSplit(holiday, 0, 0);
    JoinThenSplit(holiday + 7, 0, 0);
    WeekdayMatches(holiday - 7, Weekday(holiday), 7);
    WeekdayMatches(holiday - 7, Weekday(holiday - 7), 0);
    OneHolidayCloses(holiday, holiday - 7);
    OneHolidayRolls(holiday, holiday - 7);
    OneHolidayRolls(holiday, holiday);
    OneHolidayRolls(holiday, holiday + 7);
    OneHolidaySearch(holiday);
    WeeklyUpToIsGreatest(s, now);
    RollingWeeklyChain(s, cursor, now);
    assert s.offset == 0 && Raw(s, now);
    assert WeeklyUpTo(s, now) == now;
    assert DaysLater(now, 7) == Next(s.rule, s.offset, now);
  }

  function HolidayWeek(holiday: int): Schedule {
    Schedule(WeeklyAt(Weekday(holiday), 0), Some(UTC), Some(OneHoliday(holiday)), ROLL_FORWARD)
  }

  lemma OneHolidayRolls(holiday: int, day: int)
    requires 0 < day
    ensures RolledForward(Some(OneHoliday(holiday)), At(day, 0, 0)) == At(if day == holiday then day + 1 else day, 0, 0)
  {
    hide Closed, LocalDay, LocalNanos, OneHoliday, RolledForward, At;
    OneHolidaySearch(holiday);
    OneHolidayOffset(holiday);
    OneHolidayCloses(holiday, day);
    OneHolidayCloses(holiday, day + 1);
    var c := OneHoliday(holiday);
    assert OnDate(c, day, 0) == At(day, 0, 0) && 0 < At(day, 0, 0) by { MidnightPositive(day); }
    var r := RollsTo(c, day, 0);
    assert r == if day == holiday then day + 1 else day;
  }

  lemma MidnightPositive(day: int)
    requires 0 < day
    ensures 0 < At(day, 0, 0)
  {
  }

  lemma OneHolidaySearch(holiday: int)
    ensures SearchAlwaysSucceeds(OneHoliday(holiday))
  {
    hide Closed, LocalDay, OneHoliday, RolledForward;
    var c := OneHoliday(holiday);
    OneHolidayOffset(holiday);
    forall t | 0 < t ensures RolledForward(Some(c), t) != ZERO_TIME {
      var n := FirstWorking(c, t);
      var day := LocalDay(t, c.offset);
      DaysLaterDay(t, c.offset, 0);
      DaysLaterDay(t, c.offset, 1);
      OneHolidayCloses(holiday, day);
      OneHolidayCloses(holiday, day + 1);
      assert Working(c, DaysLater(t, 0)) || Working(c, DaysLater(t, 1));
      assert DaysLater(t, n) != 0;
    }
  }
}
