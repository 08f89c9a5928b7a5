// When two occurrences of a schedule that rolls forward share a window key.
module RolledKeys {
  import opened Text
  import opened Civil
  import opened WallClock
  import opened WallRules
  import opened BusinessCalendar
  import opened RollForward
  import opened RolledDates
  import opened Recurrence
  import opened WindowKeys

  // ---------- the block of dates behind a key ----------

  // The first date of the ISO week or of the month that a date's key names, and the date
  // after its last one.
  function BlockStart(s: Schedule, day: int): int {
    if s.rule.WeeklyAt? then Thursday(day) - 3 else MonthStart(MonthOf(day))
  }

  function BlockEnd(s: Schedule, day: int): int {
    if s.rule.WeeklyAt? then Thursday(day) + 4 else MonthStart(MonthOf(day) + 1)
  }

  lemma BlockHolds(s: Schedule, day: int, d: int)
    ensures BlockStart(s, day) <= day < BlockEnd(s, day)
    ensures BlockStart(s, d) == BlockStart(s, day) <==> BlockStart(s, day) <= d < BlockEnd(s, day)
  {
    hide MonthOf, MonthStart;
    if s.rule.WeeklyAt? {
      WeekBlock(day, d);
    } else {
      MonthOfBounds(day);
      MonthOfBounds(d);
      MonthOfUnique(d, MonthOf(day));
      if MonthOf(d) < MonthOf(day) { MonthsAscend(MonthOf(d), MonthOf(day)); }
      if MonthOf(day) < MonthOf(d) { MonthsAscend(MonthOf(day), MonthOf(d)); }
    }
  }

  lemma WeekBlock(day: int, d: int)
    ensures Thursday(day) - 3 <= day < Thursday(day) + 4
    ensures Thursday(d) == Thursday(day) <==> Thursday(day) - 3 <= d < Thursday(day) + 4
  {
    ThursdayIsThursday(day);
    ThursdayIsThursday(d);
    hide Thursday;
    if Thursday(day) - 3 <= d < Thursday(day) + 4 {
      SameWeekSameDay7(Thursday(d), Thursday(day));
    }
  }

  lemma SameWeekSameDay7(a: int, b: int)
    requires Weekday(a) == Weekday(b) && -7 < a - b < 7
    ensures a == b
  {
  }

  // Two instants share their key exactly when their dates lie in one block.
  lemma KeyIsBlock(s: Schedule, t: int, u: int)
    requires s.rule.WeeklyAt? || s.rule.MonthlyAt?
    ensures WindowSuffix(s, t) == WindowSuffix(s, u) <==>
            BlockStart(s, LocalDay(t, s.offset)) == BlockStart(s, LocalDay(u, s.offset))
  {
    hide MonthOf, MonthStart, LocalDay, Value, SignedValue, Thursday, WindowSuffix;
    var a, b := LocalDay(t, s.offset), LocalDay(u, s.offset);
    if WindowSuffix(s, t) == WindowSuffix(s, u) {
      KeyReadsBack(s, t);
      KeyReadsBack(s, u);
      if s.rule.WeeklyAt? { WeekIsUnique(a, b); }
    } else if BlockStart(s, a) == BlockStart(s, b) {
      if s.rule.MonthlyAt? { MonthStartsDiffer(MonthOf(a), MonthOf(b)); }
      SameBlockSameKey(s, t, u);
    }
  }

  lemma SameBlockSameKey(s: Schedule, t: int, u: int)
    requires s.rule.WeeklyAt? || s.rule.MonthlyAt?
    requires var a, b := LocalDay(t, s.offset), LocalDay(u, s.offset);
             if s.rule.WeeklyAt? then Thursday(a) == Thursday(b) else MonthOf(a) == MonthOf(b)
    ensures WindowSuffix(s, t) == WindowSuffix(s, u)
  {
    hide MonthOf, MonthStart, LocalDay, TimePadded, FmtPadded, Thursday;
  }

  // Two different instants that a rule asks for lie in different blocks.
  lemma RawBlocksDiffer(s: Schedule, t: int, u: int)
    requires s.rule.WeeklyAt? || s.rule.MonthlyAt?
    requires t < u && Raw(s, t) && Raw(s, u)
    ensures LocalDay(t, s.offset) < BlockStart(s, LocalDay(u, s.offset))
  {
    hide MonthOf, MonthStart, LocalDay, LocalNanos, Thursday, OnMonthDay, MonthlyIn, OnClock, Weekday;
    var a, b := LocalDay(t, s.offset), LocalDay(u, s.offset);
    BlockHolds(s, b, a);
    WithinItsDay(t, s.offset);
    WithinItsDay(u, s.offset);
    if BlockStart(s, a) == BlockStart(s, b) {
      match s.rule
      case WeeklyAt(_, clock) =>
        ThursdayIsThursday(a);
        ThursdayIsThursday(b);
        OnClockIsAt(t, s.offset, clock);
        OnClockIsAt(u, s.offset, clock);
      case MonthlyAt(day, clock) =>
        MonthStartsDiffer(MonthOf(a), MonthOf(b));
        OnMonthDayExactly(t, s.offset, TargetDay(day), clock);
        OnMonthDayExactly(u, s.offset, TargetDay(day), clock);
    }
  }

  lemma MonthStartsDiffer(a: int, b: int)
    requires MonthStart(a) == MonthStart(b)
    ensures a == b
  {
    hide MonthStart;
    if a < b { MonthsAscend(a, b); }
    if b < a { MonthsAscend(b, a); }
  }

  // ---------- the exact condition ----------

  // Two occurrences of a weekly or monthly rule, rolled forward, are different and yet share a
  // key exactly when, on the dates: all from the first occurrence's to the start of the second
  // one's week or month are closed, so that the first rolls into it; one before the second
  // occurrence's own date is open, so that it stops there; and one from that date to the end of
  // the week or month is open, so that the second does not roll out of it.
  lemma RolledKeysExactly(s: Schedule, t: int, u: int)
    requires (s.rule.WeeklyAt? || s.rule.MonthlyAt?) && Rolls(s) && s.calendar.value.offset == s.offset
    requires 0 < t < u && Raw(s, t) && Raw(s, u)
    requires RolledForward(s.calendar, t) != ZERO_TIME && RolledForward(s.calendar, u) != ZERO_TIME
    ensures var c := s.calendar.value;
            var x, y := LocalDay(t, s.offset), LocalDay(u, s.offset);
            var t', u' := RolledForward(s.calendar, t), RolledForward(s.calendar, u);
            t' != u' && WindowSuffix(s, t') == WindowSuffix(s, u') <==>
              ClosedFrom(c, x, BlockStart(s, y)) &&
              !ClosedFrom(c, BlockStart(s, y), y) && !ClosedFrom(c, y, BlockEnd(s, y))
  {
    hide LocalDay, LocalNanos, RolledForward, Closed, BlockStart, BlockEnd;
    hide WindowSuffix, OnMonthDay, Weekday;
    var c := s.calendar.value;
    var clock := s.rule.clock;
    var x, y := LocalDay(t, s.offset), LocalDay(u, s.offset);
    RawOnClock(s, t);
    RawOnClock(s, u);
    OnClockIsAt(t, s.offset, clock);
    OnClockIsAt(u, s.offset, clock);
    var p := RollsTo(c, x, clock);
    var q := RollsTo(c, y, clock);
    AtOnClock(p, s.offset, clock);
    AtOnClock(q, s.offset, clock);
    KeyIsBlock(s, RolledForward(s.calendar, t), RolledForward(s.calendar, u));
    RawBlocksDiffer(s, t, u);
    BlockHolds(s, y, p);
    BlockHolds(s, y, q);
    BlockHolds(s, p, q);
    BlockHolds(s, p, y);
    WithinItsDay(t, s.offset);
    WithinItsDay(u, s.offset);
  }

  lemma RawOnClock(s: Schedule, t: int)
    requires (s.rule.WeeklyAt? || s.rule.MonthlyAt?) && Raw(s, t)
    ensures OnClock(t, s.offset, s.rule.clock)
  {
    hide LocalDay, LocalNanos, MonthOf, MonthStart, MonthLength, Weekday;
  }

  // ---------- an example in every year ----------

  function MonthEnds(y: int): Schedule {
    Schedule(MonthlyAt(31, 0), Some(UTC), Some(OneHoliday(MonthStart(12 * y + 1) - 1)), ROLL_FORWARD)
  }

  // In any year, with 31 January a holiday, the rule for the 31st runs on 1 February, rolled
  // forward, and then on the last day of February: two windows of one month, one key.
  lemma RolledKeysCollide(y: int)
    requires 1 <= y
    ensures var s := MonthEnds(y);
            var first := NextOccurrence(s, At(MonthStart(12 * y), 0, 0));
            var second := NextOccurrence(s, first);
            Valid(s) && first < second && WindowSuffix(s, first) == WindowSuffix(s, second)
  {
    hide MonthOf, MonthStart, LocalDay, NextOccurrence, WindowSuffix, MonthlyIn, BlockStart, BlockEnd;
    var s := MonthEnds(y);
    var february := 12 * y + 1;
    var first, second := At(MonthStart(february), 0, 0), MonthlyIn(february, 0, 31, 0);
    MonthEndsIsValid(y);
    FirstRolled(y);
    SecondUnrolled(y);
    MonthlyInItsMonth(february, 0, 31, 0);
    JoinThenSplit(MonthStart(february), 0, 0);
    MonthStartStep(february);
    MonthOfUnique(MonthStart(february), february);
    FebruaryEnd(february);
    MonthEndsKeys(y, first, second);
  }

  lemma MonthEndsIsValid(y: int)
    ensures Valid(MonthEnds(y)) && MonthEnds(y).offset == 0
  {
    hide MonthStart, OneHoliday, ValidCalendar, TrimSpace;
    OneHolidayIsValid(MonthStart(12 * y + 1) - 1);
    OneHolidayOffset(MonthStart(12 * y + 1) - 1);
    RollPolicyTrimmed();
  }

  // Any two instants of one month share the key.
  lemma MonthEndsKeys(y: int, t: int, u: int)
    requires MonthOf(LocalDay(t, 0)) == MonthOf(LocalDay(u, 0)) == 12 * y + 1
    ensures WindowSuffix(MonthEnds(y), t) == WindowSuffix(MonthEnds(y), u)
  {
    hide MonthOf, MonthStart, LocalDay, Valid, WindowSuffix;
    MonthEndsIsValid(y);
    MonthSplit(y, 1);
    KeyIsBlock(MonthEnds(y), t, u);
  }

  lemma RollPolicyTrimmed()
    ensures TrimSpace(ROLL_FORWARD) == ROLL_FORWARD
  {
    TrimmedIsFixed(ROLL_FORWARD);
  }

  lemma JanuaryLength(y: int)
    ensures MonthLength(12 * y) == 31 && 28 <= MonthLength(12 * y + 1) <= 29
  {
    MonthSplit(y, 0);
    MonthSplit(y, 1);
  }

  lemma FebruaryEnd(month: int)
    ensures At(MonthStart(month), 0, 0) < MonthlyIn(month, 0, 31, 0)
  {
    hide MonthStart, MonthLength;
    assert 28 <= MonthLength(month);
  }

  lemma FirstRolled(y: int)
    requires 1 <= y
    ensures NextOccurrence(MonthEnds(y), At(MonthStart(12 * y), 0, 0)) == At(MonthStart(12 * y + 1), 0, 0)
  {
    hide MonthOf, DayOfMonth, MonthStart, MonthLength, LocalDay, NextMonthly, OneHoliday, Closed;
    var january := 12 * y;
    var last := MonthStart(january + 1) - 1;
    JanuaryLength(y);
    MonthStartStep(january);
    MonthsAscend(12, january);
    FirstMonth();
    var start := At(MonthStart(january), 0, 0);
    JoinThenSplit(MonthStart(january), 0, 0);
    MonthOfUnique(MonthStart(january), january);
    NextMonthlyExactly(start, 0, 31, 0);
    var raw := At(last, 0, 0);
    assert NextMonthly(start, 0, 31, 0) == raw;
    JoinThenSplit(last, 0, 0);
    JoinThenSplit(last + 1, 0, 0);
    OneHolidayCloses(last, last);
    OneHolidayCloses(last, last + 1);
    OneHolidayOffset(last);
    var c := OneHoliday(last);
    assert RollFrom(c, raw, 1) == At(last + 1, 0, 0);
  }

  lemma SecondUnrolled(y: int)
    requires 1 <= y
    ensures NextOccurrence(MonthEnds(y), At(MonthStart(12 * y + 1), 0, 0)) == MonthlyIn(12 * y + 1, 0, 31, 0)
  {
    hide MonthOf, DayOfMonth, MonthStart, MonthLength, LocalDay, NextMonthly, OneHoliday, Closed, RollFrom;
    var february := 12 * y + 1;
    var holiday := MonthStart(february) - 1;
    var start := At(MonthStart(february), 0, 0);
    MonthStartStep(february);
    JoinThenSplit(MonthStart(february), 0, 0);
    MonthOfUnique(MonthStart(february), february);
    NextMonthlyExactly(start, 0, 31, 0);
    FebruaryEnd(february);
    var day := MonthStart(february) + Min(31, MonthLength(february)) - 1;
    JoinThenSplit(day, 0, 0);
    OneHolidayCloses(holiday, day);
    OneHolidayOffset(holiday);
  }
}
