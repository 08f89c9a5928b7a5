// The next daily, weekly and monthly wall-clock instants (schedule/schedule.go, from nextDaily on).
module WallRules {
  import opened Civil
  import opened WallClock

  // ---------- daily ----------

  function NextDaily(now: int, offset: int, clock: Clock): int {
    var day := LocalDay(now, offset);
    var candidate := Date(Year(day), Month(day), DayOfMonth(day), clock, offset);
    if now < candidate then candidate else AddDate(candidate, offset, 0, 0, 1)
  }

  predicate OnClock(t: int, offset: int, clock: Clock) {
    LocalNanos(t, offset) == ClockNanos(clock)
  }

  lemma OnClockIsAt(t: int, offset: int, clock: Clock)
    requires OnClock(t, offset, clock)
    ensures t == At(LocalDay(t, offset), ClockNanos(clock), offset)
  {
    SplitThenJoin(t, offset);
  }

  lemma AtOnClock(day: int, offset: int, clock: Clock)
    ensures OnClock(At(day, ClockNanos(clock), offset), offset, clock)
    ensures LocalDay(At(day, ClockNanos(clock), offset), offset) == day
  {
    JoinThenSplit(day, ClockNanos(clock), offset);
  }

  // An instant lies between the two midnights of its local day.
  lemma WithinItsDay(t: int, offset: int)
    ensures At(LocalDay(t, offset), 0, offset) <= t < At(LocalDay(t, offset) + 1, 0, offset)
  {
    SplitThenJoin(t, offset);
  }

  lemma NextDailyDay(now: int, offset: int, clock: Clock)
    ensures var day := LocalDay(now, offset);
            var today := At(day, ClockNanos(clock), offset);
            NextDaily(now, offset, clock) == if now < today then today else At(day + 1, ClockNanos(clock), offset)
  {
    hide AddDate, Date, MonthOf, LocalDay, LocalNanos, At;
    var day := LocalDay(now, offset);
    DateOfDay(day, clock, offset);
    AddDays(At(day, ClockNanos(clock), offset), offset, 1);
    JoinThenSplit(day, ClockNanos(clock), offset);
  }

  // nextDaily gives the least instant after now that shows the clock.
  lemma NextDailyIsLeast(now: int, offset: int, clock: Clock)
    ensures var r := NextDaily(now, offset, clock);
            now < r && OnClock(r, offset, clock) &&
            forall u :: now < u && OnClock(u, offset, clock) ==> r <= u
  {
    hide NextDaily, LocalDay, LocalNanos;
    var day := LocalDay(now, offset);
    NextDailyDay(now, offset, clock);
    AtOnClock(day, offset, clock);
    AtOnClock(day + 1, offset, clock);
    WithinItsDay(now, offset);
    var r := NextDaily(now, offset, clock);
    forall u | now < u && OnClock(u, offset, clock) ensures r <= u {
      OnClockIsAt(u, offset, clock);
      WithinItsDay(u, offset);
    }
  }

  // ---------- weekly ----------

  // The clock on the first matching weekday from today on, or a week later if that is past.
  function WeeklyAfter(now: int, offset: int, target: int, clock: Clock): int
    requires 0 <= target <= 6
  {
    var day := LocalDay(now, offset);
    var matching := day + (target - Weekday(day)) % 7;
    var candidate := At(matching, ClockNanos(clock), offset);
    if now < candidate then candidate else At(matching + 7, ClockNanos(clock), offset)
  }

  lemma WeekdayMatches(day: int, target: int, k: int)
    requires 0 <= target <= 6 && 0 <= k
    ensures Weekday(day + k) == target <==> k % 7 == (target - Weekday(day)) % 7
  {
    var w, r := Weekday(day), k % 7;
    assert Weekday(day + k) == (w + r) % 7;
  }

  predicate IsHit(day: int, now: int, offset: int, target: int, clock: Clock) {
    Weekday(day) == target && now < At(day, ClockNanos(clock), offset)
  }

  lemma SomeHit(now: int, offset: int, target: int, clock: Clock) returns (day: int)
    requires 0 <= target <= 6
    ensures LocalDay(now, offset) <= day <= LocalDay(now, offset) + 7 && IsHit(day, now, offset, target, clock)
  {
    hide Weekday, LocalDay;
    var today := LocalDay(now, offset);
    var delta := (target - Weekday(today)) % 7;
    WithinItsDay(now, offset);
    WeekdayMatches(today, target, 7);
    WeekdayMatches(today, target, delta);
    day := if delta == 0 then today + 7 else today + delta;
  }

  lemma DaysOn(now: int, offset: int, days: int)
    ensures LocalDay(AddDate(now, offset, 0, 0, days), offset) == LocalDay(now, offset) + days
  {
    hide AddDate, LocalDay, LocalNanos;
    AddDays(now, offset, days);
    JoinThenSplit(LocalDay(now, offset) + days, LocalNanos(now, offset), offset);
  }

  // nextWeekly. The loop always returns: its eight days hold the weekday tomorrow or later.
  method NextWeekly(now: int, offset: int, target: int, clock: Clock) returns (r: int)
    requires 0 <= target <= 6
    ensures r == WeeklyAfter(now, offset, target, clock)
  {
    hide AddDate, Date, At, Weekday, LocalDay, LocalNanos, MonthOf, MonthStart;
    ghost var today := LocalDay(now, offset);
    for k := 0 to 8
      invariant forall d :: today <= d < today + k ==> !IsHit(d, now, offset, target, clock)
    {
      DaysOn(now, offset, k);
      var day := LocalDay(AddDate(now, offset, 0, 0, k), offset);
      WeekdayMatches(today, target, k);
      if Weekday(day) == target {
        DateOfDay(day, clock, offset);
        var candidate := Date(Year(day), Month(day), DayOfMonth(day), clock, offset);
        if now < candidate {
          WeekdayMatches(today, target, 0);
          assert k == 7 ==> !IsHit(today, now, offset, target, clock);
          return candidate;
        }
      }
    }
    ghost var hit := SomeHit(now, offset, target, clock);
    assert false;
  }

  lemma WeeklyAfterIsLeast(now: int, offset: int, target: int, clock: Clock)
    requires 0 <= target <= 6
    ensures var r := WeeklyAfter(now, offset, target, clock);
            now < r && OnClock(r, offset, clock) && Weekday(LocalDay(r, offset)) == target &&
            forall u :: now < u && OnClock(u, offset, clock) && Weekday(LocalDay(u, offset)) == target ==> r <= u
  {
    hide LocalDay, LocalNanos, Weekday;
    var today := LocalDay(now, offset);
    var delta := (target - Weekday(today)) % 7;
    AtOnClock(today + delta, offset, clock);
    AtOnClock(today + delta + 7, offset, clock);
    WeekdayMatches(today, target, delta);
    WeekdayMatches(today, target, delta + 7);
    WithinItsDay(now, offset);
    var r := WeeklyAfter(now, offset, target, clock);
    forall u | now < u && OnClock(u, offset, clock) && Weekday(LocalDay(u, offset)) == target ensures r <= u {
      OnClockIsAt(u, offset, clock);
      WithinItsDay(u, offset);
      WeekdayMatches(today, target, LocalDay(u, offset) - today);
    }
  }

  // The same with weekdays counted from Thursday, 1 January 1970.
  lemma WeeklyAfterFromThursday(now: int, offset: int, target: int, clock: Clock)
    requires 0 <= target <= 6
    ensures var r := WeeklyAfter(now, offset, target, clock);
            var thursday := DayNumber(1970, 1, 1);
            now < r && OnClock(r, offset, clock) && (LocalDay(r, offset) - thursday - (target - 4)) % 7 == 0 &&
            forall u | now < u && OnClock(u, offset, clock) &&
                       (LocalDay(u, offset) - thursday - (target - 4)) % 7 == 0 :: r <= u
  {
    hide LocalDay, LocalNanos, Weekday, WeeklyAfter, DayNumber;
    WeeklyAfterIsLeast(now, offset, target, clock);
    var r := WeeklyAfter(now, offset, target, clock);
    OnWeekday(LocalDay(r, offset), target);
    forall u | now < u && OnClock(u, offset, clock) &&
               (LocalDay(u, offset) - DayNumber(1970, 1, 1) - (target - 4)) % 7 == 0
      ensures r <= u
    {
      OnWeekday(LocalDay(u, offset), target);
    }
  }

  lemma OnWeekday(day: int, target: int)
    requires 0 <= target <= 6
    ensures Weekday(day) == target <==> (day - DayNumber(1970, 1, 1) - (target - 4)) % 7 == 0
  {
    hide Weekday, DayNumber;
    EpochIsThursday(day - DayNumber(1970, 1, 1));
  }

  // ---------- monthly ----------

  // monthly: the requested day, or the last one of a month that is too short.
  function Monthly(year: int, month: int, offset: int, day: int, clock: Clock): int {
    var last := DayOfMonth(DayNumber(year, month + 1, 0));
    var clamped := if day > last then last else day;
    Date(year, month, if clamped <= 0 then 1 else clamped, clock, offset)
  }

  function NextMonthly(now: int, offset: int, day: int, clock: Clock): int {
    var today := LocalDay(now, offset);
    var candidate := Monthly(Year(today), Month(today), offset, day, clock);
    var next := LocalDay(AddDate(now, offset, 0, 1, 0), offset);
    if now < candidate then candidate else Monthly(Year(next), Month(next), offset, day, clock)
  }

  function Min(a: int, b: int): int { if a < b then a else b }

  // The occurrence of a month.
  function MonthlyIn(month: int, offset: int, day: int, clock: Clock): int {
    At(MonthStart(month) + Min(day, MonthLength(month)) - 1, ClockNanos(clock), offset)
  }

  lemma MonthlyIsMonthlyIn(year: int, month: int, offset: int, day: int, clock: Clock)
    requires 1 <= month <= 12 && 1 <= day
    ensures Monthly(year, month, offset, day, clock) == MonthlyIn(12 * year + month - 1, offset, day, clock)
  {
    hide MonthOf, MonthStart, MonthLength, At;
    var m := 12 * year + month - 1;
    MonthStartStep(m);
    MonthOfUnique(MonthStart(m + 1) - 1, m);
    assert DayNumber(year, month + 1, 0) == MonthStart(m + 1) - 1;
  }

  lemma MonthlyOfDay(today: int, offset: int, day: int, clock: Clock)
    requires 1 <= day
    ensures Monthly(Year(today), Month(today), offset, day, clock) == MonthlyIn(MonthOf(today), offset, day, clock)
  {
    hide MonthOf, MonthStart, MonthLength, At, Monthly, MonthlyIn;
    MonthlyIsMonthlyIn(Year(today), Month(today), offset, day, clock);
  }

  // Where adding one month leads: the next month, or the one after it when the day overflows.
  lemma OneMonthLater(now: int, offset: int)
    ensures var today := LocalDay(now, offset);
            MonthOf(LocalDay(AddDate(now, offset, 0, 1, 0), offset)) ==
            if DayOfMonth(today) <= MonthLength(MonthOf(today) + 1) then MonthOf(today) + 1 else MonthOf(today) + 2
  {
    hide LocalDay, LocalNanos, MonthOf, MonthStart, MonthLength, At;
    var today := LocalDay(now, offset);
    var m := MonthOf(today);
    MonthOfBounds(today);
    MonthStartStep(m);
    MonthStartStep(m + 1);
    MonthStartStep(m + 2);
    var landed := MonthStart(m + 1) + DayOfMonth(today) - 1;
    assert DayNumber(Year(today), Month(today) + 1, DayOfMonth(today)) == landed;
    JoinThenSplit(landed, LocalNanos(now, offset), offset);
    MonthOfUnique(landed, m + 1);
    MonthOfUnique(landed, m + 2);
  }

  // nextMonthly, exactly: this month's occurrence if it is still to come; else next month's,
  // unless the current day does not exist there, in which case the one after that.
  lemma NextMonthlyExactly(now: int, offset: int, day: int, clock: Clock)
    requires 1 <= day
    ensures var today := LocalDay(now, offset);
            var m := MonthOf(today);
            NextMonthly(now, offset, day, clock) ==
              if now < MonthlyIn(m, offset, day, clock) then MonthlyIn(m, offset, day, clock)
              else if DayOfMonth(today) <= MonthLength(m + 1) then MonthlyIn(m + 1, offset, day, clock)
              else MonthlyIn(m + 2, offset, day, clock)
  {
    hide LocalDay, MonthOf, MonthLength, MonthlyIn, Monthly, AddDate;
    MonthlyOfDay(LocalDay(now, offset), offset, day, clock);
    MonthlyOfDay(LocalDay(AddDate(now, offset, 0, 1, 0), offset), offset, day, clock);
    OneMonthLater(now, offset);
  }

  predicate OnMonthDay(t: int, offset: int, day: int, clock: Clock) {
    var d := LocalDay(t, offset);
    OnClock(t, offset, clock) && DayOfMonth(d) == Min(day, MonthLength(MonthOf(d)))
  }

  // Every month has exactly one occurrence.
  lemma OnMonthDayExactly(t: int, offset: int, day: int, clock: Clock)
    requires 1 <= day
    ensures OnMonthDay(t, offset, day, clock) <==> t == MonthlyIn(MonthOf(LocalDay(t, offset)), offset, day, clock)
  {
    hide MonthOf, MonthStart, MonthLength, LocalDay, LocalNanos;
    var m := MonthOf(LocalDay(t, offset));
    MonthOfBounds(LocalDay(t, offset));
    AtOnClock(MonthStart(m) + Min(day, MonthLength(m)) - 1, offset, clock);
    SplitThenJoin(t, offset);
  }

  lemma MonthlyInItsMonth(month: int, offset: int, day: int, clock: Clock)
    requires 1 <= day
    ensures MonthOf(LocalDay(MonthlyIn(month, offset, day, clock), offset)) == month
    ensures DayOfMonth(LocalDay(MonthlyIn(month, offset, day, clock), offset)) == Min(day, MonthLength(month))
    ensures OnMonthDay(MonthlyIn(month, offset, day, clock), offset, day, clock)
  {
    hide MonthOf, MonthStart, MonthLength, LocalDay, LocalNanos;
    var d := MonthStart(month) + Min(day, MonthLength(month)) - 1;
    AtOnClock(d, offset, clock);
    MonthStartStep(month);
    MonthOfUnique(d, month);
  }

  // Earlier months have earlier occurrences, and an instant's month orders it among them.
  lemma MonthlyInAscends(a: int, b: int, offset: int, day: int, clock: Clock)
    requires 1 <= day && a < b
    ensures MonthlyIn(a, offset, day, clock) < MonthlyIn(b, offset, day, clock)
  {
    hide MonthStart, MonthLength;
    MonthsAscend(a + 1, b);
    MonthStartStep(a);
  }

  lemma BeforeLaterMonth(now: int, month: int, offset: int, day: int, clock: Clock)
    requires 1 <= day && MonthOf(LocalDay(now, offset)) < month
    ensures now < MonthlyIn(month, offset, day, clock)
  {
    hide MonthOf, MonthStart, MonthLength, LocalDay;
    var today := LocalDay(now, offset);
    MonthOfBounds(today);
    MonthsAscend(MonthOf(today) + 1, month);
    WithinItsDay(now, offset);
  }

  // The occurrence that nextMonthly ought to give: the least one after now.
  function MonthlyAfter(now: int, offset: int, day: int, clock: Clock): int {
    var m := MonthOf(LocalDay(now, offset));
    if now < MonthlyIn(m, offset, day, clock) then MonthlyIn(m, offset, day, clock)
    else MonthlyIn(m + 1, offset, day, clock)
  }

  lemma MonthlyAfterIsLeast(now: int, offset: int, day: int, clock: Clock)
    requires 1 <= day
    ensures var r := MonthlyAfter(now, offset, day, clock);
            now < r && OnMonthDay(r, offset, day, clock) &&
            forall u :: now < u && OnMonthDay(u, offset, day, clock) ==> r <= u
  {
    hide MonthOf, LocalDay, MonthlyIn, OnMonthDay;
    var m := MonthOf(LocalDay(now, offset));
    BeforeLaterMonth(now, m + 1, offset, day, clock);
    MonthlyInItsMonth(m, offset, day, clock);
    MonthlyInItsMonth(m + 1, offset, day, clock);
    var r := MonthlyAfter(now, offset, day, clock);
    forall u | now < u && OnMonthDay(u, offset, day, clock) ensures r <= u {
      OnMonthDayExactly(u, offset, day, clock);
      var k := MonthOf(LocalDay(u, offset));
      if k < m {
        LaterMonthIsLater(u, now, offset);
      } else if k > m + 1 {
        MonthlyInAscends(m + 1, k, offset, day, clock);
        MonthlyInAscends(m, k, offset, day, clock);
      } else if k == m + 1 {
        MonthlyInAscends(m, k, offset, day, clock);
      }
    }
  }

  lemma LaterMonthIsLater(t: int, u: int, offset: int)
    requires MonthOf(LocalDay(t, offset)) < MonthOf(LocalDay(u, offset))
    ensures t < u
  {
    hide MonthOf, MonthStart, MonthLength, LocalDay;
    var a, b := LocalDay(t, offset), LocalDay(u, offset);
    MonthOfBounds(a);
    MonthOfBounds(b);
    MonthsAscend(MonthOf(a) + 1, MonthOf(b));
    WithinItsDay(t, offset);
    WithinItsDay(u, offset);
  }

  // Adding a month to now overflows its end: this month's occurrence is past and the
  // following month is too short for the current day.
  predicate SkipsMonth(now: int, offset: int, day: int, clock: Clock) {
    var today := LocalDay(now, offset);
    MonthlyIn(MonthOf(today), offset, day, clock) <= now && MonthLength(MonthOf(today) + 1) < DayOfMonth(today)
  }

  // nextMonthly is always strictly after now, and it is the least occurrence after now
  // exactly when it does not skip a month; when it does, it is the second one.
  lemma NextMonthlyIsLeastUnlessSkipping(now: int, offset: int, day: int, clock: Clock)
    requires 1 <= day
    ensures var r := NextMonthly(now, offset, day, clock);
            var least := MonthlyAfter(now, offset, day, clock);
            now < r && OnMonthDay(r, offset, day, clock) &&
            (r == least <==> !SkipsMonth(now, offset, day, clock)) &&
            (r != least ==> least < r && r == MonthlyAfter(least, offset, day, clock))
  {
    hide MonthOf, LocalDay, MonthlyIn, OnMonthDay, NextMonthly;
    var m := MonthOf(LocalDay(now, offset));
    NextMonthlyExactly(now, offset, day, clock);
    MonthlyInItsMonth(m, offset, day, clock);
    MonthlyInItsMonth(m + 1, offset, day, clock);
    MonthlyInItsMonth(m + 2, offset, day, clock);
    BeforeLaterMonth(now, m + 1, offset, day, clock);
    BeforeLaterMonth(now, m + 2, offset, day, clock);
    MonthlyInAscends(m + 1, m + 2, offset, day, clock);
  }

  // The first month after a given one that has the day.
  function NextLongMonth(month: int, day: int): int
    requires 1 <= day <= 31
  {
    if day <= MonthLength(month + 1) then month + 1 else month + 2
  }

  // No two consecutive months are shorter than 31 days.
  lemma ShortMonthsAreApart(month: int)
    requires MonthLength(month) < 31
    ensures MonthLength(month + 1) == 31
  {
    var y, m := month / 12, month % 12;
    if m < 11 { MonthSplit(y, m + 1); } else { MonthSplit(y + 1, 0); }
  }

  // From any occurrence, clamped or not, nextMonthly lands on the requested day itself in
  // the next month that has it.
  lemma MonthlyChainIsUnclamped(month: int, offset: int, day: int, clock: Clock)
    requires 1 <= day <= 31
    ensures var next := NextLongMonth(month, day);
            NextMonthly(MonthlyIn(month, offset, day, clock), offset, day, clock) ==
              MonthlyIn(next, offset, day, clock) &&
            day <= MonthLength(next) && (forall k :: month < k < next ==> MonthLength(k) < day)
  {
    hide MonthOf, LocalDay, MonthlyIn, NextMonthly, MonthLength;
    var t := MonthlyIn(month, offset, day, clock);
    NextMonthlyExactly(t, offset, day, clock);
    MonthlyInItsMonth(month, offset, day, clock);
    if MonthLength(month) < 31 { ShortMonthsAreApart(month); }
    if MonthLength(month + 1) < 31 { ShortMonthsAreApart(month + 1); }
  }
}
