// What a preview lists for the schedules whose next occurrence is not always the least one,
// and for cron: exactly which instants, up to the end of the stream (schedule/preview.go).
module PreviewContents {
  import opened Civil
  import opened WallClock
  import opened WallRules
  import opened BusinessCalendar
  import opened RollForward
  import opened RolledDates
  import opened Recurrence
  import opened Misfire
  import opened FastForward
  import opened RolledMonthly
  import opened Preview

  // The head of a stream and what follows it.
  lemma StreamHead(s: Schedule, after: int, n: nat)
    requires 0 < n && NextOccurrence(s, after) != ZERO_TIME
    ensures var next := NextOccurrence(s, after);
            var times, rest := Stream(s, after, n), Stream(s, next, n - 1);
            times == [next] + rest && (rest != [] ==> times[|times| - 1] == rest[|rest| - 1])
  {
    hide NextOccurrence;
  }

  // Skipping removes the skipped dates from the stream and nothing else.
  lemma ListedExactly(s: Schedule, after: int, n: nat, t: int)
    requires Recurring(s)
    ensures t in Executable(s, Stream(s, after, n)) <==> t in Stream(s, after, n) && !SkippedDate(s, t)
  {
    hide Stream, Executable, SkippedDate, Recurring;
    StreamAscends(s, after, n);
    ExecutableElements(s, Stream(s, after, n), after);
  }

  // ---------- cron ----------

  ghost predicate Gives(next: int -> int, t: int) {
    t != ZERO_TIME && exists c :: next(c) == t
  }

  // A cron preview omits nothing that its expression ever gives.
  lemma {:induction false} CronStream(s: Schedule, after: int, n: nat, t: int)
    requires s.rule.Cron? && !Rolls(s) && Advances(s.rule.next) && GivesLeast(s.rule.next)
    requires var times := Stream(s, after, n); times != [] && after < t <= times[|times| - 1]
    ensures t in Stream(s, after, n) <==> Gives(s.rule.next, t)
    decreases n
  {
    var next := NextOccurrence(s, after);
    assert next == s.rule.next(after);
    StreamHead(s, after, n);
    if next < t {
      CronStream(s, next, n - 1, t);
    } else {
      StreamAscends(s, next, n - 1);
    }
  }

  // ---------- monthly ----------

  // An occurrence on the requested day itself, not on the last day of a shorter month.
  predicate Unclamped(s: Schedule, t: int)
    requires s.rule.MonthlyAt?
  {
    OnMonthDay(t, s.offset, s.rule.day, s.rule.clock) && s.rule.day <= MonthLength(MonthOf(LocalDay(t, s.offset)))
  }

  // No month between one month and the next long one has the day.
  lemma UnclampedAfter(s: Schedule, month: int, t: int)
    requires s.rule.MonthlyAt? && 1 <= s.rule.day <= 31
    ensures var from := MonthlyIn(month, s.offset, s.rule.day, s.rule.clock);
            var next := MonthlyIn(NextLongMonth(month, s.rule.day), s.offset, s.rule.day, s.rule.clock);
            from < next && Unclamped(s, next) && (Unclamped(s, t) && from < t <= next ==> t == next)
  {
    hide MonthOf, LocalDay, MonthLength, MonthlyIn, NextMonthly, OnMonthDay;
    var day, clock := s.rule.day, s.rule.clock;
    var long := NextLongMonth(month, day);
    MonthlyChainIsUnclamped(month, s.offset, day, clock);
    MonthlyInItsMonth(long, s.offset, day, clock);
    MonthlyInAscends(month, long, s.offset, day, clock);
    if Unclamped(s, t) {
      var k := MonthOf(LocalDay(t, s.offset));
      OnMonthDayExactly(t, s.offset, day, clock);
      if k < month { MonthlyInAscends(k, month, s.offset, day, clock); }
      if long < k { MonthlyInAscends(long, k, s.offset, day, clock); }
    }
  }

  // From an occurrence on, the stream of a monthly rule holds exactly the later ones on the
  // requested day itself: the clamped ones of shorter months are omitted.
  lemma {:induction false} MonthlyStream(s: Schedule, month: int, n: nat, t: int)
    requires s.rule.MonthlyAt? && 1 <= s.rule.day <= 31 && !Rolls(s)
    requires var from := MonthlyIn(month, s.offset, s.rule.day, s.rule.clock);
             0 < from < t && var times := Stream(s, from, n); times != [] && t <= times[|times| - 1]
    ensures t in Stream(s, MonthlyIn(month, s.offset, s.rule.day, s.rule.clock), n) <==> Unclamped(s, t)
    decreases n
  {
    hide MonthlyIn, NextMonthly, Unclamped, MonthLength;
    var from := MonthlyIn(month, s.offset, s.rule.day, s.rule.clock);
    var long := NextLongMonth(month, s.rule.day);
    var next := MonthlyIn(long, s.offset, s.rule.day, s.rule.clock);
    MonthlyChainIsUnclamped(month, s.offset, s.rule.day, s.rule.clock);
    UnclampedAfter(s, month, t);
    assert NextOccurrence(s, from) == next;
    StreamHead(s, from, n);
    if next < t {
      MonthlyStream(s, long, n - 1, t);
    } else {
      StreamAscends(s, next, n - 1);
    }
  }

  // A monthly preview from any instant: its first element, which may be clamped, and then
  // every occurrence on the requested day itself, less those on skipped dates.
  lemma MonthlyPreviewExactly(s: Schedule, after: int, n: nat, t: int)
    requires s.rule.MonthlyAt? && 1 <= s.rule.day <= 31 && !Rolls(s) && 0 <= after
    requires var times := Stream(s, after, n); times != [] && t <= times[|times| - 1]
    ensures var first := NextOccurrence(s, after);
            t in Executable(s, Stream(s, after, n)) <==>
              (t == first || (first < t && Unclamped(s, t))) && !SkippedDate(s, t)
  {
    hide MonthOf, LocalDay, NextMonthly, Unclamped, SkippedDate, OnMonthDay, MonthlyIn, Executable;
    var first := NextOccurrence(s, after);
    NextMonthlyIsLeastUnlessSkipping(after, s.offset, s.rule.day, s.rule.clock);
    OnMonthDayExactly(first, s.offset, s.rule.day, s.rule.clock);
    StreamHead(s, after, n);
    ListedExactly(s, after, n, t);
    StreamAscends(s, first, n - 1);
    if first < t {
      MonthlyStream(s, MonthOf(LocalDay(first, s.offset)), n - 1, t);
    }
  }

  // ---------- weekly, rolling forward ----------

  // The rolled form of a weekly instant after the given one.
  ghost predicate RolledWeekly(s: Schedule, after: int, t: int)
    requires s.rule.WeeklyAt?
  {
    t != ZERO_TIME && exists p :: after < p && Raw(s, p) && RolledForward(s.calendar, p) == t
  }

  // Weekly instants that the stream steps over roll to the element it has reached.
  lemma RolledWeeklyStep(s: Schedule, after: int, t: int)
    requires s.rule.WeeklyAt? && Rolls(s) && 0 <= after && NextOccurrence(s, after) != ZERO_TIME
    ensures var next := NextOccurrence(s, after);
            after < next && (RolledWeekly(s, after, t) <==> t == next || RolledWeekly(s, next, t)) &&
            (RolledWeekly(s, next, t) ==> next < t)
  {
    hide RolledForward, Working, Raw, Next;
    var c := s.calendar.value;
    var q, next := Next(s.rule, s.offset, after), NextOccurrence(s, after);
    NextIsLeastRaw(s, after);
    RolledIsLeast(c, q);
    if RolledWeekly(s, after, t) && t != next {
      var p :| after < p && Raw(s, p) && RolledForward(s.calendar, p) == t;
      if p <= next {
        WeeksApart(s, q, p);
        RolledOnto(c, q, p);
      }
    }
    if RolledWeekly(s, next, t) {
      var p :| next < p && Raw(s, p) && RolledForward(s.calendar, p) == t;
      RolledIsLeast(c, p);
    }
  }

  // A rolling weekly preview omits nothing: up to its end, it lists the rolled form of every
  // weekly instant.
  lemma {:induction false} RollingWeeklyStream(s: Schedule, after: int, n: nat, t: int)
    requires s.rule.WeeklyAt? && Rolls(s) && 0 <= after
    requires var times := Stream(s, after, n); times != [] && t <= times[|times| - 1]
    ensures t in Stream(s, after, n) <==> RolledWeekly(s, after, t)
    decreases n
  {
    hide RolledForward, RolledWeekly, NextOccurrence;
    var next := NextOccurrence(s, after);
    RolledWeeklyStep(s, after, t);
    StreamHead(s, after, n);
    if Stream(s, next, n - 1) != [] {
      RollingWeeklyStream(s, next, n - 1, t);
    }
  }

  // ---------- monthly, rolling forward ----------

  // The rolled form of a month after the given instant that is not passed over.
  ghost predicate RolledLater(s: Schedule, after: int, t: int)
    requires s.rule.MonthlyAt? && s.calendar.Some?
  {
    t != ZERO_TIME &&
    exists k :: after < MonthInstant(s, k) && !PassedOver(s.calendar.value, k, s.rule.day) && RolledMonth(s, k) == t
  }

  lemma RolledMonthStep(s: Schedule, k: int, t: int) returns (n: int)
    requires RollingMonthly(s) && 0 < MonthInstant(s, k) && RolledMonth(s, k) != ZERO_TIME
    requires NextOccurrence(s, RolledMonth(s, k)) != ZERO_TIME
    ensures 0 < MonthInstant(s, n) && NextOccurrence(s, RolledMonth(s, k)) == RolledMonth(s, n) > 0
    ensures RolledLater(s, RolledMonth(s, k), t) <==> t == RolledMonth(s, n) || RolledLater(s, RolledMonth(s, n), t)
  {
    hide MonthInstant, RolledMonth, PassedOver, NextTarget, NextOccurrence;
    n := MonthStep(s, k);
  }

  // From a rolled occurrence on, the stream of a rolling monthly rule holds exactly the rolled
  // form of every later month that is not passed over.
  lemma {:induction false} RollingMonthlyStream(s: Schedule, k: int, n: nat, t: int)
    requires RollingMonthly(s) && 0 < MonthInstant(s, k) && RolledMonth(s, k) != ZERO_TIME
    requires var times := Stream(s, RolledMonth(s, k), n); times != [] && t <= times[|times| - 1]
    ensures t in Stream(s, RolledMonth(s, k), n) <==> RolledLater(s, RolledMonth(s, k), t)
    decreases n
  {
    hide RolledLater, NextOccurrence, MonthInstant, RolledMonth;
    var m := RolledMonthStep(s, k, t);
    var next := RolledMonth(s, m);
    StreamHead(s, RolledMonth(s, k), n);
    if Stream(s, next, n - 1) != [] {
      RollingMonthlyStream(s, m, n - 1, t);
    } else if RolledLater(s, next, t) {
      RolledLaterIsLater(s, next, t);
    }
  }

  // A rolling monthly preview from any instant: its first element and then those.
  lemma RollingMonthlyPreview(s: Schedule, after: int, n: nat, t: int)
    requires RollingMonthly(s) && 0 <= after
    requires var times := Stream(s, after, n); times != [] && t <= times[|times| - 1]
    ensures var first := NextOccurrence(s, after);
            t in Stream(s, after, n) <==> t == first || RolledLater(s, first, t)
  {
    hide RolledForward, RolledLater, NextTarget, Next, RawDay;
    NextIsTarget(s, after);
    var k := NextTarget(s, after);
    var first := NextOccurrence(s, after);
    assert first == RolledMonth(s, k);
    OccurrenceAdvances(s, after);
    StreamHead(s, after, n);
    if Stream(s, first, n - 1) != [] {
      RollingMonthlyStream(s, k, n - 1, t);
    } else if RolledLater(s, first, t) {
      RolledLaterIsLater(s, first, t);
    }
  }

  lemma RolledLaterIsLater(s: Schedule, after: int, t: int)
    requires RollingMonthly(s) && 0 <= after && RolledLater(s, after, t)
    ensures after < t
  {
    hide RolledForward, PassedOver, RawDay, Closed;
    var j :| after < MonthInstant(s, j) && !PassedOver(s.calendar.value, j, s.rule.day) && RolledMonth(s, j) == t;
    var x := RollsTo(s.calendar.value, RawDay(j, s.rule.day), s.rule.clock);
  }
}
