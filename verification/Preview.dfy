// Previewing a resolved schedule (PreviewSchedule in schedule/preview.go). The context that
// can cancel a preview is not part of this model.
module Preview {
  import opened WallClock
  import opened WallRules
  import opened BusinessCalendar
  import opened RollForward
  import opened Recurrence
  import opened Misfire

  datatype Outcome = Occurrences(times: seq<int>) | InvalidSchedule | TooFewOccurrences

  const MAXIMUM_COUNT := 100

  function Clamped(count: int): (n: int)
    ensures 1 <= n <= MAXIMUM_COUNT
  {
    if count < 1 then 1 else if count > MAXIMUM_COUNT then MAXIMUM_COUNT else count
  }

  // The count from 1 to 100 that is nearest to the one asked for.
  lemma ClampedIsNearest(count: int, m: int)
    requires 1 <= m <= 100
    ensures 1 <= Clamped(count) <= 100
    ensures Distance(count, Clamped(count)) <= Distance(count, m)
  {
  }

  // The first n elements of next(after), next(next(after)), ..., fewer if the chain ends.
  function Stream(s: Schedule, after: int, n: nat): seq<int>
    decreases n
  {
    var next := NextOccurrence(s, after);
    if n == 0 || next == ZERO_TIME then [] else [next] + Stream(s, next, n - 1)
  }

  // Those that are not on a skipped date.
  function Executable(s: Schedule, times: seq<int>): seq<int> {
    if times == [] then []
    else (if SkippedDate(s, times[0]) then [] else [times[0]]) + Executable(s, times[1..])
  }

  // PreviewSchedule: the first occurrences of the filtered stream, as many as asked for within
  // 1 to 100; it fails exactly when 3660 elements of the stream do not hold that many.
  method PreviewSchedule(s: Schedule, after: int, count: int) returns (r: Outcome)
    requires OneDatabase(s)
    ensures r == InvalidSchedule <==> !Valid(s)
    ensures Valid(s) ==>
              var all := Executable(s, Stream(s, after, MAXIMUM_SEARCH_DAYS));
              r == if |all| < Clamped(count) then TooFewOccurrences else Occurrences(all[..Clamped(count)])
  {
    hide Valid, NextOccurrence, NonWorking, Stream, Executable;
    var ok := Validate(s);
    if !ok { return InvalidSchedule; }
    var n := count;
    if n < 1 { n := 1; }
    if n > MAXIMUM_COUNT { n := MAXIMUM_COUNT; }
    var result: seq<int> := [];
    var cursor := after;
    var attempts := 0;
    ghost var all := Executable(s, Stream(s, after, MAXIMUM_SEARCH_DAYS));
    while |result| < n && attempts < MAXIMUM_SEARCH_DAYS
      invariant |result| <= n && 0 <= attempts <= MAXIMUM_SEARCH_DAYS
      invariant all == result + Executable(s, Stream(s, cursor, MAXIMUM_SEARCH_DAYS - attempts))
    {
      var next := NextSchedule(s, cursor);
      StreamUnfolds(s, cursor, MAXIMUM_SEARCH_DAYS - attempts);
      if next == ZERO_TIME { break; }
      cursor := next;
      attempts := attempts + 1;
      var closed := IsNonWorkingOccurrence(s.calendar, next);
      if s.nonWorkingDayPolicy == SKIP && closed { continue; }
      result := result + [next];
    }
    StreamEnds(s, cursor);
    if |result| < n { return TooFewOccurrences; }
    r := Occurrences(result);
  }

  lemma StreamEnds(s: Schedule, cursor: int)
    ensures Executable(s, Stream(s, cursor, 0)) == []
  {
  }

  lemma StreamUnfolds(s: Schedule, cursor: int, n: nat)
    requires 0 < n
    ensures var next := NextOccurrence(s, cursor);
            Executable(s, Stream(s, cursor, n)) ==
              if next == ZERO_TIME then []
              else (if SkippedDate(s, next) then [] else [next]) + Executable(s, Stream(s, next, n - 1))
  {
    hide NextOccurrence, SkippedDate;
    var next := NextOccurrence(s, cursor);
    if next != ZERO_TIME {
      assert Stream(s, cursor, n)[1..] == Stream(s, next, n - 1);
    }
  }

  // ---------- order ----------

  ghost predicate Ascending(times: seq<int>, low: int) {
    (forall i :: 0 <= i < |times| ==> low < times[i]) &&
    (forall i, j :: 0 <= i < j < |times| ==> times[i] < times[j])
  }

  lemma {:induction false} ExecutableElements(s: Schedule, times: seq<int>, low: int)
    requires Ascending(times, low)
    ensures Ascending(Executable(s, times), low)
    ensures forall t :: t in Executable(s, times) <==> t in times && !SkippedDate(s, t)
  {
    hide SkippedDate;
    if times != [] {
      ExecutableElements(s, times[1..], times[0]);
      assert times == [times[0]] + times[1..];
    }
  }

  lemma {:induction false} StreamAscends(s: Schedule, after: int, n: nat)
    requires Recurring(s)
    ensures Ascending(Stream(s, after, n), after)
    decreases n
  {
    hide NextOccurrence;
    OccurrenceAdvances(s, after);
    var next := NextOccurrence(s, after);
    if n > 0 && next != ZERO_TIME {
      StreamAscends(s, next, n - 1);
      assert Stream(s, after, n) == [next] + Stream(s, next, n - 1);
    } else {
      assert Stream(s, after, n) == [];
    }
  }

  // What a preview lists is strictly increasing, after the given instant, and not skipped.
  lemma PreviewAscends(s: Schedule, after: int, n: nat)
    requires Recurring(s)
    ensures var all := Executable(s, Stream(s, after, n));
            Ascending(all, after) && forall t :: t in all ==> !SkippedDate(s, t)
  {
    hide Stream, Executable, SkippedDate, Ascending;
    StreamAscends(s, after, n);
    ExecutableElements(s, Stream(s, after, n), after);
  }

  // Where the next occurrence is the least one, nothing is omitted: up to the last element of
  // the stream, the preview lists exactly the occurrences that are not on skipped dates.
  lemma {:induction false} StreamOmitsNothing(s: Schedule, after: int, n: nat, t: int)
    requires Regular(s) && 0 <= after
    requires var times := Stream(s, after, n); times != [] && after < t <= times[|times| - 1]
    ensures t in Stream(s, after, n) <==> Occurs(s, t)
    decreases n
  {
    hide NextOccurrence, Occurs;
    NextIsLeast(s, after);
    var next := NextOccurrence(s, after);
    assert Stream(s, after, n) == [next] + Stream(s, next, n - 1);
    if next < t {
      StreamOmitsNothing(s, next, n - 1, t);
    } else {
      assert Recurring(s) by { RegularRecurs(s); }
      StreamAscends(s, next, n - 1);
    }
  }

  lemma RegularRecurs(s: Schedule)
    requires Regular(s)
    ensures Recurring(s)
  {
  }

  lemma PreviewOmitsNothing(s: Schedule, after: int, n: nat, t: int)
    requires Regular(s) && 0 <= after
    requires var times := Stream(s, after, n); times != [] && after < t <= times[|times| - 1]
    ensures t in Executable(s, Stream(s, after, n)) <==> Occurs(s, t) && !SkippedDate(s, t)
  {
    hide Stream, Executable, SkippedDate, Occurs;
    StreamOmitsNothing(s, after, n, t);
    assert Recurring(s) by { RegularRecurs(s); }
    StreamAscends(s, after, n);
    ExecutableElements(s, Stream(s, after, n), after);
  }

  // ---------- when a daily preview that skips must succeed ----------

  // For a daily schedule that skips, the preview has one element per open date, and none when
  // the zone text of the calendar does not load.
  lemma {:induction false} DailyStreamCounts(s: Schedule, after: int, n: nat)
    requires s.rule.DailyAt? && Skips(s) && 0 <= after
    requires s.calendar.Some? && s.calendar.value.offset == s.offset
    ensures |Executable(s, Stream(s, after, n))| ==
            if !s.calendar.value.zone.Loads() then 0
            else |OpenDates(s.calendar.value, LocalDay(Next(s.rule, s.offset, after), s.offset) - 1, n)|
    decreases n
  {
    hide Closed, LocalDay, NextDaily;
    var c := s.calendar.value;
    var next := Next(s.rule, s.offset, after);
    var day := LocalDay(next, s.offset);
    NextAdvances(s, after);
    if n == 0 {
      assert Executable(s, Stream(s, after, 0)) == [];
      assert OpenDates(c, day - 1, 0) == {};
    } else {
      DailyStreamCounts(s, next, n - 1);
      NextDailyIsLeast(after, s.offset, s.rule.clock);
      OnClockIsAt(next, s.offset, s.rule.clock);
      NextDailyDay(next, s.offset, s.rule.clock);
      AtOnClock(day + 1, s.offset, s.rule.clock);
      StreamUnfolds(s, after, n);
      FirstDate(c, day, n);
    }
  }

  lemma FirstDate(c: Calendar, day: int, n: nat)
    requires 0 < n
    ensures |OpenDates(c, day - 1, n)| == (if Closed(c, day) then 0 else 1) + |OpenDates(c, day, n - 1)|
  {
    hide Closed;
    var rest := OpenDates(c, day, n - 1);
    if Closed(c, day) {
      assert OpenDates(c, day - 1, n) == rest;
    } else {
      assert OpenDates(c, day - 1, n) == {day} + rest;
    }
  }

  // When 522 dates per open weekday, less the blocked ones, cover the count, it succeeds
  // exactly if the zone text of the calendar is not padded.
  lemma DailyPreviewSucceeds(s: Schedule, after: int, count: int)
    requires Valid(s) && s.rule.DailyAt? && Skips(s) && 0 <= after
    requires s.calendar.Some?
    requires Clamped(count) <= 522 * |OpenWeekdays(s.calendar.value)| - |Blocked(s.calendar.value)|
    ensures Clamped(count) <= |Executable(s, Stream(s, after, MAXIMUM_SEARCH_DAYS))| <==>
            !s.calendar.value.zone.padded
  {
    hide ValidCalendar, OpenWeekdays, Blocked, Stream, Executable, LocalDay, Next, OpenDates;
    var c := s.calendar.value;
    var from := LocalDay(Next(s.rule, s.offset, after), s.offset) - 1;
    DailyStreamCounts(s, after, MAXIMUM_SEARCH_DAYS);
    ZoneKnown(c);
    OpenDatesInWeeks(c, from, 522);
    MoreDates(c, from, 7 * 522, MAXIMUM_SEARCH_DAYS);
  }

  lemma MoreDates(c: Calendar, from: int, n: int, m: int)
    requires n <= m
    ensures |OpenDates(c, from, n)| <= |OpenDates(c, from, m)|
  {
    hide Closed;
    SubsetSize(OpenDates(c, from, n), OpenDates(c, from, m));
  }
}
