// Turning a durable cursor and a clock reading into windows to run and a cursor jump
// (schedule/misfire.go). A cursor of zero means that no further window is due.
module Misfire {
  import opened Text
  import opened WallClock
  import opened BusinessCalendar
  import opened Recurrence
  import Int64

  datatype Policy = Policy(misfire: string, grace: int, maxCatchupWindows: int)

  datatype Resolution = Resolution(windows: seq<int>, cursorAfter: int, disable: bool)

  const MISFIRE_SKIP := "skip"
  const MISFIRE_CATCH_ONE := "catch_up_one"
  const MISFIRE_CATCH_MANY := "catch_up_bounded"
  const MINUTE := 60_000_000_000

  // What validation and the cron library guarantee, and an interval whose 64-bit length is positive.
  ghost predicate Evaluable(s: Schedule) {
    (s.rule.Once? ==> s.calendar.None?) && (!s.rule.Once? ==> Recurring(s))
  }

  // ---------- one step and the fast form ----------

  // nextFromCursor
  function Following(s: Schedule, cursor: int): int {
    if s.rule.Once? then ZERO_TIME else NextOccurrence(s, cursor)
  }

  // The interval branch of NextAfter in 64-bit arithmetic: the first instant after now that
  // keeps the phase of the cursor.
  function IntervalAfter(cursor: int, now: int, seconds: int): int
    requires 0 < Step(seconds)
  {
    var step := Step(seconds);
    if now < cursor then cursor
    else
      var steps := Int64.Wrap(Int64.SaturatingSub(now, cursor) / step + 1);
      cursor + Int64.Wrap(steps * step)
  }

  function NextAfter(s: Schedule, cursor: int, now: int): int
    requires Evaluable(s)
  {
    match s.rule
    case Once(_) => ZERO_TIME
    case Interval(seconds) => if seconds <= 0 then ZERO_TIME else IntervalAfter(cursor, now, seconds)
    case _ => NextOccurrence(s, now)
  }

  lemma FollowingAdvances(s: Schedule, cursor: int)
    requires Evaluable(s)
    ensures Following(s, cursor) == ZERO_TIME || cursor < Following(s, cursor)
  {
    hide NextOccurrence;
    if !s.rule.Once? {
      OccurrenceAdvances(s, cursor);
    }
  }

  // ---------- the chain of occurrences ----------

  // The chain cursor, next(cursor), next(next(cursor)), ... up to now.
  function Due(s: Schedule, cursor: int, now: int): seq<int>
    requires Evaluable(s)
    decreases if cursor == ZERO_TIME || now < cursor then 0 else now - cursor + 1
  {
    if cursor == ZERO_TIME || now < cursor then []
    else
      FollowingAdvances(s, cursor);
      [cursor] + Due(s, Following(s, cursor), now)
  }

  // The first element of that chain after now, or zero when the chain ends before.
  function FirstAfter(s: Schedule, cursor: int, now: int): int
    requires Evaluable(s)
    decreases if cursor == ZERO_TIME || now < cursor then 0 else now - cursor + 1
  {
    if cursor == ZERO_TIME || now < cursor then cursor
    else
      FollowingAdvances(s, cursor);
      FirstAfter(s, Following(s, cursor), now)
  }

  // ---------- ResolveMisfire ----------

  predicate SkippedDate(s: Schedule, t: int) {
    Skips(s) && NonWorking(s.calendar, t)
  }

  // The first element of the chain from cursor that is open or after now.
  function SkipClosed(s: Schedule, cursor: int, now: int): int
    requires Evaluable(s) && !s.rule.Once?
    decreases if cursor == ZERO_TIME || now < cursor then 0 else now - cursor + 1
  {
    if cursor == ZERO_TIME || now < cursor || !NonWorking(s.calendar, cursor) then cursor
    else
      FollowingAdvances(s, cursor);
      SkipClosed(s, NextOccurrence(s, cursor), now)
  }

  // The windows before the first one on a skipped date.
  function LeadingOpen(s: Schedule, windows: seq<int>): (open: seq<int>)
    ensures open <= windows
    ensures forall i :: 0 <= i < |open| ==> !SkippedDate(s, open[i])
    ensures |open| < |windows| ==> SkippedDate(s, windows[|open|])
  {
    if windows == [] || SkippedDate(s, windows[0]) then []
    else
      var rest := LeadingOpen(s, windows[1..]);
      assert windows == [windows[0]] + windows[1..];
      [windows[0]] + rest
  }

  function Cap(policy: Policy, limit: int): int {
    var count := if policy.maxCatchupWindows <= 0 then 1 else policy.maxCatchupWindows;
    if count > limit then limit else count
  }

  function Grace(policy: Policy): int {
    if policy.grace <= 0 then MINUTE else policy.grace
  }

  function CatchUp(s: Schedule, cursor: int, now: int, count: int): Resolution
    requires Evaluable(s) && 0 <= count
  {
    var due := Due(s, cursor, now);
    var taken := if count < |due| then due[..count] else due;
    var open := LeadingOpen(s, taken);
    if |open| < |taken| then Resolution(open, taken[|open|], false)
    else Resolution(taken, if |taken| < |due| then NextAfter(s, cursor, now) else ZERO_TIME, false)
  }

  function Resolve(s: Schedule, policy: Policy, cursor: int, now: int, limit: int): Resolution
    requires Evaluable(s)
  {
    var misfire := TrimSpace(policy.misfire);
    if cursor == ZERO_TIME || now < cursor || limit <= 0 then Resolution([], ZERO_TIME, false)
    else if SkippedDate(s, cursor) then
      var next := SkipClosed(s, cursor, now);
      Resolution([], next, next == ZERO_TIME)
    else if misfire == [] || now <= cursor + Grace(policy) then Resolution([cursor], ZERO_TIME, false)
    else if misfire == MISFIRE_SKIP then
      Resolution([], NextAfter(s, cursor, now), NextAfter(s, cursor, now) == ZERO_TIME)
    else if misfire == MISFIRE_CATCH_ONE then Resolution([cursor], NextAfter(s, cursor, now), false)
    else if misfire == MISFIRE_CATCH_MANY then CatchUp(s, cursor, now, Cap(policy, limit))
    else Resolution([cursor], ZERO_TIME, false)
  }

  method ResolveMisfire(s: Schedule, policy: Policy, cursor: int, now: int, limit: int) returns (r: Resolution)
    requires Evaluable(s)
    ensures r == Resolve(s, policy, cursor, now, limit)
  {
    hide NonWorking, NextOccurrence, TrimSpace, CatchUp;
    if cursor == ZERO_TIME || now < cursor || limit <= 0 { return Resolution([], ZERO_TIME, false); }
    var closed := IsNonWorkingOccurrence(s.calendar, cursor);
    if s.nonWorkingDayPolicy == SKIP && closed {
      r := ResolveClosed(s, cursor, now);
      return;
    }
    var misfire := TrimSpace(policy.misfire);
    if misfire == [] { return Resolution([cursor], ZERO_TIME, false); }
    var grace := policy.grace;
    if grace <= 0 { grace := MINUTE; }
    if now <= cursor + grace { return Resolution([cursor], ZERO_TIME, false); }
    var future := NextAfter(s, cursor, now);
    if misfire == MISFIRE_SKIP { return Resolution([], future, future == ZERO_TIME); }
    if misfire == MISFIRE_CATCH_ONE { return Resolution([cursor], future, false); }
    if misfire == MISFIRE_CATCH_MANY {
      var count := policy.maxCatchupWindows;
      if count <= 0 { count := 1; }
      if count > limit { count := limit; }
      r := ResolveCatchUp(s, cursor, now, count, future);
      return;
    }
    return Resolution([cursor], ZERO_TIME, false);
  }

  // The loop that steps over closed dates.
  method ResolveClosed(s: Schedule, cursor: int, now: int) returns (r: Resolution)
    requires Evaluable(s) && cursor != ZERO_TIME && NonWorking(s.calendar, cursor)
    ensures var next := SkipClosed(s, cursor, now); r == Resolution([], next, next == ZERO_TIME)
  {
    hide NextOccurrence, Closed, LocalDay;
    var next := cursor;
    var closed := true;
    while next <= now && closed
      invariant next != ZERO_TIME && closed == NonWorking(s.calendar, next)
      invariant SkipClosed(s, cursor, now) == SkipClosed(s, next, now)
      decreases now - next
    {
      FollowingAdvances(s, next);
      next := NextSchedule(s, next);
      if next == ZERO_TIME { return Resolution([], ZERO_TIME, true); }
      closed := IsNonWorkingOccurrence(s.calendar, next);
    }
    return Resolution([], next, false);
  }

  // The loop that collects missed windows.
  method ResolveCatchUp(s: Schedule, cursor: int, now: int, count: int, future: int) returns (r: Resolution)
    requires Evaluable(s) && cursor != ZERO_TIME && cursor <= now && 0 <= count
    requires future == NextAfter(s, cursor, now)
    ensures r == CatchUp(s, cursor, now, count)
  {
    hide NonWorking, Following, NextAfter, Due, CatchUp;
    var windows: seq<int> := [];
    var current := cursor;
    ghost var due := Due(s, cursor, now);
    while |windows| < count && current != ZERO_TIME && current <= now
      invariant |windows| <= count && |windows| <= |due|
      invariant windows == due[..|windows|] && Due(s, current, now) == due[|windows|..]
      invariant forall i :: 0 <= i < |windows| ==> !SkippedDate(s, windows[i])
      decreases count - |windows|
    {
      var closed := IsNonWorkingOccurrence(s.calendar, current);
      DueUnfolds(s, current, now);
      if s.nonWorkingDayPolicy == SKIP && closed {
        CatchUpStops(s, cursor, now, count, |windows|);
        return Resolution(windows, current, false);
      }
      windows := windows + [current];
      current := Following(s, current);
    }
    DueUnfolds(s, current, now);
    CatchUpCompletes(s, cursor, now, count, |windows|);
    r := Resolution(windows, ZERO_TIME, false);
    if current != ZERO_TIME && current <= now {
      r := r.(cursorAfter := future);
    }
  }

  lemma DueUnfolds(s: Schedule, current: int, now: int)
    requires Evaluable(s)
    ensures Due(s, current, now) ==
            if current == ZERO_TIME || now < current then [] else [current] + Due(s, Following(s, current), now)
  {
    hide Following;
  }

  lemma CatchUpStops(s: Schedule, cursor: int, now: int, count: int, k: nat)
    requires Evaluable(s) && k < count && k < |Due(s, cursor, now)|
    requires forall i :: 0 <= i < k ==> !SkippedDate(s, Due(s, cursor, now)[i])
    requires SkippedDate(s, Due(s, cursor, now)[k])
    ensures CatchUp(s, cursor, now, count) ==
            Resolution(Due(s, cursor, now)[..k], Due(s, cursor, now)[k], false)
  {
    hide Due, SkippedDate, NextAfter;
    var due := Due(s, cursor, now);
    StopAt(s, if count < |due| then due[..count] else due, k);
  }

  lemma CatchUpCompletes(s: Schedule, cursor: int, now: int, count: int, k: nat)
    requires Evaluable(s) && k <= |Due(s, cursor, now)| && (k == count || (k < count && k == |Due(s, cursor, now)|))
    requires forall i :: 0 <= i < k ==> !SkippedDate(s, Due(s, cursor, now)[i])
    ensures CatchUp(s, cursor, now, count) ==
            Resolution(Due(s, cursor, now)[..k],
                       if k < |Due(s, cursor, now)| then NextAfter(s, cursor, now) else ZERO_TIME, false)
  {
    hide Due, SkippedDate, NextAfter;
    var due := Due(s, cursor, now);
    StopAt(s, due[..k], k);
  }

  lemma {:induction false} StopAt(s: Schedule, windows: seq<int>, n: nat)
    requires n <= |windows|
    requires forall i :: 0 <= i < n ==> !SkippedDate(s, windows[i])
    requires n < |windows| ==> SkippedDate(s, windows[n])
    ensures LeadingOpen(s, windows) == windows[..n]
  {
    hide SkippedDate;
    var open := LeadingOpen(s, windows);
  }

  // ---------- the chain ----------

  lemma {:induction false} DueIsChain(s: Schedule, cursor: int, now: int)
    requires Evaluable(s)
    ensures var due := Due(s, cursor, now);
            (forall i :: 0 <= i < |due| ==> cursor <= due[i] <= now && due[i] != ZERO_TIME) &&
            (forall i, j :: 0 <= i < j < |due| ==> due[i] < due[j]) &&
            (due != [] ==> due[0] == cursor) &&
            (forall i :: 0 < i < |due| ==> due[i] == Following(s, due[i - 1]))
    decreases if cursor == ZERO_TIME || now < cursor then 0 else now - cursor + 1
  {
    hide Following;
    if cursor != ZERO_TIME && cursor <= now {
      FollowingAdvances(s, cursor);
      DueIsChain(s, Following(s, cursor), now);
    }
  }

  // What FirstAfter means: the step that leaves the chain up to now.
  lemma {:induction false} FirstAfterLeaves(s: Schedule, cursor: int, now: int)
    requires Evaluable(s) && cursor != ZERO_TIME && cursor <= now
    ensures var due := Due(s, cursor, now);
            var f := FirstAfter(s, cursor, now);
            due != [] && f == Following(s, due[|due| - 1]) && (f == ZERO_TIME || now < f)
    decreases now - cursor
  {
    hide Following;
    FollowingAdvances(s, cursor);
    var next := Following(s, cursor);
    if next != ZERO_TIME && next <= now {
      FirstAfterLeaves(s, next, now);
    }
  }

  // The chain up to a later instant is the chain up to now, then the one from its first
  // element after now.
  lemma {:induction false} DueSplits(s: Schedule, cursor: int, now: int, later: int)
    requires Evaluable(s) && now <= later
    ensures Due(s, cursor, later) == Due(s, cursor, now) + Due(s, FirstAfter(s, cursor, now), later)
    decreases if cursor == ZERO_TIME || now < cursor then 0 else now - cursor + 1
  {
    hide Following;
    if cursor != ZERO_TIME && cursor <= now {
      FollowingAdvances(s, cursor);
      DueSplits(s, Following(s, cursor), now, later);
    }
  }

  lemma {:induction false} DueBeforeElement(s: Schedule, cursor: int, now: int, k: nat)
    requires Evaluable(s) && k < |Due(s, cursor, now)|
    ensures Due(s, cursor, Due(s, cursor, now)[k] - 1) == Due(s, cursor, now)[..k]
    decreases k
  {
    hide Following;
    var due := Due(s, cursor, now);
    DueIsChain(s, cursor, now);
    if k > 0 {
      var next := Following(s, cursor);
      FollowingAdvances(s, cursor);
      DueBeforeElement(s, next, now, k - 1);
      assert due[..k] == [cursor] + Due(s, next, now)[..k - 1];
    }
  }
}
