// What one resolution promises: bounded, ordered windows, a cursor that only moves forward,
// and no occurrence lost without being counted (schedule/misfire.go).
module Resolutions {
  import opened Text
  import opened WallClock
  import opened BusinessCalendar
  import opened Recurrence
  import opened Misfire
  import opened Quotients
  import FastForward
  import Int64

  // The clock is within 2^63-1 nanoseconds, as far as an interval's arithmetic reaches.
  predicate InReach(s: Schedule, cursor: int, now: int)
    requires Evaluable(s)
  {
    if s.rule.Interval? && 0 < s.rule.seconds && cursor <= now then
      FastForward.InPhaseAfter(cursor, now, Step(s.rule.seconds)) - cursor <= Int64.MAX
    else true
  }

  // Within reach the fast form ends the schedule or lands after now; outside it lands before
  // the cursor.
  lemma NextAfterIsLater(s: Schedule, cursor: int, now: int)
    requires Evaluable(s) && cursor <= now
    ensures if InReach(s, cursor, now) then NextAfter(s, cursor, now) == ZERO_TIME || now < NextAfter(s, cursor, now)
            else NextAfter(s, cursor, now) < cursor
  {
    hide NextOccurrence, IntervalAfter, Step, FastForward.InPhaseAfter;
    match s.rule
    case Once(_) =>
    case Interval(seconds) =>
      if 0 < seconds {
        FastForward.IntervalFits(cursor, now, seconds);
        FastForward.InPhaseBounds(cursor, now, Step(seconds));
      }
    case _ => OccurrenceAdvances(s, now);
  }

  // A wrapping input: a daily interval whose cursor is 2^63-1 nanoseconds old. Under the skip
  // policy the resolution then moves the cursor back, by about 292 years.
  lemma IntervalCanGoBack(cursor: int)
    requires 0 < cursor
    ensures var s := Schedule(Interval(86_400), None, None, "");
            var now := cursor + Int64.MAX;
            Valid(s) && Evaluable(s) && !InReach(s, cursor, now) &&
            NewCursor(s, Resolve(s, Policy(MISFIRE_SKIP, 0, 1), cursor, now, 1), cursor) < cursor
  {
    hide TrimSpace;
    var s := Schedule(Interval(86_400), None, None, "");
    DayStep();
    TrimmedIsFixed(MISFIRE_SKIP);
    assert Valid(s) by { NoPolicyIsBlank(); }
    assert Evaluable(s);
    hide NextOccurrence, Step;
    assert (cursor + Int64.MAX - cursor) / 86_400_000_000_000 == 106_751;
    NextAfterIsLater(s, cursor, cursor + Int64.MAX);
  }

  lemma DayStep()
    ensures Step(86_400) == 86_400_000_000_000 && TargetStep(86_400) == 86_400_000_000_000
  {
  }

  lemma NoPolicyIsBlank()
    ensures Blank("")
  {
  }

  // The cursor once every window of a resolution has been claimed: the resolution's own jump
  // if it has one, else one normal window after the last claim (modulehost/host.go).
  function NewCursor(s: Schedule, r: Resolution, cursor: int): int {
    if r.disable then ZERO_TIME
    else if r.cursorAfter != ZERO_TIME then r.cursorAfter
    else if r.windows == [] then cursor
    else Following(s, r.windows[|r.windows| - 1])
  }

  lemma {:induction false} SkipClosedMoves(s: Schedule, cursor: int, now: int)
    requires Evaluable(s) && !s.rule.Once? && cursor != ZERO_TIME
    ensures var n := SkipClosed(s, cursor, now);
            (n == ZERO_TIME || cursor <= n) &&
            (cursor <= now && NonWorking(s.calendar, cursor) ==> n != cursor) &&
            (n == ZERO_TIME || now < n || !NonWorking(s.calendar, n))
    decreases if now < cursor then 0 else now - cursor + 1
  {
    hide NextOccurrence, NonWorking;
    if cursor <= now && NonWorking(s.calendar, cursor) {
      FollowingAdvances(s, cursor);
      if NextOccurrence(s, cursor) != ZERO_TIME {
        SkipClosedMoves(s, NextOccurrence(s, cursor), now);
      }
    }
  }

  lemma {:induction false} SkipClosedPassesClosed(s: Schedule, cursor: int, now: int)
    requires Evaluable(s) && !s.rule.Once? && cursor != ZERO_TIME && SkipClosed(s, cursor, now) != ZERO_TIME
    ensures forall t :: t in Due(s, cursor, SkipClosed(s, cursor, now) - 1) ==> NonWorking(s.calendar, t)
    decreases if now < cursor then 0 else now - cursor + 1
  {
    hide NextOccurrence, NonWorking, Due;
    DueUnfolds(s, cursor, SkipClosed(s, cursor, now) - 1);
    if cursor <= now && NonWorking(s.calendar, cursor) {
      FollowingAdvances(s, cursor);
      SkipClosedPassesClosed(s, NextOccurrence(s, cursor), now);
    }
  }

  // The windows of a prefix of the chain, one by one.
  lemma PrefixOfDue(s: Schedule, cursor: int, now: int, windows: seq<int>)
    requires Evaluable(s) && windows <= Due(s, cursor, now)
    ensures forall i :: 0 <= i < |windows| ==> cursor <= windows[i] <= now && windows[i] != ZERO_TIME
    ensures forall i, j :: 0 <= i < j < |windows| ==> windows[i] < windows[j]
    ensures windows != [] ==> windows[0] == cursor
    ensures forall i :: 0 < i < |windows| ==> windows[i] == Following(s, windows[i - 1])
  {
    hide Due, Following;
    DueIsChain(s, cursor, now);
    var due := Due(s, cursor, now);
    assert forall i :: 0 <= i < |windows| ==> windows[i] == due[i];
  }

  // Every resolution of a due cursor: its windows are a prefix of the chain from the cursor
  // up to now, at most limit of them, none on a skipped date and, under skip, none older than
  // the grace period; and it leaves no cursor or one strictly after the old cursor and after
  // every window.
  lemma ResolutionSound(s: Schedule, policy: Policy, cursor: int, now: int, limit: int)
    requires Evaluable(s) && InReach(s, cursor, now)
    requires cursor != ZERO_TIME && cursor <= now && 0 < limit
    ensures var r := Resolve(s, policy, cursor, now, limit);
            var due := Due(s, cursor, now);
            |r.windows| <= limit && r.windows <= due &&
            (forall w :: w in r.windows ==> !SkippedDate(s, w)) &&
            (TrimSpace(policy.misfire) == MISFIRE_SKIP ==> forall w :: w in r.windows ==> now <= w + Grace(policy)) &&
            (NewCursor(s, r, cursor) == ZERO_TIME ||
             (cursor < NewCursor(s, r, cursor) && forall w :: w in r.windows ==> w < NewCursor(s, r, cursor)))
  {
    hide NonWorking, TrimSpace, NextAfter, InReach, Following, CatchUp, Due;
    DueUnfolds(s, cursor, now);
    NextAfterIsLater(s, cursor, now);
    FollowingAdvances(s, cursor);
    var misfire := TrimSpace(policy.misfire);
    if SkippedDate(s, cursor) {
      assert s.calendar.Some? by { NoCalendarIsOpen(s, cursor); }
      SkipClosedMoves(s, cursor, now);
    } else if misfire != [] && cursor + Grace(policy) < now && misfire == MISFIRE_CATCH_MANY {
      CatchUpSound(s, cursor, now, Cap(policy, limit));
    }
  }

  lemma NoCalendarIsOpen(s: Schedule, t: int)
    requires NonWorking(s.calendar, t)
    ensures s.calendar.Some?
  {
  }

  lemma CatchUpSound(s: Schedule, cursor: int, now: int, count: int)
    requires Evaluable(s) && InReach(s, cursor, now)
    requires cursor != ZERO_TIME && cursor <= now && 0 < count && !SkippedDate(s, cursor)
    ensures var r := CatchUp(s, cursor, now, count);
            1 <= |r.windows| <= count && r.windows <= Due(s, cursor, now) &&
            (forall w :: w in r.windows ==> !SkippedDate(s, w)) &&
            (NewCursor(s, r, cursor) == ZERO_TIME ||
             (cursor < NewCursor(s, r, cursor) && forall w :: w in r.windows ==> w < NewCursor(s, r, cursor)))
  {
    hide NonWorking, NextAfter, InReach, Following, Due, SkippedDate, CatchUp;
    var due := Due(s, cursor, now);
    DueUnfolds(s, cursor, now);
    DueIsChain(s, cursor, now);
    NextAfterIsLater(s, cursor, now);
    CatchUpShape(s, cursor, now, count);
    var r := CatchUp(s, cursor, now, count);
    assert forall i :: 0 <= i < |r.windows| ==> r.windows[i] == due[i];
    FollowingAdvances(s, r.windows[|r.windows| - 1]);
  }

  // ---------- conservation ----------

  // The occurrences before the new cursor n of a jump: those up to now, and those that
  // fast-forward passes over. The latter are none when it agrees with iteration.
  lemma JumpPasses(s: Schedule, cursor: int, now: int, n: int)
    requires Evaluable(s) && now < n
    ensures Due(s, cursor, n - 1) == Due(s, cursor, now) + Due(s, FirstAfter(s, cursor, now), n - 1)
    ensures n <= FirstAfter(s, cursor, now) ==> Due(s, FirstAfter(s, cursor, now), n - 1) == []
  {
    hide Following, FirstAfter;
    DueSplits(s, cursor, now, n - 1);
  }

  // Bounded catch-up: the occurrences from the old cursor up to the new one are exactly the
  // windows, in order, followed by those up to now that the cap skips, followed by those after
  // now that fast-forward passes over, which are none when it agrees with iteration. Stopping
  // at a closed date leaves that date as the cursor and skips nothing, and so does reaching
  // the cap when fast-forward finds nothing.
  lemma CatchUpConserves(s: Schedule, policy: Policy, cursor: int, now: int, limit: int)
    requires Evaluable(s) && 0 < limit && cursor != ZERO_TIME && cursor + Grace(policy) < now
    requires TrimSpace(policy.misfire) == MISFIRE_CATCH_MANY && !SkippedDate(s, cursor)
    ensures var r := Resolve(s, policy, cursor, now, limit);
            var due := Due(s, cursor, now);
            var k := |r.windows|;
            var n := NewCursor(s, r, cursor);
            1 <= k <= Cap(policy, limit) && k <= |due| && r.windows == due[..k] &&
            if k < |due| && k < Cap(policy, limit) then
              n == due[k] && SkippedDate(s, n) && Due(s, cursor, n - 1) == r.windows
            else if k < |due| && NextAfter(s, cursor, now) == ZERO_TIME then
              n == due[k] && Due(s, cursor, n - 1) == r.windows
            else
              n == (if k < |due| then NextAfter(s, cursor, now) else FirstAfter(s, cursor, now)) &&
              (k < |due| ==> k == Cap(policy, limit)) &&
              (n == FirstAfter(s, cursor, now) && n != ZERO_TIME ==>
                 now < n && Due(s, cursor, n - 1) == r.windows + due[k..]) &&
              (now < n ==>
                 Due(s, cursor, n - 1) == r.windows + due[k..] + Due(s, FirstAfter(s, cursor, now), n - 1))
  {
    hide Resolve, NextAfter, Following, Due, FirstAfter, SkippedDate, TrimSpace, CatchUp, NewCursor, Cap;
    var count := Cap(policy, limit);
    var due := Due(s, cursor, now);
    DueUnfolds(s, cursor, now);
    ResolveIsCatchUp(s, policy, cursor, now, limit);
    CatchUpCursor(s, cursor, now, count);
    var r := Resolve(s, policy, cursor, now, limit);
    var k, n := |r.windows|, NewCursor(s, r, cursor);
    FirstAfterLeaves(s, cursor, now);
    if k < |due| && (k < count || NextAfter(s, cursor, now) == ZERO_TIME) {
      DueBeforeElement(s, cursor, now, k);
    } else if now < n {
      JumpPasses(s, cursor, now, n);
      assert due == due[..k] + due[k..];
    }
  }

  // How many windows bounded catch-up runs: at most the poll's limit and the policy's maximum,
  // which is one unless it is positive; and fewer than are due only at a skipped date or when
  // one of these is reached.
  lemma CatchUpCountExactly(s: Schedule, policy: Policy, cursor: int, now: int, limit: int)
    requires Evaluable(s) && 0 < limit && cursor != ZERO_TIME && cursor + Grace(policy) < now
    requires TrimSpace(policy.misfire) == "catch_up_bounded" && !SkippedDate(s, cursor)
    ensures var r := Resolve(s, policy, cursor, now, limit);
            var due := Due(s, cursor, now);
            var k := |r.windows|;
            1 <= k <= limit && k <= |due| && r.windows == due[..k] &&
            (if policy.maxCatchupWindows > 0 then k <= policy.maxCatchupWindows else k == 1) &&
            (k < |due| && !SkippedDate(s, due[k]) ==>
               k == limit || k == policy.maxCatchupWindows || policy.maxCatchupWindows <= 0)
  {
    hide Resolve, NextAfter, Following, Due, SkippedDate, TrimSpace, CatchUp, NewCursor;
    DueUnfolds(s, cursor, now);
    ResolveIsCatchUp(s, policy, cursor, now, limit);
    CatchUpCursor(s, cursor, now, Cap(policy, limit));
  }

  // Within the grace period, a minute unless the policy has a positive one, the cursor itself
  // runs whatever the policy; past it the policy's text decides.
  lemma GraceExactly(s: Schedule, policy: Policy, cursor: int, now: int, limit: int)
    requires Evaluable(s) && 0 < limit && cursor != ZERO_TIME && cursor <= now && !SkippedDate(s, cursor)
    ensures var r := Resolve(s, policy, cursor, now, limit);
            var misfire := TrimSpace(policy.misfire);
            var missed := now - cursor > (if policy.grace > 0 then policy.grace else 60 * 1_000_000_000);
            if missed && misfire == "skip" then r.windows == [] && r.cursorAfter == NextAfter(s, cursor, now)
            else if missed && misfire == "catch_up_one" then
              r == Resolution([cursor], NextAfter(s, cursor, now), false)
            else (missed && misfire == "catch_up_bounded") || r == Resolution([cursor], ZERO_TIME, false)
  {
    hide NonWorking, TrimSpace, NextAfter, CatchUp, SkippedDate, SkipClosed;
  }

  lemma ResolveIsCatchUp(s: Schedule, policy: Policy, cursor: int, now: int, limit: int)
    requires Evaluable(s) && 0 < limit && cursor != ZERO_TIME && cursor + Grace(policy) < now
    requires TrimSpace(policy.misfire) == MISFIRE_CATCH_MANY && !SkippedDate(s, cursor)
    ensures Resolve(s, policy, cursor, now, limit) == CatchUp(s, cursor, now, Cap(policy, limit))
    ensures 1 <= Cap(policy, limit)
  {
    hide CatchUp, TrimSpace, SkippedDate;
  }

  lemma CatchUpShape(s: Schedule, cursor: int, now: int, count: int)
    requires Evaluable(s) && 1 <= count && Due(s, cursor, now) != [] && !SkippedDate(s, Due(s, cursor, now)[0])
    ensures var r := CatchUp(s, cursor, now, count);
            var due := Due(s, cursor, now);
            var k := |r.windows|;
            1 <= k <= count && k <= |due| && r.windows == due[..k] && !r.disable &&
            (forall i :: 0 <= i < k ==> !SkippedDate(s, r.windows[i])) &&
            (k < count && k < |due| ==> r.cursorAfter == due[k] && SkippedDate(s, due[k])) &&
            (k == count && k < |due| ==> r.cursorAfter == NextAfter(s, cursor, now)) &&
            (k == |due| ==> r.cursorAfter == ZERO_TIME)
  {
    hide NextAfter, Due, SkippedDate;
  }

  // Where bounded catch-up leaves the cursor.
  lemma CatchUpCursor(s: Schedule, cursor: int, now: int, count: int)
    requires Evaluable(s) && 1 <= count && cursor != ZERO_TIME && cursor <= now && !SkippedDate(s, cursor)
    ensures var r := CatchUp(s, cursor, now, count);
            var due := Due(s, cursor, now);
            var k := |r.windows|;
            var n := NewCursor(s, r, cursor);
            1 <= k <= count && k <= |due| && r.windows == due[..k] &&
            if k < |due| && k < count then n == due[k] && SkippedDate(s, n)
            else if k < |due| && NextAfter(s, cursor, now) == ZERO_TIME then n == due[k]
            else
              n == (if k < |due| then NextAfter(s, cursor, now) else FirstAfter(s, cursor, now)) &&
              (k < |due| ==> k == count)
  {
    hide NextAfter, Following, Due, FirstAfter, SkippedDate, CatchUp;
    DueUnfolds(s, cursor, now);
    CatchUpShape(s, cursor, now, count);
    DueIsChain(s, cursor, now);
    FirstAfterLeaves(s, cursor, now);
  }

  // The policies that run at most one window, by what becomes of the occurrences from the old
  // cursor up to the new one, n. Under skip all of them up to now are dropped, under
  // catch-up-one all but the cursor, and with them those after now that fast-forward passes
  // over. Where fast-forward finds nothing, skip disables the schedule and catch-up-one drops
  // nothing; every other policy, and every policy within the grace period, drops nothing.
  lemma SingleWindowConserves(s: Schedule, policy: Policy, cursor: int, now: int, limit: int)
    requires Evaluable(s) && 0 < limit && cursor != ZERO_TIME && cursor <= now && !SkippedDate(s, cursor)
    requires TrimSpace(policy.misfire) != MISFIRE_CATCH_MANY || now <= cursor + Grace(policy)
    ensures var r := Resolve(s, policy, cursor, now, limit);
            var n := NewCursor(s, r, cursor);
            var misfire := TrimSpace(policy.misfire);
            var due, passed := Due(s, cursor, now), Due(s, FirstAfter(s, cursor, now), n - 1);
            if cursor + Grace(policy) < now && misfire == MISFIRE_SKIP then
              r.windows == [] && (r.disable <==> n == ZERO_TIME) &&
              (now < n ==> Due(s, cursor, n - 1) == due + passed) &&
              (now < n && n == FirstAfter(s, cursor, now) ==> Due(s, cursor, n - 1) == due)
            else if cursor + Grace(policy) < now && misfire == MISFIRE_CATCH_ONE && r.cursorAfter != ZERO_TIME then
              r.windows == [cursor] == due[..1] && !r.disable &&
              (now < n ==> Due(s, cursor, n - 1) == r.windows + due[1..] + passed) &&
              (now < n && n == FirstAfter(s, cursor, now) ==> Due(s, cursor, n - 1) == r.windows + due[1..])
            else
              r.windows == [cursor] && !r.disable && (n != ZERO_TIME ==> Due(s, cursor, n - 1) == r.windows)
  {
    hide NonWorking, TrimSpace, NextAfter, FirstAfter, Following, CatchUp, SkippedDate, SkipClosed, Due;
    var r := Resolve(s, policy, cursor, now, limit);
    var n := NewCursor(s, r, cursor);
    DueUnfolds(s, cursor, now);
    var due := Due(s, cursor, now);
    if now < n { JumpPasses(s, cursor, now, n); }
    assert due == due[..1] + due[1..];
    FollowingAdvances(s, cursor);
    DueUnfolds(s, cursor, Following(s, cursor) - 1);
    DueUnfolds(s, Following(s, cursor), Following(s, cursor) - 1);
  }

  // Past the grace period the jump of skip and of catch-up-one goes forward exactly within reach;
  // outside it the cursor goes back.
  lemma JumpsForwardExactly(s: Schedule, policy: Policy, cursor: int, now: int, limit: int)
    requires Evaluable(s) && 0 < limit && cursor != ZERO_TIME && cursor + Grace(policy) < now
    requires TrimSpace(policy.misfire) in {MISFIRE_SKIP, MISFIRE_CATCH_ONE} && !SkippedDate(s, cursor)
    ensures var r := Resolve(s, policy, cursor, now, limit);
            r.cursorAfter != ZERO_TIME ==>
              if InReach(s, cursor, now) then now < NewCursor(s, r, cursor) else NewCursor(s, r, cursor) < cursor
  {
    hide NonWorking, TrimSpace, NextAfter, InReach, Following, CatchUp, SkippedDate, SkipClosed;
    NextAfterIsLater(s, cursor, now);
  }

  // The poll that follows a stop at a closed date drops closed occurrences only.
  lemma ClosedStopLosesNothing(s: Schedule, policy: Policy, cursor: int, now: int, limit: int)
    requires Evaluable(s) && 0 < limit && cursor != ZERO_TIME && cursor <= now && SkippedDate(s, cursor)
    ensures var r := Resolve(s, policy, cursor, now, limit);
            r.windows == [] &&
            (!r.disable ==>
               cursor < r.cursorAfter && (now < r.cursorAfter || !SkippedDate(s, r.cursorAfter)) &&
               forall t :: t in Due(s, cursor, r.cursorAfter - 1) ==> SkippedDate(s, t))
  {
    hide NonWorking, Due, TrimSpace, SkipClosed, CatchUp, NextAfter;
    assert s.calendar.Some? by { NoCalendarIsOpen(s, cursor); }
    SkipClosedMoves(s, cursor, now);
    if SkipClosed(s, cursor, now) != ZERO_TIME {
      SkipClosedPassesClosed(s, cursor, now);
    }
  }

  // ---------- draining ----------

  // Every occurrence from the cursor up to now is within reach of the clock.
  ghost predicate ReachesAlong(s: Schedule, cursor: int, now: int)
    requires Evaluable(s)
  {
    forall t :: t in Due(s, cursor, now) ==> InReach(s, t, now)
  }

  // For every schedule that validation accepts it is enough that the cursor is.
  lemma {:induction false} ReachIsKept(s: Schedule, cursor: int, now: int)
    requires Evaluable(s) && InReach(s, cursor, now) && (s.rule.Interval? ==> !Rolls(s))
    ensures ReachesAlong(s, cursor, now)
    decreases if cursor == ZERO_TIME || now < cursor then 0 else now - cursor + 1
  {
    hide Step, NextOccurrence, FastForward.InPhaseAfter;
    DueUnfolds(s, cursor, now);
    if s.rule.Interval? && 0 < s.rule.seconds && cursor != ZERO_TIME && cursor <= now {
      FollowingAdvances(s, cursor);
      var next := Following(s, cursor);
      if next <= now {
        SamePhase(s, cursor, now);
        ReachIsKept(s, next, now);
      } else {
        DueUnfolds(s, next, now);
      }
    }
  }

  lemma SamePhase(s: Schedule, cursor: int, now: int)
    requires s.rule.Interval? && 0 < s.rule.seconds && 0 < Step(s.rule.seconds) && !Rolls(s)
    requires Following(s, cursor) <= now
    ensures cursor < Following(s, cursor)
    ensures FastForward.InPhaseAfter(Following(s, cursor), now, Step(s.rule.seconds)) ==
            FastForward.InPhaseAfter(cursor, now, Step(s.rule.seconds))
  {
    hide Step;
    var step := Step(s.rule.seconds);
    var next := cursor + step;
    assert Following(s, cursor) == next;
    ShiftQuotient(now - cursor, step);
    PhaseShift(cursor, (now - next) / step + 1, step);
  }

  lemma {:induction false} DueTail(s: Schedule, cursor: int, now: int, t: int)
    requires Evaluable(s) && t in Due(s, cursor, now)
    ensures forall u :: u in Due(s, t, now) ==> u in Due(s, cursor, now)
    decreases if cursor == ZERO_TIME || now < cursor then 0 else now - cursor + 1
  {
    hide Following;
    if t != cursor {
      FollowingAdvances(s, cursor);
      DueTail(s, Following(s, cursor), now, t);
    }
  }

  lemma {:induction false} SkipClosedIsDue(s: Schedule, cursor: int, now: int)
    requires Evaluable(s) && !s.rule.Once?
    ensures var n := SkipClosed(s, cursor, now); n != ZERO_TIME && n <= now ==> n in Due(s, cursor, now)
    decreases if cursor == ZERO_TIME || now < cursor then 0 else now - cursor + 1
  {
    hide NextOccurrence, NonWorking;
    if cursor != ZERO_TIME && cursor <= now && NonWorking(s.calendar, cursor) {
      FollowingAdvances(s, cursor);
      SkipClosedIsDue(s, NextOccurrence(s, cursor), now);
    }
  }

  // A resolution leaves the cursor after now, nowhere, or on an occurrence that was due.
  lemma NewCursorIsDue(s: Schedule, policy: Policy, cursor: int, now: int, limit: int)
    requires Evaluable(s) && InReach(s, cursor, now) && cursor != ZERO_TIME && cursor <= now && 0 < limit
    ensures var n := NewCursor(s, Resolve(s, policy, cursor, now, limit), cursor);
            n == ZERO_TIME || now < n || n in Due(s, cursor, now)
  {
    hide NonWorking, TrimSpace, NextAfter, InReach, Following, CatchUp, Due, SkipClosed, SkippedDate;
    var misfire := TrimSpace(policy.misfire);
    NextAfterIsLater(s, cursor, now);
    DueUnfolds(s, cursor, now);
    DueUnfolds(s, Following(s, cursor), now);
    if SkippedDate(s, cursor) {
      assert !s.rule.Once? by { OnceIsOpen(s, cursor); }
      SkipClosedIsDue(s, cursor, now);
    } else if misfire != [] && cursor + Grace(policy) < now && misfire == MISFIRE_CATCH_MANY {
      CatchUpCursor(s, cursor, now, Cap(policy, limit));
      FirstAfterLeaves(s, cursor, now);
    }
  }

  lemma OnceIsOpen(s: Schedule, t: int)
    requires Evaluable(s) && SkippedDate(s, t)
    ensures !s.rule.Once?
  {
  }

  datatype Drained = Drained(windows: seq<int>, cursor: int)

  // Resolving and advancing at one clock reading until nothing is due. It ends, because every
  // resolution moves the cursor towards now.
  function Drain(s: Schedule, policy: Policy, cursor: int, now: int, limit: int): Drained
    requires Evaluable(s) && 0 < limit && ReachesAlong(s, cursor, now)
    decreases if cursor == ZERO_TIME || now < cursor then 0 else now - cursor + 1
  {
    if cursor == ZERO_TIME || now < cursor then Drained([], cursor)
    else
      DrainStep(s, policy, cursor, now, limit);
      var r := Resolve(s, policy, cursor, now, limit);
      var rest := Drain(s, policy, NewCursor(s, r, cursor), now, limit);
      Drained(r.windows + rest.windows, rest.cursor)
  }

  lemma DrainStep(s: Schedule, policy: Policy, cursor: int, now: int, limit: int)
    requires Evaluable(s) && 0 < limit && ReachesAlong(s, cursor, now) && cursor != ZERO_TIME && cursor <= now
    ensures var n := NewCursor(s, Resolve(s, policy, cursor, now, limit), cursor);
            InReach(s, cursor, now) && (n == ZERO_TIME || cursor < n) && ReachesAlong(s, n, now)
  {
    hide InReach, NewCursor, Resolve, SkippedDate, Due, TrimSpace;
    DueUnfolds(s, cursor, now);
    assert cursor in Due(s, cursor, now);
    ResolutionSound(s, policy, cursor, now, limit);
    NewCursorIsDue(s, policy, cursor, now, limit);
    var n := NewCursor(s, Resolve(s, policy, cursor, now, limit), cursor);
    DueUnfolds(s, n, now);
    if n in Due(s, cursor, now) { DueTail(s, cursor, now, n); }
  }

  // Open windows from low to now, in strictly ascending order.
  ghost predicate OpenAscending(s: Schedule, windows: seq<int>, low: int, now: int) {
    (forall i, j :: 0 <= i < j < |windows| ==> windows[i] < windows[j]) &&
    (forall i :: 0 <= i < |windows| ==> low <= windows[i] <= now && !SkippedDate(s, windows[i]))
  }

  lemma AscendingJoined(s: Schedule, first: seq<int>, rest: seq<int>, low: int, mid: int, now: int)
    requires OpenAscending(s, first, low, now) && OpenAscending(s, rest, mid, now) && low <= mid
    requires forall i :: 0 <= i < |first| ==> first[i] < mid
    ensures OpenAscending(s, first + rest, low, now)
  {
    hide SkippedDate;
  }

  lemma ResolutionAscends(s: Schedule, policy: Policy, cursor: int, now: int, limit: int)
    requires Evaluable(s) && InReach(s, cursor, now) && cursor != ZERO_TIME && cursor <= now && 0 < limit
    ensures var r := Resolve(s, policy, cursor, now, limit);
            OpenAscending(s, r.windows, cursor, now) &&
            (NewCursor(s, r, cursor) != ZERO_TIME ==>
               forall i :: 0 <= i < |r.windows| ==> r.windows[i] < NewCursor(s, r, cursor))
  {
    hide InReach, NewCursor, Resolve, SkippedDate, Due, TrimSpace;
    ResolutionSound(s, policy, cursor, now, limit);
    var r := Resolve(s, policy, cursor, now, limit);
    PrefixOfDue(s, cursor, now, r.windows);
    assert forall i :: 0 <= i < |r.windows| ==> r.windows[i] in r.windows;
  }

  // Draining leaves no due cursor and dispatches each window once, in order.
  lemma {:induction false} DrainSound(s: Schedule, policy: Policy, cursor: int, now: int, limit: int)
    requires Evaluable(s) && 0 < limit && cursor != ZERO_TIME && ReachesAlong(s, cursor, now)
    ensures var d := Drain(s, policy, cursor, now, limit);
            (d.cursor == ZERO_TIME || now < d.cursor) &&
            (forall i, j :: 0 <= i < j < |d.windows| ==> d.windows[i] < d.windows[j]) &&
            (forall i :: 0 <= i < |d.windows| ==> cursor <= d.windows[i] <= now && !SkippedDate(s, d.windows[i]))
    decreases if now < cursor then 0 else now - cursor + 1
  {
    hide InReach, NewCursor, Resolve, SkippedDate, ReachesAlong;
    if cursor <= now {
      DrainStep(s, policy, cursor, now, limit);
      ResolutionAscends(s, policy, cursor, now, limit);
      var r := Resolve(s, policy, cursor, now, limit);
      var n := NewCursor(s, r, cursor);
      var rest := Drain(s, policy, n, now, limit);
      if n != ZERO_TIME {
        DrainSound(s, policy, n, now, limit);
        AscendingJoined(s, r.windows, rest.windows, cursor, n, now);
      }
    }
  }
}
