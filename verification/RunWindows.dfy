// What the windows claimed in a run are, under any policies: occurrences of the schedule, and
// named by keys that never repeat (schedule/misfire.go, schedule/schedule.go).
module RunWindows {
  import opened Text
  import Civil
  import opened WallClock
  import opened WallRules
  import opened BusinessCalendar
  import opened Recurrence
  import opened Misfire
  import opened Resolutions
  import opened ClockRuns
  import opened WindowKeys
  import FastForward
  import Int64

  // ---------- sets of instants that no resolution leaves ----------

  ghost predicate Kept(t: int, good: int -> bool) {
    t == ZERO_TIME || good(t)
  }

  // From an instant in the set, one step and the fast form lead to another one or to none.
  ghost predicate Stays(s: Schedule, good: int -> bool)
    requires Evaluable(s)
  {
    (forall c | c != ZERO_TIME && good(c) :: Kept(Following(s, c), good)) &&
    (forall c, now | c != ZERO_TIME && good(c) && c <= now && InReach(s, c, now) :: Kept(NextAfter(s, c, now), good))
  }

  lemma {:induction false} DueStays(s: Schedule, good: int -> bool, cursor: int, now: int)
    requires Evaluable(s) && Stays(s, good) && Kept(cursor, good)
    ensures forall t :: t in Due(s, cursor, now) ==> good(t)
    ensures !s.rule.Once? ==> Kept(SkipClosed(s, cursor, now), good)
    decreases if cursor == ZERO_TIME || now < cursor then 0 else now - cursor + 1
  {
    hide Following, NonWorking, InReach, NextAfter;
    if cursor != ZERO_TIME && cursor <= now {
      FollowingAdvances(s, cursor);
      DueStays(s, good, Following(s, cursor), now);
      if !s.rule.Once? { assert Following(s, cursor) == NextOccurrence(s, cursor) by { OneStep(s, cursor); } }
    }
  }

  lemma OneStep(s: Schedule, cursor: int)
    requires !s.rule.Once?
    ensures Following(s, cursor) == NextOccurrence(s, cursor)
  {
    hide NextOccurrence;
  }

  lemma ResolutionStays(s: Schedule, good: int -> bool, policy: Policy, cursor: int, now: int, limit: int)
    requires Evaluable(s) && Stays(s, good) && cursor != ZERO_TIME && good(cursor) && cursor <= now && 0 < limit
    requires InReach(s, cursor, now)
    ensures var r := Resolve(s, policy, cursor, now, limit);
            (forall w :: w in r.windows ==> good(w) && w != ZERO_TIME) && Kept(r.cursorAfter, good)
  {
    hide NonWorking, TrimSpace, InReach, Following, NextAfter, Due, SkipClosed, SkippedDate, CatchUp;
    DueStays(s, good, cursor, now);
    DueUnfolds(s, cursor, now);
    DueIsChain(s, cursor, now);
    ResolutionSound(s, policy, cursor, now, limit);
    var r := Resolve(s, policy, cursor, now, limit);
    PrefixOfDue(s, cursor, now, r.windows);
    assert forall i :: 0 <= i < |r.windows| ==> r.windows[i] == Due(s, cursor, now)[i];
    assert Kept(NextAfter(s, cursor, now), good);
    var misfire := TrimSpace(policy.misfire);
    if SkippedDate(s, cursor) {
      assert !s.rule.Once? by { OnceIsOpen(s, cursor); }
    } else if misfire != [] && cursor + Grace(policy) < now && misfire == MISFIRE_CATCH_MANY {
      CatchUpStays(s, good, cursor, now, Cap(policy, limit));
    }
  }

  lemma CatchUpStays(s: Schedule, good: int -> bool, cursor: int, now: int, count: int)
    requires Evaluable(s) && 1 <= count && Due(s, cursor, now) != [] && !SkippedDate(s, Due(s, cursor, now)[0])
    requires Kept(NextAfter(s, cursor, now), good) && forall t :: t in Due(s, cursor, now) ==> good(t)
    ensures Kept(CatchUp(s, cursor, now, count).cursorAfter, good)
  {
    hide NextAfter, Due, SkippedDate, CatchUp;
    CatchUpShape(s, cursor, now, count);
  }

  // ---------- runs ----------

  ghost predicate Within(st: State, good: int -> bool) {
    Kept(st.cursor, good) &&
    (forall i :: 0 <= i < |st.claims| ==> good(st.claims[i].window)) &&
    (forall t :: t in st.pending ==>
       Kept(t.next, good) && (t.window.Some? ==> t.window.value != ZERO_TIME && good(t.window.value)))
  }

  lemma TriggersStay(s: Schedule, good: int -> bool, policy: Policy, cursor: int, now: int, limit: int)
    requires Evaluable(s) && Stays(s, good) && Kept(cursor, good)
    requires cursor != ZERO_TIME && cursor <= now ==> InReach(s, cursor, now)
    ensures forall t :: t in Triggers(Resolve(s, policy, cursor, now, limit), cursor, now, policy) ==>
              Kept(t.next, good) && (t.window.Some? ==> t.window.value != ZERO_TIME && good(t.window.value))
  {
    hide Resolve, InReach, Stays, NextAfter, Following;
    if cursor == ZERO_TIME || now < cursor || limit <= 0 {
      NothingDue(s, policy, cursor, now, limit);
    } else {
      ResolutionStays(s, good, policy, cursor, now, limit);
      var r := Resolve(s, policy, cursor, now, limit);
      assert forall i :: 0 <= i < |r.windows| ==> r.windows[i] in r.windows;
    }
  }

  lemma StepStays(s: Schedule, good: int -> bool, st: State, step: Step)
    requires Evaluable(s) && Stays(s, good) && Enabled(st, step) && PollInReach(s, st, step) && Within(st, good)
    ensures Within(Apply(s, st, step), good)
  {
    hide Resolve, InReach, NextAfter, Following, Triggers;
    match step
    case Poll(policy, now, limit) => TriggersStay(s, good, policy, st.cursor, now, limit);
    case Commit(t) =>
  }

  lemma {:induction false} RunStays(s: Schedule, good: int -> bool, run: seq<State>, steps: seq<Step>, n: nat)
    requires Evaluable(s) && IsRun(s, run, steps) && WithinReach(s, run, steps) && n < |run|
    requires Stays(s, good) && Kept(run[0].cursor, good)
    ensures Within(run[n], good)
    decreases n
  {
    hide Stays, Apply, Enabled, PollInReach;
    if n > 0 {
      RunStays(s, good, run, steps, n - 1);
      assert PollInReach(s, run[n - 1], steps[n - 1]);
      StepStays(s, good, run[n - 1], steps[n - 1]);
    }
  }

  // ---------- claims are occurrences ----------

  // Within reach, fast-forward agrees with iteration.
  ghost predicate Agrees(s: Schedule)
    requires Evaluable(s)
  {
    forall c, now | 0 < c <= now && InReach(s, c, now) :: NextAfter(s, c, now) == FirstAfter(s, c, now)
  }

  // It does for daily rules, for weekly, interval and cron rules that do not roll, and for once.
  lemma AgreeingKinds(s: Schedule)
    requires Evaluable(s)
    requires Rolls(s) ==> s.rule.DailyAt? && SearchAlwaysSucceeds(s.calendar.value)
    requires !s.rule.MonthlyAt? && (s.rule.Cron? ==> FastForward.GivesLeast(s.rule.next))
    requires s.rule.Interval? ==> 0 < s.rule.seconds
    ensures Agrees(s)
  {
    hide NextAfter, FirstAfter, InReach, RolledForward, Recurrence.Step;
    forall c, now | 0 < c <= now && InReach(s, c, now) ensures NextAfter(s, c, now) == FirstAfter(s, c, now) {
      match s.rule
      case Once(_) => OnceAgrees(s, c, now);
      case Interval(_) =>
        FastForward.IntervalFastForward(s, c, now);
        FastForward.IntervalChain(s, c, now);
        ReachOfInterval(s, c, now);
      case Cron(_) => FastForward.CronFastForward(s, c, now);
      case DailyAt(_) => NeverEnds(s, c, now); FastForward.RegularFastForward(s, c, now);
      case WeeklyAt(_, _) => NeverEnds(s, c, now); FastForward.RegularFastForward(s, c, now);
    }
  }

  lemma NeverEnds(s: Schedule, cursor: int, now: int)
    requires s.rule.DailyAt? || s.rule.WeeklyAt?
    requires 0 < cursor && (Rolls(s) ==> SearchAlwaysSucceeds(s.calendar.value))
    ensures !FastForward.Ends(s, cursor, now)
  {
    hide RolledForward, Raw;
  }

  lemma OnceAgrees(s: Schedule, cursor: int, now: int)
    requires Evaluable(s) && s.rule.Once? && 0 < cursor <= now
    ensures NextAfter(s, cursor, now) == FirstAfter(s, cursor, now)
  {
    assert Following(s, cursor) == ZERO_TIME;
  }

  lemma ReachOfInterval(s: Schedule, cursor: int, now: int)
    requires Evaluable(s) && s.rule.Interval? && 0 < s.rule.seconds && cursor <= now && InReach(s, cursor, now)
    ensures FastForward.InPhaseAfter(cursor, now, Recurrence.Step(s.rule.seconds)) - cursor <= Int64.MAX
  {
    hide Recurrence.Step, FastForward.InPhaseAfter;
  }

  ghost predicate OnTheChain(s: Schedule, start: int, t: int) {
    0 < t && exists k: nat :: Chain(s, start, k) == t
  }

  lemma ChainStep(s: Schedule, start: int, t: int)
    requires Evaluable(s) && OnTheChain(s, start, t)
    ensures Following(s, t) == ZERO_TIME || OnTheChain(s, start, Following(s, t))
  {
    hide Following;
    FollowingAdvances(s, t);
    var k: nat :| Chain(s, start, k) == t;
    assert Chain(s, start, k + 1) == Following(s, t);
  }

  lemma {:induction false} FirstAfterOnChain(s: Schedule, start: int, t: int, now: int)
    requires Evaluable(s) && OnTheChain(s, start, t)
    ensures FirstAfter(s, t, now) == ZERO_TIME || OnTheChain(s, start, FirstAfter(s, t, now))
    decreases if now < t then 0 else now - t + 1
  {
    hide Following, OnTheChain;
    if t <= now {
      FollowingAdvances(s, t);
      ChainStep(s, start, t);
      if Following(s, t) != ZERO_TIME { FirstAfterOnChain(s, start, Following(s, t), now); }
    }
  }

  // Where fast-forward agrees with iteration, in every run under any policies the cursor is an
  // element of the chain of occurrences from the first cursor, or has ended, and every claimed
  // window is such an element.
  lemma ClaimsAreOccurrences(s: Schedule, run: seq<State>, steps: seq<Step>, n: nat)
    requires Evaluable(s) && IsRun(s, run, steps) && WithinReach(s, run, steps) && n < |run|
    requires Agrees(s) && 0 < run[0].cursor
    ensures run[n].cursor == ZERO_TIME || OnTheChain(s, run[0].cursor, run[n].cursor)
    ensures forall i :: 0 <= i < |run[n].claims| ==> OnTheChain(s, run[0].cursor, run[n].claims[i].window)
  {
    hide IsRun, WithinReach, OnTheChain, Following, NextAfter, FirstAfter, InReach;
    var start := run[0].cursor;
    var good := t => OnTheChain(s, start, t);
    forall c | c != ZERO_TIME && good(c) ensures Kept(Following(s, c), good) {
      ChainStep(s, start, c);
    }
    forall c, now | c != ZERO_TIME && good(c) && c <= now && InReach(s, c, now)
      ensures Kept(NextAfter(s, c, now), good)
    {
      OnChainIsPositive(s, start, c);
      FirstAfterOnChain(s, start, c, now);
    }
    StartOnTheChain(s, start);
    RunStays(s, good, run, steps, n);
  }

  lemma OnChainIsPositive(s: Schedule, start: int, t: int)
    requires OnTheChain(s, start, t)
    ensures 0 < t
  {
  }

  lemma StartOnTheChain(s: Schedule, start: int)
    requires 0 < start
    ensures OnTheChain(s, start, start)
  {
    assert Chain(s, start, 0) == start;
  }

  // ---------- keys never repeat ----------

  // Rules whose occurrences, as far as they roll, stay what the rule asks for.
  predicate KeepsRule(s: Schedule) {
    s.rule.DailyAt? || ((s.rule.WeeklyAt? || s.rule.MonthlyAt?) && !Rolls(s))
  }

  lemma NextIsRaw(s: Schedule, now: int)
    requires KeepsRule(s) && 0 <= now
    ensures NextOccurrence(s, now) == ZERO_TIME || Raw(s, NextOccurrence(s, now))
  {
    hide Raw, Next, NextMonthly, RolledForward, OnClock, NonWorking;
    if s.rule.MonthlyAt? {
      MonthlyIsRaw(s, now);
    } else {
      NextIsLeast(s, now);
    }
  }

  lemma MonthlyIsRaw(s: Schedule, now: int)
    requires s.rule.MonthlyAt?
    ensures Raw(s, Next(s.rule, s.offset, now))
  {
    hide NextMonthly, OnMonthDay;
    NextMonthlyIsLeastUnlessSkipping(now, s.offset, TargetDay(s.rule.day), s.rule.clock);
  }

  // In every run of a daily rule, or of a weekly or monthly one that does not roll, under any
  // policies: every claimed window is an instant the rule asks for, save perhaps the first
  // cursor; and apart from that cursor no two claims share a key.
  lemma KeysNeverRepeat(s: Schedule, run: seq<State>, steps: seq<Step>, n: nat)
    requires Evaluable(s) && KeepsRule(s) && IsRun(s, run, steps) && n < |run| && 0 < run[0].cursor
    ensures var start, claims := run[0].cursor, run[n].claims;
            (forall i :: 0 <= i < |claims| ==> claims[i].window == start || Raw(s, claims[i].window)) &&
            (forall i, j | 0 <= i < j < |claims| &&
                (Raw(s, start) || start !in {claims[i].window, claims[j].window}) ::
               WindowSuffix(s, claims[i].window) != WindowSuffix(s, claims[j].window))
  {
    hide IsRun, WithinReach, Raw, NextOccurrence, WindowSuffix;
    var start, claims := run[0].cursor, run[n].claims;
    var good := t => 0 < t && (t == start || Raw(s, t));
    InReachAlways(s, run, steps);
    forall t | 0 <= t ensures Kept(NextOccurrence(s, t), good) {
      NextIsRaw(s, t);
      OccurrenceAdvances(s, t);
    }
    RunStays(s, good, run, steps, n);
    RunsAreSafe(s, run, steps, n);
    forall i, j | 0 <= i < j < |claims| && (Raw(s, start) || start !in {claims[i].window, claims[j].window})
      ensures WindowSuffix(s, claims[i].window) != WindowSuffix(s, claims[j].window)
    {
      KeysSeparate(s, claims[i].window, claims[j].window);
    }
  }

  // The first cursor is an exception: on any day, a noon rule started at midnight runs at
  // midnight and at noon, two windows with one key.
  lemma FirstKeyCanRepeat(day: int)
    requires 0 < day
    ensures var s := Schedule(DailyAt(43_200), None, None, "");
            var start := At(day, 0, 0);
            0 < start < Following(s, start) && !Raw(s, start) && Raw(s, Following(s, start)) &&
            WindowSuffix(s, start) == WindowSuffix(s, Following(s, start))
  {
    hide LocalDay, LocalNanos, NextDaily, Civil.MonthOf, TimePadded;
    NextDailyDay(At(day, 0, 0), 0, 43_200);
    JoinThenSplit(day, 0, 0);
    AtOnClock(day, 0, 43_200);
  }

  lemma InReachAlways(s: Schedule, run: seq<State>, steps: seq<Step>)
    requires Evaluable(s) && !s.rule.Interval? && IsRun(s, run, steps)
    ensures WithinReach(s, run, steps)
  {
    hide Apply;
  }
}
