// Whole runs of the scheduler's clock over one schedule: pollers observe the durable cursor
// and resolve it into triggers; claims compare the cursor before advancing it
// (modulehost/host.go). Triggers may be executed late, repeatedly, out of order or never, by
// any number of workers; workers may crash between the claims of one resolution; every poll
// may bring its own policy and clock reading.
module ClockRuns {
  import opened Text
  import opened WallClock
  import opened BusinessCalendar
  import opened Recurrence
  import opened Misfire
  import opened Resolutions

  // A trigger claims its window and then moves the cursor to next, where zero means one
  // normal window after the claimed one. A trigger without a window only moves the cursor.
  datatype Trigger = Trigger(window: Option<int>, expected: int, next: int, observed: int, policy: Policy)

  datatype Claim = Claim(window: int, observed: int, policy: Policy)

  datatype State = State(cursor: int, claims: seq<Claim>, pending: set<Trigger>)

  datatype Step =
    | Poll(policy: Policy, now: int, limit: int)
    | Commit(trigger: Trigger)

  // Only the last claim carries the resolution's own cursor jump.
  function JumpAfter(r: Resolution, i: int): int {
    if i == |r.windows| - 1 then r.cursorAfter else ZERO_TIME
  }

  // Each window expects the cursor on itself: the claim before it has just moved it there.
  function Triggers(r: Resolution, cursor: int, now: int, policy: Policy): set<Trigger> {
    if r.windows == [] then
      if r.disable || r.cursorAfter != ZERO_TIME
      then {Trigger(None, cursor, if r.disable then ZERO_TIME else r.cursorAfter, now, policy)}
      else {}
    else
      set i | 0 <= i < |r.windows| ::
        Trigger(Some(r.windows[i]), r.windows[i], JumpAfter(r, i), now, policy)
  }

  function Target(s: Schedule, t: Trigger): int {
    if t.window.Some? && t.next == ZERO_TIME then Following(s, t.window.value) else t.next
  }

  predicate Enabled(st: State, step: Step) {
    step.Commit? ==> step.trigger in st.pending
  }

  // A poll of a due cursor reads a clock within reach of the interval arithmetic.
  predicate PollInReach(s: Schedule, st: State, step: Step)
    requires Evaluable(s)
  {
    step.Poll? && st.cursor != ZERO_TIME && st.cursor <= step.now ==> InReach(s, st.cursor, step.now)
  }

  function Apply(s: Schedule, st: State, step: Step): State
    requires Evaluable(s) && Enabled(st, step)
  {
    match step
    case Poll(policy, now, limit) =>
      var r := Resolve(s, policy, st.cursor, now, limit);
      st.(pending := st.pending + Triggers(r, st.cursor, now, policy))
    case Commit(t) =>
      if t.expected != st.cursor || st.cursor == ZERO_TIME then st
      else st.(cursor := Target(s, t),
               claims := if t.window.None? then st.claims
                         else st.claims + [Claim(t.window.value, t.observed, t.policy)])
  }

  ghost predicate IsRun(s: Schedule, run: seq<State>, steps: seq<Step>)
    requires Evaluable(s)
  {
    |run| == |steps| + 1 && run[0].claims == [] && run[0].pending == {} &&
    forall i :: 0 <= i < |steps| ==> Enabled(run[i], steps[i]) && run[i + 1] == Apply(s, run[i], steps[i])
  }

  ghost predicate WithinReach(s: Schedule, run: seq<State>, steps: seq<Step>)
    requires Evaluable(s) && |run| == |steps| + 1
  {
    forall i :: 0 <= i < |steps| ==> PollInReach(s, run[i], steps[i])
  }

  // ---------- the invariant ----------

  // A window may be dispatched: it was due when observed, is not on a skipped date, and under
  // the skip policy was within its grace period.
  predicate Permitted(s: Schedule, window: int, observed: int, policy: Policy) {
    window <= observed && !SkippedDate(s, window) &&
    (TrimSpace(policy.misfire) == MISFIRE_SKIP ==> observed <= window + Grace(policy))
  }

  predicate Sound(s: Schedule, t: Trigger) {
    t.expected != ZERO_TIME && (Target(s, t) == ZERO_TIME || t.expected < Target(s, t)) &&
    (t.window.Some? ==> t.window.value == t.expected && Permitted(s, t.expected, t.observed, t.policy))
  }

  ghost predicate Inv(s: Schedule, st: State) {
    (forall t :: t in st.pending ==> Sound(s, t)) &&
    (forall i :: 0 <= i < |st.claims| ==>
       Permitted(s, st.claims[i].window, st.claims[i].observed, st.claims[i].policy) &&
       (st.cursor != ZERO_TIME ==> st.claims[i].window < st.cursor)) &&
    (forall i, j :: 0 <= i < j < |st.claims| ==> st.claims[i].window < st.claims[j].window)
  }

  lemma TriggersAreSound(s: Schedule, policy: Policy, cursor: int, now: int, limit: int)
    requires Evaluable(s) && (cursor != ZERO_TIME && cursor <= now ==> InReach(s, cursor, now))
    ensures forall t :: t in Triggers(Resolve(s, policy, cursor, now, limit), cursor, now, policy) ==> Sound(s, t)
  {
    hide TrimSpace, SkippedDate, Resolve, Following, InReach, Due, Grace;
    if cursor == ZERO_TIME || now < cursor || limit <= 0 {
      NothingDue(s, policy, cursor, now, limit);
    } else {
      ResolutionSound(s, policy, cursor, now, limit);
      var r := Resolve(s, policy, cursor, now, limit);
      PrefixOfDue(s, cursor, now, r.windows);
      forall t | t in Triggers(r, cursor, now, policy) ensures Sound(s, t) {
        if r.windows == [] {
          EmptyResolution(s, policy, cursor, now, limit);
        } else {
          var i :| 0 <= i < |r.windows| &&
            t == Trigger(Some(r.windows[i]), r.windows[i], JumpAfter(r, i), now, policy);
          assert r.windows[i] in r.windows;
          NoDisableWithWindows(s, policy, cursor, now, limit);
          FollowingAdvances(s, r.windows[i]);
        }
      }
    }
  }

  lemma NothingDue(s: Schedule, policy: Policy, cursor: int, now: int, limit: int)
    requires Evaluable(s) && (cursor == ZERO_TIME || now < cursor || limit <= 0)
    ensures Resolve(s, policy, cursor, now, limit) == Resolution([], ZERO_TIME, false)
  {
    hide TrimSpace, SkippedDate, SkipClosed, NextAfter, CatchUp;
  }

  lemma EmptyResolution(s: Schedule, policy: Policy, cursor: int, now: int, limit: int)
    requires Evaluable(s) && cursor != ZERO_TIME && Resolve(s, policy, cursor, now, limit).windows == []
    ensures var r := Resolve(s, policy, cursor, now, limit); r.disable ==> r.cursorAfter == ZERO_TIME
  {
    hide TrimSpace, SkippedDate, SkipClosed, NextAfter, CatchUp;
    hide Due, LeadingOpen;
    CatchUpNeverDisables(s, cursor, now, if limit < 0 then 0 else Cap(policy, limit));
  }

  lemma CatchUpNeverDisables(s: Schedule, cursor: int, now: int, count: int)
    requires Evaluable(s) && 0 <= count
    ensures !CatchUp(s, cursor, now, count).disable
  {
    hide Due, LeadingOpen, NextAfter;
  }

  lemma NoDisableWithWindows(s: Schedule, policy: Policy, cursor: int, now: int, limit: int)
    requires Evaluable(s) && Resolve(s, policy, cursor, now, limit).windows != []
    ensures !Resolve(s, policy, cursor, now, limit).disable
  {
    hide TrimSpace, SkippedDate, SkipClosed, NextAfter, CatchUp;
    if 0 < limit { CatchUpNeverDisables(s, cursor, now, Cap(policy, limit)); }
  }

  lemma StepKeepsInv(s: Schedule, st: State, step: Step)
    requires Evaluable(s) && Enabled(st, step) && PollInReach(s, st, step) && Inv(s, st)
    ensures Inv(s, Apply(s, st, step))
    ensures st.claims <= Apply(s, st, step).claims
  {
    hide Permitted, Target, Resolve, Triggers, InReach;
    match step
    case Poll(policy, now, limit) => TriggersAreSound(s, policy, st.cursor, now, limit);
    case Commit(t) =>
  }

  // In every run and at every moment: the claimed windows are strictly increasing, so none is
  // ever claimed twice or out of order; each was due when it was observed, is not on a
  // skipped date and, under skip, was within its grace period; all lie before the cursor; and
  // what has been claimed stays claimed.
  lemma {:induction false} RunsAreSafe(s: Schedule, run: seq<State>, steps: seq<Step>, n: nat)
    requires Evaluable(s) && IsRun(s, run, steps) && WithinReach(s, run, steps) && n < |run|
    ensures Inv(s, run[n])
    ensures forall i :: 0 <= i <= n ==> run[i].claims <= run[n].claims
    decreases n
  {
    hide Inv, Apply, Enabled, PollInReach;
    if n == 0 {
      InitialInv(s, run[0]);
    } else {
      RunsAreSafe(s, run, steps, n - 1);
      StepKeepsInv(s, run[n - 1], steps[n - 1]);
      assert run[n] == Apply(s, run[n - 1], steps[n - 1]);
    }
  }

  lemma InitialInv(s: Schedule, st: State)
    requires st.claims == [] && st.pending == {}
    ensures Inv(s, st)
  {
  }

  // ---------- an undisturbed poll ----------

  // Triggers that are carried out one after the other.
  function CommitAll(s: Schedule, st: State, triggers: seq<Trigger>): State
    requires Evaluable(s) && forall t :: t in triggers ==> t in st.pending
    decreases |triggers|
  {
    if triggers == [] then st else CommitAll(s, Apply(s, st, Commit(triggers[0])), triggers[1..])
  }

  function ClaimsOf(windows: seq<int>, now: int, policy: Policy): seq<Claim> {
    seq(|windows|, i requires 0 <= i < |windows| => Claim(windows[i], now, policy))
  }

  // When nothing interferes, the triggers of a poll claim exactly the windows of its resolution,
  // in order, and leave the cursor where the resolution puts it.
  lemma UndisturbedPoll(s: Schedule, st: State, policy: Policy, now: int, limit: int) returns (triggers: seq<Trigger>)
    requires Evaluable(s) && st.cursor != ZERO_TIME && st.cursor <= now && 0 < limit && InReach(s, st.cursor, now)
    ensures var r := Resolve(s, policy, st.cursor, now, limit);
            var polled := Apply(s, st, Poll(policy, now, limit));
            (forall t :: t in triggers ==> t in polled.pending) &&
            CommitAll(s, polled, triggers).cursor == NewCursor(s, r, st.cursor) &&
            CommitAll(s, polled, triggers).claims == st.claims + ClaimsOf(r.windows, now, policy)
  {
    hide Resolve, InReach, Following, Due, TrimSpace, SkippedDate;
    var r := Resolve(s, policy, st.cursor, now, limit);
    var polled := Apply(s, st, Poll(policy, now, limit));
    ResolutionSound(s, policy, st.cursor, now, limit);
    PrefixOfDue(s, st.cursor, now, r.windows);
    if r.windows == [] {
      EmptyResolution(s, policy, st.cursor, now, limit);
      triggers := [];
      if r.disable || r.cursorAfter != ZERO_TIME {
        var t := Trigger(None, st.cursor, if r.disable then ZERO_TIME else r.cursorAfter, now, policy);
        triggers := [t];
        assert triggers[1..] == [];
        assert CommitAll(s, polled, triggers) == Apply(s, polled, Commit(t));
      }
    } else {
      NoDisableWithWindows(s, policy, st.cursor, now, limit);
      triggers := WindowTriggers(r, now, policy, 0);
      forall t | t in triggers ensures t in polled.pending {
        var i :| 0 <= i < |triggers| && triggers[i] == t;
        assert t == Trigger(Some(r.windows[i]), r.windows[i], JumpAfter(r, i), now, policy);
      }
      CommitWindows(s, polled, r, now, policy, 0);
      assert r.windows[0..] == r.windows;
    }
  }

  function WindowTriggers(r: Resolution, now: int, policy: Policy, from: nat): (triggers: seq<Trigger>)
    requires from <= |r.windows|
  {
    seq(|r.windows| - from, i requires 0 <= i < |r.windows| - from => WindowTrigger(r, now, policy, from + i))
  }

  function WindowTrigger(r: Resolution, now: int, policy: Policy, i: nat): Trigger
    requires i < |r.windows|
  {
    Trigger(Some(r.windows[i]), r.windows[i], JumpAfter(r, i), now, policy)
  }

  lemma WindowCommitted(s: Schedule, st: State, r: Resolution, now: int, policy: Policy, i: nat)
    requires Evaluable(s) && i < |r.windows| && st.cursor == r.windows[i] != ZERO_TIME && !r.disable
    requires i + 1 < |r.windows| ==> r.windows[i + 1] == Following(s, r.windows[i])
    requires WindowTrigger(r, now, policy, i) in st.pending
    ensures var after := Apply(s, st, Commit(WindowTrigger(r, now, policy, i)));
            after.cursor == (if i + 1 < |r.windows| then r.windows[i + 1] else NewCursor(s, r, r.windows[0])) &&
            after.claims == st.claims + [Claim(r.windows[i], now, policy)] && after.pending == st.pending
  {
    hide Following;
  }

  lemma ClaimsOfStep(windows: seq<int>, now: int, policy: Policy)
    requires windows != []
    ensures ClaimsOf(windows, now, policy) == [Claim(windows[0], now, policy)] + ClaimsOf(windows[1..], now, policy)
  {
  }

  lemma {:induction false} CommitWindows(s: Schedule, st: State, r: Resolution, now: int, policy: Policy, from: nat)
    requires Evaluable(s) && from < |r.windows| && st.cursor == r.windows[from] && !r.disable
    requires forall i :: 0 <= i < |r.windows| ==> r.windows[i] != ZERO_TIME
    requires forall i :: 0 < i < |r.windows| ==> r.windows[i] == Following(s, r.windows[i - 1])
    requires forall t :: t in WindowTriggers(r, now, policy, from) ==> t in st.pending
    ensures var after := CommitAll(s, st, WindowTriggers(r, now, policy, from));
            after.cursor == NewCursor(s, r, r.windows[0]) &&
            after.claims == st.claims + ClaimsOf(r.windows[from..], now, policy)
    decreases |r.windows| - from
  {
    hide Following, Apply, NewCursor, JumpAfter, ClaimsOf;
    var triggers := WindowTriggers(r, now, policy, from);
    assert triggers[0] in triggers && triggers[0] == WindowTrigger(r, now, policy, from);
    assert from + 1 < |r.windows| ==> r.windows[from + 1] == Following(s, r.windows[from + 1 - 1]);
    WindowCommitted(s, st, r, now, policy, from);
    var next := Apply(s, st, Commit(triggers[0]));
    assert triggers[1..] == WindowTriggers(r, now, policy, from + 1);
    ClaimsOfStep(r.windows[from..], now, policy);
    assert r.windows[from..][1..] == r.windows[from + 1..];
    if from + 1 < |r.windows| {
      CommitWindows(s, next, r, now, policy, from + 1);
    } else {
      assert triggers[1..] == [] && r.windows[from + 1..] == [];
      NoClaims(now, policy);
    }
  }

  lemma NoClaims(now: int, policy: Policy)
    ensures ClaimsOf([], now, policy) == []
  {
  }

  // ---------- the default policy omits nothing ----------

  // The n-th element of the chain of occurrences, zero once it has ended.
  function Chain(s: Schedule, start: int, n: nat): int {
    if n == 0 then start
    else if Chain(s, start, n - 1) == ZERO_TIME then ZERO_TIME
    else Following(s, Chain(s, start, n - 1))
  }

  // The open occurrences among the first n elements of the chain.
  function OpenChain(s: Schedule, start: int, n: nat): seq<int> {
    if n == 0 then []
    else
      var t := Chain(s, start, n - 1);
      OpenChain(s, start, n - 1) + if t != ZERO_TIME && !SkippedDate(s, t) then [t] else []
  }

  predicate DefaultPolicy(step: Step) {
    step.Poll? ==> TrimSpace(step.policy.misfire) == []
  }

  function Windows(claims: seq<Claim>): seq<int> {
    if claims == [] then [] else Windows(claims[..|claims| - 1]) + [claims[|claims| - 1].window]
  }

  // The cursor is an element of the chain and the claims are the open ones before it.
  ghost predicate OnChain(s: Schedule, st: State, start: int) {
    exists k: nat :: st.cursor == Chain(s, start, k) && Windows(st.claims) == OpenChain(s, start, k)
  }

  // A trigger runs an open occurrence and takes one step, or steps over closed ones.
  predicate Normal(s: Schedule, t: Trigger)
    requires Evaluable(s)
  {
    t.expected != ZERO_TIME &&
    if t.window.Some? then t.window.value == t.expected && t.next == ZERO_TIME && !SkippedDate(s, t.expected)
    else !s.rule.Once? && SkippedDate(s, t.expected) && t.next == SkipClosed(s, t.expected, t.observed)
  }

  lemma DefaultResolution(s: Schedule, policy: Policy, cursor: int, now: int, limit: int)
    requires Evaluable(s) && TrimSpace(policy.misfire) == []
    ensures forall t :: t in Triggers(Resolve(s, policy, cursor, now, limit), cursor, now, policy) ==> Normal(s, t)
  {
    hide TrimSpace, SkipClosed, NextAfter, CatchUp;
    if s.rule.Once? { OnceIsNeverSkipped(s, cursor); }
  }

  lemma OnceIsNeverSkipped(s: Schedule, t: int)
    requires Evaluable(s) && s.rule.Once?
    ensures !SkippedDate(s, t)
  {
  }

  // Stepping over closed occurrences leads to a later element with the same open ones before it.
  lemma {:induction false} SkipClosedOnChain(s: Schedule, start: int, k: nat, now: int) returns (j: nat)
    requires Evaluable(s) && !s.rule.Once? && Skips(s)
    ensures Chain(s, start, j) == SkipClosed(s, Chain(s, start, k), now)
    ensures OpenChain(s, start, j) == OpenChain(s, start, k)
    decreases if Chain(s, start, k) == ZERO_TIME || now < Chain(s, start, k) then 0 else now - Chain(s, start, k) + 1
  {
    hide NextOccurrence, NonWorking;
    j := k;
    var t := Chain(s, start, k);
    if t != ZERO_TIME && t <= now && NonWorking(s.calendar, t) {
      FollowingAdvances(s, t);
      j := SkipClosedOnChain(s, start, k + 1, now);
    }
  }

  lemma CommitStaysOnChain(s: Schedule, st: State, t: Trigger, start: int)
    requires Evaluable(s) && t in st.pending && Normal(s, t) && OnChain(s, st, start)
    ensures OnChain(s, Apply(s, st, Commit(t)), start)
  {
    hide Following, SkipClosed, NonWorking;
    var k: nat :| st.cursor == Chain(s, start, k) && Windows(st.claims) == OpenChain(s, start, k);
    if t.expected == st.cursor && st.cursor != ZERO_TIME {
      var after := Apply(s, st, Commit(t));
      if t.window.Some? {
        assert after.claims[..|after.claims| - 1] == st.claims;
        assert after.cursor == Chain(s, start, k + 1) && Windows(after.claims) == OpenChain(s, start, k + 1);
      } else {
        var j := SkipClosedOnChain(s, start, k, t.observed);
        assert after.cursor == Chain(s, start, j);
      }
    }
  }

  ghost predicate AllNormal(s: Schedule, st: State)
    requires Evaluable(s)
  {
    forall t :: t in st.pending ==> Normal(s, t)
  }

  lemma StepStaysOnChain(s: Schedule, st: State, step: Step, start: int)
    requires Evaluable(s) && Enabled(st, step) && DefaultPolicy(step) && AllNormal(s, st) && OnChain(s, st, start)
    ensures AllNormal(s, Apply(s, st, step)) && OnChain(s, Apply(s, st, step), start)
  {
    hide Resolve, Triggers, Target, TrimSpace, Normal, Chain, OpenChain, Windows;
    match step
    case Poll(policy, now, limit) => DefaultResolution(s, policy, st.cursor, now, limit);
    case Commit(t) => CommitStaysOnChain(s, st, t, start);
  }

  // With no misfire policy, every run claims exactly the open occurrences of the chain from the
  // initial cursor: the cursor is some element of the chain, and the claims so far are the
  // elements before it that no calendar skips, in order, whatever was lost, repeated or
  // reordered.
  lemma {:induction false} DefaultRunsOmitNothing(s: Schedule, run: seq<State>, steps: seq<Step>, n: nat)
    requires Evaluable(s) && IsRun(s, run, steps) && n < |run|
    requires forall i :: 0 <= i < |steps| ==> DefaultPolicy(steps[i])
    ensures AllNormal(s, run[n]) && OnChain(s, run[n], run[0].cursor)
    decreases n
  {
    hide OnChain, AllNormal, Apply, Enabled, DefaultPolicy;
    if n == 0 {
      StartOnChain(s, run[0]);
    } else {
      DefaultRunsOmitNothing(s, run, steps, n - 1);
      StepStaysOnChain(s, run[n - 1], steps[n - 1], run[0].cursor);
    }
  }

  lemma StartOnChain(s: Schedule, st: State)
    requires Evaluable(s) && st.claims == [] && st.pending == {}
    ensures AllNormal(s, st) && OnChain(s, st, st.cursor)
  {
    assert st.cursor == Chain(s, st.cursor, 0) && Windows(st.claims) == OpenChain(s, st.cursor, 0);
  }

  // Without a skipping calendar the open occurrences are the first elements of the chain.
  lemma {:induction false} OpenChainIsChain(s: Schedule, start: int, n: nat)
    requires !Skips(s)
    ensures var open := OpenChain(s, start, n);
            Chain(s, start, |open|) == Chain(s, start, n) &&
            forall i :: 0 <= i < |open| ==> open[i] == Chain(s, start, i)
    decreases n
  {
    hide Following;
    if n > 0 {
      OpenChainIsChain(s, start, n - 1);
    }
  }

  lemma {:induction false} WindowsAt(claims: seq<Claim>)
    ensures |Windows(claims)| == |claims|
    ensures forall i :: 0 <= i < |claims| ==> Windows(claims)[i] == claims[i].window
  {
    if claims != [] {
      WindowsAt(claims[..|claims| - 1]);
    }
  }

  // Without a skipping calendar the claims so far are the first elements of the chain and the
  // cursor is the next one.
  lemma UnskippedRunsOmitNothing(s: Schedule, run: seq<State>, steps: seq<Step>, n: nat)
    requires Evaluable(s) && !Skips(s) && IsRun(s, run, steps) && n < |run|
    requires forall i :: 0 <= i < |steps| ==> DefaultPolicy(steps[i])
    ensures var start, claims := run[0].cursor, run[n].claims;
            run[n].cursor == Chain(s, start, |claims|) &&
            forall i :: 0 <= i < |claims| ==> claims[i].window == Chain(s, start, i)
  {
    hide Apply, Enabled, DefaultPolicy, Following, SkippedDate, AllNormal;
    DefaultRunsOmitNothing(s, run, steps, n);
    var start := run[0].cursor;
    var k: nat :| run[n].cursor == Chain(s, start, k) && Windows(run[n].claims) == OpenChain(s, start, k);
    OpenChainIsChain(s, start, k);
    WindowsAt(run[n].claims);
  }
}
