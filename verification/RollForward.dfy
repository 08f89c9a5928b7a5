// Properties of rolling forward: it is a closure operator, and a pigeonhole bound says when
// its bounded search must succeed (schedule/business_calendar.go).
module RollForward {
  import opened Text
  import opened Civil
  import opened WallClock
  import opened WorkingIntervals
  import opened BusinessCalendar

  // An occurrence on an open date.
  predicate Working(c: Calendar, t: int) {
    !Closed(c, LocalDay(t, c.offset))
  }

  function DaysLater(t: int, k: int): int {
    t + k * 86_400_000_000_000
  }

  lemma DaysLaterDay(t: int, offset: int, k: int)
    ensures LocalDay(DaysLater(t, k), offset) == LocalDay(t, offset) + k
    ensures LocalNanos(DaysLater(t, k), offset) == LocalNanos(t, offset)
  {
    AddDays(t, offset, k);
    JoinThenSplit(LocalDay(t, offset) + k, LocalNanos(t, offset), offset);
  }

  // ---------- the search ----------

  lemma {:induction false} RollFromIsFirst(c: Calendar, t: int, k: int) returns (n: int)
    requires c.zone.Loads() && 0 < t && 0 <= k <= MAXIMUM_SEARCH_DAYS + 1
    ensures k <= n <= MAXIMUM_SEARCH_DAYS + 1
    ensures forall j :: k <= j < n ==> !Working(c, DaysLater(t, j))
    ensures RollFrom(c, t, k) == if n <= MAXIMUM_SEARCH_DAYS then DaysLater(t, n) else ZERO_TIME
    ensures n <= MAXIMUM_SEARCH_DAYS ==> Working(c, DaysLater(t, n))
    decreases MAXIMUM_SEARCH_DAYS - k
  {
    hide Closed, LocalDay;
    n := k;
    if k <= MAXIMUM_SEARCH_DAYS && !Working(c, DaysLater(t, k)) {
      n := RollFromIsFirst(c, t, k + 1);
    }
  }

  lemma FirstWorking(c: Calendar, t: int) returns (n: int)
    requires c.zone.Loads() && 0 < t
    ensures 0 <= n <= MAXIMUM_SEARCH_DAYS + 1
    ensures forall j :: 0 <= j < n ==> !Working(c, DaysLater(t, j))
    ensures RolledForward(Some(c), t) == if n <= MAXIMUM_SEARCH_DAYS then DaysLater(t, n) else ZERO_TIME
    ensures n <= MAXIMUM_SEARCH_DAYS ==> Working(c, DaysLater(t, n))
  {
    hide Closed, LocalDay, RollFrom;
    assert DaysLater(t, 0) == t;
    n := 0;
    if !Working(c, t) {
      n := RollFromIsFirst(c, t, 1);
    }
  }

  // The rolled occurrence is the first one, by whole days, that is not closed: every one before
  // it is, and the zero time means that all those searched are.
  lemma RolledIsFirst(c: Calendar, t: int) returns (n: int)
    requires 0 < t
    ensures 0 <= n <= MAXIMUM_SEARCH_DAYS + 1
    ensures forall j :: 0 <= j < n ==> NonWorking(Some(c), DaysLater(t, j))
    ensures RolledForward(Some(c), t) == if n <= MAXIMUM_SEARCH_DAYS then DaysLater(t, n) else ZERO_TIME
    ensures n <= MAXIMUM_SEARCH_DAYS ==> !NonWorking(Some(c), DaysLater(t, n))
  {
    hide Closed, LocalDay, RollFrom;
    n := MAXIMUM_SEARCH_DAYS + 1;
    if c.zone.Loads() {
      n := FirstWorking(c, t);
    }
  }

  // Two instants with the same local time of day in every zone.
  predicate SameClock(t: int, u: int) {
    (u - t) % 86_400_000_000_000 == 0
  }

  lemma OnTheClock(t: int, k: int)
    ensures SameClock(t, DaysLater(t, k))
  {
  }

  lemma SameClockIsDaysLater(t: int, u: int) returns (k: int)
    requires SameClock(t, u)
    ensures u == DaysLater(t, k)
  {
    k := (u - t) / 86_400_000_000_000;
  }

  lemma UnloadedClosesEverything(c: Calendar, t: int)
    requires t != ZERO_TIME && !c.zone.Loads()
    ensures NonWorking(Some(c), t) && RolledForward(Some(c), t) == ZERO_TIME
  {
  }

  lemma RolledLoads(c: Calendar, t: int)
    requires 0 < t && RolledForward(Some(c), t) != ZERO_TIME
    ensures c.zone.Loads()
  {
  }

  // Any later occurrence up to the rolled one rolls to it as well.
  lemma RolledOnto(c: Calendar, t: int, u: int)
    requires 0 < t <= u && SameClock(t, u)
    requires RolledForward(Some(c), t) != ZERO_TIME && u <= RolledForward(Some(c), t)
    ensures RolledForward(Some(c), u) == RolledForward(Some(c), t)
  {
    hide Working, RolledForward;
    RolledLoads(c, t);
    var n := FirstWorking(c, t);
    var m := FirstWorking(c, u);
    var k := SameClockIsDaysLater(t, u);
    assert DaysLater(u, n - k) == DaysLater(t, n);
    assert n - k < m ==> !Working(c, DaysLater(u, n - k));
    assert m < n - k ==> DaysLater(u, m) == DaysLater(t, m + k) && !Working(c, DaysLater(t, m + k));
  }

  // Rolling never moves back, keeps the local clock, lands on an open date, and nothing
  // open with the same clock lies between.
  lemma RolledIsLeast(c: Calendar, t: int)
    requires 0 < t && RolledForward(Some(c), t) != ZERO_TIME
    ensures var r := RolledForward(Some(c), t);
            t <= r && SameClock(t, r) && Working(c, r) &&
            forall u :: t <= u && SameClock(t, u) && Working(c, u) ==> r <= u
  {
    hide Closed, LocalDay, RolledForward;
    RolledLoads(c, t);
    var n := FirstWorking(c, t);
    var r := RolledForward(Some(c), t);
    forall u | t <= u && SameClock(t, u) && Working(c, u) ensures r <= u {
      var k := SameClockIsDaysLater(t, u);
    }
    assert r - t == n * 86_400_000_000_000;
  }

  lemma RolledIsIdempotent(c: Calendar, t: int)
    requires 0 < t && RolledForward(Some(c), t) != ZERO_TIME
    ensures RolledForward(Some(c), RolledForward(Some(c), t)) == RolledForward(Some(c), t)
  {
    RolledLoads(c, t);
    var n := FirstWorking(c, t);
  }

  lemma RolledIsMonotone(c: Calendar, t: int, u: int)
    requires 0 < t <= u && SameClock(t, u)
    requires RolledForward(Some(c), t) != ZERO_TIME && RolledForward(Some(c), u) != ZERO_TIME
    ensures RolledForward(Some(c), t) <= RolledForward(Some(c), u)
  {
    hide Working, RolledForward;
    RolledIsLeast(c, t);
    RolledIsLeast(c, u);
    var r := RolledForward(Some(c), u);
    assert SameClock(t, r) by {
      var k := SameClockIsDaysLater(t, u);
      var j := SameClockIsDaysLater(u, r);
      assert r - t == (k + j) * 86_400_000_000_000;
    }
  }

  // ---------- counting open dates ----------

  ghost function OpenWeekdays(c: Calendar): set<int> {
    set i | 0 <= i < |c.weekly| && c.weekly[i].intervals != [] :: c.weekly[i].weekday
  }

  // Holidays and exceptions that close their date.
  ghost function Blocked(c: Calendar): set<int> {
    (set i | 0 <= i < |c.holidays| :: c.holidays[i]) +
    (set i | 0 <= i < |c.exceptions| && c.exceptions[i].intervals == [] :: c.exceptions[i].date)
  }

  lemma {:induction false} ClosingException(exceptions: seq<DateException>, day: int) returns (i: int)
    requires ExceptionVerdict(exceptions, day) == Some(true)
    ensures 0 <= i < |exceptions| && exceptions[i].date == day && exceptions[i].intervals == []
  {
    if exceptions[0].date == day {
      i := 0;
    } else {
      i := ClosingException(exceptions[1..], day);
      i := i + 1;
    }
  }

  lemma WeeklyVerdictOpen(weekly: seq<WeeklySchedule>, i: int)
    requires 0 <= i < |weekly| && DistinctWeekdays(weekly) && weekly[i].intervals != []
    ensures WeeklyVerdict(weekly, weekly[i].weekday) == Some(false)
  {
    if i > 0 {
      assert weekly[0].weekday != weekly[i].weekday;
      forall a, b | 0 <= a < b < |weekly[1..]| ensures weekly[1..][a].weekday != weekly[1..][b].weekday {
        assert weekly[1..][a] == weekly[a + 1] && weekly[1..][b] == weekly[b + 1];
      }
      WeeklyVerdictOpen(weekly[1..], i - 1);
    }
  }

  // A date on an open weekday is closed only if it is blocked.
  lemma OpenUnlessBlocked(c: Calendar, day: int)
    requires ValidCalendar(c) && Weekday(day) in OpenWeekdays(c) && day !in Blocked(c)
    ensures !Closed(c, day)
  {
    hide Accepted, TrimSpace;
    var w := Weekday(day);
    var i :| 0 <= i < |c.weekly| && c.weekly[i].intervals != [] && c.weekly[i].weekday == w;
    if ExceptionVerdict(c.exceptions, day) == Some(true) {
      var j := ClosingException(c.exceptions, day);
    }
    WeeklyVerdictOpen(c.weekly, i);
  }

  // The dates in (from, from + n] on the given weekdays.
  ghost function OnWeekdays(weekdays: set<int>, from: int, n: int): set<int> {
    set d | from < d <= from + n && Weekday(d) in weekdays
  }

  lemma NoElements(s: set<int>)
    requires forall y :: y !in s
    ensures s == {}
  {
    assert forall y :: y in s <==> y in {};
  }

  lemma SomeElement(s: set<int>) returns (x: int)
    requires s != {}
    ensures x in s
  {
    if forall y :: y !in s {
      NoElements(s);
    }
    x :| x in s;
  }

  // A week holds each weekday once.
  lemma DateInWeek(from: int, w: int) returns (d: int)
    requires 0 <= w <= 6
    ensures forall x :: from < x <= from + 7 ==> (Weekday(x) == w <==> x == d)
    ensures from < d <= from + 7 && Weekday(d) == w
  {
    var delta := (w - Weekday(from + 1)) % 7;
    d := from + 1 + delta;
    forall x | from < x <= from + 7 ensures Weekday(x) == w <==> x == d {
      WeekdayShift(from + 1, x - from - 1);
    }
    WeekdayShift(from + 1, delta);
  }

  lemma WeekdayShift(day: int, k: int)
    requires 0 <= k < 7
    ensures Weekday(day + k) == (if Weekday(day) + k < 7 then Weekday(day) + k else Weekday(day) + k - 7)
  {
  }

  lemma {:induction false} OneWeek(weekdays: set<int>, from: int)
    requires forall w :: w in weekdays ==> 0 <= w <= 6
    ensures |OnWeekdays(weekdays, from, 7)| == |weekdays|
    decreases weekdays
  {
    hide Weekday;
    if weekdays != {} {
      var w := SomeElement(weekdays);
      OneWeek(weekdays - {w}, from);
      var d := DateInWeek(from, w);
      assert OnWeekdays(weekdays, from, 7) == OnWeekdays(weekdays - {w}, from, 7) + {d};
    } else {
      assert OnWeekdays(weekdays, from, 7) == {};
    }
  }

  lemma DatesSplit(weekdays: set<int>, from: int, n: nat, m: nat)
    ensures |OnWeekdays(weekdays, from, n + m)| == |OnWeekdays(weekdays, from, n)| + |OnWeekdays(weekdays, from + n, m)|
  {
    hide Weekday;
    var a, b := OnWeekdays(weekdays, from, n), OnWeekdays(weekdays, from + n, m);
    assert OnWeekdays(weekdays, from, n + m) == a + b;
    assert a !! b;
  }

  lemma {:induction false} WholeWeeks(weekdays: set<int>, from: int, n: nat)
    requires forall w :: w in weekdays ==> 0 <= w <= 6
    ensures |OnWeekdays(weekdays, from, 7 * n)| == n * |weekdays|
    decreases n
  {
    hide Weekday;
    if n == 0 {
      assert OnWeekdays(weekdays, from, 0) == {};
    } else {
      WholeWeeks(weekdays, from, n - 1);
      OneWeek(weekdays, from + 7 * (n - 1));
      DatesSplit(weekdays, from, 7 * (n - 1), 7);
    }
  }

  ghost function OpenDates(c: Calendar, from: int, n: int): set<int> {
    set d | from < d <= from + n && !Closed(c, d)
  }

  lemma SubsetSize<T>(a: set<T>, b: set<T>)
    requires a <= b
    ensures |a| <= |b|
  {
    assert b == a + (b - a);
  }

  // Any n whole weeks hold at least n dates per open weekday, less those that are blocked.
  lemma OpenDatesInWeeks(c: Calendar, from: int, n: nat)
    requires ValidCalendar(c)
    ensures |OpenDates(c, from, 7 * n)| >= n * |OpenWeekdays(c)| - |Blocked(c)|
  {
    hide Closed, Accepted, TrimSpace;
    WholeWeeks(OpenWeekdays(c), from, n);
    var on := OnWeekdays(OpenWeekdays(c), from, 7 * n);
    forall d | d in on - Blocked(c) ensures d in OpenDates(c, from, 7 * n) {
      OpenUnlessBlocked(c, d);
    }
    SubsetSize(on - Blocked(c), OpenDates(c, from, 7 * n));
    assert |on| == |on - Blocked(c)| + |on * Blocked(c)|;
    SubsetSize(on * Blocked(c), Blocked(c));
  }

  // The search looks at the occurrence's own date and the 3660 after it: 523 whole weeks.
  lemma OpenWithinSearch(c: Calendar, t: int)
    requires ValidCalendar(c) && c.zone.Loads() && 0 < t
    requires |Blocked(c)| < 523 * |OpenWeekdays(c)|
    ensures RolledForward(Some(c), t) != ZERO_TIME
  {
    hide Closed, Accepted, TrimSpace, RolledForward, LocalDay;
    var day := LocalDay(t, c.offset);
    OpenDatesInWeeks(c, day - 1, 523);
    var open := OpenDates(c, day - 1, 7 * 523);
    var d := SomeElement(open);
    DaysLaterDay(t, c.offset, d - day);
    var n := FirstWorking(c, t);
  }

  lemma ZoneKnown(c: Calendar)
    requires ValidCalendar(c)
    ensures c.zone.known.Some? && (c.zone.Loads() <==> !c.zone.padded)
  {
  }

  // With so few blocked dates the search succeeds exactly when the zone text is not padded.
  lemma SearchSucceeds(c: Calendar, t: int)
    requires ValidCalendar(c) && 0 < t
    requires |Blocked(c)| < 523 * |OpenWeekdays(c)|
    ensures RolledForward(Some(c), t) != ZERO_TIME <==> !c.zone.padded
  {
    hide ValidCalendar, Blocked, OpenWeekdays, RolledForward;
    ZoneKnown(c);
    if c.zone.padded { UnloadedClosesEverything(c, t); } else { OpenWithinSearch(c, t); }
  }

  lemma BlockedSize(c: Calendar)
    requires ValidCalendar(c)
    ensures |Blocked(c)| <= 732
  {
    hide Accepted, TrimSpace;
    var holidays := set i | 0 <= i < |c.holidays| :: c.holidays[i];
    var exceptions := set i | 0 <= i < |c.exceptions| && c.exceptions[i].intervals == [] :: c.exceptions[i].date;
    ImageSize(c.holidays);
    ImageSize(ExceptionDates(c.exceptions));
    var dates := set i | 0 <= i < |c.exceptions| :: ExceptionDates(c.exceptions)[i];
    assert exceptions <= dates;
    SubsetSize(exceptions, dates);
    assert Blocked(c) == holidays + exceptions;
  }

  lemma ImageSize(s: seq<int>)
    ensures |set i | 0 <= i < |s| :: s[i]| <= |s|
  {
    if s != [] {
      var rest := s[..|s| - 1];
      ImageSize(rest);
      assert (set i | 0 <= i < |s| :: s[i]) == (set i | 0 <= i < |rest| :: rest[i]) + {s[|s| - 1]};
    }
  }

  // With two open weekdays or more the limits of validation already keep the blocked dates few.
  lemma TwoWeekdaysSuffice(c: Calendar, t: int)
    requires ValidCalendar(c) && 0 < t
    requires |OpenWeekdays(c)| >= 2
    ensures RolledForward(Some(c), t) != ZERO_TIME <==> !c.zone.padded
  {
    BlockedSize(c);
    SearchSucceeds(c, t);
  }

  // ---------- a padded zone ----------

  ghost predicate FollowsDates(c: Calendar) {
    forall t :: t != ZERO_TIME ==> (NonWorking(Some(c), t) <==> Closed(c, LocalDay(t, c.offset)))
  }

  lemma SomeOpenWeekday(c: Calendar)
    requires ValidCalendar(c)
    ensures 1 <= |OpenWeekdays(c)|
  {
    hide Accepted, TrimSpace;
    assert ValidWeekly(c.weekly[0]);
    assert c.weekly[0].weekday in OpenWeekdays(c);
  }

  lemma SomeOpenDate(c: Calendar) returns (d: int)
    requires ValidCalendar(c)
    ensures 0 < d && !Closed(c, d)
  {
    hide ValidCalendar, Closed, OpenWeekdays, Blocked;
    OpenDatesInWeeks(c, 0, 733);
    BlockedSize(c);
    SomeOpenWeekday(c);
    d := SomeElement(OpenDates(c, 0, 7 * 733));
  }

  // Validation trims the zone text of a calendar and evaluation loads it as written: whether an
  // occurrence is closed is decided by its local date exactly when the text is not padded. When
  // it is, every date is closed and nothing rolls.
  lemma ZoneTakesEffectExactly(c: Calendar)
    requires ValidCalendar(c)
    ensures FollowsDates(c) <==> !c.zone.padded
    ensures c.zone.padded ==>
              forall t :: t != ZERO_TIME ==> NonWorking(Some(c), t) && RolledForward(Some(c), t) == ZERO_TIME
  {
    hide ValidCalendar, Closed, RolledForward, LocalDay;
    ZoneKnown(c);
    if c.zone.padded {
      forall t | t != ZERO_TIME ensures NonWorking(Some(c), t) && RolledForward(Some(c), t) == ZERO_TIME {
        UnloadedClosesEverything(c, t);
      }
      var d := SomeOpenDate(c);
      var t := At(d, 1, c.offset);
      if t == ZERO_TIME { OddNanos(d, c.offset); }
      JoinThenSplit(d, 1, c.offset);
      assert NonWorking(Some(c), t) && !Closed(c, LocalDay(t, c.offset));
    }
  }

  // The date that decides is the one that the calendar's own zone shows.
  lemma ZoneDecidesDate(c: Calendar, t: int)
    requires ValidCalendar(c) && !c.zone.padded && t != ZERO_TIME
    ensures NonWorking(Some(c), t) <==>
            Closed(c, (t + c.zone.known.value * 1_000_000_000) / (24 * 60 * 60 * 1_000_000_000))
  {
    hide Closed, Accepted, TrimSpace;
  }

  lemma OddNanos(day: int, offset: int)
    ensures At(day, 1, offset) != ZERO_TIME
  {
  }

  // ---------- classification without the order of the entries ----------

  // Exceptions that open their date.
  ghost function Opened(c: Calendar): set<int> {
    set i | 0 <= i < |c.exceptions| && c.exceptions[i].intervals != [] :: c.exceptions[i].date
  }

  lemma {:induction false} NoVerdict(exceptions: seq<DateException>, day: int)
    requires forall i :: 0 <= i < |exceptions| ==> exceptions[i].date != day
    ensures ExceptionVerdict(exceptions, day) == None
  {
    if exceptions != [] {
      NoVerdict(exceptions[1..], day);
    }
  }

  lemma {:induction false} VerdictAt(exceptions: seq<DateException>, i: int)
    requires 0 <= i < |exceptions|
    requires forall j :: 0 <= j < i ==> exceptions[j].date != exceptions[i].date
    ensures ExceptionVerdict(exceptions, exceptions[i].date) == Some(exceptions[i].intervals == [])
  {
    if i > 0 {
      VerdictAt(exceptions[1..], i - 1);
    }
  }

  lemma {:induction false} NoWeekly(weekly: seq<WeeklySchedule>, weekday: int)
    requires forall i :: 0 <= i < |weekly| && weekly[i].weekday == weekday ==> weekly[i].intervals == []
    ensures WeeklyVerdict(weekly, weekday) != Some(false)
  {
    if weekly != [] {
      NoWeekly(weekly[1..], weekday);
    }
  }

  lemma DistinctDates(c: Calendar, i: int)
    requires ValidCalendar(c) && 0 <= i < |c.exceptions|
    ensures forall j :: 0 <= j < |c.exceptions| && j != i ==> c.exceptions[j].date != c.exceptions[i].date
    ensures c.exceptions[i].date !in c.holidays
  {
    hide Accepted, TrimSpace;
    var all := c.holidays + ExceptionDates(c.exceptions);
    var n := |c.holidays|;
    assert all[n + i] == c.exceptions[i].date;
    forall j | 0 <= j < |c.exceptions| && j != i ensures c.exceptions[j].date != c.exceptions[i].date {
      assert all[n + j] == c.exceptions[j].date;
    }
    forall h | 0 <= h < n ensures c.holidays[h] != c.exceptions[i].date {
      assert all[h] == c.holidays[h];
    }
  }

  // In a validated calendar a date is closed exactly when a holiday or a closing exception
  // names it, or its weekday has no working interval and no exception opens it.
  lemma ClosedExactly(c: Calendar, day: int)
    requires ValidCalendar(c)
    ensures Closed(c, day) <==>
            day in Blocked(c) || (Weekday(day) !in OpenWeekdays(c) && day !in Opened(c))
  {
    hide Accepted, TrimSpace, ValidWeekly, ValidException, Weekday;
    var w := Weekday(day);
    if i :| 0 <= i < |c.exceptions| && c.exceptions[i].date == day {
      DistinctDates(c, i);
      VerdictAt(c.exceptions, i);
    } else {
      NoVerdict(c.exceptions, day);
      if i :| 0 <= i < |c.weekly| && c.weekly[i].intervals != [] && c.weekly[i].weekday == w {
        WeeklyVerdictOpen(c.weekly, i);
      } else {
        NoWeekly(c.weekly, w);
      }
    }
  }

  // ---------- the bound is exact ----------

  const UTC := Zone("UTC", Some(0), false)

  // A calendar open on one weekday only, with the first n dates of that weekday blocked.
  function SparseCalendar(first: int, n: nat): Calendar {
    Calendar("key", "revision", UTC,
      [WeeklySchedule(Weekday(first), [TimeInterval("09:00", "18:00")])],
      seq(if n < 366 then n else 366, i => first + 7 * i),
      seq(if n < 366 then 0 else n - 366, i => DateException(first + 7 * (366 + i), [])))
  }

  lemma SparseCalendarIsValid(first: int, n: nat)
    requires n <= 732
    ensures ValidCalendar(SparseCalendar(first, n))
  {
    hide Accepted, TrimSpace, Weekday;
    var c := SparseCalendar(first, n);
    TrimmedIsFixed("key");
    TrimmedIsFixed("revision");
    OfficeHoursAccepted();
    assert Accepted([]) by { NothingAccepted(); }
    forall i | 0 <= i < |c.exceptions| ensures ValidException(c.exceptions[i]) {
      assert c.exceptions[i].intervals == [];
    }
    var all := c.holidays + ExceptionDates(c.exceptions);
    forall i | 0 <= i < |all| ensures all[i] == first + 7 * i { }
  }

  lemma NothingAccepted()
    ensures Accepted([])
  {
  }

  lemma OfficeHoursAccepted()
    ensures Accepted([TimeInterval("09:00", "18:00")])
  {
    var v := TimeInterval("09:00", "18:00");
    TrimmedIsFixed("09:00");
    TrimmedIsFixed("18:00");
    assert Start(v) == Some(540) && End(v) == Some(1080);
    LessTrichotomy("09:00", "09:00");
  }

  ghost function EverySeventhDay(first: int, n: nat): set<int> {
    set i | 0 <= i < n :: first + 7 * i
  }

  lemma SparseWeekdays(first: int, n: nat)
    ensures OpenWeekdays(SparseCalendar(first, n)) == {Weekday(first)}
    ensures Opened(SparseCalendar(first, n)) == {}
  {
    hide Weekday;
    var c := SparseCalendar(first, n);
    forall w ensures w in OpenWeekdays(c) <==> w == Weekday(first) {
      assert c.weekly[0].intervals != [];
    }
  }

  lemma SparseEntries(first: int, n: nat)
    ensures var c := SparseCalendar(first, n);
            |c.holidays| + |c.exceptions| == n && (|c.exceptions| > 0 ==> |c.holidays| == 366) &&
            (forall i :: 0 <= i < |c.holidays| ==> c.holidays[i] == first + 7 * i) &&
            (forall i :: 0 <= i < |c.exceptions| ==> c.exceptions[i] == DateException(first + 7 * (366 + i), []))
  {
    hide Weekday;
  }

  lemma SparseBlocks(first: int, n: nat)
    ensures Blocked(SparseCalendar(first, n)) == EverySeventhDay(first, n)
  {
    hide SparseCalendar;
    SparseEntries(first, n);
    var c := SparseCalendar(first, n);
    var h := |c.holidays|;
    forall d | d in EverySeventhDay(first, n) ensures d in Blocked(c) {
      var i :| 0 <= i < n && first + 7 * i == d;
      if i < h {
        assert c.holidays[i] == d;
      } else {
        assert c.exceptions[i - h].date == d;
      }
    }
    forall d | d in Blocked(c) ensures d in EverySeventhDay(first, n) {
      if i :| 0 <= i < h && c.holidays[i] == d {
        assert d == first + 7 * i;
      } else {
        var i :| 0 <= i < |c.exceptions| && c.exceptions[i].date == d;
        assert d == first + 7 * (366 + i);
      }
    }
  }

  lemma {:induction false} WeeksSize(first: int, n: nat)
    ensures |EverySeventhDay(first, n)| == n
  {
    if n > 0 {
      WeeksSize(first, n - 1);
      assert EverySeventhDay(first, n) == EverySeventhDay(first, n - 1) + {first + 7 * (n - 1)};
    } else {
      assert EverySeventhDay(first, n) == {};
    }
  }

  lemma SparseStaysClosed(first: int, n: nat, k: int)
    requires 0 < first && 523 <= n <= 732 && 0 <= k <= MAXIMUM_SEARCH_DAYS
    ensures !Working(SparseCalendar(first, n), DaysLater(At(first, 0, 0), k))
  {
    hide Closed, ValidCalendar, OpenWeekdays, Blocked, Opened, SparseCalendar, Weekday, LocalDay, LocalNanos, At;
    var c := SparseCalendar(first, n);
    SparseCalendarIsValid(first, n);
    SparseWeekdays(first, n);
    SparseBlocks(first, n);
    JoinThenSplit(first, 0, 0);
    DaysLaterDay(At(first, 0, 0), 0, k);
    ClosedExactly(c, first + k);
    SparseOffset(first, n);
    if Weekday(first + k) == Weekday(first) {
      SameWeekdayIsBlocked(first, n, k);
    }
  }

  lemma SparseOffset(first: int, n: nat)
    ensures SparseCalendar(first, n).offset == 0 && SparseCalendar(first, n).zone.Loads()
  {
  }

  lemma SameWeekdayIsBlocked(first: int, n: nat, k: int)
    requires 0 <= k < 7 * n && Weekday(first + k) == Weekday(first)
    ensures first + k in EverySeventhDay(first, n)
  {
    SameWeekday(first, k);
    var i := k / 7;
    assert 0 <= i < n && first + 7 * i == first + k;
  }

  lemma SameWeekday(day: int, k: int)
    requires Weekday(day + k) == Weekday(day)
    ensures k % 7 == 0
  {
  }

  // Validation permits every count of blocked dates from 523 to 732 with one open weekday,
  // and with each of them the search can come back with nothing: 523 is the exact threshold.
  lemma SearchCanFail(first: int, n: nat)
    requires 0 < first && 523 <= n <= 732
    ensures var c := SparseCalendar(first, n);
            ValidCalendar(c) && |OpenWeekdays(c)| == 1 && |Blocked(c)| == n &&
            RolledForward(Some(c), At(first, 0, 0)) == ZERO_TIME
  {
    hide SparseCalendar, ValidCalendar, OpenWeekdays, Blocked, Working, RolledForward;
    SparseOffset(first, n);
    SparseCalendarIsValid(first, n);
    SparseWeekdays(first, n);
    SparseBlocks(first, n);
    WeeksSize(first, n);
    var k := FirstWorking(SparseCalendar(first, n), At(first, 0, 0));
    if k <= MAXIMUM_SEARCH_DAYS {
      SparseStaysClosed(first, n, k);
    }
  }
}
