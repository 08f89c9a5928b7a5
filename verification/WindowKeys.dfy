// Window keys: the suffix that names a window, and when two occurrences of one schedule
// share it (WindowSuffix in schedule/schedule.go).
module WindowKeys {
  import opened Civil
  import opened WallClock
  import opened WallRules
  import opened Recurrence
  import opened Quotients

  // ---------- numbers as text ----------

  function DigitChar(d: int): char
    requires 0 <= d <= 9
  {
    "0123456789"[d]
  }

  // %d
  function Decimal(n: int): string
    decreases if n < 0 then 1 else 0, if n < 0 then -n else n
  {
    if n < 0 then "-" + Decimal(-n)
    else if n < 10 then [DigitChar(n)]
    else Decimal(n / 10) + [DigitChar(n % 10)]
  }

  // A number padded with zeros on the left.
  function Padded(n: int, width: int): string
    requires 0 <= n
  {
    Zeros(width - |Decimal(n)|) + Decimal(n)
  }

  // fmt's %0*d counts the sign in the width, time.Format does not.
  function FmtPadded(n: int, width: int): string {
    if n < 0 then "-" + Padded(-n, width - 1) else Padded(n, width)
  }

  function TimePadded(n: int, width: int): string {
    if n < 0 then "-" + Padded(-n, width) else Padded(n, width)
  }

  function Zeros(n: int): string {
    if n <= 0 then "" else "0" + Zeros(n - 1)
  }

  // ---------- the suffix ----------

  // Seconds since 1970-01-01T00:00:00Z, rounded down.
  function Unix(t: int): int {
    t / 1_000_000_000 - 62_135_596_800
  }

  // Go's integer division, which truncates toward zero.
  function Truncated(a: int, b: int): int
    requires 0 < b
  {
    if a < 0 then -((-a) / b) else a / b
  }

  // time.ISOWeek: the year of the week's Thursday and that day's week of the year
  // (ISO 8601:2004, section 3.2.2).
  function Thursday(day: int): int {
    day - (Weekday(day) + 6) % 7 + 3
  }

  function IsoYear(day: int): int {
    Year(Thursday(day))
  }

  function IsoWeek(day: int): int {
    (Thursday(day) - MonthStart(12 * IsoYear(day))) / 7 + 1
  }

  // Whole minutes since local midnight.
  function MinuteOf(t: int, offset: int): (m: int)
    ensures 0 <= m < 1440
  {
    LocalNanos(t, offset) / 60_000_000_000
  }

  function WindowSuffix(s: Schedule, t: int): string {
    var day := LocalDay(t, s.offset);
    match s.rule
    case Interval(seconds) =>
      var seconds := if seconds <= 0 then 86_400 else seconds;
      "interval" + Decimal(seconds) + "_" + Decimal(Truncated(Unix(t), seconds))
    case WeeklyAt(_, _) => FmtPadded(IsoYear(day), 4) + "W" + FmtPadded(IsoWeek(day), 2)
    case MonthlyAt(_, _) => TimePadded(Year(day), 4) + TimePadded(Month(day), 2)
    case Cron(_) =>
      TimePadded(Year(day), 4) + TimePadded(Month(day), 2) + TimePadded(DayOfMonth(day), 2) +
      TimePadded(MinuteOf(t, s.offset) / 60, 2) + TimePadded(MinuteOf(t, s.offset) % 60, 2)
    case _ => TimePadded(Year(day), 4) + TimePadded(Month(day), 2) + TimePadded(DayOfMonth(day), 2)
  }

  // ---------- reading numbers back ----------

  function Value(s: string): int {
    if s == "" then 0 else 10 * Value(s[..|s| - 1]) + (s[|s| - 1] as int - '0' as int)
  }

  lemma DecimalStep(n: int)
    requires 10 <= n
    ensures Decimal(n) == Decimal(n / 10) + [DigitChar(n % 10)]
  {
  }

  lemma {:induction false} DecimalRoundTrip(n: int)
    requires 0 <= n
    ensures Value(Decimal(n)) == n && Decimal(n) != ""
    decreases n
  {
    if n < 10 {
      assert Value("") == 0;
      assert Decimal(n)[..0] == "";
    } else {
      DecimalRoundTrip(n / 10);
      DecimalStep(n);
      var s := Decimal(n);
      assert s[..|s| - 1] == Decimal(n / 10);
    }
  }

  lemma {:induction false} DecimalHasNoSign(n: int)
    requires 0 <= n
    ensures Decimal(n) != "" && Decimal(n)[0] != '-'
    decreases n
  {
    if n >= 10 {
      DecimalHasNoSign(n / 10);
      DecimalStep(n);
    }
  }

  lemma DecimalLength(n: int)
    requires 0 <= n < 10_000
    ensures n < 100 ==> |Decimal(n)| <= 2
    ensures |Decimal(n)| <= 4
  {
    hide Decimal;
    if n >= 10 {
      DecimalStep(n);
      if n >= 100 {
        DecimalStep(n / 10);
        if n >= 1000 {
          DecimalStep(n / 100);
        }
      }
    }
    OneDigit(n);
    OneDigit(n / 10);
    OneDigit(n / 100);
    OneDigit(n / 1000);
    assert n / 10 / 10 == n / 100 && n / 100 / 10 == n / 1000;
  }

  lemma OneDigit(n: int)
    requires 0 <= n
    ensures n < 10 ==> |Decimal(n)| == 1
  {
  }

  lemma {:induction false} LeadingZeros(k: int, s: string)
    ensures Value(Zeros(k) + s) == Value(s)
    decreases |s|, k
  {
    var t := Zeros(k) + s;
    if s != "" {
      LeadingZeros(k, s[..|s| - 1]);
      assert t[..|t| - 1] == Zeros(k) + s[..|s| - 1];
    } else {
      ZerosAreZero(k);
      assert t == Zeros(k);
    }
  }

  lemma {:induction false} ZerosAreZero(k: int)
    ensures Value(Zeros(k)) == 0
    ensures forall i :: 0 <= i < |Zeros(k)| ==> Zeros(k)[i] == '0'
    ensures |Zeros(k)| == if k < 0 then 0 else k
    decreases k
  {
    if k > 0 {
      ZerosAreZero(k - 1);
      var z := Zeros(k);
      assert z[..|z| - 1] == Zeros(k - 1);
    }
  }

  lemma PaddedRoundTrip(n: int, width: int)
    requires 0 <= n && ((width == 2 && n < 100) || (width == 4 && n < 10_000))
    ensures Value(Padded(n, width)) == n && |Padded(n, width)| == width
  {
    hide Decimal, Zeros, Value;
    DecimalRoundTrip(n);
    DecimalLength(n);
    LeadingZeros(width - |Decimal(n)|, Decimal(n));
    ZerosAreZero(width - |Decimal(n)|);
  }

  // ---------- wall-clock rules ----------

  // A number with a sign in front when it is negative.
  function SignedValue(s: string): int {
    if s != "" && s[0] == '-' then -Value(s[1..]) else Value(s)
  }

  lemma PaddedHasNoSign(n: int, width: int)
    requires 0 <= n
    ensures Padded(n, width) != "" && Padded(n, width)[0] != '-' && Value(Padded(n, width)) == n
  {
    hide Decimal, Value;
    DecimalRoundTrip(n);
    DecimalHasNoSign(n);
    LeadingZeros(width - |Decimal(n)|, Decimal(n));
    ZerosAreZero(width - |Decimal(n)|);
  }

  lemma SignedRoundTrip(n: int, width: int)
    ensures SignedValue(TimePadded(n, width)) == n && SignedValue(FmtPadded(n, width)) == n
  {
    hide Padded, Value;
    if n < 0 {
      assert TimePadded(n, width)[1..] == Padded(-n, width);
      assert FmtPadded(n, width)[1..] == Padded(-n, width - 1);
      PaddedHasNoSign(-n, width);
      PaddedHasNoSign(-n, width - 1);
    } else {
      PaddedHasNoSign(n, width);
    }
  }

  // The key of a wall-clock or one-time rule reads back as the local date, month or ISO week
  // it names. Only the year has a varying number of characters, and it comes first.
  predicate ReadsBack(s: Schedule, t: int, key: string)
    requires s.rule.Once? || s.rule.DailyAt? || s.rule.WeeklyAt? || s.rule.MonthlyAt?
  {
    var day := LocalDay(t, s.offset);
    var n := |key|;
    match s.rule
    case WeeklyAt(_, _) =>
      n >= 3 && SignedValue(key[..n - 3]) == IsoYear(day) && key[n - 3] == 'W' && Value(key[n - 2..]) == IsoWeek(day)
    case MonthlyAt(_, _) =>
      n >= 2 && SignedValue(key[..n - 2]) == Year(day) && Value(key[n - 2..]) == Month(day)
    case _ =>
      n >= 4 && SignedValue(key[..n - 4]) == Year(day) && Value(key[n - 4..n - 2]) == Month(day) &&
      Value(key[n - 2..]) == DayOfMonth(day)
  }

  lemma KeyReadsBack(s: Schedule, t: int)
    requires s.rule.Once? || s.rule.DailyAt? || s.rule.WeeklyAt? || s.rule.MonthlyAt?
    ensures ReadsBack(s, t, WindowSuffix(s, t))
  {
    hide LocalDay, MonthOf, MonthStart, Padded, Value, SignedValue, Thursday;
    var day := LocalDay(t, s.offset);
    DateRoundTrip(day);
    var key := WindowSuffix(s, t);
    var n := |key|;
    if s.rule.WeeklyAt? {
      IsoWeekBounds(day);
      SignedRoundTrip(IsoYear(day), 4);
      PaddedRoundTrip(IsoWeek(day), 2);
      assert key[..n - 3] == FmtPadded(IsoYear(day), 4) && key[n - 2..] == Padded(IsoWeek(day), 2);
    } else if s.rule.MonthlyAt? {
      SignedRoundTrip(Year(day), 4);
      PaddedRoundTrip(Month(day), 2);
      assert key[..n - 2] == TimePadded(Year(day), 4) && key[n - 2..] == Padded(Month(day), 2);
    } else {
      SignedRoundTrip(Year(day), 4);
      PaddedRoundTrip(Month(day), 2);
      PaddedRoundTrip(DayOfMonth(day), 2);
      assert key[..n - 4] == TimePadded(Year(day), 4);
      assert key[n - 4..n - 2] == Padded(Month(day), 2) && key[n - 2..] == Padded(DayOfMonth(day), 2);
    }
  }

  lemma YearBounds(day: int)
    ensures MonthStart(12 * Year(day)) <= day <= MonthStart(12 * Year(day)) + 371
  {
    hide MonthOf, MonthStart;
    MonthOfBounds(day);
    var m := MonthOf(day);
    MonthsAscend(12 * Year(day), m);
    MonthsAscend(12 * Year(day), m + 1);
  }

  lemma ThursdayIsThursday(day: int)
    ensures Weekday(Thursday(day)) == 4
    ensures day == Thursday(day) - 3 + (Weekday(day) + 6) % 7
  {
  }

  // The ISO year and week name one block of seven days from Monday to Sunday, also across
  // the ends of years.
  lemma WeekIsUnique(day: int, day': int)
    requires IsoYear(day) == IsoYear(day') && IsoWeek(day) == IsoWeek(day')
    ensures Thursday(day) == Thursday(day')
  {
    hide MonthOf, MonthStart;
    ThursdayIsThursday(day);
    ThursdayIsThursday(day');
    YearBounds(Thursday(day));
    YearBounds(Thursday(day'));
    var start := MonthStart(12 * IsoYear(day));
    var a, b := Thursday(day) - start, Thursday(day') - start;
    assert a / 7 == b / 7;
    SameWeekSameDay(a, b, start);
  }

  lemma SameWeekSameDay(a: int, b: int, start: int)
    requires a / 7 == b / 7 && Weekday(start + a) == Weekday(start + b)
    ensures a == b
  {
  }

  lemma IsoWeekBounds(day: int)
    ensures 1 <= IsoWeek(day) <= 54
  {
    hide MonthOf, MonthStart, Weekday;
    YearBounds(Thursday(day));
  }

  // Week 1 of an ISO year is the week of 4 January.
  lemma WeekOne(y: int)
    ensures var day := DayNumber(y, 1, 4); IsoYear(day) == y && IsoWeek(day) == 1
  {
    hide MonthOf, MonthStart;
    var day := DayNumber(y, 1, 4);
    assert day == MonthStart(12 * y) + 3;
    MonthStartStep(12 * y);
    MonthOfUnique(Thursday(day), 12 * y);
    MonthSplit(y, 0);
  }

  // One daily, weekly or monthly rule: two different instants it asks for have different
  // keys. This covers rolled occurrences of daily rules, which keep the clock.
  lemma KeysSeparate(s: Schedule, t: int, u: int)
    requires s.rule.DailyAt? || s.rule.WeeklyAt? || s.rule.MonthlyAt?
    requires Raw(s, t) && Raw(s, u)
    ensures WindowSuffix(s, t) == WindowSuffix(s, u) <==> t == u
  {
    hide LocalDay, LocalNanos, MonthOf, MonthStart, Weekday, WindowSuffix;
    hide Thursday, IsoWeek, OnMonthDay, MonthlyIn, Value, SignedValue;
    var a, b := LocalDay(t, s.offset), LocalDay(u, s.offset);
    KeyReadsBack(s, t);
    KeyReadsBack(s, u);
    if WindowSuffix(s, t) == WindowSuffix(s, u) {
      match s.rule
      case DailyAt(clock) =>
        DateRoundTrip(a);
        DateRoundTrip(b);
        OnClockIsAt(t, s.offset, clock);
        OnClockIsAt(u, s.offset, clock);
      case WeeklyAt(_, clock) =>
        WeekIsUnique(a, b);
        ThursdayIsThursday(a);
        ThursdayIsThursday(b);
        OnClockIsAt(t, s.offset, clock);
        OnClockIsAt(u, s.offset, clock);
      case MonthlyAt(day, clock) =>
        OnMonthDayExactly(t, s.offset, TargetDay(day), clock);
        OnMonthDayExactly(u, s.offset, TargetDay(day), clock);
    }
  }

  // Cron rules have minute resolution: two instants on whole local minutes have different keys.
  lemma CronKeysSeparate(s: Schedule, t: int, u: int)
    requires s.rule.Cron?
    requires LocalNanos(t, s.offset) % 60_000_000_000 == 0 == LocalNanos(u, s.offset) % 60_000_000_000
    ensures WindowSuffix(s, t) == WindowSuffix(s, u) <==> t == u
  {
    hide LocalDay, MonthOf, MonthStart, WindowSuffix, Value, SignedValue, At;
    CronKeyReadsBack(s, t);
    CronKeyReadsBack(s, u);
    if WindowSuffix(s, t) == WindowSuffix(s, u) {
      DateRoundTrip(LocalDay(t, s.offset));
      DateRoundTrip(LocalDay(u, s.offset));
      SplitThenJoin(t, s.offset);
      SplitThenJoin(u, s.offset);
      WholeMinutes(t, s.offset);
      WholeMinutes(u, s.offset);
    }
  }

  lemma WholeMinutes(t: int, offset: int)
    requires LocalNanos(t, offset) % 60_000_000_000 == 0
    ensures LocalNanos(t, offset) == MinuteOf(t, offset) * 60_000_000_000
  {
    hide LocalNanos;
  }

  lemma CronKeyReadsBack(s: Schedule, t: int)
    requires s.rule.Cron?
    ensures var key := WindowSuffix(s, t);
            var n := |key|;
            var day := LocalDay(t, s.offset);
            n >= 8 && SignedValue(key[..n - 8]) == Year(day) && Value(key[n - 8..n - 6]) == Month(day) &&
            Value(key[n - 6..n - 4]) == DayOfMonth(day) &&
            Value(key[n - 4..n - 2]) * 60 + Value(key[n - 2..]) == MinuteOf(t, s.offset)
  {
    hide LocalDay, LocalNanos, MonthOf, MonthStart, Padded, Value, SignedValue, MinuteOf;
    var day := LocalDay(t, s.offset);
    DateRoundTrip(day);
    var key := WindowSuffix(s, t);
    var n := |key|;
    var hour, minute := MinuteOf(t, s.offset) / 60, MinuteOf(t, s.offset) % 60;
    SignedRoundTrip(Year(day), 4);
    PaddedRoundTrip(Month(day), 2);
    PaddedRoundTrip(DayOfMonth(day), 2);
    PaddedRoundTrip(hour, 2);
    PaddedRoundTrip(minute, 2);
    assert key[..n - 8] == TimePadded(Year(day), 4) && key[n - 8..n - 6] == Padded(Month(day), 2);
    assert key[n - 6..n - 4] == Padded(DayOfMonth(day), 2);
    assert key[n - 4..n - 2] == Padded(hour, 2) && key[n - 2..] == Padded(minute, 2);
  }

  // ---------- intervals ----------

  lemma {:induction false} DecimalInjective(a: int, b: int)
    requires Decimal(a) == Decimal(b)
    ensures a == b
  {
    hide Decimal, Value;
    DecimalSign(a);
    DecimalSign(b);
    if a >= 0 { DecimalRoundTrip(a); DecimalHasNoSign(a); } else { DecimalRoundTrip(-a); }
    if b >= 0 { DecimalRoundTrip(b); DecimalHasNoSign(b); } else { DecimalRoundTrip(-b); }
    if a < 0 && b < 0 {
      assert Decimal(a)[1..] == Decimal(-a) && Decimal(b)[1..] == Decimal(-b);
    }
  }

  lemma DecimalSign(n: int)
    ensures n < 0 ==> Decimal(n) == "-" + Decimal(-n)
  {
  }

  // The instant 1970-01-01T00:00:00Z.
  function Epoch(): int {
    Date(1970, 1, 1, 0, 0)
  }

  lemma UnixFromEpoch(t: int)
    ensures Epoch() + Unix(t) * 1_000_000_000 <= t < Epoch() + (Unix(t) + 1) * 1_000_000_000
  {
    hide DayNumber;
    EpochIsThursday(0);
  }

  // The key of an interval schedule reads back as the length of the interval, a day when it is
  // not positive, and the number of whole intervals since the epoch; before the epoch the whole
  // second that the instant lies in is divided, toward zero.
  lemma IntervalKeyReadsBack(s: Schedule, t: int) returns (n: int, q: int)
    requires s.rule.Interval?
    ensures n == (if s.rule.seconds > 0 then s.rule.seconds else 24 * 60 * 60)
    ensures WindowSuffix(s, t) == "interval" + Decimal(n) + "_" + Decimal(q)
    ensures SignedValue(Decimal(n)) == n && SignedValue(Decimal(q)) == q
    ensures if Epoch() <= t then Epoch() + q * n * 1_000_000_000 <= t < Epoch() + (q + 1) * n * 1_000_000_000
            else q <= 0 && Epoch() + ((q - 1) * n + 1) * 1_000_000_000 <= t < Epoch() + (q * n + 1) * 1_000_000_000
  {
    hide Decimal, Unix, Epoch;
    n := if s.rule.seconds <= 0 then 86_400 else s.rule.seconds;
    var u := Unix(t);
    q := Truncated(u, n);
    UnixFromEpoch(t);
    DecimalReadsBack(n);
    DecimalReadsBack(q);
    if 0 <= u {
      QuotientBounds(u, n);
    } else {
      QuotientBounds(-u, n);
      NegatedQuotient(-u / n, n);
    }
  }

  lemma NegatedQuotient(k: int, n: int)
    ensures -k * n == -(k * n) && (-k - 1) * n == -((k + 1) * n)
  {
  }

  lemma DecimalReadsBack(n: int)
    ensures SignedValue(Decimal(n)) == n
  {
    hide Decimal, Value;
    DecimalSign(n);
    if n < 0 {
      DecimalRoundTrip(-n);
      assert Decimal(n)[1..] == Decimal(-n);
    } else {
      DecimalRoundTrip(n);
      DecimalHasNoSign(n);
    }
  }

  // Two instants of one interval schedule, k whole steps apart, share their key exactly when
  // they lie on either side of the epoch, the earlier less than one interval before it by whole
  // seconds, the later less than one interval after it.
  lemma IntervalKeys(s: Schedule, t: int, u: int, k: int)
    requires s.rule.Interval? && 0 < s.rule.seconds && 1 <= k
    requires u == t + k * (s.rule.seconds * 1_000_000_000)
    ensures WindowSuffix(s, t) == WindowSuffix(s, u) <==>
            Epoch() - (s.rule.seconds - 1) * 1_000_000_000 <= t < Epoch() <= u &&
            u < Epoch() + s.rule.seconds * 1_000_000_000
  {
    hide Decimal, Unix, Epoch;
    var n := s.rule.seconds;
    var a, b := Unix(t), Unix(u);
    SecondsApart(t, k, n);
    UnixFromEpoch(t);
    UnixFromEpoch(u);
    var prefix := "interval" + Decimal(n) + "_";
    if WindowSuffix(s, t) == WindowSuffix(s, u) {
      assert WindowSuffix(s, t)[|prefix|..] == Decimal(Truncated(a, n));
      assert WindowSuffix(s, u)[|prefix|..] == Decimal(Truncated(b, n));
      DecimalInjective(Truncated(a, n), Truncated(b, n));
    }
    TruncatedShares(a, b, k, n);
    StepsForward(k, n);
  }

  lemma StepsForward(k: int, n: int)
    requires 1 <= k && 0 < n
    ensures n <= k * n
  {
  }

  lemma SecondsApart(t: int, k: int, n: int)
    ensures Unix(t + k * (n * 1_000_000_000)) == Unix(t) + k * n
  {
    assert k * (n * 1_000_000_000) == (k * n) * 1_000_000_000;
  }

  lemma TruncatedShares(a: int, b: int, k: int, n: int)
    requires 0 < n && 1 <= k && b == a + k * n
    ensures Truncated(a, n) == Truncated(b, n) <==> -n < a < 0 && b < n
  {
    if 0 <= a {
      QuotientShift(a, k, n);
      assert n <= k * n;
    } else if b < 0 {
      QuotientShift(-b, k, n);
    } else {
      QuotientIsZero(-a, n);
      QuotientIsZero(b, n);
    }
  }
}
