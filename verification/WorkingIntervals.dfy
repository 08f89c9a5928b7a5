// Working intervals of a business calendar and the check that a host's snapshot passes
// before it is used (schedule/business_calendar.go).
module WorkingIntervals {
  import opened Text
  import opened Sequences

  datatype TimeInterval = TimeInterval(start: string, end: string)

  predicate IsDigit(c: char) { '0' <= c <= '9' }

  function Digit(c: char): int
    requires IsDigit(c)
  {
    c as int - '0' as int
  }

  // Minutes since midnight of a canonical HH:MM text. The layout is the only one accepted:
  // the parsed time must print as the same text again.
  function ParseClock(raw: string, allowEndOfDay: bool): (minutes: Option<int>)
    ensures minutes.Some? ==> 0 <= minutes.value <= (if allowEndOfDay then 1440 else 1439)
  {
    var s := TrimSpace(raw);
    if allowEndOfDay && s == "24:00" then Some(1440)
    else if |s| == 5 && IsDigit(s[0]) && IsDigit(s[1]) && s[2] == ':' && IsDigit(s[3]) && IsDigit(s[4])
         && 10 * Digit(s[0]) + Digit(s[1]) < 24 && Digit(s[3]) < 6
    then Some(600 * Digit(s[0]) + 60 * Digit(s[1]) + 10 * Digit(s[3]) + Digit(s[4]))
    else None
  }

  function DigitText(n: int): char
    requires 0 <= n <= 9
  {
    "0123456789"[n]
  }

  // The canonical text of a time of day.
  function ClockText(hour: int, minute: int): string
    requires 0 <= hour <= 99 && 0 <= minute <= 99
  {
    [DigitText(hour / 10), DigitText(hour % 10), ':', DigitText(minute / 10), DigitText(minute % 10)]
  }

  lemma DigitBack(n: int)
    requires 0 <= n <= 9
    ensures IsDigit(DigitText(n)) && Digit(DigitText(n)) == n && !IsSpace(DigitText(n))
  {
  }

  lemma DigitForth(c: char)
    requires IsDigit(c)
    ensures 0 <= Digit(c) <= 9 && DigitText(Digit(c)) == c
  {
  }

  lemma ClockTextTrimmed(hour: int, minute: int)
    requires 0 <= hour <= 99 && 0 <= minute <= 99
    ensures TrimSpace(ClockText(hour, minute)) == ClockText(hour, minute)
  {
    hide IsSpace;
    DigitBack(hour / 10);
    DigitBack(minute % 10);
    TrimmedIsFixed(ClockText(hour, minute));
  }

  // The text of every hour and minute of a day is accepted, as these minutes since midnight;
  // 24:00 is where it may end the day; no other text is, and padding does not matter.
  lemma ClockTextsExactly(raw: string, allowEndOfDay: bool)
    ensures forall h, m | 0 <= h < 24 && 0 <= m < 60 :: ParseClock(ClockText(h, m), allowEndOfDay) == Some(60 * h + m)
    ensures ParseClock("24:00", allowEndOfDay) == if allowEndOfDay then Some(24 * 60) else None
    ensures ParseClock(raw, allowEndOfDay).Some? ==>
              var t := ParseClock(raw, allowEndOfDay).value;
              0 <= t <= 1440 && TrimSpace(raw) == ClockText(t / 60, t % 60)
    ensures ParseClock(raw, allowEndOfDay) == ParseClock(TrimSpace(raw), allowEndOfDay)
  {
    hide IsSpace, TrimSpace, ClockText, IsDigit, Digit;
    forall h, m | 0 <= h < 24 && 0 <= m < 60
      ensures ParseClock(ClockText(h, m), allowEndOfDay) == Some(60 * h + m)
    {
      ClockTextParses(h, m, allowEndOfDay);
    }
    EndOfDayParses(allowEndOfDay);
    TrimSpaceIsIdempotent(raw);
    if ParseClock(raw, allowEndOfDay).Some? { ParsedText(raw, allowEndOfDay); }
  }

  lemma EndOfDayParses(allowEndOfDay: bool)
    ensures ParseClock("24:00", allowEndOfDay) == if allowEndOfDay then Some(24 * 60) else None
  {
    hide IsSpace, TrimSpace;
    EndOfDayText();
    ClockTextTrimmed(24, 0);
  }

  lemma ClockTextParses(h: int, m: int, allowEndOfDay: bool)
    requires 0 <= h < 24 && 0 <= m < 60
    ensures ParseClock(ClockText(h, m), allowEndOfDay) == Some(60 * h + m)
  {
    hide IsSpace, TrimSpace, Digit, IsDigit, DigitText;
    ClockTextTrimmed(h, m);
    DigitBack(h / 10);
    DigitBack(h % 10);
    DigitBack(m / 10);
    DigitBack(m % 10);
    if ClockText(h, m) == "24:00" {
      DigitBack(2);
      DigitBack(4);
      EndOfDayDigits(h, m);
    }
  }

  lemma EndOfDayDigits(h: int, m: int)
    requires 0 <= h < 24 && 0 <= m < 60
    ensures ClockText(h, m) != "24:00"
  {
  }

  lemma ParsedText(raw: string, allowEndOfDay: bool)
    requires ParseClock(raw, allowEndOfDay).Some?
    ensures var t := ParseClock(raw, allowEndOfDay).value;
            0 <= t <= 1440 && TrimSpace(raw) == ClockText(t / 60, t % 60)
  {
    hide IsSpace, TrimSpace, Digit, IsDigit, DigitText;
    var s := TrimSpace(raw);
    var t := ParseClock(raw, allowEndOfDay).value;
    if allowEndOfDay && s == "24:00" {
      assert ClockText(24, 0) == "24:00" by { EndOfDayText(); }
    } else {
      DigitForth(s[0]);
      DigitForth(s[1]);
      DigitForth(s[3]);
      DigitForth(s[4]);
      var h, m := 10 * Digit(s[0]) + Digit(s[1]), 10 * Digit(s[3]) + Digit(s[4]);
      assert t == 60 * h + m && t / 60 == h && t % 60 == m;
      assert s == [s[0], s[1], s[2], s[3], s[4]];
    }
  }

  lemma EndOfDayText()
    ensures ClockText(24, 0) == "24:00"
  {
  }

  function Start(v: TimeInterval): Option<int> { ParseClock(v.start, false) }

  function End(v: TimeInterval): Option<int> { ParseClock(v.end, true) }

  predicate NonEmpty(v: TimeInterval) {
    Start(v).Some? && End(v).Some? && Start(v).value < End(v).value
  }

  predicate Disjoint(a: TimeInterval, b: TimeInterval)
    requires NonEmpty(a) && NonEmpty(b)
  {
    End(a).value <= Start(b).value || End(b).value <= Start(a).value
  }

  // ---------- what acceptance means ----------

  ghost predicate AllNonEmpty(values: seq<TimeInterval>) {
    forall i :: 0 <= i < |values| ==> NonEmpty(values[i])
  }

  ghost predicate PairwiseDisjoint(values: seq<TimeInterval>)
    requires AllNonEmpty(values)
  {
    forall i, j :: 0 <= i < j < |values| ==> Disjoint(values[i], values[j])
  }

  // The texts of the starts, which are compared untrimmed, are in the order of the times.
  ghost predicate TextOrderIsTimeOrder(values: seq<TimeInterval>)
    requires AllNonEmpty(values)
  {
    forall i, j :: 0 <= i < |values| && 0 <= j < |values| && Less(values[i].start, values[j].start) ==>
      Start(values[i]).value < Start(values[j]).value
  }

  ghost predicate Accepted(values: seq<TimeInterval>) {
    AllNonEmpty(values) && PairwiseDisjoint(values) && TextOrderIsTimeOrder(values)
  }

  // ---------- the same, independent of positions ----------

  ghost predicate DisjointWithin(m: multiset<TimeInterval>) {
    forall a, b :: a in m && b in m ==>
      NonEmpty(a) && NonEmpty(b) && m[a] == 1 && (a != b ==> Disjoint(a, b)) &&
      (Less(a.start, b.start) ==> Start(a).value < Start(b).value)
  }

  lemma AcceptedThenDisjoint(values: seq<TimeInterval>)
    requires Accepted(values)
    ensures DisjointWithin(multiset(values))
  {
    hide ParseClock, Less, Disjoint;
    var m := multiset(values);
    forall a, b | a in m && b in m
      ensures NonEmpty(a) && NonEmpty(b) && m[a] == 1 && (a != b ==> Disjoint(a, b))
      ensures Less(a.start, b.start) ==> Start(a).value < Start(b).value
    {
      var i :| 0 <= i < |values| && values[i] == a;
      var j :| 0 <= j < |values| && values[j] == b;
      OnceIfDisjoint(values, a);
      if i < j {
        assert Disjoint(values[i], values[j]);
      } else if j < i {
        assert Disjoint(values[j], values[i]);
        DisjointIsSymmetric(b, a);
      }
    }
  }

  lemma DisjointIsSymmetric(a: TimeInterval, b: TimeInterval)
    requires NonEmpty(a) && NonEmpty(b) && Disjoint(a, b)
    ensures Disjoint(b, a)
  {
    hide ParseClock;
  }

  lemma OnceIfDisjoint(values: seq<TimeInterval>, a: TimeInterval)
    requires AllNonEmpty(values) && PairwiseDisjoint(values) && a in values
    ensures multiset(values)[a] == 1
  {
    hide ParseClock;
    if multiset(values)[a] >= 2 {
      var i, j := TwoPlaces(values, a);
    }
  }

  lemma DisjointThenAccepted(values: seq<TimeInterval>)
    requires DisjointWithin(multiset(values))
    ensures Accepted(values)
  {
    hide ParseClock, Less, Disjoint;
    var m := multiset(values);
    forall i | 0 <= i < |values| ensures NonEmpty(values[i]) { assert values[i] in m; }
    forall i, j | 0 <= i < j < |values| ensures Disjoint(values[i], values[j]) {
      assert values[i] in m && values[j] in m;
      if values[i] == values[j] { TwicePresent(values, i, j); }
    }
    forall i, j | 0 <= i < |values| && 0 <= j < |values| && Less(values[i].start, values[j].start)
      ensures Start(values[i]).value < Start(values[j]).value
    {
      assert values[i] in m && values[j] in m;
    }
  }

  lemma AcceptedIsDisjointWithin(values: seq<TimeInterval>)
    ensures Accepted(values) <==> DisjointWithin(multiset(values))
  {
    hide Accepted, DisjointWithin;
    if Accepted(values) { AcceptedThenDisjoint(values); }
    if DisjointWithin(multiset(values)) { DisjointThenAccepted(values); }
  }

  // Acceptance does not depend on the order of the input.
  lemma AcceptanceIgnoresOrder(values: seq<TimeInterval>, shuffled: seq<TimeInterval>)
    requires multiset(values) == multiset(shuffled)
    ensures Accepted(values) <==> Accepted(shuffled)
  {
    hide *;
    AcceptedIsDisjointWithin(values);
    AcceptedIsDisjointWithin(shuffled);
  }

  // ---------- sorting and checking ----------

  ghost predicate SortedByText(s: seq<TimeInterval>) {
    forall i, j :: 0 <= i < j < |s| ==> !Less(s[j].start, s[i].start)
  }

  // sort.Slice by the untrimmed start; any sorted permutation may come back.
  method SortByText(values: seq<TimeInterval>) returns (r: seq<TimeInterval>)
    ensures multiset(r) == multiset(values)
    ensures SortedByText(r)
  {
    r := [];
    for n := 0 to |values|
      invariant multiset(r) == multiset(values[..n])
      invariant SortedByText(r)
    {
      var k := 0;
      while k < |r| && !Less(values[n].start, r[k].start)
        invariant 0 <= k <= |r|
        invariant forall i :: 0 <= i < k ==> !Less(values[n].start, r[i].start)
      {
        k := k + 1;
      }
      InsertKeepsSorted(r, k, values[n]);
      assert r == r[..k] + r[k..];
      assert values[..n + 1] == values[..n] + [values[n]];
      r := r[..k] + [values[n]] + r[k..];
    }
    assert values[..|values|] == values;
  }

  lemma InsertKeepsSorted(r: seq<TimeInterval>, k: int, v: TimeInterval)
    requires SortedByText(r) && 0 <= k <= |r|
    requires forall i :: 0 <= i < k ==> !Less(v.start, r[i].start)
    requires k < |r| ==> Less(v.start, r[k].start)
    ensures SortedByText(r[..k] + [v] + r[k..])
  {
    hide Less;
    var s := r[..k] + [v] + r[k..];
    forall i, j | 0 <= i < j < |s| ensures !Less(s[j].start, s[i].start) {
      if i == k {
        assert s[j] == r[j - 1];
        LessTrichotomy(v.start, r[k].start);
        LessTrichotomy(r[k].start, r[k].start);
        if Less(s[j].start, v.start) {
          LessTransitive(s[j].start, v.start, r[k].start);
        }
      }
    }
  }

  // validateBusinessCalendarIntervals: accepts exactly the non-empty, pairwise disjoint
  // intervals whose start texts sort in time order.
  method ValidateIntervals(values: seq<TimeInterval>) returns (ok: bool)
    ensures ok <==> Accepted(values)
  {
    hide ParseClock, Less;
    var sorted := SortByText(values);
    AcceptanceIgnoresOrder(values, sorted);
    var previousEnd := -1;
    for n := 0 to |sorted|
      invariant forall i :: 0 <= i < n ==> NonEmpty(sorted[i])
      invariant previousEnd == if n == 0 then -1 else End(sorted[n - 1]).value
      invariant forall i, j :: 0 <= i < j < n ==> End(sorted[i]).value <= Start(sorted[j]).value
    {
      var start := Start(sorted[n]);
      var end := End(sorted[n]);
      if start.None? || end.None? || start.value >= end.value {
        return false;
      }
      if start.value < previousEnd {
        OverlapIsRejected(sorted, n);
        return false;
      }
      previousEnd := end.value;
    }
    forall i, j | 0 <= i < |sorted| && 0 <= j < |sorted| && Less(sorted[i].start, sorted[j].start)
      ensures Start(sorted[i]).value < Start(sorted[j]).value
    {
      LessTrichotomy(sorted[i].start, sorted[j].start);
      assert i < j;
    }
    ok := true;
  }

  lemma OverlapIsRejected(sorted: seq<TimeInterval>, n: int)
    requires SortedByText(sorted) && 0 < n < |sorted|
    requires NonEmpty(sorted[n - 1]) && NonEmpty(sorted[n])
    requires Start(sorted[n]).value < End(sorted[n - 1]).value
    ensures !Accepted(sorted)
  {
    hide ParseClock, Less;
    var a, b := sorted[n - 1], sorted[n];
    LessTrichotomy(a.start, b.start);
    assert NonEmpty(a) && NonEmpty(b);
    if Less(a.start, b.start) {
      assert Start(a).value < Start(b).value ==> !Disjoint(sorted[n - 1], sorted[n]);
    } else {
      assert !Disjoint(sorted[n - 1], sorted[n]);
    }
  }

  // ---------- when the text order can be trusted ----------

  lemma LessAt(a: string, b: string, k: nat)
    requires k < |a| && k < |b| && a[..k] == b[..k] && a[k] < b[k]
    ensures Less(a, b)
    decreases k
  {
    if k > 0 {
      assert a[0] == a[..k][0] == b[0];
      assert a[1..][..k - 1] == a[..k][1..] == b[1..][..k - 1];
      LessAt(a[1..], b[1..], k - 1);
    }
  }

  // Canonical HH:MM texts sort as the times they denote.
  lemma CanonicalOrder(a: string, b: string)
    requires Trimmed(a) && Trimmed(b) && ParseClock(a, false).Some? && ParseClock(b, false).Some?
    ensures Less(a, b) <==> ParseClock(a, false).value < ParseClock(b, false).value
  {
    hide TrimSpace, Trimmed;
    TrimmedIsFixed(a);
    TrimmedIsFixed(b);
    LessTrichotomy(a, b);
    if a[0] < b[0] { LessAt(a, b, 0); }
    else if b[0] < a[0] { LessAt(b, a, 0); }
    else if a[1] < b[1] { LessAt(a, b, 1); }
    else if b[1] < a[1] { LessAt(b, a, 1); }
    else if a[3] < b[3] { LessAt(a, b, 3); }
    else if b[3] < a[3] { LessAt(b, a, 3); }
    else if a[4] < b[4] { LessAt(a, b, 4); }
    else if b[4] < a[4] { LessAt(b, a, 4); }
    else { assert a == b; }
  }

  // For trimmed starts acceptance is exactly: all non-empty and pairwise disjoint.
  lemma AcceptedWhenTrimmed(values: seq<TimeInterval>)
    requires forall i :: 0 <= i < |values| ==> Trimmed(values[i].start)
    ensures Accepted(values) <==> AllNonEmpty(values) && PairwiseDisjoint(values)
  {
    hide ParseClock, Less, Trimmed;
    if AllNonEmpty(values) {
      forall i, j | 0 <= i < |values| && 0 <= j < |values| && Less(values[i].start, values[j].start)
        ensures Start(values[i]).value < Start(values[j]).value
      {
        CanonicalOrder(values[i].start, values[j].start);
      }
    }
  }

  // A minute of the day within an interval, which ends before its end.
  predicate Covers(v: TimeInterval, minute: int) {
    Start(v).Some? && End(v).Some? && Start(v).value <= minute < End(v).value
  }

  ghost predicate CoversSome(v: TimeInterval) {
    exists m :: Covers(v, m)
  }

  ghost predicate Overlap(a: TimeInterval, b: TimeInterval) {
    exists m :: Covers(a, m) && Covers(b, m)
  }

  lemma CoveredMinutes(a: TimeInterval, b: TimeInterval)
    ensures NonEmpty(a) <==> CoversSome(a)
    ensures NonEmpty(a) && NonEmpty(b) ==> (Disjoint(a, b) <==> !Overlap(a, b))
  {
    hide ParseClock;
    if NonEmpty(a) {
      assert Covers(a, Start(a).value);
    }
    if NonEmpty(a) && NonEmpty(b) && !Disjoint(a, b) {
      var m := if Start(a).value < Start(b).value then Start(b).value else Start(a).value;
      assert Covers(a, m) && Covers(b, m);
    }
  }

  // Only an end may be 24:00: so an interval can cover the whole day.
  lemma WholeDay(m: int)
    ensures Covers(TimeInterval("00:00", "24:00"), m) <==> 0 <= m < 24 * 60
    ensures !CoversSome(TimeInterval("24:00", "24:00"))
  {
    hide ParseClock;
    ClockTextsExactly("00:00", false);
    ClockTextsExactly("24:00", false);
    ClockTextsExactly("24:00", true);
    Midnight();
    assert ParseClock(ClockText(0, 0), false) == Some(60 * 0 + 0);
  }

  lemma Midnight()
    ensures ClockText(0, 0) == "00:00"
  {
  }

  // So for trimmed starts acceptance means, on the minutes of the day: every interval covers one,
  // and none is covered twice.
  lemma AcceptedByMinutes(values: seq<TimeInterval>)
    requires forall i :: 0 <= i < |values| ==> Trimmed(values[i].start)
    ensures Accepted(values) <==>
              (forall i :: 0 <= i < |values| ==> CoversSome(values[i])) &&
              (forall i, j :: 0 <= i < j < |values| ==> !Overlap(values[i], values[j]))
  {
    hide Trimmed, NonEmpty, Disjoint, CoversSome, Overlap, Accepted;
    AcceptedWhenTrimmed(values);
    forall i | 0 <= i < |values| ensures NonEmpty(values[i]) <==> CoversSome(values[i]) {
      CoveredMinutes(values[i], values[i]);
    }
    if AllNonEmpty(values) {
      forall i, j | 0 <= i < j < |values| ensures Disjoint(values[i], values[j]) <==> !Overlap(values[i], values[j]) {
        CoveredMinutes(values[i], values[j]);
      }
    }
  }

  // With padding the text order can contradict the time order, and disjoint intervals are refused.
  lemma PaddedStartIsRefused()
    ensures var values := [TimeInterval(" 10:00", "11:00"), TimeInterval("09:00", "10:00")];
            AllNonEmpty(values) && PairwiseDisjoint(values) && !Accepted(values)
  {
    var a, b := TimeInterval(" 10:00", "11:00"), TimeInterval("09:00", "10:00");
    assert TrimLeft(" 10:00") == TrimLeft("10:00") == "10:00";
    assert TrimSpace(" 10:00") == "10:00";
    TrimmedIsFixed("09:00");
    TrimmedIsFixed("10:00");
    TrimmedIsFixed("11:00");
    assert Start(a) == Some(600) && End(a) == Some(660) && Start(b) == Some(540) && End(b) == Some(600);
    var values := [a, b];
    LessAt(" 10:00", "09:00", 0);
    assert Less(values[0].start, values[1].start);
  }
}
