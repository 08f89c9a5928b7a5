// The proleptic Gregorian calendar (ISO 8601:2004, section 3.2.1) on day numbers.
// Day 0 is 0001-01-01, a Monday. A month is named by one integer, 12 * year + (month - 1),
// so that adding months is adding integers; month 12 is January of year 1.
module Civil {

  predicate Leap(y: int) {
    y % 4 == 0 && (y % 100 != 0 || y % 400 == 0)
  }

  function MonthLength(month: int): (n: int)
    ensures 28 <= n <= 31
  {
    var m := month % 12;
    if m == 1 then (if Leap(month / 12) then 29 else 28)
    else if m == 3 || m == 5 || m == 8 || m == 10 then 30
    else 31
  }

  // The number of the first day of a month: months tile the days without gaps.
  function MonthStart(month: int): int
    decreases if month < 12 then 12 - month else month - 12
  {
    if month == 12 then 0
    else if month < 12 then MonthStart(month + 1) - MonthLength(month)
    else MonthStart(month - 1) + MonthLength(month - 1)
  }

  // The day number time.Date gives for a year, month and day, where month and day
  // may lie outside their ranges and carry over.
  function DayNumber(year: int, month: int, day: int): int {
    MonthStart(12 * year + month - 1) + day - 1
  }

  // A day within a month: the month and the days of it that have passed.
  datatype Place = Place(month: int, rest: int)

  // Walks from the start of a month over a number of days, month by month, either way.
  function Walk(rest: int, month: int): (p: Place)
    ensures 0 <= p.rest < MonthLength(p.month)
    decreases rest < 0, if rest < 0 then -rest else rest
  {
    if rest < 0 then Walk(rest + MonthLength(month - 1), month - 1)
    else if rest < MonthLength(month) then Place(month, rest)
    else Walk(rest - MonthLength(month), month + 1)
  }

  function MonthOf(day: int): int {
    Walk(day, 12).month
  }

  function DayOfMonth(day: int): int {
    Walk(day, 12).rest + 1
  }

  function Year(day: int): int {
    MonthOf(day) / 12
  }

  function Month(day: int): int {
    MonthOf(day) % 12 + 1
  }

  // time.Weekday: Sunday is 0.
  function Weekday(day: int): (w: int)
    ensures 0 <= w <= 6
  {
    (day + 1) % 7
  }

  // ---------- lemmas ----------

  lemma MonthStartStep(month: int)
    ensures MonthStart(month + 1) == MonthStart(month) + MonthLength(month)
  {
  }

  // Month 12 is January of year 1, which starts the day count.
  lemma FirstMonth()
    ensures MonthStart(12) == 0
  {
  }

  // Months start in order, 28 to 31 days apart.
  lemma {:induction false} MonthsAscend(a: int, b: int)
    requires a <= b
    ensures MonthStart(a) + 28 * (b - a) <= MonthStart(b) <= MonthStart(a) + 31 * (b - a)
    decreases b - a
  {
    if a < b {
      MonthsAscend(a, b - 1);
      MonthStartStep(b - 1);
    }
  }

  lemma {:induction false} WalkKeepsDay(rest: int, month: int)
    ensures var p := Walk(rest, month); MonthStart(p.month) + p.rest == MonthStart(month) + rest
    decreases rest < 0, if rest < 0 then -rest else rest
  {
    hide MonthStart;
    if rest < 0 {
      WalkKeepsDay(rest + MonthLength(month - 1), month - 1);
      MonthStartStep(month - 1);
    } else if rest >= MonthLength(month) {
      WalkKeepsDay(rest - MonthLength(month), month + 1);
      MonthStartStep(month);
    }
  }

  lemma MonthOfBounds(day: int)
    ensures MonthStart(MonthOf(day)) <= day < MonthStart(MonthOf(day) + 1)
    ensures DayOfMonth(day) == day - MonthStart(MonthOf(day)) + 1
  {
    hide Walk;
    WalkKeepsDay(day, 12);
    MonthStartStep(MonthOf(day));
    assert MonthStart(12) == 0;
  }

  // A month contains a day exactly when it is the month of that day.
  lemma MonthOfUnique(day: int, month: int)
    ensures MonthOf(day) == month <==> MonthStart(month) <= day < MonthStart(month + 1)
    ensures MonthOf(day) == month ==> DayOfMonth(day) == day - MonthStart(month) + 1
  {
    MonthOfBounds(day);
    if MonthOf(day) < month {
      MonthsAscend(MonthOf(day) + 1, month);
    } else if month < MonthOf(day) {
      MonthsAscend(month + 1, MonthOf(day));
    }
  }

  lemma MonthSplit(year: int, m: int)
    requires 0 <= m <= 11
    ensures (12 * year + m) / 12 == year && (12 * year + m) % 12 == m
  {
  }

  // Date and day number are inverse: every day is the day number of its own year, month
  // and day of month, and every valid date names exactly the day it was read from.
  lemma DateRoundTrip(day: int)
    ensures DayNumber(Year(day), Month(day), DayOfMonth(day)) == day
    ensures 1 <= Month(day) <= 12 && 1 <= DayOfMonth(day) <= MonthLength(MonthOf(day))
  {
    MonthOfBounds(day);
    MonthStartStep(MonthOf(day));
  }

  lemma DayNumberRoundTrip(year: int, month: int, day: int)
    requires 1 <= month <= 12 && 1 <= day <= MonthLength(12 * year + month - 1)
    ensures var n := DayNumber(year, month, day);
            Year(n) == year && Month(n) == month && DayOfMonth(n) == day
  {
    var m := 12 * year + month - 1;
    MonthStartStep(m);
    MonthSplit(year, month - 1);
    MonthOfUnique(DayNumber(year, month, day), m);
  }

  // ---------- agreement with the usual closed form ----------

  function Leaps(y: int): int {
    y / 4 - y / 100 + y / 400
  }

  lemma MonthLengthIn(y: int, m: int)
    requires 0 <= m <= 11
    ensures MonthLength(12 * y + m) ==
            if m == 1 then (if Leap(y) then 29 else 28) else if m == 3 || m == 5 || m == 8 || m == 10 then 30 else 31
  {
    hide Leap;
    MonthSplit(y, m);
  }

  lemma MonthAfter(y: int, m: int)
    requires 0 <= m <= 11
    ensures MonthStart(12 * y + m + 1) == MonthStart(12 * y + m) +
            if m == 1 then (if Leap(y) then 29 else 28) else if m == 3 || m == 5 || m == 8 || m == 10 then 30 else 31
  {
    hide Leap, MonthLength;
    MonthLengthIn(y, m);
    MonthStartStep(12 * y + m);
  }

  lemma YearLength(y: int)
    ensures MonthStart(12 * y + 12) == MonthStart(12 * y) + (if Leap(y) then 366 else 365)
  {
    hide Leap, MonthStart, MonthLength;
    MonthAfter(y, 0); MonthAfter(y, 1); MonthAfter(y, 2); MonthAfter(y, 3); MonthAfter(y, 4); MonthAfter(y, 5);
    MonthAfter(y, 6); MonthAfter(y, 7); MonthAfter(y, 8); MonthAfter(y, 9); MonthAfter(y, 10); MonthAfter(y, 11);
  }

  lemma QuotientSteps(y: int)
    ensures y / 4 == (y - 1) / 4 + (if y % 4 == 0 then 1 else 0)
    ensures y / 100 == (y - 1) / 100 + (if y % 100 == 0 then 1 else 0)
    ensures y / 400 == (y - 1) / 400 + (if y % 400 == 0 then 1 else 0)
  {
  }

  lemma Multiples(y: int)
    ensures y % 100 == 0 ==> y % 4 == 0
    ensures y % 400 == 0 ==> y % 100 == 0
  {
  }

  lemma LeapsStep(y: int)
    ensures Leaps(y) == Leaps(y - 1) + (if Leap(y) then 1 else 0)
  {
    QuotientSteps(y);
    Multiples(y);
  }

  // The first day of year y, in closed form.
  lemma {:induction false} YearStartClosed(y: int)
    ensures MonthStart(12 * y) == 365 * (y - 1) + Leaps(y - 1)
    decreases if y < 1 then 1 - y else y - 1
  {
    hide Leap, Leaps;
    if y < 1 {
      YearStartClosed(y + 1);
      YearLength(y);
      LeapsStep(y);
    } else if y > 1 {
      YearStartClosed(y - 1);
      YearLength(y - 1);
      LeapsStep(y - 1);
    } else {
      LeapsOfZero();
    }
  }

  // 1 January 1970 is day 719162, a Thursday (4), and the weekdays go round from there.
  lemma EpochIsThursday(k: int)
    ensures DayNumber(1970, 1, 1) == 719_162
    ensures Weekday(DayNumber(1970, 1, 1)) == 4 && Weekday(DayNumber(1970, 1, 1) + k) == (4 + k) % 7
  {
    hide MonthStart;
    YearStartClosed(1970);
  }

  lemma LeapsOfZero()
    ensures Leaps(0) == 0
  {
  }
}
