// Instants and wall-clock time in a zone with a fixed offset.
// An instant is the number of nanoseconds since 0001-01-01T00:00:00Z, so Go's zero Time,
// the one IsZero recognises, is the integer 0. A zone is its offset in seconds east of UTC.
module WallClock {
  import opened Civil

  const ZERO_TIME := 0

  // Seconds since local midnight: an hour, minute and second that time.Parse accepted.
  type Clock = s: int | 0 <= s < 86_400

  // Nanoseconds since local midnight.
  type Nanos = n: int | 0 <= n < 86_400_000_000_000

  function LocalDay(t: int, offset: int): int {
    (t + offset * 1_000_000_000) / 86_400_000_000_000
  }

  function LocalNanos(t: int, offset: int): Nanos {
    (t + offset * 1_000_000_000) % 86_400_000_000_000
  }

  // The instant of a local day and time of day.
  function At(day: int, nanos: int, offset: int): int {
    day * 86_400_000_000_000 + nanos - offset * 1_000_000_000
  }

  function ClockNanos(clock: Clock): Nanos {
    clock * 1_000_000_000
  }

  // time.Date(year, month, day, hour, minute, second, 0, location)
  function Date(year: int, month: int, day: int, clock: Clock, offset: int): int {
    At(DayNumber(year, month, day), ClockNanos(clock), offset)
  }

  // t.AddDate(years, months, days), which carries overflowing months and days over.
  function AddDate(t: int, offset: int, years: int, months: int, days: int): int {
    var day := LocalDay(t, offset);
    At(DayNumber(Year(day) + years, Month(day) + months, DayOfMonth(day) + days), LocalNanos(t, offset), offset)
  }

  // ---------- lemmas ----------

  // Splitting an instant into day and time of day loses nothing.
  lemma SplitThenJoin(t: int, offset: int)
    ensures At(LocalDay(t, offset), LocalNanos(t, offset), offset) == t
  {
  }

  lemma JoinThenSplit(day: int, nanos: Nanos, offset: int)
    ensures LocalDay(At(day, nanos, offset), offset) == day
    ensures LocalNanos(At(day, nanos, offset), offset) == nanos
  {
    var x := day * 86_400_000_000_000 + nanos;
    assert x / 86_400_000_000_000 == day;
  }

  // A wall-clock second later is a second later, and a zone one second further east reads
  // everything a second later; year 1 begins at the zero time.
  lemma ClockExactly(year: int, month: int, day: int, clock: Clock, offset: int)
    ensures Date(year, month, day, clock, offset) == Date(year, month, day, 0, 0) + (clock - offset) * 1_000_000_000
    ensures Date(year, month, day + 1, 0, 0) == Date(year, month, day, 0, 0) + 24 * 60 * 60 * 1_000_000_000
    ensures Date(1, 1, 1, 0, 0) == ZERO_TIME
  {
    FirstMonth();
  }

  // What a zone's clock shows is the instant moved by the offset.
  lemma LocalReading(t: int, offset: int)
    ensures LocalDay(t, offset) * (24 * 60 * 60 * 1_000_000_000) + LocalNanos(t, offset) == t + offset * 1_000_000_000
  {
  }

  // Adding days moves the day and keeps the local time of day.
  lemma AddDays(t: int, offset: int, days: int)
    ensures AddDate(t, offset, 0, 0, days) == At(LocalDay(t, offset) + days, LocalNanos(t, offset), offset)
    ensures AddDate(t, offset, 0, 0, days) == t + days * 86_400_000_000_000
  {
    var day := LocalDay(t, offset);
    DateRoundTrip(day);
    SplitThenJoin(t, offset);
  }

  // The wall clock of a date read back from a day is that day at the given clock.
  lemma DateOfDay(day: int, clock: Clock, offset: int)
    ensures Date(Year(day), Month(day), DayOfMonth(day), clock, offset) == At(day, ClockNanos(clock), offset)
  {
    DateRoundTrip(day);
  }
}
