# Scheduler SDK: verified model

A Dafny model of the parts of the Scheduler SDK that decide *when* work runs, *which* published
configuration counts, and *whether* a callback is new.

- **Recurrence, calendars and misfires.** Instants are integers: nanoseconds since
  0001-01-01T00:00:00Z, so that Go's zero time is the integer 0, which the code uses for "none".
  A schedule is taken after its texts have been parsed; its zone is a fixed offset. `Civil`
  builds the proleptic Gregorian calendar from the lengths of the months, `WallClock` adds
  `time.Date` and `AddDate` with their carrying, `WallRules` and `Recurrence` the rules,
  `WorkingIntervals`, `BusinessCalendar`, `RollForward` and `RolledDates` the business calendar,
  `Misfire` the resolution of a cursor, `FastForward` and `RolledMonthly` the comparison of
  `NextAfter` with iteration, `Resolutions` and `ClockRuns` what holds for one resolution and for
  whole runs, `WindowKeys` and `RolledKeys` the window suffixes, `RunWindows` the windows that a
  run claims, `Preview` and `PreviewContents` the preview.
- **Fenced publication.** `Digest` is the canonical content digest, `Publication` the ordering
  decision, and `PublicationRuns` a transition system with concurrent session claims, packets
  that are late, repeated, reordered or forged, and restarts.
- **Callbacks.** `Replay` is the receiver, `Dispatch` the retry loop in front of it over a
  network that loses, delays and repeats.

`Text`, `Sequences`, `Quotients` and `Int64` hold strings, multiplicities, division and Go's
64-bit arithmetic. Loops of the source are methods with invariants, proved against the functions
that the lemmas speak about. `dafny verify dfyconfig.toml` checks everything.

Where the code and a first guess differ, the code is modelled and the difference is stated as an
exact condition: monthly rules skip a month (`WallRules.NextMonthlyIsLeastUnlessSkipping`),
`NextAfter` is documented as the first aligned occurrence after now but misses some for monthly
rules and for weekly rules that roll (`FastForward.MonthlyFastForwardOffPhase`,
`FastForward.RollingWeeklyFastForward`, `RolledMonthly.RollingMonthlyFastForward`), goes on where
iteration ends (`FastForward.RegularFastForward`) and wraps around for distant cursors
(`FastForward.IntervalFits`, `Resolutions.JumpsForwardExactly`), the roll-forward search can fail
for a validated calendar (`RollForward.SearchCanFail`), rolled windows can share a key
(`RolledKeys.RolledKeysExactly`), and texts that validation trims are used untrimmed elsewhere
(`Recurrence.PolicyTakesEffectExactly`, `RollForward.ZoneTakesEffectExactly`,
`WorkingIntervals.PaddedStartIsRefused`).

Lemmas that ask for a positive cursor or a non-negative instant speak about times from year 1 on;
only there can the zero time not also be an occurrence.

In `ClockRuns` the run store follows the documented cursor rule: a claim compares the durable
cursor before advancing it, each window of a resolution expects the cursor on itself (where the
claim before it left it), only the last one carries the jump, and a resolution without windows
moves the cursor by itself.

"Within reach" means that an interval's next in-phase instant lies within 2^63-1 nanoseconds of
the cursor, as far as `time.Duration` goes; every other kind of schedule is always within reach.

A digest is the symbol of what was hashed, which makes SHA-256 and the JSON encoding collision
free without assuming an injection into 64 characters. Network outcomes, clock readings, nonces
and the interleaving of workers are parameters.

## Model

| member | source | states |
|---|---|---|
| `Text.TrimSpaceExactly` | schedule/misfire.go:38 | strings.TrimSpace, used throughout: white space is dropped on both sides and none is left there; a text is blank if and only if it is all white space |
| `Text.LessExactly` | sdk.go:424 | the order of strings: the first difference decides, or else the shorter comes first |
| `Civil.MonthOfUnique` | schedule/schedule.go:357-366 | the calendar under every wall-clock rule: a day lies in a month exactly when it lies between the starts of that month and the next |
| `Civil.DateRoundTrip` | schedule/schedule.go:326-339 | year, month and day of month of a day give that day back (what time.Date does with another time's date), with month and day in range |
| `Civil.DayNumberRoundTrip` | schedule/schedule.go:357-366 | every valid date names exactly the day it was read from |
| `Civil.YearStartClosed` | schedule/schedule.go:357-366 | month lengths add up to the usual closed form for the first day of a year, for all years, negative ones included |
| `Civil.EpochIsThursday` | schedule/schedule.go:333-342 | 1 January 1970 is a Thursday and the weekdays go round from there, which fixes what a weekday number means |
| `WallClock.AddDays` | schedule/business_calendar.go:135-137 | AddDate by days moves the date by exactly that many days, keeps the local clock, and adds whole 24-hour spans of nanoseconds |
| `WallClock.ClockExactly` | schedule/schedule.go:326-339 | time.Date: a clock of n seconds is n seconds after midnight, a zone k seconds further east is k seconds earlier, days are 24 hours apart, and year 1 begins at the zero time |
| `WallRules.NextDailyIsLeast` | schedule/schedule.go:325-331 | nextDaily gives the least instant strictly after now that shows the clock |
| `WallRules.NextWeekly` | schedule/schedule.go:333-346 | the search over eight days returns the clock on the first matching weekday, a week later if that is past; its final return is dead code |
| `WallRules.WeeklyAfterIsLeast` | schedule/schedule.go:333-346 | that instant is the least one strictly after now on the weekday and clock |
| `WallRules.WeeklyAfterFromThursday` | schedule/schedule.go:333-346 | the same with weekdays counted from 1 January 1970, a Thursday |
| `WallRules.MonthlyIsMonthlyIn` | schedule/schedule.go:357-366 | monthly falls on the requested day or, in a shorter month, on its last day; month 12 + 1 carries into the next year |
| `WallRules.OneMonthLater` | schedule/schedule.go:350-352 | AddDate(0, 1, 0) leads to the next month if it has now's day and to the month after it otherwise |
| `WallRules.MonthlyAfterIsLeast` | schedule/schedule.go:348-366 | the reference for nextMonthly: the least instant after now on the clock and on the requested day or the last day of a shorter month |
| `WallRules.NextMonthlyExactly` | schedule/schedule.go:348-355 | nextMonthly for every now: this month's occurrence, the next month's, or that of the month after next, and exactly when |
| `WallRules.NextMonthlyIsLeastUnlessSkipping` | schedule/schedule.go:348-355 | the result is strictly after now; it is the least occurrence after now if and only if no month is skipped, and otherwise exactly the second |
| `WallRules.MonthlyChainIsUnclamped` | schedule/schedule.go:348-366 | from any occurrence, clamped or not, the next one is on the requested day itself in the first later month that has it |
| `Recurrence.Validate` | schedule/schedule.go:39-95 | accepts exactly the valid resolved schedules, calendar and policy rules included |
| `Recurrence.ScheduleFields` | schedule/schedule.go:39-95 | from any valid schedule, which values of each field validation accepts and which it refuses |
| `Recurrence.CalendarGiven` | schedule/schedule.go:74-94 | when a valid schedule may be given a business calendar |
| `Recurrence.EvaluationDefaults` | schedule/schedule.go:127-141 | how refused values are still evaluated: an interval as a day, a weekday as Monday, a day of the month as the nearest one from 1 to 31 |
| `Recurrence.PolicyTakesEffectExactly` | schedule/schedule.go:33-89 | validation trims the policy and evaluation does not: the policy of a validated schedule with a calendar takes effect if and only if its text carries no surrounding white space |
| `Recurrence.PaddedPolicyHasNoEffect` | schedule/schedule.go:33-89 | the failing input: on any validated calendar with a named and unpadded zone a policy of skip with a trailing space passes validation and neither skips nor rolls |
| `Recurrence.IntervalMovesExactly` | schedule/schedule.go:127-132 | an interval moves the instant forward if and only if its length, as a 64-bit product, is positive; so it does up to 9223372036 seconds, and not at one second more |
| `Recurrence.ZeroStepExactly` | schedule/misfire.go:93-97 | the 64-bit length of an interval, by which the fast form divides, is zero if and only if its seconds are a multiple of 2^55 |
| `Recurrence.NextSchedule` | schedule/schedule.go:31-37 | the loops of the weekly rule and of the roll-forward search compute the specified next occurrence |
| `Recurrence.ShowsItsClock` | schedule/schedule.go:133-141 | daily, weekly and monthly occurrences show the rule's clock in its own zone, UTC when none is given |
| `Recurrence.OnceExactly` | schedule/schedule.go:124-126 | a one-time schedule gives its instant whatever the clock |
| `Recurrence.OccurrenceAdvances` | schedule/schedule.go:31-37 | for every kind but once, cron included, whatever the calendar, and every interval of positive 64-bit length: the next occurrence is strictly later or there is none |
| `Recurrence.NextIsLeast` | schedule/schedule.go:31-37 | weekly without rolling, and daily even with rolling, whatever the calendar: the next occurrence is the least matching instant after now that is not closed; there is none only when none lies within the days searched |
| `Recurrence.EnoughOpenDates` | schedule/business_calendar.go:126-142 | for a validated calendar with two open weekdays, or with fewer than 523 blocked dates per open weekday, rolling never fails if and only if its zone text is not padded |
| `Recurrence.PaddedZoneNeverRuns` | schedule/schedule.go:74-94 | the failing input: a validated rolling daily schedule whose calendar has a padded zone text never has a next occurrence |
| `WorkingIntervals.ParseClock` | schedule/business_calendar.go:75-85 | minutes of a canonical HH:MM text, at most 23:59, or 24:00 for an end |
| `WorkingIntervals.ClockTextsExactly` | schedule/business_calendar.go:75-85 | exactly the 1440 texts HH:MM of a day are accepted, as their minutes, and 24:00 where it may end the day; padding does not matter |
| `WorkingIntervals.ValidateIntervals` | schedule/business_calendar.go:60-73 | accepts exactly the intervals that are non-empty, pairwise disjoint, and whose untrimmed start texts sort in time order |
| `WorkingIntervals.AcceptanceIgnoresOrder` | schedule/business_calendar.go:61-62 | acceptance is the same for every order of the input and every outcome of the unstable sort |
| `WorkingIntervals.CanonicalOrder` | schedule/business_calendar.go:62 | for canonical HH:MM texts string order is time order |
| `WorkingIntervals.AcceptedWhenTrimmed` | schedule/business_calendar.go:60-73 | for trimmed starts acceptance means exactly non-empty and pairwise disjoint |
| `WorkingIntervals.AcceptedByMinutes` | schedule/business_calendar.go:60-73 | on the minutes of the day: for trimmed starts accepted if and only if every interval covers a minute and none is covered twice |
| `WorkingIntervals.WholeDay` | schedule/business_calendar.go:60-85 | only an end may be 24:00, and so an interval can cover all 1440 minutes of the day |
| `WorkingIntervals.PaddedStartIsRefused` | schedule/business_calendar.go:61-68 | two disjoint intervals that are refused because one start carries a leading space |
| `BusinessCalendar.ValidateBusinessCalendar` | schedule/business_calendar.go:16-58 | accepts exactly the calendars with distinct weekdays, distinct dates across holidays and exceptions, the stated limits and accepted intervals |
| `BusinessCalendar.CalendarFields` | schedule/business_calendar.go:16-58 | from any valid calendar, which values of each field validation accepts and which it refuses |
| `BusinessCalendar.CalendarLimits` | schedule/business_calendar.go:38-56 | exceptions are accepted up to 366 and not beyond |
| `BusinessCalendar.IsNonWorkingOccurrence` | schedule/business_calendar.go:96-124 | the three search loops decide by the first exception, then the holidays, then the first entry of the weekday |
| `BusinessCalendar.RollForwardBusinessOccurrence` | schedule/business_calendar.go:126-143 | the loop over AddDate and Date gives the same local clock the fewest days later, at most 3660, on an open date, or zero |
| `RollForward.ClosedExactly` | schedule/business_calendar.go:96-124 | in a validated calendar a date is closed if and only if it is blocked, or its weekday is not open and no exception opens it; the order of entries is irrelevant |
| `RollForward.RolledIsFirst` | schedule/business_calendar.go:126-143 | every occurrence before the rolled one is closed; zero means that the own date and the 3660 after it all count as closed, which for a zone text that does not load they do |
| `RollForward.RolledIsLeast` | schedule/business_calendar.go:126-143 | rolling never moves back, keeps the clock, lands on an open date, and is least among all such instants |
| `RollForward.RolledIsIdempotent` | schedule/business_calendar.go:126-143 | rolling twice is rolling once |
| `RollForward.RolledIsMonotone` | schedule/business_calendar.go:126-143 | rolling keeps the order of occurrences with one clock |
| `RollForward.ZoneTakesEffectExactly` | schedule/business_calendar.go:20-133 | for a validated calendar: occurrences are closed by their local date if and only if the zone text is not padded; validation trims it and evaluation does not, so that with a padded one every instant is closed and nothing rolls |
| `RollForward.ZoneDecidesDate` | schedule/business_calendar.go:101-106 | an instant is closed if and only if the date that the calendar's zone shows for it is |
| `RollForward.OpenDatesInWeeks` | schedule/business_calendar.go:135-142 | pigeonhole: n whole weeks hold at least n dates per open weekday less the blocked ones |
| `RollForward.SearchSucceeds` | schedule/business_calendar.go:126-143 | for a validated calendar with fewer than 523 blocked dates per open weekday the search succeeds if and only if the zone text is not padded |
| `RollForward.TwoWeekdaysSuffice` | schedule/business_calendar.go:24-56 | with two open weekdays the limits of validation keep the blocked dates below that number, so the search succeeds if and only if the zone text is not padded |
| `RollForward.SearchCanFail` | schedule/business_calendar.go:38-56 | for every number of blocked dates from 523 to 732 a validated calendar with one open weekday on which the search finds nothing: the bound is exact |
| `RolledDates.RollTogether` | schedule/business_calendar.go:126-143 | the occurrences of two dates roll to the same instant if and only if every date from the earlier to the later is closed |
| `Misfire.ResolveMisfire` | schedule/misfire.go:23-80 | the policy branches and both loops compute the specified resolution over the chain of occurrences, for every validated schedule whose interval has a positive 64-bit length |
| `Misfire.FollowingAdvances` | schedule/misfire.go:103-108 | one normal step is strictly later or ends the schedule |
| `Misfire.DueIsChain` | schedule/misfire.go:65-71 | the chain up to now starts at the cursor, increases strictly, and each element is the step from the one before |
| `Misfire.FirstAfterLeaves` | schedule/misfire.go:82-84 | the first element after now is the step from the last one up to now |
| `Misfire.DueSplits` | schedule/misfire.go:65-71 | the chain up to a later instant is the chain up to now followed by the chain from its first element after now |
| `FastForward.RegularFastForward` | schedule/misfire.go:84-101 | weekly without rolling and daily, rolling or not, for off-phase cursors and any calendar: NextAfter equals the first chain element after now if and only if no search fails on the way or NextAfter reports the end too |
| `FastForward.DailyCanEnd` | schedule/misfire.go:100 | a validated rolling daily schedule that iteration ends and fast-forward continues |
| `FastForward.CronFastForward` | schedule/misfire.go:100 | cron, for any library function that gives the least later instant: equal to iteration |
| `FastForward.IntervalFits` | schedule/misfire.go:93-98 | the 64-bit arithmetic gives the exact in-phase instant if and only if that lies within 2^63-1 ns of the cursor; otherwise it lands before the cursor |
| `FastForward.InPhaseBounds` | schedule/misfire.go:82-98 | that instant is after now, at most one step later, and a whole number of steps from the cursor |
| `Int64.WrapExactly` | schedule/misfire.go:93-98 | 64-bit wrap-around: the value in range that differs by a multiple of 2^64 |
| `Int64.SaturatesExactly` | schedule/misfire.go:97 | time.Time.Sub gives the 64-bit number nearest to the difference |
| `FastForward.IntervalFastForward` | schedule/misfire.go:88-98 | for intervals fast-forward equals iteration if and only if the iterated result lies within 2^63-1 ns of the cursor |
| `FastForward.MonthlyFastForward` | schedule/misfire.go:100 | monthly without rolling, from an occurrence: equal to iteration if and only if a condition on now and the requested day holds |
| `FastForward.MonthlyFastForwardOffPhase` | schedule/misfire.go:100 | monthly without rolling, from any cursor at all: the exact condition, before and after the first step |
| `FastForward.MonthlyCanSkip` | schedule/misfire.go:100 | a concrete input on which monthly fast-forward passes over an occurrence |
| `FastForward.RollingWeeklyChain` | schedule/misfire.go:100 | weekly with rolling, any calendar: what iteration gives, in terms of the last weekly instant up to now, or the end when a search fails on the way |
| `FastForward.RollingWeeklyFastForward` | schedule/misfire.go:100 | weekly with rolling, any calendar: if a search fails on the way, equal to iteration if and only if NextAfter reports the end too; else if and only if the last weekly instant up to now is not after the cursor, or a date of its week up to now is open, or its whole week is closed |
| `FastForward.RollingWeeklyCanSkip` | schedule/misfire.go:100 | for every holiday, a validated rolling weekly schedule, a cursor on an occurrence and a clock reading on which fast-forward passes over the occurrence that rolled from the holiday |
| `RolledMonthly.RolledMonthlyChain` | schedule/misfire.go:100 | monthly with rolling, any calendar: the month whose rolled occurrence iteration ends on, from the dates that are closed up to now, or the end when a search fails on the way; a month is passed over when the one before rolls to a date it lacks |
| `RolledMonthly.RollingMonthlyFastForward` | schedule/misfire.go:100 | monthly with rolling, from any cursor, any calendar: if a search fails on the way, equal to iteration if and only if NextAfter reports the end too; else if and only if two months, nextMonthly's from now and the one iteration ends on, have only closed dates between their occurrences, or roll to nothing both |
| `RolledMonthly.RollingMonthlyCanSkip` | schedule/misfire.go:100 | for every month, a validated rolling monthly schedule, a cursor on an occurrence and a clock reading on which fast-forward passes over the occurrence that rolled from a holiday |
| `Resolutions.NextAfterIsLater` | schedule/misfire.go:82-101 | within reach of the 64-bit arithmetic NextAfter is strictly after now or zero; outside it, before the cursor |
| `Resolutions.JumpsForwardExactly` | schedule/misfire.go:49-54 | under skip and catch-up-one a jump leads after now if and only if the clock is within reach; otherwise it leads before the old cursor |
| `Resolutions.IntervalCanGoBack` | schedule/misfire.go:93-98 | a validated daily interval, a cursor and a clock reading 2^63-1 ns later at which the skip policy moves the cursor back |
| `Resolutions.ResolutionSound` | schedule/misfire.go:20-80 | any policy, for a clock reading within reach of the interval arithmetic: windows are a prefix of the due chain, at most limit, none on a skipped date, none older than the grace under skip; the new cursor is after the old one and after all windows, or there is none |
| `Resolutions.CatchUpConserves` | schedule/misfire.go:55-76 | occurrences between old and new cursor are exactly the windows, then those the cap skips, then those fast-forward passes over, which are none where it agrees with iteration; something is skipped only at the cap; three cases, all exact |
| `Resolutions.CatchUpCountExactly` | schedule/misfire.go:55-76 | bounded catch-up runs at most limit and at most MaxCatchupWindows windows, one when that is not positive, and fewer than are due only at a skipped date or at one of these bounds |
| `Resolutions.GraceExactly` | schedule/misfire.go:38-54 | within the grace period, a minute unless a positive one is given, the cursor runs under every policy; past it the text of the policy decides |
| `Resolutions.SingleWindowConserves` | schedule/misfire.go:38-54 | the other policies: skip drops exactly the occurrences up to now, catch-up-one all of them but the cursor, both also those fast-forward passes over; the default policy and the grace period drop nothing |
| `Resolutions.ClosedStopLosesNothing` | schedule/misfire.go:28-37 | stepping over closed dates moves strictly forward to the first open or future occurrence and drops closed ones only |
| `Resolutions.ReachIsKept` | schedule/misfire.go:93-98 | a cursor within reach of the clock keeps all its occurrences up to now within reach, which is what draining asks for |
| `Resolutions.DrainSound` | schedule/misfire.go:10-13 | resolving and advancing at one clock reading ends with no due cursor and dispatches each window once, in order |
| `ClockRuns.TriggersAreSound` | modulehost/host.go:60-72 | every trigger of a poll within reach is permitted and moves the cursor forward |
| `ClockRuns.StepKeepsInv` | modulehost/host.go:73-79 | polls and compared claims keep the invariant and never retract a claim |
| `ClockRuns.UndisturbedPoll` | modulehost/host.go:60-79 | when nothing interferes, the triggers of a poll claim exactly the windows of its resolution, in order, and leave the cursor where the resolution puts it |
| `ClockRuns.RunsAreSafe` | schedule/misfire.go:10-80 | all runs whose polls stay within reach of the interval arithmetic, with lost, late, repeated and reordered triggers and crashes: claimed windows increase strictly, were due when observed, never on a skipped date, within grace under skip |
| `ClockRuns.DefaultRunsOmitNothing` | schedule/misfire.go:28-41 | with the default policy, skipping calendars and any clock readings included, every run claims exactly the open occurrences of the chain from its first cursor up to its present one |
| `ClockRuns.UnskippedRunsOmitNothing` | schedule/misfire.go:38-41 | with the default policy and no skipping these are exactly the first elements of the chain, and the cursor is the next |
| `RunWindows.ClaimsAreOccurrences` | schedule/misfire.go:10-108 | under any policies within reach, where fast-forward agrees with iteration: in every run the cursor is an element of the chain from the first cursor, or has ended, and every claimed window is such an element |
| `RunWindows.AgreeingKinds` | schedule/misfire.go:82-101 | fast-forward agrees with iteration within reach for once, interval, cron, daily and weekly schedules that do not roll, and for rolling daily ones on calendars where no search fails |
| `RunWindows.KeysNeverRepeat` | schedule/schedule.go:97-118 | daily, and weekly and monthly without rolling, under any policies: in every run each claimed window other than the first cursor is an instant the rule asks for, and no two of them share a key |
| `RunWindows.FirstKeyCanRepeat` | schedule/schedule.go:97-118 | a first cursor that the rule does not ask for can share its key with the occurrence after it |
| `WindowKeys.KeyReadsBack` | schedule/schedule.go:97-118 | the suffix of a one-time, daily, weekly or monthly rule reads back as the local date, the month, or the ISO year and week, in every year, negative ones included |
| `WindowKeys.CronKeyReadsBack` | schedule/schedule.go:111-112 | the suffix of a cron rule reads back as the local date, hour and minute |
| `WindowKeys.WeekIsUnique` | schedule/schedule.go:106-108 | equal ISO year and week mean the same Monday-to-Sunday block, across year ends |
| `WindowKeys.WeekOne` | schedule/schedule.go:106-108 | week 1 of an ISO year is the week of 4 January |
| `WindowKeys.KeysSeparate` | schedule/schedule.go:97-118 | daily, weekly, monthly, in every year: two instants of one rule share a key if and only if they are equal |
| `WindowKeys.IntervalKeys` | schedule/schedule.go:100-105 | two instants of one interval schedule share a key if and only if they lie on either side of 1970-01-01T00:00:00Z, within one interval of it by whole seconds |
| `WindowKeys.IntervalKeyReadsBack` | schedule/schedule.go:100-105 | the interval suffix reads back as the length and the number of whole intervals since 1970-01-01T00:00:00Z, rounded toward zero before it |
| `WindowKeys.CronKeysSeparate` | schedule/schedule.go:111-112 | cron, in every year: two instants on whole local minutes share a key if and only if they are equal |
| `RolledKeys.RolledKeysExactly` | schedule/schedule.go:97-110 | weekly and monthly with rolling: two occurrences become two windows with one key if and only if all dates from the first one's to the second one's week or month are closed, one before the second one's date is open, and one from it to the end of the week or month is open |
| `RolledKeys.RolledKeysCollide` | schedule/schedule.go:109-110 | in every year from year 1 on, a validated rolling monthly schedule with two consecutive occurrences under one key |
| `Preview.PreviewSchedule` | schedule/preview.go:57-87 | the clamped count of first elements of the filtered stream, or failure exactly when 3660 elements hold too few |
| `Preview.ClampedIsNearest` | schedule/preview.go:61-66 | the number listed is the one from 1 to 100 nearest to the number asked for |
| `Preview.PreviewAscends` | schedule/preview.go:69-82 | what is listed increases strictly after the given instant and is never on a skipped date |
| `Preview.PreviewOmitsNothing` | schedule/preview.go:69-82 | daily, and weekly without rolling: up to the end of the stream the list holds exactly the occurrences that are not skipped |
| `PreviewContents.CronStream` | schedule/preview.go:69-82 | cron: the stream holds exactly the instants that the expression ever gives |
| `PreviewContents.MonthlyPreviewExactly` | schedule/preview.go:69-82 | monthly without rolling, from any instant: the first occurrence and then exactly those on the requested day itself, so the last days of shorter months are omitted; less those skipped |
| `PreviewContents.RollingWeeklyStream` | schedule/preview.go:69-82 | weekly with rolling, any calendar: up to its end the stream holds exactly the rolled forms of the weekly instants |
| `PreviewContents.RollingMonthlyPreview` | schedule/preview.go:69-82 | monthly with rolling, any calendar: up to its end the first occurrence and then exactly the rolled forms of the months that are not passed over |
| `Preview.DailyStreamCounts` | schedule/preview.go:69-82 | for a daily skipping schedule the stream yields one element per open date, and none when the zone text of the calendar does not load |
| `Preview.DailyPreviewSucceeds` | schedule/preview.go:69-86 | when 522 dates per open weekday less the blocked ones cover the clamped count, it succeeds if and only if the zone text of the calendar is not padded |
| `Digest.NormalizeIsIdempotent` | sdk.go:124-157 | normalising twice is normalising once and does not change validity |
| `Digest.NormalizedCalendarsAgree` | sdk.go:124-140 | two calendars normalise to the same if and only if they say the same, whichever of their empty lists were absent; nothing else is changed |
| `Digest.ValidTargetExactly` | sdk.go:162-190 | which targets are valid, case by case |
| `Digest.DefinitionFields` | sdk.go:217-231 | from any valid definition, which values of each field validation accepts |
| `Digest.DigestTextExactly` | sdk.go:395-405 | a digest text is 64 characters of 0123456789abcdef |
| `Digest.SortedOrderIsUnique` | sdk.go:424 | with distinct keys there is one sorted order, so the unstable sort cannot matter |
| `Digest.DefinitionSnapshotContentSHA256` | sdk.go:409-431 | the loop, the key set and any sort give the specified digest or the first fault |
| `Digest.AcceptedExactly` | sdk.go:413-423 | a digest is given if and only if all definitions are valid and their trimmed keys distinct |
| `Digest.FaultReported` | sdk.go:413-423 | otherwise the first definition at fault is reported, as invalid before as repeated, whatever follows it |
| `Digest.DigestIgnoresOrder` | sdk.go:407-431 | a permutation is accepted as well and has the same digest |
| `Digest.DigestIdentifiesContent` | sdk.go:407-431 | equal digests if and only if equal multisets of normalised definitions |
| `Publication.AcceptedExactlyWhen` | sdk.go:317-380 | for every input: apply if and only if a well-formed packet of the active session meets no cursor, a usable one of an older generation, or one of its own session with an earlier revision; replay if and only if session, revision and content are the cursor's; the fence conflict if and only if the cursor has this generation and another fence |
| `Publication.RefusedExactlyWhen` | sdk.go:346-380 | with no cursor or a usable one, stale if and only if the generation is below the active one or the cursor's, or the revision below the cursor's in its own session; a mismatch if and only if another session that is not older; a content conflict if and only if the cursor's version with other content |
| `Publication.MalformedIsRefused` | sdk.go:317-353 | what is wrong with runtime, fence, session, revision, definitions and stored cursor is reported in this order, for every input |
| `Publication.OlderSessionIsStale` | sdk.go:354-361 | a well-formed packet of an older generation is stale, published or not |
| `Publication.SessionFields` | sdk.go:254-261 | a session is accepted only under its contract, from generation one, with an unpadded nonce; and of nonces of n letters exactly those of 32 to 512 |
| `Publication.FenceFields` | sdk.go:271-289 | the fence of a session, and which fences are accepted |
| `PublicationRuns.RunsKeepInv` | persistence/definitions.go:25-47 | the invariant of every run, and that history only grows |
| `PublicationRuns.SessionsAreOrdered` | persistence/definitions.go:39-47 | generations are issued 1, 2, 3, ...; the last is active; the cursor's never exceeds it |
| `PublicationRuns.SessionIsClaimed` | README.md:100-101 | in every run each session was issued to the claim of a worker that had read exactly the generation before it |
| `PublicationRuns.OneSessionPerGeneration` | README.md:100-101 | of all the claims in a run that read one generation at most one gets a session; later sessions go to later reads |
| `PublicationRuns.StaleClaimFails` | README.md:100-101 | at any point of a run, a claim of a generation that is no longer the latest changes nothing durable |
| `PublicationRuns.VersionsAreOrdered` | sdk.go:346-379 | accepted versions grow lexicographically, strictly on apply; one version has one fence, one digest and one set of definitions |
| `PublicationRuns.OnlyTheActiveSessionPublishes` | sdk.go:354-363 | any packet without the active session leaves the state unchanged; an older well-formed one is stale even before the newer session publishes |
| `PublicationRuns.FenceConflictIsUnreachable` | sdk.go:367-369 | in no reachable state is the fence conflict reported |
| `PublicationRuns.RedeliveryIsReplay` | sdk.go:373-378 | redelivery of the last accepted packet, its definitions in any order, is a replay that changes nothing durable |
| `PublicationRuns.OtherContentConflicts` | sdk.go:373-376 | in every run other normalised definitions at the version accepted last are a conflict that changes nothing |
| `PublicationRuns.EarlierRevisionIsStale` | sdk.go:370-372 | in every run an earlier revision of the active session is stale and changes nothing |
| `PublicationRuns.StoredIsGreatest` | sdk.go:317-322 | the stored definitions are those of the applied packet with the lexicographically greatest version, which is the cursor's |
| `PublicationRuns.NewSessionRestartsRevisions` | sdk.go:364-366 | the first well-formed packet of a new session is applied at any revision |
| `Replay.DecisionExactly` | dispatchgateway/signature.go:134-157 | after any arrivals a valid request is a claim on a free scope, a replay of the claimed body, or a conflict, and never anything else |
| `Replay.ClaimsAreSafe` | dispatchgateway/signature.go:134-157 | all runs: a claim never changes, a scope is claimed at most once, and exactly when a valid request for it has arrived |
| `Replay.RetryReplays` | dispatchgateway/signature.go:134-157 | a repeated arrival changes nothing and is an exact replay if and only if its body is the claimed one |
| `Replay.EvaluateExactly` | dispatchgateway/signature.go:138-157 | the decision for every pair of a stored and a received identity, invalid ones included |
| `Replay.IdentityExactly` | dispatchgateway/signature.go:126-136 | an identity is made exactly of a valid request, is valid then, and determines request and body |
| `Replay.RequestFields` | dispatchgateway/signature.go:47-58 | from any valid request, which values of each field validation accepts |
| `Replay.CleanPathExactly` | dispatchgateway/signature.go:51-52 | which rooted paths are clean, segment by segment |
| `Replay.Receiver.Receive` | dispatchgateway/signature.go:134-157 | a claim is given if and only if the request is valid and its scope free, and only then is the store changed, in that scope alone; a claimed scope keeps its identity; exact if and only if the claimed body is the one received |
| `Dispatch.Calls` | dispatchgateway/remote.go:69-88 | between 1 and MaxAttempts calls; every call but the last had a retryable outcome; the last was not retryable, not followed up, or out of attempts |
| `Dispatch.RetriedExactly` | dispatchgateway/remote.go:79-86 | a call is followed by another exactly after a lost reply, status 429 or one from 500 on, with attempts left and the caller waiting |
| `Dispatch.OutcomeExactly` | dispatchgateway/remote.go:69-128 | what is returned for every last reply: the end of the wait, a transport error, the status of an unsuccessful response, the receipt if it belongs to the request, or an invalid response |
| `Dispatch.NewRemote` | dispatchgateway/remote.go:37-56 | a configuration is accepted if and only if it names a runtime, and then allows at least one attempt |
| `Dispatch.SendableExactly` | dispatchgateway/remote.go:58-101 | what is sent is a POST to the fixed path in the name of the runtime, and for exactly which requests |
| `Dispatch.Dispatch` | dispatchgateway/remote.go:37-128 | the retry loop of a remote makes exactly those calls, all with one identity, and returns the last outcome; nothing is sent for a request that is refused or cannot be signed |
| `Dispatch.DispatchClaimsOnce` | dispatchgateway/remote.go:69-88 | over any arrivals, with the copies of a dispatch anywhere among other traffic: at most one claim on its scope, and once a copy has arrived the scope is claimed and the request a replay or a conflict |
| `Dispatch.ResultIsKept` | dispatchgateway/remote.go:69-81 | with a receiver that answers as documented, whatever else arrives meanwhile or later: after a receipt the scope is claimed for ever with the body that was sent, after a 409 with another |

## Left out

- Parsing of cron expressions: the cron library is not part of this model; a cron rule is any function that gives a later instant or zero. The legacy schedule types, which `Validate` refuses, are left out.
- `Recurrence.Validate`: the texts of cron expressions, instants, times of day, weekdays and zones are taken as parsed, where a zone keeps its name, its offset if the name is known (for "Local", the host's), and whether its text was padded.
- `BusinessCalendar.ValidateBusinessCalendar`: the texts of weekdays and dates are taken as parsed; a calendar date is a day number, so dates outside the text layout do not arise.
- Authoring maps: their parsing is a flat lookup of alternative field names.
- Daylight-saving transitions: every zone has one fixed offset.
- `Misfire.ResolveMisfire`: intervals whose length in nanoseconds wraps around in 64 bits to zero or less are excluded; `Recurrence.IntervalMovesExactly` says that they are the ones that do not move forward, and `Recurrence.ZeroStepExactly` which of them make the division of the fast form fail.
- `FastForward.MonthlyFastForward`: monthly rules that roll forward are treated in `RolledMonthly`.
- `FastForward.MonthlyFastForwardOffPhase`: likewise.
- Leases, dead letters, retries and rescheduling in the run store: interfaces without an implementation here.
- `Digest.DefinitionSnapshotContentSHA256`: encoding failures of raw JSON payloads are not modelled.
- `Publication.AcceptedExactlyWhen`: the length of a session nonce is counted in characters, where the source counts bytes.
- Module publication without sessions and the migration of legacy snapshots: one check each.
- Signing and verifying of callbacks: the HMAC and its time window are cryptography and plumbing around it.
- `Dispatch.NewRemote`: the checks of the base URL and of the signing secret are not modelled.
- `Dispatch.Dispatch`: HTTP transport, timeouts and response decoding appear only as outcomes of a call; the length of a key is counted in characters.
- Authoring validation, plan validation, preview of authoring maps, OpenAPI data and the browser client: flat checks and static data.
