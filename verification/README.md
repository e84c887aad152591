# NotifyHub: a verified model of its scheduling and delivery core

NotifyHub receives notifications from scripts, grades them, forwards them to webhooks and
notices when an expected one does not arrive. This project models the parts of it whose
correctness is least visible from the code, and proves what they promise for every input,
every run and every interleaving.

- **Cron engine** (`Calendar`, `CronSchedule`, `CronExpand`, `CronMeaning`, `CronSearch`, `CronZone`,
  `CronFire`, `CronChanges`, `CronMonotone`, `CronCounterexamples`). Expressions are expanded by a
  worklist, searched by jumps over a Gregorian calendar, and put through a time zone with gaps and
  overlaps. `CronMeaning` says of the tokens which numbers they allow and which expressions are
  refused, without a list, and proves that the expanded schedule matches just the times meant.
  `CronSchedule.Matches` says which minutes a schedule means and nothing about how to
  find one; `SearchWall` is proved to return the least of them. `CronChanges` says exactly
  when the answer is the earliest firing across a change of offset, `CronMonotone` exactly
  when a later reference fires sooner. The file is the reference for the backend's
  `next_fire_after`, and is used as its meaning here.
- **Delivery outbox** (`Outbox`, `OutboxRuns`). One row, any number of workers between their
  two transactions, reconcilers between their SELECT and their UPDATE, crashes, and the
  dashboard's retry. The token in `locked_at` is proved to be ownership.
- **Request idempotency** (`Idempotency`, `IdempotencyRuns`). One Redis key with expiry, and
  every interleaving of requests that carry the same `X-Request-Id`.
- **Rate limiter** (`RateLimit`, `RateLimitClocks`). A sorted set pruned in place and expiring,
  compared with a log that forgets nothing, and what becomes of it when clocks do not keep pace.
- **Dead man's switch** (`Surveillance`, `SurveillanceRuns`). One receiver, with ingests that
  commit in any order, checks with an old clock reading, and policy changes that write back, column
  by column, what they changed in a row read earlier.
- **Severity** (`Severity`). The precedence of explicit value, execution facts, rules and
  default, over the chain built from a receiver's own rules and its presets.

`Basics` and `Arithmetic` hold what the modules share. `dafny verify dfyconfig.toml` checks the
project. Objects whose columns or keys the system updates in place are classes; each of their
methods is tied to a step function on the whole state, and the run modules apply the same step
functions.

Units: milliseconds everywhere except the outbox, which counts microseconds as Python's
`datetime` does.

## Where the code does not do what one would expect

Each of these is a lemma: a concrete input, or the exact condition under which the code does
what one would expect, or both.

- A wrap-around range with a step does not go on with its stride past the end of the field
  (`CronExpand.WrapAround`), although the comment at frontend/src/lib/cron.ts:230-231 says it
  respects the step.
- `a/k` is the strides from `a` to the end of the field, unless `a` is that end: `59/15` in the minutes
  is every quarter of an hour (`CronMeaning.FromStepExactly`).
- `2-31,l` in the day field collapses to `*` and so matches day 1 (`CronExpand.CollapseOfDays`,
  `CronExpand.CollapseAddsDayOne`).
- With both day fields restricted, one branch without an occurrence makes the whole call fail
  (`CronFire.FixedIsExact`, `CronCounterexamples.OneEmptyBranchSilencesTheOther`).
- A time that occurs twice does not always fire twice, although the header comment
  (frontend/src/lib/cron.ts:17-19) says so. The second search is made only when the first
  answer lies at another offset than now, and it can meet a time already past. The exact
  condition for nothing being missed is `CronChanges.NothingMissedAcross`: no match is repeated,
  or none lies between the start of the second search and the first repeated wall. In Rome
  `30 2 25 10 *` misses the second 02:30 of October 25th 2026
  (`CronCounterexamples.SecondPassageIsMissed`). When the clock is put on, nothing is missed
  (`CronChanges.EarliestAcrossRise`, `EarliestAtGapEnd`), save that with every hour allowed the end
  of a gap can be answered although it does not match (`CronChanges.EarliestPastAnyGap`).
- With both day fields restricted and a change back on the way, a repeated match of one kind can
  win by its wall time over one of the other kind that comes first: exactly under the condition of
  `CronMonotone.OneDayAcrossChange`.
- A later reference can have an earlier answer, so a receiver's deadline can move back when a
  conclusion arrives: by almost a day where the clock goes back by half an hour
  (`CronCounterexamples.LaterReferenceFiresEarlier`), by almost a year in Rome
  (`CronCounterexamples.RomeFiresEarlier`, `Surveillance.RomeDeadlineMovesBack`). It never
  happens away from changes (`Surveillance.StandsWhenCalm`), nor across a rise when the first match
  is shown, moved, or skipped by that rise (`StandsAcrossRise`, `StandsPastGap`). Across a fall, with
  the first match at the offset of just after it or of now, it happens exactly when the condition of
  `StandsAcrossFall`, `StandsAcrossReturn` or `StandsAcrossLaterGap` fails.
- `Date.UTC` reads the years 0 to 99 as 1900 to 1999 (`Calendar.WallOfCivilExactly`).
- The last entry of the backoff schedule is never used (`OutboxRuns.BackoffInRange`), although
  the comment at backend/app/outbound/sender.py:18 lists it for attempt 5.
- A token can come twice: exactly when the clock still stands at it, which takes a manual retry
  in between (`OutboxRuns.TokenRepeatsExactly`, with a run in `OutboxRuns.TokenCanRepeat`). No
  worker carries it any more by then.
- The limiter's bound fails exactly when the window is full and Redis has already dropped a hit
  it covers (`RateLimitClocks.BoundFailsExactly`); a lagging API clock finds every hit its
  window covers exactly when no request served since was sent a whole window after one of them
  (`RateLimitClocks.LaggingCountIsExact`).
- A policy change written over a switch-off it has not seen starts no new wait, and two alarms can be
  a minute apart under an interval of half an hour (`SurveillanceRuns.LostUpdateRepeatsAlarm`);
  `SurveillanceRuns.WriteRewinds` says exactly which policy changes do that. The CHECK constraint on
  the five policy columns stops the edits that change too few of them
  (`Surveillance.PutBackExactly`).

The zones and schedules of these examples are ordinary: `CronFire.FixedIsReal`,
`CronCounterexamples.HalfHourIsReal`, `RomeIsReal`, `RomeFallsAndReturns`,
`LordHoweFallsAndStays`, `RomeFiresAtGapEnd`, `RomeFiresAtGapEndFromAutumn`, `HourlyPastGap` and
`Surveillance.CounterexamplesAreUsable` show that they meet what the lemmas ask of them,
`CronChanges.QuietInFirstPassage` that one hypothesis about the zone holds of itself, and
`CronFire.NextFireExists` that every reference has an answer in the sense used.

## Model

| member | source | states |
|---|---|---|
| Calendar.DayNumberInverse | frontend/src/lib/cron.ts:314-328 | every valid Gregorian date is the date of its own day number |
| Calendar.WallOfCivilExactly | frontend/src/lib/cron.ts:314-328 | `wallOf` undoes `civil` on a whole minute if and only if the year is not one of 0 to 99 |
| Calendar.CivilOfWall | frontend/src/lib/cron.ts:314-328 | `civil` undoes `wallOf` for every valid date and time of day from the year 100 on, weekday included |
| Calendar.DaysFollow | frontend/src/lib/cron.ts:314-328 | 1970-01-01 is day 0, and every date has the number after the date before it, by the lengths of the months and the leap years of the Gregorian calendar |
| Calendar.LastDayOfMonth | frontend/src/lib/cron.ts:330-332 | for every year, day 0 of the next month is the number of days of this one, in the year `Date.UTC` reads |
| Calendar.WeekdaysOfMonth | frontend/src/lib/cron.ts:335-342 | for every year, the days returned are exactly the days of the month on that weekday, in order, the k-th one in the k-th week |
| Calendar.NearestWeekdayIsNearest | frontend/src/lib/cron.ts:345-352 | for every year, the answer is a Monday to Friday of the same month, and no such day of the month is as close to the clamped target |
| CronExpand.ExpandRange | frontend/src/lib/cron.ts:228-249 | the loop with its `indexOf` searches computes the closed form of the range, wrap-around and `low === high` included |
| CronExpand.WrapAround | frontend/src/lib/cron.ts:229-243 | a wrap-around range is the cyclic stride from `low` to `high` if and only if the stride ends with the field or the second lap is empty |
| CronExpand.WrapAroundByOne | frontend/src/lib/cron.ts:229-243 | with step 1 it is exactly the cyclic interval |
| CronExpand.ExpandElements | frontend/src/lib/cron.ts:168-273 | the worklist ends on every input, refuses exactly the unreadable element lists, and otherwise yields exactly the values, positions and nearest days some element stands for |
| CronExpand.UnionInBounds | frontend/src/lib/cron.ts:192-271 | everything the elements of a field stand for lies within the bounds of that field, positions within 1 to 5 |
| CronExpand.SortUnique | frontend/src/lib/cron.ts:275-277 | strictly sorted by key, so free of duplicates, with the same members |
| CronExpand.CollapseKeepsMeaning | frontend/src/lib/cron.ts:278-284 | outside the day field a list that becomes `*` already held every value |
| CronExpand.CollapseOfDays | frontend/src/lib/cron.ts:278-284 | for days the collapse keeps the meaning if and only if `l` does not stand in for one of the days 1 to 30 |
| CronExpand.CollapseAddsDayOne | frontend/src/lib/cron.ts:278-284 | the list of `2-31,l` does not hold day 1, its collapse does |
| CronExpand.ExpandSchedule | frontend/src/lib/cron.ts:143-297 | refused exactly for an unreadable element or `#` mixed with plain weekdays; otherwise five non-empty, sorted, bounded lists that are the unions of what was written; `CronMeaning` says from the tokens which numbers that is |
| CronExpand.MixedValues | frontend/src/lib/cron.ts:287-294 | the check on the collapsed weekday list agrees with the definition on the list before the collapse |
| CronMeaning.LegibleExactly | frontend/src/lib/cron.ts:171-262 | an element is refused exactly by what is written: a position outside 1 to 5 or before something else than a weekday, a number or name outside the field, a step of zero, an end past the field |
| CronMeaning.ReadableExactly | frontend/src/lib/cron.ts:157-204 | a field is refused exactly for such an element, a `?` outside the day fields, or a `W` that does not stand alone |
| CronMeaning.MixedExactly | frontend/src/lib/cron.ts:287-294 | `#` is refused exactly beside a weekday without a position, unless the weekdays written and the star, when there is one, are seven together |
| CronMeaning.StandsForAllowed | frontend/src/lib/cron.ts:206-271 | `a-b/k` stands for the n with a <= n <= b and k dividing n - a, `*` with a step for the strides from the minimum of the field, `a/k` for those up to its maximum; b before a runs over the end of the field; names and the 7 of Sunday count as their numbers |
| CronMeaning.FieldMeans | frontend/src/lib/cron.ts:192-285 | outside the days of the month, the list of the field in the result holds a number exactly when something written allows it |
| CronMeaning.DaysMean | frontend/src/lib/cron.ts:192-285 | so it is for the days, with `l` for the last one, when the collapse adds no day |
| CronMeaning.PositionsMean | frontend/src/lib/cron.ts:265-269 | a weekday has a position in the result exactly when one is written for it |
| CronMeaning.PositionIsCounted | frontend/src/lib/cron.ts:406-419 | the k-th of the days of a month on a weekday, in order, is at position k, and the last of them alone is the last |
| CronMeaning.StarsAsWritten | frontend/src/lib/cron.ts:278-285 | the list of a day field is the star exactly when `*` is written in it, or it is full and the other one has a star in its text |
| CronMeaning.ScheduleMeans | frontend/src/lib/cron.ts:143-297 | the schedule matches a time of a date exactly when every field as written allows its number: minute, hour, month, day, and the weekday counted from Thursday, January 1st 1970 |
| CronMeaning.CrontabMeans | frontend/src/lib/cron.ts:143-297 | the minutes the two branches of the search are for, from the tokens: both day fields must suit when one is the star, else either will do, unless positions or nearest weekdays are asked for |
| CronMeaning.EveryKthMinute | frontend/src/lib/cron.ts:206-249 | a star with step k in the minutes alone matches exactly the minutes of the hour that k divides |
| CronMeaning.OnceAWeek | frontend/src/lib/cron.ts:431-449 | `m h * * w` matches exactly that time on that weekday, 7 being Sunday |
| CronMeaning.FromStepExactly | frontend/src/lib/cron.ts:208-249 | `a/k` is the strides from `a` on if and only if `a` is not the last number of the field |
| CronMeaning.FiftyYears | frontend/src/lib/cron.ts:369-453 | a search from just before a minute looks at exactly the years up to the fiftieth after it |
| CronSearch.NextNearestDiff | frontend/src/lib/cron.ts:355-365 | 0 exactly for an offered value, otherwise the distance to the least offered value ahead, or over the end of the range to the first one |
| CronSearch.CyclicJump | frontend/src/lib/cron.ts:355-365 | a jump by that distance round a circle lands on an offered residue and passes none |
| CronSearch.OverflowSkipped | frontend/src/lib/cron.ts:355-365 | the jump past the end of a short month, whose length stands in for the range, skips no matching day |
| CronSearch.DayOfMonthJump | frontend/src/lib/cron.ts:381-387 | no jump exactly when the day of month is right; a jump goes forward over non-matching minutes only |
| CronSearch.NearestDayJump | frontend/src/lib/cron.ts:388-400 | the same for `W` days |
| CronSearch.NthDayOfWeekJump | frontend/src/lib/cron.ts:406-419 | the same for `#` and last-weekday positions |
| CronSearch.FirstJump | frontend/src/lib/cron.ts:431-449 | no part of the schedule moves exactly on a match; the first that does moves forward over non-matching minutes only |
| CronSearch.SearchWall | frontend/src/lib/cron.ts:369-453 | returns the least matching minute strictly after `start`, fails exactly when there is none to the end of the 50th following year, and ends |
| CronZone.InstantsOf | frontend/src/lib/cron.ts:503-515 | every instant returned shows the wall time, in order; all of them when offsets stay below a day and at most one change is within a day |
| CronZone.AddTimezone | frontend/src/lib/cron.ts:520-537 | an existing wall time gives its first passage after `now`, else its last; a missing one gives the least existing later minute; the loop ends |
| CronZone.ZonedIsLater | frontend/src/lib/cron.ts:520-537 | a wall time ahead of the clock is placed strictly after it, through gaps and overlaps |
| CronFire.CalcAware | frontend/src/lib/cron.ts:540-565 | the search, the skip over missing wall times and the second search under the other offset, as one relation; the skip loop ends |
| CronFire.AwareFires | frontend/src/lib/cron.ts:540-565 | what it returns is strictly after `now`, and then the clock shows a match, or for the first time the first existing minute after a match that does not exist |
| CronFire.NextFireAfter | frontend/src/lib/cron.ts:570-587 | both branches are tried when both day fields are restricted, and the sooner wall time wins |
| CronFire.NextFireIsLater | frontend/src/lib/cron.ts:570-587 | in every real zone the answer is strictly after the instant and due |
| CronFire.NextFireIsUnique | frontend/src/lib/cron.ts:540-587 | schedule, zone and instant determine the answer |
| CronFire.NextFireExists | frontend/src/lib/cron.ts:540-587 | and there always is an answer, a failure included |
| CronFire.AwareFails | frontend/src/lib/cron.ts:540-565 | in every real zone it fails if and only if nothing matches up to the horizon, or with every hour allowed the clock skips the first match and all that follow, or the first answer lies at another offset and nothing matches up to the horizon from there |
| CronFire.NextFireFails | frontend/src/lib/cron.ts:570-587 | with both day fields restricted the call fails if and only if one of the branches does |
| CronChanges.EarliestBeforeChange | frontend/src/lib/cron.ts:540-565 | a first match the clock reaches before the next change is the answer and the earliest firing |
| CronChanges.NothingMissedAcross | frontend/src/lib/cron.ts:540-565 | across any change of offset, with the first match shown or moved to the end of its gap, however many changes away: the answer fires, and the clock shows no match before it if and only if no match is repeated or the second search finds the first repeated one |
| CronChanges.EarliestAcrossChange | frontend/src/lib/cron.ts:540-565 | the same condition for nothing at all firing before the answer, moved matches included |
| CronChanges.EarliestAcrossFall | frontend/src/lib/cron.ts:540-565 | the clock is put back on the way and the first match exists: the answer is the earliest match if and only if no match is repeated, or none lies between the start of the second search and the first repeated wall |
| CronChanges.FallAndStay | frontend/src/lib/cron.ts:540-565 | the same when the first match lies at the offset after the change, in two windows known before the call |
| CronChanges.FallAndReturn | frontend/src/lib/cron.ts:555-556 | when it lies at the offset of now again there is no second search, and the answer is the earliest if and only if no match is repeated |
| CronChanges.EarliestAcrossRise | frontend/src/lib/cron.ts:540-565 | the clock is put on and the first match exists: it is the answer and the earliest firing |
| CronChanges.EarliestInGap | frontend/src/lib/cron.ts:517-532 | the first match lies in a gap, of the next change or a later one, and the hours are restricted: the answer is the repeated match the second search finds or else the first whole minute after the gap, and the earliest firing under the condition above |
| CronChanges.EarliestAtGapEnd | frontend/src/lib/cron.ts:517-532 | when the next change skips it, it is the first whole minute after the gap, and nothing fires before |
| CronChanges.EarliestPastAnyGap | frontend/src/lib/cron.ts:548-564 | every hour allowed, whichever change skips the first match: the answer is the earliest match if and only if the condition above holds, and the end of the gap matches when the second search meets a missing match |
| CronChanges.EarliestPastGap | frontend/src/lib/cron.ts:548-564 | when the next change skips it: if and only if the second search starts after the missing matches or the end of the gap matches itself |
| CronMonotone.EitherIsEarliest | frontend/src/lib/cron.ts:573-584 | of two branch answers the sooner wall time is the earliest match if and only if it is not the later instant |
| CronMonotone.BothDaysAcrossChange | frontend/src/lib/cron.ts:573-584 | both day fields restricted, both first matches past the same change: nothing is due before the answer if and only if every repeated match of either kind comes no earlier than one a second search finds |
| CronMonotone.OneDayAcrossChange | frontend/src/lib/cron.ts:573-584 | only one of them past it: the other is answered and nothing missed, if and only if no repeated match is found, which would win by its wall time and come later |
| CronMonotone.NextFireAcrossFall | frontend/src/lib/cron.ts:570-587 | the condition of the fall for `nextFireAfter` with unrestricted days |
| CronMonotone.PunctualAcrossChange | frontend/src/lib/cron.ts:570-587 | the condition for any change: nothing is due before the answer |
| CronMonotone.CalmIsPunctual | frontend/src/lib/cron.ts:570-587 | for every schedule, both day fields restricted included: with no change within the minute before the reference or on the way to the first matches, nothing is due before the answer |
| CronMonotone.FixedIsPunctual | frontend/src/lib/cron.ts:570-587 | so it is at a constant offset, always |
| CronMonotone.PunctualIsNeverOvertaken | frontend/src/lib/cron.ts:570-587 | in every real zone, when nothing is due before the answer no later reference has an earlier one |
| CronMonotone.MissedIsFound | frontend/src/lib/cron.ts:570-587 | a match the clock shows is the answer from just before it, unless the offset changes at that instant |
| CronMonotone.FallAndStayMonotone | frontend/src/lib/cron.ts:570-587 | across a fall, with the first match at the offset after it, no later reference fires sooner if and only if no match is repeated, or none lies between the start of the second search and the first repeated wall |
| CronMonotone.FallAndReturnMonotone | frontend/src/lib/cron.ts:570-587 | with it at the offset of now again, shown or at the end of a later gap, if and only if no match is repeated after the very instant of the change |
| CronMonotone.RiseMonotone | frontend/src/lib/cron.ts:570-587 | across a rise no later reference fires sooner, the first match shown or moved to the end of its gap |
| CronMonotone.GapEveryHourMonotone | frontend/src/lib/cron.ts:570-587 | nor when the rise skips it and every hour is allowed |
| CronMonotone.LaterGapEveryHourMonotone | frontend/src/lib/cron.ts:570-587 | when a later change skips it and every hour is allowed: if and only if no match is repeated after the change itself and the end of the gap matches |
| CronFire.CalmIsLeast | frontend/src/lib/cron.ts:540-587 | in every real zone, both branches included, when the offset does not change up to the first matches ahead the answer is the first instant at which the clock shows a wanted minute |
| CronFire.FixedIsExact | frontend/src/lib/cron.ts:570-587 | at a constant offset the answer is the least wanted minute if and only if there is none, or the days are not both restricted, or both branches have a match up to the horizon; otherwise the call fails |
| CronFire.WantedIsEitherDay | frontend/src/lib/cron.ts:573-584 | without `#`, last weekdays and `W` the two branches are crontab's rule: day of month or day of week |
| CronFire.WantedWithSpecials | frontend/src/lib/cron.ts:431-435 | positions and nearest weekdays stay active in both branches |
| CronFire.WantedWithStar | frontend/src/lib/cron.ts:570-587 | with a star in the list of either day field, both must agree |
| CronFire.NextCronExecutions | frontend/src/lib/cron.ts:634-653 | a strictly increasing chain of firings, short only for a refused expression or when the last one has no successor |
| CronFire.FixedChainIsComplete | frontend/src/lib/cron.ts:634-653 | at a constant offset the list holds every wanted minute up to its end and nothing else |
| CronCounterexamples.OneEmptyBranchSilencesTheOther | frontend/src/lib/cron.ts:573-584 | `0 0 30 2 1` never fires from any instant, though Mondays in February are wanted |
| CronCounterexamples.SecondPassageIsMissed | frontend/src/lib/cron.ts:540-565 | in Rome at 02:40 on the night the clock goes back, `30 2 25 10 *` answers the next year, although 02:30 comes again within the hour |
| CronCounterexamples.RomeFiresEarlier | frontend/src/lib/cron.ts:540-565 | twenty-five minutes later the answer is the second 02:30 of the same night |
| CronCounterexamples.RomeFiresAtGapEndFromAutumn | frontend/src/lib/cron.ts:517-532 | `30 2 28 3 *` in Rome, asked in October across the change back: 03:00 on March 28th 2027, and nothing overtakes it |
| CronCounterexamples.HourlyPastGap | frontend/src/lib/cron.ts:548-564 | `30 * * * *` in Rome just before that gap: 03:30, though the end of the gap counts as due, and still nothing overtakes it |
| CronCounterexamples.LaterReferenceFiresEarlier | frontend/src/lib/cron.ts:540-565 | with a half-hour change `25,35 1 * * *` answers the next day, and eleven minutes later the same day |
| Outbox.ParseRetryAfter | backend/app/outbound/sender.py:37-53 | between one second and thirty days; within them the seconds asked for, or less than a second short of the date; a minute when there is nothing to read |
| Outbox.CalculateRetryDelay | backend/app/outbound/sender.py:56-67 | from the scheduled delay up to a fifth more, for every jitter |
| Outbox.ResultOf | backend/app/outbound/sender.py:162-190 | a retry time is carried exactly by a 429, which is never a success |
| Outbox.Delivery.constructor | backend/app/services/outbound_resolver.py:131-141 | a new row is pending and due |
| Outbox.Delivery.TakeClaim | backend/app/tasks/delivery.py:36-113 | the whole row and the claim after the first transaction |
| Outbox.Delivery.RecordOutcome | backend/app/tasks/delivery.py:132-202 | the whole row after the second transaction, unchanged unless the fence holds; `OutboxRuns.OutcomeByResponse` says from the response what it is |
| Outbox.Delivery.Reclaim | backend/app/tasks/maintenance.py:232-249 | the row is put back exactly when it is still stuck at the UPDATE |
| Outbox.Delivery.ManualRetry | backend/app/api/v1/channels.py:560-572 | accepted exactly for a dead row, which starts again from nothing |
| OutboxRuns.FenceIsOwnership | backend/app/tasks/delivery.py:103-149 | in every interleaving a worker passes the token test if and only if the row belongs to its own claim |
| OutboxRuns.StaleOutcomeIsDropped | backend/app/tasks/delivery.py:137-149 | the outcome of a worker that lost the row changes nothing |
| OutboxRuns.AtMostOneOwner | backend/app/tasks/delivery.py:103-149 | of two workers in flight at most one owns the row |
| OutboxRuns.ClaimTakesNewToken | backend/app/tasks/delivery.py:103-106 | a new claim's token is above every token in flight |
| OutboxRuns.TokensIncrease | backend/app/tasks/delivery.py:36-106 | the tokens of successive claims strictly increase up to a manual retry |
| OutboxRuns.TokenRepeatsExactly | backend/app/tasks/delivery.py:103-106 | over the whole history a new token is no smaller than any before, and repeats the last if and only if the clock still stands at it; the present life then has no claim yet |
| OutboxRuns.RetryInBetween | backend/app/api/v1/channels.py:560-572 | over every run, between a claim and a life without one the row was retried by hand |
| OutboxRuns.TokenCanRepeat | backend/app/api/v1/channels.py:568-572 | a run from creation in which a token comes twice |
| OutboxRuns.TerminalIsFinal | backend/app/tasks/delivery.py:38-149 | over every run `sent` stays as it is for ever and `dead` until a manual retry |
| OutboxRuns.Accounting | backend/app/tasks/delivery.py:113-202 | claims = recorded outcomes + reclaims + the one under way; attempts = retryable outcomes; a live row has attempts left |
| OutboxRuns.BackoffInRange | backend/app/outbound/sender.py:56-67 | an outcome that is written is attempt 1 to 5, and the fifth never waits |
| OutboxRuns.WaitAfterOutcome | backend/app/tasks/delivery.py:163-202 | a 429 waits its Retry-After, any other failure 30, 120, 600 or 3600 seconds by its number, up to a fifth more |
| OutboxRuns.NoClaimBeforeWait | backend/app/tasks/delivery.py:38-54 | no claim before the wait of the last retryable outcome is over |
| OutboxRuns.NothingIsLost | backend/app/tasks/maintenance.py:204-249 | a live row is freshly being sent, waits for its time, or is picked up by the next reconcile |
| OutboxRuns.PickedUp | backend/app/tasks/maintenance.py:204-249 | a live row that is neither fresh nor waiting can be on its way again at once, after a reclaim if need be |
| OutboxRuns.ClaimsAreBounded | backend/app/tasks/delivery.py:163-202 | reclaims apart there are at most five claims, and five recorded outcomes leave the row terminal |
| OutboxRuns.OutcomeByResponse | backend/app/tasks/delivery.py:146-202 | from the response alone, for a worker that owns the row: a 2xx is sent, a 4xx other than 429 is dead at once without costing an attempt, everything else costs one and fails, or is dead on the fifth |
| OutboxRuns.OwnedOutcome | backend/app/tasks/delivery.py:146-202 | the same in every run, by the attempts of the row |
| OutboxRuns.ClaimedWhenReady | backend/app/tasks/delivery.py:36-113 | a claim is made exactly of a pending or due failed row with a target that can be sent to; with any other target such a row is dead with a reason |
| OutboxRuns.ReclaimsAreLate | backend/app/tasks/maintenance.py:195-249 | in every run a reclaim takes the row only from a claim more than ten minutes old, and leaves it due |
| OutboxRuns.RetriedIsNew | backend/app/api/v1/channels.py:568-572 | a dead row that is retried is as new, save its last response and send time |
| Idempotency.BodyIsNoSentinel | backend/app/services/idempotency.py:76 | a JSON body is never taken for a request in progress |
| Idempotency.Key.Reserve | backend/app/services/idempotency.py:60-64 | SET NX with its expiry |
| Idempotency.Key.StoreResponse | backend/app/services/idempotency.py:84-101 | the body replaces the sentinel only while it is alive and its own |
| Idempotency.Key.Release | backend/app/services/idempotency.py:104-114 | the key is freed only while the sentinel is alive and its own |
| Idempotency.Key.Ingest | backend/app/api/ingest.py:225-339 | undisturbed, a failure leaves the key free and a commit leaves the body in it for a whole window |
| Idempotency.Poll | backend/app/services/idempotency.py:66-81 | `Owned` exactly when the answering round found nothing and its own SET NX won; a body exactly when it found that body and no sentinel; in progress only past the deadline; every round before it left the request undecided in time; it ends |
| IdempotencyRuns.CommitsAreApart | backend/app/services/idempotency.py:45-114 | in every interleaving two requests that committed, or still may, reserved at least 300 s apart |
| IdempotencyRuns.ReplayIsCommitted | backend/app/services/idempotency.py:76-77 | a replay is the body some request committed and stored |
| IdempotencyRuns.OnlyOwnerTouchesKey | backend/app/services/idempotency.py:16-29 | a live value is replaced or deleted only by the request whose sentinel it is |
| IdempotencyRuns.NoReservationInsideWindow | backend/app/api/ingest.py:318-337 | after a commit nobody gets the key for the rest of the window, even when storing the body fails |
| IdempotencyRuns.RoundIsPlayed | backend/app/services/idempotency.py:68-81 | a round of the loop, played as GET, SET NX and clock among the steps of other requests, leaves the request in the state that `Poll` answers with |
| IdempotencyRuns.PollOwnsAlone | backend/app/services/idempotency.py:68-81 | a request `Poll` tells it owns the key owns it alone: every other reservation that was or may be committed is a whole window old |
| IdempotencyRuns.StoredIsReplayed | backend/app/services/idempotency.py:84-101 | a body stored within the window stays a whole window, and the next request that polls gets it |
| IdempotencyRuns.ReleasedIsFree | backend/app/services/idempotency.py:104-114 | after a failed owner's release the next SET NX wins |
| RateLimit.SlidingWindow.Hit | backend/app/services/ratelimit.py:9-77 | the set, its expiry and the answer after one call, disabled limit included |
| RateLimit.AddKeepsOrder | backend/app/services/ratelimit.py:34 | ZADD keeps the scores sorted |
| RateLimit.AddGains | backend/app/services/ratelimit.py:34 | ZADD adds just the new score |
| RateLimit.PrunedIsSuffix | backend/app/services/ratelimit.py:17 | pruning leaves the end of the set from the first hit inside the window on |
| RateLimit.CountIsExact | backend/app/services/ratelimit.py:17-18 | the script's count is that of the full log if and only if Redis has not dropped a hit the window still covers |
| RateLimit.DecidesLikeLog | backend/app/services/ratelimit.py:17-36 | after any run the next decision, remaining count and retry time are those of the full log if and only if there is no limit or Redis still holds what the window covers |
| RateLimit.RefusalsDoNotCount | backend/app/services/ratelimit.py:20-32 | after a refused request every later decision is as if it had not come |
| RateLimit.WindowBound | backend/app/services/ratelimit.py:9-37 | at most `limit` hits are admitted in any window `(t - W, t]` |
| RateLimit.AdmittedLater | backend/app/services/ratelimit.py:17-31 | a refused request gets through later if and only if the limit-th hit from the end has left its window or Redis has dropped the key |
| RateLimit.RetryAfterIsLeast | backend/app/services/ratelimit.py:22-31 | under a fixed limit `retry_after` is between 1 and W, and the request gets through after n seconds if and only if n is no less or Redis has dropped the key by then |
| RateLimit.PromptRetryIsLeast | backend/app/services/ratelimit.py:22-31 | for a request served no later after it was sent than the last admitted one, `retry_after` is the least number of seconds that helps |
| RateLimitClocks.BoundFailsExactly | backend/app/services/ratelimit.py:17-35 | the next request takes its window over the limit if and only if the window is full and Redis has dropped a hit it covers |
| RateLimitClocks.LaggingCountIsExact | backend/app/services/ratelimit.py:17-18 | for send times in any order, every hit the window covers is counted if and only if no limited request served since was sent a whole window after one of them |
| RateLimitClocks.LaggingBoundFailsExactly | backend/app/services/ratelimit.py:17-35 | for send times in any order, the next request takes its window over the limit if and only if it is over it already, or is full while fewer hits than the limit are left that no served window has left behind |
| RateLimitClocks.OneClockBound | backend/app/services/ratelimit.py:17-35 | on one clock Redis always keeps pace, and the bound holds in every run |
| RateLimitClocks.MarksAreTheLog | backend/app/services/ratelimit.py:34 | the hits this speaks of are those of the full log |
| RateLimitClocks.LateRequestSlipsIn | backend/app/services/ratelimit.py:35 | two hits in one window under limit 1, when the second reaches Redis after the expiry |
| RateLimitClocks.ClockBehindSlipsIn | backend/app/services/ratelimit.py:17 | three hits in one window under limit 2, when a clock lags behind another |
| Surveillance.AlertDeadline | backend/app/services/surveillance.py:138-185 | the deadline for an interval or a cron line, none for an expectation that cannot be computed |
| Surveillance.DeadlineIsUnique | backend/app/services/surveillance.py:164-185 | policy and reference alone determine the deadline; `now` has no part in it |
| Surveillance.DeadlineIsLater | backend/app/services/surveillance.py:164-185 | the deadline is after the reference by more than the tolerance, and by at least interval plus tolerance |
| Surveillance.StandsWhenCalm | backend/app/services/surveillance.py:164-185 | with an interval always, and with any cron line away from changes of offset, no later reference has an earlier deadline |
| Surveillance.StandsAcrossFall | backend/app/services/surveillance.py:164-185 | across a change back, with the first match at the offset after it: if and only if no match is repeated, or none lies between the start of the second search and the first repeated wall |
| Surveillance.StandsAcrossReturn | backend/app/services/surveillance.py:164-185 | with it at the offset of now again, shown or at the end of a later gap: if and only if no match is repeated after the change itself |
| Surveillance.StandsAcrossLaterGap | backend/app/services/surveillance.py:164-185 | when a later change skips it and every hour is allowed: if and only if, besides, the end of the gap matches |
| Surveillance.StandsAcrossRise | backend/app/services/surveillance.py:164-185 | across a change on, the first match shown or moved to the end of its gap, no later reference has an earlier deadline |
| Surveillance.StandsPastGap | backend/app/services/surveillance.py:164-185 | nor when that change skips it and every hour is allowed |
| Surveillance.StandsForBothDays | backend/app/services/surveillance.py:164-185 | nor with both day fields restricted when every repeated match of either kind comes no earlier than one a second search finds |
| Surveillance.MissedMovesDeadlineBack | backend/app/services/surveillance.py:164-185 | a match missed away from changes moves the deadline back for a conclusion just before it |
| Surveillance.LaterConclusionEarlierDeadline | backend/app/services/surveillance.py:164-185 | with a half-hour change a conclusion eleven minutes later brings the deadline almost a day forward |
| Surveillance.RomeDeadlineMovesBack | backend/app/services/surveillance.py:164-185 | in Rome a conclusion twenty-five minutes later brings the deadline almost a year forward |
| Surveillance.ReferenceInstant | backend/app/services/surveillance.py:192-208 | the later of the two instants that are set, none only when neither is |
| Surveillance.Receiver.constructor | backend/app/api/v1/receivers.py:232-255 | a watched receiver counts from its creation |
| Surveillance.Receiver.Heartbeat | backend/app/services/ingest.py:230-249 | one column moves, never back; a start moves another one than a conclusion |
| Surveillance.ValidateMeetsCheck | backend/app/schemas/receiver.py:30-64 | for numbers the schema lets through, the validation accepts exactly what the CHECK constraint accepts and can be computed with |
| Surveillance.ColumnsExpect | backend/app/services/surveillance.py:69-185 | from the five columns: the seconds of interval and tolerance, or the next firing of the line in the zone of its column, UTC without one; nothing is expected of what cannot be read |
| Surveillance.PatchRefusedExactly | backend/app/api/v1/receivers.py:104-142 | refused exactly when some of the policy is sent and what would remain violates the constraint or cannot be computed with |
| Surveillance.PatchAsSent | backend/app/api/v1/receivers.py:104-161 | otherwise what is sent is stored and the rest kept; without a policy there is no watch and no mark, a policy or a receiver switched on starts the watch now, and nothing else touches the two |
| Surveillance.UndisturbedPatch | backend/app/api/v1/receivers.py:104-161 | on a row that is still as it was read, an accepted PATCH leaves the row it aims at, and the constraint holds |
| Surveillance.PutBackExactly | backend/app/models/receiver.py:30-49 | an edit written over a switch-off it has not seen brings a policy back if and only if it changes the severity, the tolerance, and the interval or cron line |
| Surveillance.Receiver.Patch | backend/app/api/v1/receivers.py:104-161 | a refused request changes nothing; otherwise each column the request alters relative to the row it has read is overwritten and the others keep what they hold now, unless the five policy columns would violate their constraint: then nothing changes |
| Surveillance.Receiver.Check | backend/app/tasks/maintenance.py:549-643 | recovery first, then at most one alarm, by the deadline of the row as it is; `SurveillanceRuns.CheckDecides` says when |
| Surveillance.CheckTenant | backend/app/tasks/maintenance.py:510-643 | every receiver is decided on its own columns, and the two totals count the outcomes |
| Surveillance.OverdueIsAlarmed | backend/app/tasks/maintenance.py:590-635 | an overdue unmarked receiver is alarmed by the next check however long the tolerance is |
| Surveillance.StartsDecideNothing | backend/app/services/ingest.py:226-238 | a start ping changes no decision of the job |
| SurveillanceRuns.AlarmsAlternate | backend/app/tasks/maintenance.py:549-643 | alarms alternate with recoveries and withdrawals, and outnumber them by one exactly while the receiver is marked |
| SurveillanceRuns.CheckDecides | backend/app/tasks/maintenance.py:549-643 | in every run: a watched receiver whose last entry is an alarm recovers exactly when a conclusion later than it has been committed, one whose last entry is none is alarmed exactly when what was expected and the tolerance have passed, and any other check changes nothing |
| SurveillanceRuns.RecoveryIsReal | backend/app/tasks/maintenance.py:558-582 | each recovery ends the alarm before it and rests on a committed conclusion received after that alarm |
| SurveillanceRuns.PolicyIsWhole | backend/app/models/receiver.py:30-49 | in every run, whatever edits are written over each other, the five columns meet their constraint and the policy can be computed with |
| SurveillanceRuns.AlarmsAreApart | backend/app/tasks/maintenance.py:589-635 | every alarm comes after what its policy expected from its reference and the tolerance; after a recovery, and after a withdrawal unless a policy change since made the watch count from before it, that reference is no earlier than the alarm before |
| SurveillanceRuns.WriteRewinds | backend/app/api/v1/receivers.py:149-161 | for every policy change in every run, exactly when it leaves the receiver watched, unmarked and counting from before its last alarm: by the row it has read, the row as it is, and the clock it has read |
| SurveillanceRuns.OnlyWritesRewind | backend/app/tasks/maintenance.py:558-635 | no other step does |
| SurveillanceRuns.FreshWriteIsSafe | backend/app/api/v1/receivers.py:149-161 | a request that has seen severity, status, watch and mark as they are and reads the clock after the last alarm never does |
| SurveillanceRuns.IdleWriteIsSafe | backend/app/api/v1/receivers.py:104-123 | one that sends neither policy nor status changes nothing of all this |
| SurveillanceRuns.AlarmsAreApartUnlessRewound | backend/app/tasks/maintenance.py:589-635 | in every run without such a policy change all alarms are further apart than interval and tolerance |
| SurveillanceRuns.LostUpdateRepeatsAlarm | backend/app/api/v1/receivers.py:104-161 | a run in which an edit of interval, tolerance and severity is written over a switch-off, and two alarms are a minute apart under an interval of half an hour |
| SurveillanceRuns.AlarmIsTrue | backend/app/tasks/maintenance.py:593-635 | when an alarm is raised no committed conclusion is later than its reference, and the next firing from there and the tolerance have passed |
| SurveillanceRuns.HeartbeatIsLatest | backend/app/services/ingest.py:230-249 | in every commit order `last_notification_at` is the latest committed conclusion |
| SurveillanceRuns.OverdueStays | backend/app/services/surveillance.py:170-178 | starts, late commits of old conclusions, checks and time do not end being overdue |
| SurveillanceRuns.DeadlineNeverMovesBack | backend/app/services/surveillance.py:170-178 | over every run without a policy change, a deadline that no later reference undercuts never moves back |
| SurveillanceRuns.DeadlineMovesBack | backend/app/services/surveillance.py:170-178 | and any other moves back in some run, by one conclusion |
| Severity.ParseExplicit | backend/app/services/severity.py:116-122 | a severity exactly for its name in any casing |
| Severity.NamesAreRead | backend/app/services/severity.py:116-122 | the five names in any casing, and nothing else |
| Severity.GravityIsOrdered | backend/app/db/types.py:116-122 | debug, info, warning, error, critical, in this order |
| Severity.LexIsFirstDifference | backend/app/services/severity.py:265 | ids are compared like strings: by the first difference, a beginning before what it begins |
| Severity.SortIsInOrder | backend/app/services/severity.py:265 | the sorted rules are in order of priority and id |
| Severity.SortedFirstDecides | backend/app/services/severity.py:265-269 | the first rule of the sorted list that speaks has the least key of all that speak, the earlier one among equals |
| Severity.Gravest | backend/app/services/severity.py:258 | the first of the gravest facts |
| Severity.ResolveSeverity | backend/app/services/severity.py:200-288 | explicit value, else the graver execution fact with ties to the exit code, else the least matching rule, else the default; `duration_exceeded` whichever decided; `FactsDecide`, `ThresholdIsStrict` and `RuleDecides` say it of the raw facts |
| Severity.FactsDecide | backend/app/services/severity.py:241-288 | from the facts as they come in: the header's severity, else the query's, else the graver of a failed exit code and a duration past the threshold, the exit code when they are equal, and only then rules and default |
| Severity.ThresholdIsStrict | backend/app/services/severity.py:179-197 | whatever decides, a duration of exactly the threshold is not too long, one millisecond more is, and without duration, threshold or severity nothing is |
| Severity.ThresholdIsMonotone | backend/app/services/severity.py:179-197 | a longer job stays too long |
| Severity.RuleDecides | backend/app/services/severity.py:265-288 | a rule that decides is enabled, matches and gives its own severity, and every enabled rule before it by priority and id misses; the default counts only when all enabled rules miss |
| Severity.ResolutionIsUnique | backend/app/services/severity.py:200-288 | facts, rules and matcher determine the resolution, even with shared keys |
| Severity.ListingOrderIrrelevant | backend/app/services/severity.py:261-265 | for distinct keys the order in which rules are listed does not change the resolution |
| Severity.LoadEvaluationChain | backend/app/services/rule_chain.py:72-100 | own rules then preset rules, each numbered by its place, so no two share a key |
| Severity.OwnRulesComeFirst | backend/app/services/rule_chain.py:46-100 | over the two tables, a speaking rule of the receiver beats every preset; within each the least by (priority, id), or by (position, priority, id) |

## Left out

- Cron text: expressions start as tokenised elements. The five-field split, the regular
  expressions and the H/R check are not modelled, nor are the messages of the two validators.
- `Intl.DateTimeFormat` and the sub-second correction of `offsetAt`: a zone is any function
  from instant to offset. Zones with two changes within 48 hours are not covered by the
  results that name `RealZone`.
- CronSearch.SearchWall: starts in the year 100 or later, because `Date.UTC` moves the years 0
  to 99 into the twentieth century; `Calendar.WallOfCivilExactly` gives the exact range.
  `CronFire.NextFireAfter` and everything built on it start three days later.
- CronFire.CalcAware: assumes that the offset no longer changes past the last instant a `Date`
  can hold. An abstract zone that skips the only matching minute of every year for ever would
  keep the skip loop going.
- CronMeaning.DaysMean: for a day list whose collapse adds no day; `CronExpand.CollapseOfDays` says
  exactly which do.
- CronFire.CalmIsLeast: one way, because across a change the lemmas of `CronChanges` say exactly
  when.
- CronChanges.NothingMissedAcross: for a first match that exists or under restricted hours;
  `EarliestPastAnyGap` is its counterpart when every hour is allowed. Where the first answer lies at
  a third offset, a second search without a match up to the horizon makes the call fail
  (`CronFire.AwareFails`).
- CronMonotone.FallAndStayMonotone: for unrestricted days, like its companions across a fall, and for
  a first match at the offset of now or of just after the fall. In all other cases
  `PunctualIsNeverOvertaken` gives the guarantee without its converse.
- CronMonotone.LaterGapEveryHourMonotone: for a later change of at most a day that brings back the
  offset of now.
- Surveillance.StandsForBothDays: one way. When a repeated match is missed, a later reference finds it
  only if the other branch has an occurrence from there.
- croniter is not part of this model; `next_fire_after` means what cron.ts computes. Deadlines
  are in milliseconds where Python keeps microseconds.
- Outbox: the columns written on the channel, the broker and its queue (a worker may claim at
  any time), rows deleted while in flight, tenants and row-level security. The clocks of
  workers and reconcilers are one non-decreasing clock. A row locked by another transaction is
  simply claimed at another moment.
- Idempotency: a commit that succeeds in the database and still raises, lost Redis data, and a
  missing `X-Request-Id`, which means no deduplication. A key is gone in the very millisecond
  its time runs out; Redis keeps it for that millisecond.
- RateLimit.WindowBound: for runs whose clocks go on and in which Redis keeps pace;
  `RateLimitClocks` says exactly what happens otherwise.
- Surveillance.Receiver.Patch: takes a cron text together with its meaning and a zone name together
  with its offsets. The reading of either, and the check that a cron line fires at all, are not part
  of this model. A PATCH that is refused, or whose UPDATE violates the constraint, changes nothing.
- SurveillanceRuns.AlarmsAreApart: after a policy change that made the watch count from before the
  alarm, alarms are not promised to be apart, because they are not.
- Surveillance.CheckTenant: a failure that rolls the whole tenant back leaves every receiver as
  it was, which is no step here; receivers locked by another transaction are not in the list it
  is given. The texts of the synthetic notifications and their deliveries are left out.
- Severity: RE2 is an arbitrary function of pattern and case flag. Parsing of the exit code,
  duration and phase headers, the offload to a thread and the pattern cache are left out.
- `X-Request-Id` hashing, request bodies and their size limits, object storage and quotas.
- Purge jobs, exports, authentication, the dashboard and everything else in the repository.
