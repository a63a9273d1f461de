# Next-bus lookup of the Pebble bus watchface

The watchface shows how many minutes remain until the next departure of bus
route 700 from one stop, refreshed every minute. Its only logic is the
next-bus lookup in `src/bus-watchface.c`. That lookup is a time-of-day record, a
compiled-in timetable of 60 departures, a lexicographic comparison, a linear
scan that wraps to the first departure of the next day, and minute subtraction
with a borrow. Two display decisions in the refresh routine are also part of
it: the counter is clamped to `60+m`, and a next-day hour is folded back onto
the clock face.

Files:

- `day_time.dfy` (module `DayTimes`): the `DayTime` record, lexicographic
  order `Less`, the minute count `MinutesOf`, and `Compare`, the ordering
  primitive.
- `schedule.dfy` (module `Schedules`): the shipped timetable `Shipped` as a
  constant, the route number, and the predicates `ValidTable` and `Sorted`.
- `arrival.dfy` (module `Arrival`): `ArrivalAfter` and `FirstLaterIndex`
  specify the scan. `NextArrival` is the loop itself and is proved to compute
  `ArrivalAfter`. `MinutesDifference` is the borrow subtraction, proved equal
  to the difference of the minute counts. The lemmas state what the lookup
  promises.
- `display.dfy` (module `Display`): `UpdateContent` is one refresh, with the
  clock reading passed in as a parameter. It returns the counter and the
  details line as values, together with the clamp and the hour-folding
  decisions.
- `shipped_checks.dfy` (module `ShippedChecks`): concrete cases on the
  shipped table, plus the proof that its two after-midnight entries can never
  be returned.

The timetable is a parameter (`seq<DayTime>`) everywhere. The source reads it
from a static array and never writes to it. `schedule_size` is `|table|`.

Behaviour the model keeps as written:

- The shipped table is not ascending at its tail: 0:18 and 0:37 follow
  23:59. The scan keeps table order. `ShippedChecks.TailNeverReturned` proves
  that those two entries are never the answer, for any query time.
  `Arrival.BelowHeadNeverReturned` is the general reason: a value
  lexicographically below the first entry can never be returned. Where the
  model assumes ascending order (the `Sorted*` lemmas), it says so in a
  `requires`.
- Selection is strict. A query made at a departure time never returns that
  departure (`Arrival.ExactMatchSkipped`), and in an ascending table it returns
  the one right after it (`Arrival.SortedAtDepartureTakesNext`).
- The hour is folded only when it is above 24. So a wrap to a first departure
  in the midnight hour would be shown as 24, not 0
  (`Display.ShownHourOfArrival`, `Display.MidnightHeadShownAsTwentyFour`).
  The shipped table starts at 5:47, so this never happens with it
  (`ShippedChecks.ShippedDisplayInRange`).
- At 23:59 the shipped table wraps to 29:47, and the code computes
  (29·60+47) − (23·60+59) = 348 minutes (`ShippedChecks.LastBusWraps`).

## Model

| member | source | states |
|---|---|---|
| DayTimes.Compare | src/bus-watchface.c:99-107 | the sign of the result is the lexicographic (hour, minute) order: negative iff a < b, zero iff a == b, positive iff a > b |
| DayTimes.LessMatchesMinutes | src/bus-watchface.c:99-107 | for minutes in 0..59, the lexicographic order is the order of hour·60+minute, so the comparison agrees with calendar time |
| DayTimes.Tomorrow | src/bus-watchface.c:121-122 | adding 24 to the hour keeps the minute and moves the instant exactly 1440 minutes later |
| Schedules.ShippedValid | src/bus-watchface.c:29-91 | the shipped table has 60 entries, each with hour 0..23 and minute 0..59 |
| Schedules.ShippedAscendsUntilMidnight | src/bus-watchface.c:29-89 | the first 58 entries ascend strictly; 0:18 follows 23:59, so the whole table does not ascend |
| Arrival.FirstLaterIndex | src/bus-watchface.c:115-119 | the index is at most the table length; every entry before it is not later than now; the entry at it, if any, is later than now |
| Arrival.ArrivalAfter | src/bus-watchface.c:109-124 | if some entry is later than now, the result is the entry at the smallest such index; otherwise it is the first entry with hour + 24 |
| Arrival.NextArrival | src/bus-watchface.c:113-124 | the scan with early return computes ArrivalAfter for every non-empty table and every now |
| Arrival.MinutesDifference | src/bus-watchface.c:126-139 | the borrow never changes the total: the result is (next.hour·60+next.minute) − (now.hour·60+now.minute); when next is later and the minutes are in range, it is at least 1 |
| Arrival.FirstLaterIsArrival | src/bus-watchface.c:115-118 | an entry that is later than now, with no later entry before it, is the result |
| Arrival.NoneLaterWraps | src/bus-watchface.c:121-123 | when no entry is later than now, the result is the first entry with hour + 24 |
| Arrival.ArrivalWithinADay | src/bus-watchface.c:113-139 | for any usable table (sorted or not) and wall-clock now, the result is later than now and 1..1440 minutes away |
| Arrival.ExactMatchSkipped | src/bus-watchface.c:117 | querying at a departure's own time never returns that departure |
| Arrival.SortedAtDepartureTakesNext | src/bus-watchface.c:115-118 | in an ascending table, querying at a departure that is not the last returns the departure right after it |
| Arrival.BelowHeadNeverReturned | src/bus-watchface.c:115-123 | a value lexicographically below the first entry is never returned, whatever the query time |
| Arrival.SortedArrivalIsEarliest | src/bus-watchface.c:109-119 | in an ascending table, the result is no later than any entry that is later than now |
| Arrival.SortedLastEntryWraps | src/bus-watchface.c:115-123 | in an ascending table, querying at the last departure wraps to the first departure + 24 h |
| Arrival.SortedOneMinuteBeforeLast | src/bus-watchface.c:115-139 | in an ascending usable table, one minute before the last departure, the result is that departure, 1 minute away |
| Display.CounterFor | src/bus-watchface.c:154-159 | the counter is the "60+m" sentinel iff the count exceeds 60, otherwise the exact count; CounterOfArrival proves a shown count is 1..60 and the sentinel means 61..1440 minutes |
| Display.ShownHour | src/bus-watchface.c:162-163 | for hours 0..47 the shown hour is the hour mod 24, except that exactly 24 stays 24 because the fold needs hour > 24 |
| Display.UpdateContent | src/bus-watchface.c:142-168 | the counter is the sentinel iff the minutes to the resolved arrival exceed 60, otherwise the exact count; the details line is route 700, the folded hour and the minute of that arrival |
| Display.CounterOfArrival | src/bus-watchface.c:153-159 | with a usable table, the exact count is shown iff the bus is at most 60 minutes away; a shown count is 1..60; the sentinel stands for 61..1440 minutes |
| Display.ShownHourOfArrival | src/bus-watchface.c:162-163 | with a usable table, the shown hour is the arrival's hour mod 24, except that a wrap to a first departure in hour 0 is shown as 24; it is always 0..24 |
| Display.MidnightHeadShownAsTwentyFour | src/bus-watchface.c:162-163 | for a table headed by 0:18, a query at 23:30 resolves to 24:18, and the shown hour is 24 |
| ShippedChecks.AtDepartureTakesFollowing | src/bus-watchface.c:117 | on the shipped table, 6:06 resolves to 6:25, not to 6:06 itself |
| ShippedChecks.EarlyMorning | src/bus-watchface.c:29-31 | on the shipped table, 5:50 resolves to 6:06, which is 16 minutes away and is shown exactly |
| ShippedChecks.LastBusWraps | src/bus-watchface.c:121-123 | on the shipped table, 23:59 wraps to 29:47, which is 348 minutes away; the counter shows the sentinel and the hour is shown as 5 |
| ShippedChecks.TailNeverReturned | src/bus-watchface.c:88-89 | on the shipped table, 0:18 and 0:37 are never returned, for any query time |
| ShippedChecks.ShippedDisplayInRange | src/bus-watchface.c:154-163 | on the shipped table, for any wall-clock now, the shown hour is 0..23 and the minutes to the next bus are 1..1440 |

## Left out

- Window, layer and font handling (`window_load`, `window_unload`, `init`,
  `deinit`, `main`, the `text_layer_*` calls, `layer_mark_dirty`): these are
  calls into the Pebble toolkit and carry no logic of the lookup.
- `aligned_text_layer_create`: layout arithmetic over font metrics that are
  hardcoded for the toolkit's fonts.
- The clock: `time()` and `localtime()` become the `now` parameter of
  `UpdateContent`. The per-minute tick subscription is event-loop plumbing.
- `snprintf` into the static buffers `buf` and `buf2`: the counter is modelled
  as a value, either `Minutes(n)` or `SixtyPlus`. The details line is modelled
  as (route, hour, minute), without the `%d:%02d` text. The reuse of static
  buffers across calls is not modelled.
- C `int` overflow: all times are small, so integers are unbounded and the
  ranges of hours and minutes are stated as preconditions where a lemma needs
  them.
- An empty timetable: the source indexes `schedule[0]` unconditionally, so
  `NextArrival`, `ArrivalAfter` and `UpdateContent` require a non-empty table.
