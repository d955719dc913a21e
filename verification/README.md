# Spawn-rotation calculator, modelled in Dafny

The page `src/app/page.js` predicts, for any hour, which of four paired locations holds the
chest and the ore. It also says whether that hour is the nightly maintenance hour (22:00–22:59 New York
time), when the next 20-minute spawn happens, and it builds a scrolling list of upcoming spawns.
This project models that calculator as pure functions over integer-millisecond instants and
proves what it computes.

- `time.dfy` (`Time`): instants, the UTC fields `getUTCMinutes`/`getUTCHours`/day number, and
  JavaScript's truncating `%` (`JsRem`). It also holds `arithmeticMod`.
- `zone.dfy` (`Zone`): the New York classifier (`Intl.DateTimeFormat` with
  `timeZone: 'America/New_York'`). The zone is a parameter: a function giving the UTC offset at each
  instant. Hour of day and weekday are derived from `utc + offset`. The daylight-saving rules live
  entirely inside that function. `EDT` and `EST` are the two fixed offsets New York uses, for
  concrete examples.
- `anchors.dfy` (`Anchors`): `countExtraThursdayAnchors`. Its day-by-day loop is proved equal to a
  recursive reference count, with its bounds, the zero case, the split over two end instants and
  monotonicity.
- `rotation.dfy` (`Rotation`): the constants and `getSpawn`. This includes the error the source
  throws for a negative slot index, the closed form of the slot, and the reference scenarios.
- `nextspawn.dfy` (`NextSpawn`): `getNextSpawnTime` as written and corrected (see Findings), and
  `getNextSpawnLocation`.
- `schedule.dfy` (`Schedule`): the `loadMoreSpawns` cursor.
- `results.dfy` (`Results`): `Result` and the exceptions the source throws.

The clock reading `now` is an explicit parameter everywhere.

Where the code's comments, or the behaviour the system is meant to have, differ from what the code does, the model follows the code:
- `hourOfDay` is `hoursElapsed % 24` with JavaScript's truncating remainder, so it is negative
  for negative `hoursElapsed`. It is not a mathematical modulus.
- The Thursday candidate of day `d` is `from + d·24h + 4h` in UTC milliseconds. That is 04:00 in
  New York only while daylight time is in effect; under standard time it is 03:00. It is not
  "04:00 local" (`Rotation.DayZeroCandidateLocalHour`).
- `2025-04-10`, the reference day, is itself a Thursday in New York. So a day after the reference
  hour, the Thursday count is 1 and the slot is index 3 (Arkeum Post). It is not index 0
  (`Rotation.OneDayLaterInEdt`).

## Model

| member | source | states |
|---|---|---|
| `Time.JsRem` | src/app/page.js:130 | JavaScript `%`: magnitude below the divisor, sign of the dividend, and the dividend minus the result is a multiple of the divisor |
| `Time.ArithmeticMod` | src/app/page.js:63-65 | for a positive divisor `((a % b) + b) % b` is the mathematical modulus `a mod b`, so it lies in `[0, b)` and is congruent to `a`; for a negative divisor it lies in `(b, 0]` and stays congruent |
| `Time.UtcMinutes` | src/app/page.js:37 | `getUTCMinutes()` is in `[0, 60)` and splits the instant into its UTC hour start, that many whole minutes, and the sub-minute remainder |
| `Time.UtcHours` | src/app/page.js:51 | `getUTCHours()` is in `[0, 24)`, is the absolute hour count less 24 per UTC day, and names the hour-long window of the UTC day the instant falls in |
| `Zone.WeekdayOfDay` | src/app/page.js:96-98 | a day number counts as `'Thu'` exactly when it is a multiple of 7 days from 1970-01-01, itself a Thursday |
| `Zone.LocalHour` | src/app/page.js:19-27 | the `hour` part is in `[0, 24)` and names the hour-long window of the local day that the instant falls in |
| `Zone.LocalWeekday` | src/app/page.js:90-97 | the `weekday` part is `'Thu'` exactly when the local day number is a multiple of 7 |
| `Zone.IsSkippedTime` | src/app/page.js:17-30 | an instant is skipped exactly when its local time of day lies in `[22:00, 23:00)` |
| `Zone.LocalHourOneHourLater` | src/app/page.js:19-29 | if the zone's offset is unchanged an hour later, the local hour is one more, modulo 24 |
| `Anchors.CountUpTo` | src/app/page.js:84-102 | the reference count over days `0 .. n-1` never exceeds `n` (nor 0 for negative `n`) |
| `Anchors.ExtraThursdayAnchors` | src/app/page.js:80-88 | the count never exceeds `max(0, floor((to - from) / day) + 1)` |
| `Anchors.CountExtraThursdayAnchors` | src/app/page.js:76-104 | the day-by-day loop returns exactly the reference count, and at most one event per scanned day |
| `Anchors.CountUpToSaturates` | src/app/page.js:80-88 | scanning past `totalDays` changes nothing: every later candidate lies after `to` |
| `Anchors.AnchorsZeroBeforeFirstCandidate` | src/app/page.js:84-88 | the count is 0 whenever `to < from + 4h`, in particular when `from == to` |
| `Anchors.AnchorsSplit` | src/app/page.js:84-101 | moving the end from `to1` to a later `to2` adds exactly the Thursday candidates in `(to1, to2]`; the events up to `to1` are counted the same for both ends |
| `Anchors.AnchorsMonotone` | src/app/page.js:80-88 | for a fixed start the count is non-decreasing in the end instant |
| `Rotation.AnchorIndex` | src/app/page.js:139 | the anchor index is in `[0, 4)` and equals `(1 - days - thursdays) mod 4` for every `hoursElapsed`, negative or not |
| `Rotation.SlotIndex` | src/app/page.js:145 | the slot index lies in `(-4, 4)`, and in `[0, 4)` whenever `hoursElapsed >= 0` |
| `Rotation.SpawnAt` | src/app/page.js:129-154 | `getSpawn` throws (the destructuring of `undefined`) exactly when `anchor + hourOfDay` is negative and not a multiple of 4, never for `hoursElapsed >= 0`; otherwise time is `baseTime + hoursElapsed·1h`, the pair is the slot's, and `isSkipped` holds iff the local hour at that time is 22 |
| `Rotation.GetSpawn` | src/app/page.js:119-155 | the returned time is the start of the hour, on the whole-hour grid through `baseTime`, that contains `now + offset` hours; the call succeeds whenever that instant is not before `baseTime`; `isSkipped` is the maintenance-hour test of the returned time |
| `Rotation.SlotClosedForm` | src/app/page.js:126-145 | for `hoursElapsed >= 0` the slot is `(1 + hours - days - thursdays) mod 4`: the hourly, daily and Thursday corrections are summed before one modulus |
| `Rotation.SlotShift` | src/app/page.js:126-145 | `k` hours later the slot has moved `k` forward, one back per day boundary crossed and one back per Thursday event crossed |
| `Rotation.FirstHourIsReferenceSlot` | src/app/page.js:13-15 | in the hour starting at `baseTime`, offset 0 gives chest Sealed Sanctuary and ore Shrine of Devotion, in every time zone |
| `Rotation.OneDayLater` | src/app/page.js:129-139 | offset 24 from the reference hour steps back one slot for the day (Orc Village), and one more (Arkeum Post) exactly when `baseTime + 4h` is a Thursday in the zone |
| `Rotation.OneDayLaterInEdt` | src/app/page.js:14 | `baseTime` is midnight of a Thursday in New York daylight time, so offset 24 gives Arkeum Post there |
| `Rotation.DayZeroCandidateLocalHour` | src/app/page.js:85-86 | the day-0 candidate `baseTime + 4h` is 04:00 in EDT but 03:00 in EST: a fixed UTC offset, not 04:00 local |
| `NextSpawn.FirstCandidate` | src/app/page.js:34-39 | the first candidate is the first UTC 20-minute boundary strictly after `now`: later than `now` by at most 20 minutes, with zero seconds and milliseconds and a UTC minute of 0, 20 or 40 |
| `NextSpawn.NextSpawnTime` | src/app/page.js:32-46 | as written: it returns the first candidate when that is outside local hour 22, and throws otherwise; a returned time is never in hour 22 |
| `NextSpawn.AdvancePastSkipped` | src/app/page.js:41-43 | the corrected loop returns the first 20-minute step from `t` outside hour 22, every earlier step being in hour 22; if it gives up, all steps it tried were in hour 22 |
| `NextSpawn.SetUtcMinutes` | src/app/page.js:39 | `setUTCMinutes(m)` keeps the seconds and milliseconds, and for `m >= 0` moves `m / 60` hours forward with minute field `m % 60` |
| `NextSpawn.NextSpawnTimeFixed` | src/app/page.js:41-45 | the corrected function returns the first 20-minute boundary after `now` outside hour 22 (every earlier boundary from the first candidate on is in hour 22), at most 80 minutes later, and equals the as-written result whenever that one returns |
| `NextSpawn.NextSpawnTimeFixedSucceeds` | src/app/page.js:41-43 | when the zone's offset is the same at the first candidate and an hour later, the corrected loop always finds a time |
| `NextSpawn.NextSpawnTimeThrowsAt2205Edt` | src/app/page.js:42 | at 22:05 EDT the first candidate 22:20 is in hour 22 and the code as written throws |
| `NextSpawn.NextSpawnTimeFixedAt2205Edt` | src/app/page.js:41-45 | at 22:05 EDT the corrected loop skips 22:20 and 22:40 and returns 23:00 EDT |
| `NextSpawn.UtcHourOffset` | src/app/page.js:51-54 | for `next` less than a day after `now`, UTC-hour difference plus 24 on a date rollover is the number of hour boundaries between them, so never negative |
| `NextSpawn.NextSpawnLocation` | src/app/page.js:48-56 | corrected: the reported spawn is the spawn of the hour containing the (corrected) next spawn time; it exists whenever `now` is not before `baseTime` and a next time was found |
| `NextSpawn.NextSpawnLocationAsWritten` | src/app/page.js:48-56 | as written: it throws whenever `getNextSpawnTime()` throws, and otherwise reports the spawn of the hour containing the next spawn time, the same as the corrected version |
| `NextSpawn.NextSpawnLocationAt2205Edt` | src/app/page.js:50 | at 22:05 EDT the as-written location call throws, while the corrected one reports the spawn of the 23:00 EDT hour |
| `Schedule.LoadMoreSpawns` | src/app/page.js:202-211 | the cursor advances by exactly `count`; the old list is kept as a prefix and `getSpawn(cursor + k)` is appended for `k` in `[0, count)`; it throws iff one of those calls throws, never when `now` is not before `baseTime` and the cursor is non-negative; and it keeps the list equal to the spawns at offsets `0 .. cursor-1` |
| `Schedule.LoadBatches` | src/app/page.js:164 | starting from cursor 0 and an empty list, any sequence of loads leaves `list[i] == getSpawn(i)` for every `i` and the cursor equal to the list's length |

## Findings

| source | as written | input that shows it | evidently intended | confidence | as-written member | corrected member |
|---|---|---|---|---|---|---|
| src/app/page.js:42 | `next.setUTCMinutes(next.setUTCMinutes() + spawnInterval)` calls the setter without an argument. The date becomes Invalid Date and the next `isSkippedTime` throws a `RangeError`, so `getNextSpawnTime` throws whenever the first candidate is in local hour 22 | `now` = 2025-04-11T02:05:00Z (22:05 EDT) | advance by 20 minutes from the current minute (`getUTCMinutes() + 20`) until the local hour is not 22 | not executed; high | `NextSpawn.NextSpawnTimeThrowsAt2205Edt` | `NextSpawn.NextSpawnTimeFixed` |

The bug propagates to `getNextSpawnLocation` (line 50): `NextSpawn.NextSpawnLocationAsWritten` models that call as written and throws at the same input; `NextSpawn.NextSpawnLocation` uses the corrected `NextSpawn.NextSpawnTimeFixed`.

## Left out

- The React component: rendering, scroll handling, the `MutationObserver`, the `setInterval` refresh, `updateCountdown` and its string padding, and `toLocaleString` with the current-hour highlighting. These are presentation and timer plumbing.
- `index.js` (the Electron window) and `next.config.mjs` (build configuration) are not part of this model.
- The time zone database: the New York offset at each instant is a parameter (`Zone.TimeZone`), not derived from the daylight-saving rules. `Intl` is assumed to report the hour as 0–23.
- The clock: `new Date()` is read separately at lines 33, 49 and 122, and again for each `getSpawn` inside `loadMoreSpawns`. All of these reads are one `now` parameter, so a clock that ticks across an hour boundary between reads is not modelled.
- `offset ?? 0` in `getSpawn`: the model's offset is always an integer, so the `null`/`undefined` default does not arise.
- Floating point: `Math.floor` of a floating-point quotient is modelled as exact integer floor division. That is exact for instants within the `Date` range in use. The `Date` range limit of ±8.64e15 ms (beyond which dates are invalid) is not modelled.
- `setLoading` in `loadMoreSpawns` (UI state only).
- The `count = 3` default of `loadMoreSpawns` (line 202): `Schedule.LoadMoreSpawns` always takes `count` explicitly, so callers that rely on the default (line 238) are modelled as passing 3.
- NextSpawn.NextSpawnLocation: models `getNextSpawnLocation` on the corrected next-spawn search, so it returns a spawn where the code as written throws; the as-written behaviour is `NextSpawn.NextSpawnLocationAsWritten`.
- `NextSpawn.NextSpawnTimeFixedSucceeds`: proves that the corrected loop terminates only when the zone's offset is the same at the first candidate and an hour later. A zone whose offset changes inside that hour is not covered. The bound of three advances (`MAX_ADVANCES`) is what the corrected loop uses in place of an unbounded `while`.
