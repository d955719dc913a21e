/** `getNextSpawnTime` and `getNextSpawnLocation`: the next 20-minute spawn boundary after now
    that is outside the maintenance hour, and the rotation slot of that boundary's hour. */
module NextSpawn {
  import opened Time
  import opened Zone
  import opened Results
  import opened Rotation

  /** `spawnInterval`, in minutes. */
  const SPAWN_INTERVAL: int := 20

  const INTERVAL_MS: int := SPAWN_INTERVAL * MINUTE_MS

  /** How many 20-minute advances the corrected search makes before giving up: three advances
      cover a full hour, which leaves any single local hour. */
  const MAX_ADVANCES: nat := 3

  /** `date.setUTCMinutes(m)`: replace the minute field, keeping hour, seconds and milliseconds;
      a minute value of 60 or more rolls over into the following hours. */
  function SetUtcMinutes(t: Instant, m: int): (r: Instant)
    ensures r % MINUTE_MS == t % MINUTE_MS
    ensures 0 <= m ==> r / HOUR_MS == t / HOUR_MS + m / 60 && UtcMinutes(r) == m % 60
  {
    SetUtcMinutesFields(t, m);
    (t / HOUR_MS) * HOUR_MS + m * MINUTE_MS + t % MINUTE_MS
  }

  lemma SetUtcMinutesFields(t: Instant, m: int)
    ensures var r := (t / HOUR_MS) * HOUR_MS + m * MINUTE_MS + t % MINUTE_MS;
      && r % MINUTE_MS == t % MINUTE_MS
      && (0 <= m ==> r / HOUR_MS == t / HOUR_MS + m / 60 && UtcMinutes(r) == m % 60)
  {
    var r := (t / HOUR_MS) * HOUR_MS + m * MINUTE_MS + t % MINUTE_MS;
    assert r == t % MINUTE_MS + ((t / HOUR_MS) * 60 + m) * MINUTE_MS;
    ModAddMultiple(t % MINUTE_MS, (t / HOUR_MS) * 60 + m, MINUTE_MS);
    if 0 <= m {
      DivModUnique(r, HOUR_MS, t / HOUR_MS + m / 60, (m % 60) * MINUTE_MS + t % MINUTE_MS);
      DivModUnique(r, MINUTE_MS, (t / HOUR_MS) * 60 + m, t % MINUTE_MS);
      ModAddMultiple(m, t / HOUR_MS, 60);
    }
  }

  /** The first candidate of `getNextSpawnTime`: `now` with seconds and milliseconds cleared and
      the minute field raised to the next multiple of 20. It is the first 20-minute boundary of
      UTC strictly after `now`. */
  function FirstCandidate(now: Instant): (c: Instant)
    ensures now < c <= now + INTERVAL_MS
    ensures c == (now / INTERVAL_MS + 1) * INTERVAL_MS
    ensures c % MINUTE_MS == 0
    ensures UtcMinutes(c) in {0, 20, 40}
  {
    var next := (now / MINUTE_MS) * MINUTE_MS;
    var minutes := UtcMinutes(now);
    var increment := SPAWN_INTERVAL - JsRem(minutes, SPAWN_INTERVAL);
    FirstCandidateIsNextBoundary(now);
    SetUtcMinutes(next, minutes + increment)
  }

  lemma FirstCandidateIsNextBoundary(now: Instant)
    ensures var next := (now / MINUTE_MS) * MINUTE_MS;
            var minutes := UtcMinutes(now);
            var c := SetUtcMinutes(next, minutes + (SPAWN_INTERVAL - JsRem(minutes, SPAWN_INTERVAL)));
            && c == (now / INTERVAL_MS + 1) * INTERVAL_MS
            && c % MINUTE_MS == 0
            && UtcMinutes(c) in {0, 20, 40}
  {
    var m := now / MINUTE_MS;
    var next := m * MINUTE_MS;
    // The cleared instant sits `m % 60` minutes into hour `m / 60`.
    DivModUnique(next, HOUR_MS, m / 60, (m % 60) * MINUTE_MS);
    DivModUnique(next, MINUTE_MS, m, 0);
    // Within an hour, the minute's remainder by 20 is the absolute minute's remainder by 20.
    assert m == (m % 60) + 3 * (m / 60) * 20;
    ModAddMultiple(m % 60, 3 * (m / 60), 20);
    assert JsRem(m % 60, SPAWN_INTERVAL) == m % 20;
    var k := m / 20 + 1;
    var c := SetUtcMinutes(next, m % 60 + (SPAWN_INTERVAL - m % 20));
    assert c == (m + 20 - m % 20) * MINUTE_MS;
    assert c == k * INTERVAL_MS;
    DivDiv(now, MINUTE_MS, 20);
    assert now / INTERVAL_MS == m / 20;
    DivModUnique(c, MINUTE_MS, 20 * k, 0);
    DivModUnique(20 * k, 60, k / 3, 20 * (k % 3));
  }

  /** `getNextSpawnTime()` as written. When the first candidate is in the maintenance hour, the
      loop body calls `setUTCMinutes()` without an argument, the date becomes invalid, and the
      next `formatToParts` throws a `RangeError`; so the result is either the first candidate or
      that error. */
  function NextSpawnTime(z: TimeZone, now: Instant): (r: Result<Instant>)
    ensures r.Success? <==> !IsSkippedTime(z, FirstCandidate(now))
    ensures r.Success? ==> now < r.value <= now + INTERVAL_MS && r.value % INTERVAL_MS == 0
    ensures r.Success? ==> !IsSkippedTime(z, r.value)
    ensures r.Failure? ==> r.error == InvalidDate
  {
    var next := FirstCandidate(now);
    ModAddMultiple(0, now / INTERVAL_MS + 1, INTERVAL_MS);
    if IsSkippedTime(z, next) then Failure(InvalidDate) else Success(next)
  }

  /** The instant `k` spawn intervals after `t`. */
  function StepTime(t: Instant, k: int): Instant {
    t + k * INTERVAL_MS
  }

  /** The corrected loop: while `t` is in the maintenance hour, advance it by the spawn interval,
      at most `fuel` times. It stops at the first candidate outside the maintenance hour. */
  function AdvancePastSkipped(z: TimeZone, t: Instant, fuel: nat): (r: Result<Instant>)
    ensures r.Success? ==> !IsSkippedTime(z, r.value)
    ensures r.Success? ==>
      && t <= r.value <= StepTime(t, fuel)
      && (r.value - t) % INTERVAL_MS == 0
      && forall j :: 0 <= j < (r.value - t) / INTERVAL_MS ==> IsSkippedTime(z, StepTime(t, j))
    ensures r.Failure? ==>
      && r.error == NoBoundaryFound
      && forall j :: 0 <= j <= fuel ==> IsSkippedTime(z, StepTime(t, j))
    decreases fuel
  {
    if !IsSkippedTime(z, t) then
      DivModUnique(0, INTERVAL_MS, 0, 0);
      Success(t)
    else if fuel == 0 then
      assert StepTime(t, 0) == t;
      Failure(NoBoundaryFound)
    else
      var r := AdvancePastSkipped(z, t + INTERVAL_MS, fuel - 1);
      assert StepTime(t, 0) == t;
      if r.Success? then
        var k := (r.value - (t + INTERVAL_MS)) / INTERVAL_MS;
        assert r.value - (t + INTERVAL_MS) == k * INTERVAL_MS;
        DivModUnique(r.value - t, INTERVAL_MS, k + 1, 0);
        assert forall j :: 0 <= j < k + 1 ==> IsSkippedTime(z, StepTime(t, j)) by {
          forall j | 0 <= j < k + 1
            ensures IsSkippedTime(z, StepTime(t, j))
          {
            if j > 0 {
              assert StepTime(t, j) == StepTime(t + INTERVAL_MS, j - 1);
            }
          }
        }
        r
      else
        assert forall j :: 0 <= j <= fuel ==> IsSkippedTime(z, StepTime(t, j)) by {
          forall j | 0 <= j <= fuel
            ensures IsSkippedTime(z, StepTime(t, j))
          {
            if j > 0 {
              assert StepTime(t, j) == StepTime(t + INTERVAL_MS, j - 1);
            }
          }
        }
        r
  }

  /** `getNextSpawnTime()` with the loop body corrected to add the spawn interval to the current
      minute. It returns the first 20-minute boundary after `now` outside the maintenance hour,
      and agrees with the code as written whenever that code returns. */
  function NextSpawnTimeFixed(z: TimeZone, now: Instant): (r: Result<Instant>)
    ensures r.Success? ==> !IsSkippedTime(z, r.value)
    ensures r.Success? ==> now < r.value <= now + (MAX_ADVANCES + 1) * INTERVAL_MS
    ensures r.Success? ==> r.value % INTERVAL_MS == 0
    ensures r.Success? ==>
      forall j :: 0 <= j < (r.value - FirstCandidate(now)) / INTERVAL_MS ==>
        IsSkippedTime(z, StepTime(FirstCandidate(now), j))
    ensures NextSpawnTime(z, now).Success? ==> r == NextSpawnTime(z, now)
  {
    var c := FirstCandidate(now);
    var r := AdvancePastSkipped(z, c, MAX_ADVANCES);
    if r.Success? then
      var k := (r.value - c) / INTERVAL_MS;
      assert r.value == c + k * INTERVAL_MS;
      assert r.value == (now / INTERVAL_MS + 1 + k) * INTERVAL_MS;
      ModAddMultiple(0, now / INTERVAL_MS + 1 + k, INTERVAL_MS);
      r
    else
      r
  }

  /** As long as the zone's offset is the same at the first candidate and an hour later, the
      corrected search always finds a boundary: three advances reach local hour 23. */
  lemma NextSpawnTimeFixedSucceeds(z: TimeZone, now: Instant)
    requires z.offsetMs(FirstCandidate(now) + HOUR_MS) == z.offsetMs(FirstCandidate(now))
    ensures NextSpawnTimeFixed(z, now).Success?
  {
    var c := FirstCandidate(now);
    assert StepTime(c, 0) == c;
    assert StepTime(c, 3) == c + HOUR_MS;
    LocalHourOneHourLater(z, c);
    assert !(IsSkippedTime(z, StepTime(c, 0)) && IsSkippedTime(z, StepTime(c, 3)));
  }

  /** At 22:05 New York daylight time (2025-04-11T02:05:00Z) the first candidate, 22:20, is in the
      maintenance hour, and the code as written throws instead of returning a time. */
  lemma NextSpawnTimeThrowsAt2205Edt()
    ensures FirstCandidate(1744337100000) == 1744338000000
    ensures NextSpawnTime(EDT, 1744337100000) == Failure(InvalidDate)
  {
    EdtLocalHour(1744338000000, 484534);
  }

  /** At the same instant the corrected search passes 22:20 and 22:40 and returns 23:00 EDT
      (2025-04-11T03:00:00Z). */
  lemma NextSpawnTimeFixedAt2205Edt()
    ensures NextSpawnTimeFixed(EDT, 1744337100000) == Success(1744340400000)
  {
    NextSpawnTimeThrowsAt2205Edt();
    EdtLocalHour(1744338000000 + INTERVAL_MS, 484534);
    EdtLocalHour(1744340400000, 484535);
    assert AdvancePastSkipped(EDT, 1744340400000, 1) == Success(1744340400000);
  }

  /** The local hour of `t` in EDT, when `t - 4h` is in absolute hour `n`. */
  lemma EdtLocalHour(t: Instant, n: int)
    requires n * HOUR_MS <= t - 4 * HOUR_MS < n * HOUR_MS + HOUR_MS
    ensures LocalHour(EDT, t) == n % 24
  {
    DivModUnique(t - 4 * HOUR_MS, HOUR_MS, n, t - 4 * HOUR_MS - n * HOUR_MS);
  }

  /** `getNextSpawnLocation`'s hour offset: difference of UTC hour fields, plus 24 when the UTC
      date has rolled over. For a `next` less than a day after `now`, it is the number of UTC hour
      boundaries between them. */
  function UtcHourOffset(now: Instant, next: Instant): (r: int)
    ensures now <= next < now + DAY_MS ==> r == next / HOUR_MS - now / HOUR_MS && 0 <= r
  {
    UtcHourOffsetCountsHours(now, next);
    UtcHours(next) - UtcHours(now) + if EpochDay(next) != EpochDay(now) then 24 else 0
  }

  lemma UtcHourOffsetCountsHours(now: Instant, next: Instant)
    ensures now <= next < now + DAY_MS ==>
      UtcHours(next) - UtcHours(now) + (if EpochDay(next) != EpochDay(now) then 24 else 0)
      == next / HOUR_MS - now / HOUR_MS
  {
    if now <= next < now + DAY_MS {
      DivDiv(now, HOUR_MS, 24);
      DivDiv(next, HOUR_MS, 24);
      assert now / HOUR_MS == 24 * EpochDay(now) + UtcHours(now);
      assert next / HOUR_MS == 24 * EpochDay(next) + UtcHours(next);
      assert EpochDay(now) <= EpochDay(next) <= EpochDay(now) + 1 by {
        DivModUnique(now + DAY_MS, DAY_MS, EpochDay(now) + 1, now % DAY_MS);
      }
    }
  }

  /** `getNextSpawnLocation()`: the spawn `getSpawn` reports at the offset of the next spawn time.
      It is the spawn of the hour that contains the next spawn time. */
  function NextSpawnLocation(z: TimeZone, now: Instant): (r: Result<Spawn>)
    ensures NextSpawnTimeFixed(z, now).Failure? ==> r.Failure?
    ensures NextSpawnTimeFixed(z, now).Success? ==>
      var next := NextSpawnTimeFixed(z, now).value;
      r == SpawnAt(z, (next - BASE_TIME) / HOUR_MS)
    ensures now >= BASE_TIME && NextSpawnTimeFixed(z, now).Success? ==>
      r.Success? && r.value.time <= NextSpawnTimeFixed(z, now).value < r.value.time + HOUR_MS
  {
    match NextSpawnTimeFixed(z, now)
    case Failure(e) => Failure(e)
    case Success(next) =>
      SpawnOfNext(z, now, next);
      GetSpawn(z, now, UtcHourOffset(now, next))
  }

  /** `getNextSpawnLocation()` as written, on top of the as-written `getNextSpawnTime()`: it throws
      whenever that call throws, that is whenever the first candidate is in the maintenance hour,
      and otherwise reports the same spawn as the corrected version. */
  function NextSpawnLocationAsWritten(z: TimeZone, now: Instant): (r: Result<Spawn>)
    ensures NextSpawnTime(z, now).Failure? ==> r == Failure(InvalidDate)
    ensures NextSpawnTime(z, now).Success? ==> r == NextSpawnLocation(z, now)
    ensures NextSpawnTime(z, now).Success? ==>
      r == SpawnAt(z, (NextSpawnTime(z, now).value - BASE_TIME) / HOUR_MS)
  {
    match NextSpawnTime(z, now)
    case Failure(e) => Failure(e)
    case Success(next) =>
      SpawnOfNext(z, now, next);
      GetSpawn(z, now, UtcHourOffset(now, next))
  }

  /** At 22:05 EDT the as-written location call throws, while the corrected one reports the spawn
      of the 23:00 EDT hour. */
  lemma NextSpawnLocationAt2205Edt()
    ensures NextSpawnLocationAsWritten(EDT, 1744337100000) == Failure(InvalidDate)
    ensures NextSpawnLocation(EDT, 1744337100000) == SpawnAt(EDT, (1744340400000 - BASE_TIME) / HOUR_MS)
    ensures NextSpawnLocation(EDT, 1744337100000).Success?
  {
    NextSpawnTimeThrowsAt2205Edt();
    NextSpawnTimeFixedAt2205Edt();
  }

  /** For a `next` within the day after `now`, `getSpawn` at the UTC hour offset is the spawn of
      the hour containing `next`. */
  lemma SpawnOfNext(z: TimeZone, now: Instant, next: Instant)
    requires now <= next < now + DAY_MS
    ensures GetSpawn(z, now, UtcHourOffset(now, next)) == SpawnAt(z, (next - BASE_TIME) / HOUR_MS)
    ensures now >= BASE_TIME ==>
      var r := GetSpawn(z, now, UtcHourOffset(now, next));
      r.Success? && r.value.time <= next < r.value.time + HOUR_MS
  {
    HoursOfNext(now, next);
  }

  /** With `BASE_TIME` on a whole hour, hours elapsed to `now` plus the hour boundaries between
      `now` and `next` are the hours elapsed to `next`. */
  lemma HoursOfNext(now: Instant, next: Instant)
    requires now <= next
    ensures HoursElapsed(now, next / HOUR_MS - now / HOUR_MS) == (next - BASE_TIME) / HOUR_MS
    ensures now >= BASE_TIME ==>
      SpawnTime((next - BASE_TIME) / HOUR_MS) <= next < SpawnTime((next - BASE_TIME) / HOUR_MS) + HOUR_MS
  {
    var b := BASE_TIME / HOUR_MS;
    assert BASE_TIME == b * HOUR_MS;
    DivModUnique(now - BASE_TIME, HOUR_MS, now / HOUR_MS - b, now % HOUR_MS);
    DivModUnique(next - BASE_TIME, HOUR_MS, next / HOUR_MS - b, next % HOUR_MS);
  }
}
