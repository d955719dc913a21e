/** `getSpawn`: which chest and ore locations are active some whole number of hours from now. The
    rotation moves one slot forward every hour, and the day's starting slot moves one step back
    for every elapsed day and for every Thursday re-anchor event since the reference instant. */
module Rotation {
  import opened Time
  import opened Zone
  import opened Anchors
  import opened Results

  datatype Location = OrcVillage | SealedSanctuary | ShrineOfDevotion | ArkeumPost

  /** One slot of the rotation: where the chest and where the ore appear. */
  datatype SpawnPair = SpawnPair(chest: Location, ore: Location)

  /** `spawnLocations`: the cyclic rotation. */
  const SPAWN_LOCATIONS: seq<SpawnPair> := [
    SpawnPair(OrcVillage, SealedSanctuary),
    SpawnPair(SealedSanctuary, ShrineOfDevotion),
    SpawnPair(ShrineOfDevotion, ArkeumPost),
    SpawnPair(ArkeumPost, OrcVillage)
  ]

  /** `baseTime`: 2025-04-10T04:00:00Z, midnight of Thursday 10 April 2025 in New York (EDT). */
  const BASE_TIME: Instant := 1744257600000

  /** `baseAnchorIndex`: the slot active at `BASE_TIME`. */
  const BASE_ANCHOR_INDEX: int := 1

  /** What `getSpawn` returns. */
  datatype Spawn = Spawn(time: Instant, chest: Location, ore: Location, isSkipped: bool)

  /** `hoursElapsed`: whole hours from `BASE_TIME` to `now`, rounded down, plus `offset`. */
  function HoursElapsed(now: Instant, offset: int): int {
    (now - BASE_TIME) / HOUR_MS + offset
  }

  /** `spawnTime`: the instant `h` whole hours after `BASE_TIME`. */
  function SpawnTime(h: int): Instant {
    BASE_TIME + h * HOUR_MS
  }

  /** `hourOfDay`, computed with JavaScript's truncating `%`: negative when `h` is. */
  function HourOfDay(h: int): int {
    JsRem(h, 24)
  }

  /** `extraThursdayAnchors`: re-anchor events from `BASE_TIME` up to the spawn time. */
  function ExtraAnchors(z: TimeZone, h: int): nat {
    ExtraThursdayAnchors(z, BASE_TIME, SpawnTime(h))
  }

  /** `anchorIndex`: the day's starting slot, stepped back once per day and once per event. */
  function AnchorIndex(z: TimeZone, h: int): (a: int)
    ensures 0 <= a < |SPAWN_LOCATIONS|
    ensures a == (BASE_ANCHOR_INDEX - h / 24 - ExtraAnchors(z, h)) % 4
  {
    ArithmeticMod(BASE_ANCHOR_INDEX - h / 24 - ExtraAnchors(z, h), |SPAWN_LOCATIONS|)
  }

  /** `spawnIndex`, again with JavaScript's `%`: it is a valid index whenever `h >= 0`. */
  function SlotIndex(z: TimeZone, h: int): (i: int)
    ensures -|SPAWN_LOCATIONS| < i < |SPAWN_LOCATIONS|
    ensures h >= 0 ==> 0 <= i
  {
    JsRem(AnchorIndex(z, h) + HourOfDay(h), |SPAWN_LOCATIONS|)
  }

  /** The spawn `h` hours after `BASE_TIME`, or the `TypeError` the source throws when the slot
      index is negative. */
  function SpawnAt(z: TimeZone, h: int): (r: Result<Spawn>)
    ensures h >= 0 ==> r.Success?
    ensures r.Failure? <==>
      var x := AnchorIndex(z, h) + HourOfDay(h);
      x < 0 && x % 4 != 0
    ensures r.Failure? ==> r.error == UndefinedLocation
    ensures r.Success? ==>
      && r.value.time == SpawnTime(h)
      && SPAWN_LOCATIONS[SlotIndex(z, h)] == SpawnPair(r.value.chest, r.value.ore)
      && (r.value.isSkipped <==> LocalHour(z, r.value.time) == 22)
  {
    var i := SlotIndex(z, h);
    if i < 0 then
      Failure(UndefinedLocation)
    else
      var pair := SPAWN_LOCATIONS[i];
      Success(Spawn(SpawnTime(h), pair.chest, pair.ore, IsSkippedTime(z, SpawnTime(h))))
  }

  /** `getSpawn(offset)` at the clock reading `now`: the spawn of the hour, on the whole-hour grid
      through `BASE_TIME`, that contains the instant `offset` hours after `now`. */
  function GetSpawn(z: TimeZone, now: Instant, offset: int): (r: Result<Spawn>)
    ensures now + offset * HOUR_MS >= BASE_TIME ==> r.Success?
    ensures r.Success? ==>
      && r.value.time <= now + offset * HOUR_MS < r.value.time + HOUR_MS
      && (r.value.time - BASE_TIME) % HOUR_MS == 0
      && (r.value.isSkipped <==> IsSkippedTime(z, r.value.time))
  {
    var h := HoursElapsed(now, offset);
    var q := (now - BASE_TIME) / HOUR_MS;
    assert BASE_TIME + q * HOUR_MS <= now < BASE_TIME + q * HOUR_MS + HOUR_MS;
    assert SpawnTime(h) == BASE_TIME + q * HOUR_MS + offset * HOUR_MS;
    ModAddMultiple(0, h, HOUR_MS);
    SpawnAt(z, h)
  }

  /** `((x % 4) + y) % 4 == (x + y) % 4`. */
  lemma ModAddLeft(x: int, y: int)
    ensures (x % 4 + y) % 4 == (x + y) % 4
  {
    assert x % 4 + y == (x + y) + (-(x / 4)) * 4;
    ModAddMultiple(x + y, -(x / 4), 4);
  }

  /** The corrections are summed before one modulus is taken: from the reference slot, one step
      forward per elapsed hour, one back per elapsed day and one back per re-anchor event. */
  lemma SlotClosedForm(z: TimeZone, h: int)
    requires h >= 0
    ensures SlotIndex(z, h) == (BASE_ANCHOR_INDEX + h - h / 24 - ExtraAnchors(z, h)) % 4
  {
    var x := BASE_ANCHOR_INDEX - h / 24 - ExtraAnchors(z, h);
    assert HourOfDay(h) == h % 24;
    assert h % 24 == h + (-6 * (h / 24)) * 4;
    ModAddLeft(x, h % 24);
    ModAddMultiple(x + h, -6 * (h / 24), 4);
  }

  /** Moving `k` hours later advances the slot by `k`, less one for each day boundary and one for
      each re-anchor event crossed on the way. */
  lemma SlotShift(z: TimeZone, h: int, k: nat)
    requires h >= 0
    ensures SlotIndex(z, h + k) ==
      (SlotIndex(z, h) + k - ((h + k) / 24 - h / 24) - (ExtraAnchors(z, h + k) - ExtraAnchors(z, h))) % 4
  {
    SlotClosedForm(z, h);
    SlotClosedForm(z, h + k);
    ModAddLeft(BASE_ANCHOR_INDEX + h - h / 24 - ExtraAnchors(z, h),
               k - ((h + k) / 24 - h / 24) - (ExtraAnchors(z, h + k) - ExtraAnchors(z, h)));
  }

  /** Within the hour that starts at `BASE_TIME`, the current spawn is the reference slot: chest at
      Sealed Sanctuary, ore at Shrine of Devotion, whatever the time zone. */
  lemma FirstHourIsReferenceSlot(z: TimeZone, now: Instant)
    requires BASE_TIME <= now < BASE_TIME + HOUR_MS
    ensures GetSpawn(z, now, 0) ==
      Success(Spawn(BASE_TIME, SealedSanctuary, ShrineOfDevotion, IsSkippedTime(z, BASE_TIME)))
  {
    assert HoursElapsed(now, 0) == 0;
    AnchorsZeroBeforeFirstCandidate(z, BASE_TIME, BASE_TIME);
  }

  /** A day after the reference hour the slot has stepped back once for the day, and once more
      exactly when the first candidate event, `BASE_TIME + 4h`, is a Thursday in the zone. */
  lemma OneDayLater(z: TimeZone, now: Instant)
    requires BASE_TIME <= now < BASE_TIME + HOUR_MS
    ensures GetSpawn(z, now, 24).Success?
    ensures GetSpawn(z, now, 24).value.chest ==
      if LocalWeekday(z, BASE_TIME + 4 * HOUR_MS) == Thu then ArkeumPost else OrcVillage
  {
    assert HoursElapsed(now, 24) == 24;
    var to := SpawnTime(24);
    assert TotalDays(BASE_TIME, to) == 1;
    assert !IsAnchorEvent(z, BASE_TIME, to, 1);
    assert EventTime(BASE_TIME, 0) == BASE_TIME + 4 * HOUR_MS;
    assert ExtraAnchors(z, 24) == CountUpTo(z, BASE_TIME, to, 2);
    assert CountUpTo(z, BASE_TIME, to, 2) == CountUpTo(z, BASE_TIME, to, 1);
  }

  /** The reference instant is midnight at the start of a Thursday in New York, so under daylight
      time the first candidate event is a Thursday and the day-later slot is Arkeum Post. */
  lemma OneDayLaterInEdt(now: Instant)
    requires BASE_TIME <= now < BASE_TIME + HOUR_MS
    ensures LocalHour(EDT, BASE_TIME) == 0 && LocalWeekday(EDT, BASE_TIME) == Thu
    ensures GetSpawn(EDT, now, 24).Success?
    ensures GetSpawn(EDT, now, 24).value.chest == ArkeumPost
  {
    assert LocalMs(EDT, BASE_TIME) == 20188 * DAY_MS;
    assert LocalMs(EDT, BASE_TIME + 4 * HOUR_MS) == 20188 * DAY_MS + 4 * HOUR_MS;
    DivModUnique(20188 * DAY_MS, HOUR_MS, 20188 * 24, 0);
    DivModUnique(20188 * DAY_MS, DAY_MS, 20188, 0);
    DivModUnique(20188 * DAY_MS + 4 * HOUR_MS, DAY_MS, 20188, 4 * HOUR_MS);
    assert LocalWeekday(EDT, BASE_TIME + 4 * HOUR_MS) == Thu;
    OneDayLater(EDT, now);
  }

  /** Day 0's candidate `BASE_TIME + 4h` reads 04:00 in New York daylight time but 03:00 in
      standard time: the candidate is a fixed UTC offset from `BASE_TIME`, not 04:00 local. */
  lemma DayZeroCandidateLocalHour()
    ensures LocalHour(EDT, EventTime(BASE_TIME, 0)) == 4
    ensures LocalHour(EST, EventTime(BASE_TIME, 0)) == 3
  {
    assert LocalMs(EDT, EventTime(BASE_TIME, 0)) == 20188 * DAY_MS + 4 * HOUR_MS;
    assert LocalMs(EST, EventTime(BASE_TIME, 0)) == 20188 * DAY_MS + 3 * HOUR_MS;
    DivModUnique(20188 * DAY_MS + 4 * HOUR_MS, HOUR_MS, 20188 * 24 + 4, 0);
    DivModUnique(20188 * DAY_MS + 3 * HOUR_MS, HOUR_MS, 20188 * 24 + 3, 0);
  }
}
