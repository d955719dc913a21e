/** The civil calendar of a time zone, as `Intl.DateTimeFormat` with a `timeZone` option reports it:
    hour of day and weekday of an instant. The zone itself — America/New_York in the calculator —
    is a parameter: its daylight-saving rules are whatever its offset function says. */
module Zone {
  import opened Time

  /** A time zone given by its offset from UTC at each instant: the local wall clock at `t`
      reads `t + offsetMs(t)` milliseconds past the local epoch. */
  datatype TimeZone = TimeZone(offsetMs: Instant -> int)

  datatype Weekday = Sun | Mon | Tue | Wed | Thu | Fri | Sat

  /** America/New_York while daylight-saving time is in effect, as a fixed zone (UTC-4). */
  const EDT: TimeZone := TimeZone(t => -4 * HOUR_MS)

  /** America/New_York while standard time is in effect, as a fixed zone (UTC-5). */
  const EST: TimeZone := TimeZone(t => -5 * HOUR_MS)

  function LocalMs(z: TimeZone, t: Instant): int {
    t + z.offsetMs(t)
  }

  /** The `hour` part (24-hour clock) of `t` in zone `z`. */
  function LocalHour(z: TimeZone, t: Instant): (h: int)
    ensures 0 <= h < 24
    ensures h * HOUR_MS <= LocalMs(z, t) % DAY_MS < (h + 1) * HOUR_MS
  {
    HourOfDayWindow(LocalMs(z, t));
    (LocalMs(z, t) / HOUR_MS) % 24
  }

  /** The `weekday` part of `t` in zone `z`: Thursday exactly on the local days a multiple of
      seven days after 1970-01-01. */
  function LocalWeekday(z: TimeZone, t: Instant): (w: Weekday)
    ensures w == Thu <==> (LocalMs(z, t) / DAY_MS) % 7 == 0
  {
    WeekdayOfDay(LocalMs(z, t) / DAY_MS)
  }

  /** The weekday of day number `day` counted from 1970-01-01, which was a Thursday. */
  function WeekdayOfDay(day: int): (w: Weekday)
    ensures w == Thu <==> day % 7 == 0
  {
    match (day + 4) % 7
    case 0 => Sun
    case 1 => Mon
    case 2 => Tue
    case 3 => Wed
    case 4 => Thu
    case 5 => Fri
    case _ => Sat
  }

  /** `isSkippedTime`: the maintenance hour is 22:00-22:59 local time. */
  predicate IsSkippedTime(z: TimeZone, t: Instant)
    ensures IsSkippedTime(z, t) <==> 22 * HOUR_MS <= LocalMs(z, t) % DAY_MS < 23 * HOUR_MS
  {
    LocalHour(z, t) == 22
  }

  /** An hour later, with the zone's offset unchanged, the local clock reads one hour later. */
  lemma LocalHourOneHourLater(z: TimeZone, t: Instant)
    requires z.offsetMs(t + HOUR_MS) == z.offsetMs(t)
    ensures LocalHour(z, t + HOUR_MS) == (LocalHour(z, t) + 1) % 24
  {
    var l := LocalMs(z, t);
    assert LocalMs(z, t + HOUR_MS) == l + HOUR_MS;
    ModAddMultiple(l, 1, HOUR_MS);
    DivModUnique(l + HOUR_MS, HOUR_MS, l / HOUR_MS + 1, l % HOUR_MS);
    ModAddMultiple(l / HOUR_MS, 1, 24);
    var x := l / HOUR_MS;
    assert (x + 1) % 24 == (x % 24 + 1) % 24 by {
      ModOfShift(x + 1, x % 24 + 1 - 24, 24);
    }
  }
}
