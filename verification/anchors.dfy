/** `countExtraThursdayAnchors`: the weekly re-anchor events between two instants. Day `d` of the
    scan has the candidate instant `from + d days + 4 hours`, a fixed number of UTC milliseconds
    after `from`; it counts when it is no later than `to` and falls on a Thursday in the zone. */
module Anchors {
  import opened Time
  import opened Zone

  /** The candidate event instant of day `d`. */
  function EventTime(from: Instant, d: int): Instant {
    from + d * DAY_MS + 4 * HOUR_MS
  }

  /** Whether day `d`'s candidate is counted for the interval ending at `to`. */
  predicate IsAnchorEvent(z: TimeZone, from: Instant, to: Instant, d: int) {
    to >= EventTime(from, d) && LocalWeekday(z, EventTime(from, d)) == Thu
  }

  /** `totalDays`: whole days from `from` to `to`, rounded down (negative when `to < from`). */
  function TotalDays(from: Instant, to: Instant): int {
    (to - from) / DAY_MS
  }

  /** Reference count: how many of the days `0 .. n-1` are counted events. */
  function CountUpTo(z: TimeZone, from: Instant, to: Instant, n: int): (r: nat)
    ensures r <= if n < 0 then 0 else n
    decreases n
  {
    if n <= 0 then 0
    else CountUpTo(z, from, to, n - 1) + if IsAnchorEvent(z, from, to, n - 1) then 1 else 0
  }

  /** The value of `countExtraThursdayAnchors(from, to)`: the scan covers days `0 .. totalDays`. */
  function ExtraThursdayAnchors(z: TimeZone, from: Instant, to: Instant): (r: nat)
    ensures r <= if TotalDays(from, to) < 0 then 0 else TotalDays(from, to) + 1
  {
    CountUpTo(z, from, to, TotalDays(from, to) + 1)
  }

  /** The day-by-day loop of `countExtraThursdayAnchors`. */
  method CountExtraThursdayAnchors(z: TimeZone, from: Instant, to: Instant) returns (count: nat)
    ensures count == ExtraThursdayAnchors(z, from, to)
    ensures count <= if to < from then 0 else (to - from) / DAY_MS + 1
  {
    count := 0;
    var totalDays := (to - from) / DAY_MS;
    var d := 0;
    while d <= totalDays
      invariant 0 <= d
      invariant d <= totalDays + 1 || d == 0
      invariant count == CountUpTo(z, from, to, d)
    {
      var eventTime := from + d * DAY_MS + 4 * HOUR_MS;
      if to >= eventTime {
        if LocalWeekday(z, eventTime) == Thu {
          count := count + 1;
        }
      }
      d := d + 1;
    }
  }

  /** Days whose candidate lies after `to` are never counted: the scan could go on past
      `totalDays` without changing the result. */
  lemma {:induction false} CountUpToSaturates(z: TimeZone, from: Instant, to: Instant, n: int)
    requires n >= TotalDays(from, to) + 1
    ensures CountUpTo(z, from, to, n) == ExtraThursdayAnchors(z, from, to)
    decreases n - TotalDays(from, to)
  {
    if n > TotalDays(from, to) + 1 {
      CountUpToSaturates(z, from, to, n - 1);
      assert !IsAnchorEvent(z, from, to, n - 1) by {
        EventAfterLastDay(from, to, n - 1);
      }
    }
  }

  /** The candidate of any day past `totalDays` lies strictly after `to`. */
  lemma EventAfterLastDay(from: Instant, to: Instant, d: int)
    requires d >= TotalDays(from, to) + 1
    ensures EventTime(from, d) > to
  {
    var t := TotalDays(from, to);
    assert to - from == t * DAY_MS + (to - from) % DAY_MS;
    assert d * DAY_MS >= (t + 1) * DAY_MS by {
      MulMonoInt(t + 1, d, DAY_MS);
    }
  }

  lemma MulMonoInt(x: int, y: int, a: int)
    requires x <= y && a > 0
    ensures x * a <= y * a
  {
    assert y * a - x * a == (y - x) * a;
  }

  /** No event precedes the first candidate, `from + 4h`. */
  lemma {:induction false} NoEventsBeforeFirstCandidate(z: TimeZone, from: Instant, to: Instant, n: int)
    requires to < from + 4 * HOUR_MS
    ensures CountUpTo(z, from, to, n) == 0
    decreases n
  {
    if n > 0 {
      NoEventsBeforeFirstCandidate(z, from, to, n - 1);
      assert EventTime(from, n - 1) > to by {
        if n - 1 > 0 {
          MulMonoInt(0, n - 1, DAY_MS);
        }
      }
    }
  }

  /** The count is zero until the first candidate is reached, in particular when `from == to`. */
  lemma AnchorsZeroBeforeFirstCandidate(z: TimeZone, from: Instant, to: Instant)
    requires to < from + 4 * HOUR_MS
    ensures ExtraThursdayAnchors(z, from, to) == 0
  {
    NoEventsBeforeFirstCandidate(z, from, to, TotalDays(from, to) + 1);
  }

  /** Extending the interval adds exactly the events whose candidate falls after the old end:
      two end instants never disagree about the events before the earlier one. */
  lemma {:induction false} CountUpToSplit(z: TimeZone, from: Instant, to1: Instant, to2: Instant, n: int)
    requires to1 <= to2
    ensures CountUpTo(z, from, to2, n) ==
            CountUpTo(z, from, to1, n) + CountBetween(z, from, to1, to2, n)
    decreases n
  {
    if n > 0 {
      CountUpToSplit(z, from, to1, to2, n - 1);
    }
  }

  /** How many of days `0 .. n-1` have a Thursday candidate in `(to1, to2]`. */
  function CountBetween(z: TimeZone, from: Instant, to1: Instant, to2: Instant, n: int): (r: nat)
    ensures r <= if n < 0 then 0 else n
    decreases n
  {
    if n <= 0 then 0
    else
      CountBetween(z, from, to1, to2, n - 1) +
      if to1 < EventTime(from, n - 1) && IsAnchorEvent(z, from, to2, n - 1) then 1 else 0
  }

  /** Moving the end from `to1` to a later `to2` adds exactly the Thursday candidates in
      `(to1, to2]`; the events up to `to1` are the same for both ends. */
  lemma AnchorsSplit(z: TimeZone, from: Instant, to1: Instant, to2: Instant)
    requires to1 <= to2
    ensures ExtraThursdayAnchors(z, from, to2) ==
            ExtraThursdayAnchors(z, from, to1) + CountBetween(z, from, to1, to2, TotalDays(from, to2) + 1)
  {
    var n := TotalDays(from, to2) + 1;
    assert TotalDays(from, to1) <= TotalDays(from, to2);
    CountUpToSaturates(z, from, to1, n);
    CountUpToSplit(z, from, to1, to2, n);
  }

  /** For a fixed start, the count never decreases as the end instant moves later. */
  lemma AnchorsMonotone(z: TimeZone, from: Instant, to1: Instant, to2: Instant)
    requires to1 <= to2
    ensures ExtraThursdayAnchors(z, from, to1) <= ExtraThursdayAnchors(z, from, to2)
  {
    AnchorsSplit(z, from, to1, to2);
  }
}
