/** The schedule cursor of `loadMoreSpawns`: the list of upcoming spawns shown so far and the hour
    offset (`loadOffset`) at which the next batch starts. */
module Schedule {
  import opened Time
  import opened Zone
  import opened Results
  import opened Rotation

  /** `loadOffset.current` and the `futureSpawns` list. */
  datatype Schedule = Schedule(cursor: int, spawns: seq<Spawn>)

  /** The state the page starts in: offset 0 and no spawns. */
  const INITIAL: Schedule := Schedule(0, [])

  /** Every spawn in the list is `getSpawn` of its own position, and the cursor is the list's
      length: the list is exactly the spawns at offsets `0 .. cursor-1`. */
  ghost predicate Consistent(z: TimeZone, now: Instant, s: Schedule) {
    && s.cursor == |s.spawns|
    && forall i :: 0 <= i < |s.spawns| ==> GetSpawn(z, now, i) == Success(s.spawns[i])
  }

  /** `loadMoreSpawns(count)` at the clock reading `now`: compute `getSpawn(i)` for the `count`
      offsets from the cursor on, append them and advance the cursor by `count`. If one of them
      throws, nothing is appended and the cursor stays where it was. */
  method LoadMoreSpawns(z: TimeZone, now: Instant, s: Schedule, count: int) returns (r: Result<Schedule>)
    ensures r.Success? ==> r.value.cursor == s.cursor + count
    ensures r.Success? ==>
      && |r.value.spawns| == |s.spawns| + (if count < 0 then 0 else count)
      && r.value.spawns[..|s.spawns|] == s.spawns
      && forall i :: s.cursor <= i < s.cursor + count ==>
           GetSpawn(z, now, i) == Success(r.value.spawns[|s.spawns| + (i - s.cursor)])
    ensures r.Failure? <==> exists i :: s.cursor <= i < s.cursor + count && GetSpawn(z, now, i).Failure?
    ensures now >= BASE_TIME && s.cursor >= 0 ==> r.Success?
    ensures Consistent(z, now, s) && count >= 0 && r.Success? ==> Consistent(z, now, r.value)
  {
    var newSpawns: seq<Spawn> := [];
    var i := s.cursor;
    while i < s.cursor + count
      invariant s.cursor <= i
      invariant i <= s.cursor + count || i == s.cursor
      invariant |newSpawns| == i - s.cursor
      invariant forall j :: s.cursor <= j < i ==> GetSpawn(z, now, j) == Success(newSpawns[j - s.cursor])
    {
      var spawn := GetSpawn(z, now, i);
      if spawn.Failure? {
        return Failure(spawn.error);
      }
      newSpawns := newSpawns + [spawn.value];
      i := i + 1;
    }
    r := Success(Schedule(s.cursor + count, s.spawns + newSpawns));
  }

  /** Loading batches one after another from the initial state keeps the list equal to the
      spawns at offsets `0 .. cursor-1`. */
  method LoadBatches(z: TimeZone, now: Instant, counts: seq<nat>) returns (r: Result<Schedule>)
    ensures r.Success? ==> Consistent(z, now, r.value)
    ensures now >= BASE_TIME ==> r.Success?
  {
    var s := INITIAL;
    var k := 0;
    while k < |counts|
      invariant 0 <= k <= |counts|
      invariant Consistent(z, now, s)
    {
      var next := LoadMoreSpawns(z, now, s, counts[k]);
      if next.Failure? {
        return next;
      }
      s := next.value;
      k := k + 1;
    }
    r := Success(s);
  }
}
