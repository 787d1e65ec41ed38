/** The list queries over scheduled activities: filter by activity
    identifier, filter to what is available today, and pick the schedule
    "closest to now". The wall clock the source reads is a parameter here:
    `now` for the closest schedule, and the bounds of the current day,
    `todayStart` and `todayEnd`, for the availability filter. */
module ScheduleExtensions {
  import opened Wrappers
  import opened Sequences
  import opened Sorting

  /** Nanoseconds in a second: `Duration.getNano()` lies in [0, NanosPerSecond). */
  const NanosPerSecond: int := 1_000_000_000

  /** The identifiers of the activity a schedule runs: `task.identifier`,
      `survey.identifier` and `compoundActivity.taskIdentifier`. A missing
      sub-object and a missing identifier are both `None`. */
  datatype Activity = Activity(
    taskIdentifier: Option<string>,
    surveyIdentifier: Option<string>,
    compoundTaskIdentifier: Option<string>)

  /** The fields of a scheduled-activity entity that the queries read. Times
      are `LocalDateTime`s, written as nanoseconds on one local timeline. */
  datatype Record = Record(
    activity: Option<Activity>,
    scheduledOn: Option<int>,
    expiresOn: Option<int>)

  // ---------------------------------------------------------------------------
  // filterByActivityId

  /** The selection test of `filterByActivityId`: comparing the non-null
      `activityId` with a null identifier is false. */
  predicate HasActivityId(x: Record, activityId: string) {
    && x.activity.Some?
    && (|| Some(activityId) == x.activity.value.taskIdentifier
        || Some(activityId) == x.activity.value.surveyIdentifier
        || Some(activityId) == x.activity.value.compoundTaskIdentifier)
  }

  /** The schedules whose activity has `activityId` as its task, survey or
      compound-task identifier, in their original order. */
  function FilterByActivityId(records: seq<Record>, activityId: string): (r: seq<Record>)
    ensures IsSubsequence(r, records)
    ensures forall x :: x in r <==> x in records && HasActivityId(x, activityId)
    ensures forall x :: x in r ==> x.activity.Some?
    ensures (forall x :: x in records ==> !HasActivityId(x, activityId)) ==> r == []
  {
    var r := Filter(records, x => HasActivityId(x, activityId));
    assert r != [] ==> r[0] in r;
    r
  }

  /** Every matching schedule is kept as often as it occurs, and nothing
      else; with the subsequence property this fixes the result exactly
      (`FilterIsUnique`). */
  lemma FilterByActivityIdCounts(records: seq<Record>, activityId: string)
    ensures forall x :: multiset(FilterByActivityId(records, activityId))[x]
                     == if HasActivityId(x, activityId) then multiset(records)[x] else 0
  {
    FilterMultiset(records, x => HasActivityId(x, activityId));
  }

  // ---------------------------------------------------------------------------
  // availableToday

  /** The selection test of `availableToday`, branch for branch: a schedule
      with an expiry must start before the end of today and expire after its
      start; one without must only start before the end of today. */
  predicate IsAvailableToday(x: Record, todayStart: int, todayEnd: int) {
    match x.scheduledOn
    case None => false
    case Some(scheduledOn) =>
      || (x.expiresOn.Some? && scheduledOn < todayEnd && x.expiresOn.value > todayStart)
      || (x.expiresOn.None? && scheduledOn < todayEnd)
  }

  /** The schedules available today, in their original order. The source's
      result type is nullable; the result is never null. */
  function AvailableToday(records: seq<Record>, todayStart: int, todayEnd: int): (r: Option<seq<Record>>)
    requires todayStart <= todayEnd
    ensures r.Some?
    ensures IsSubsequence(r.value, records)
    ensures forall x :: x in r.value <==>
      && x in records
      && x.scheduledOn.Some?
      && x.scheduledOn.value < todayEnd
      && (x.expiresOn.None? || x.expiresOn.value > todayStart)
    ensures forall x :: x in r.value ==> x.scheduledOn.Some?
  {
    Some(Filter(records, x => IsAvailableToday(x, todayStart, todayEnd)))
  }

  /** Every available schedule is kept as often as it occurs, and nothing else. */
  lemma AvailableTodayCounts(records: seq<Record>, todayStart: int, todayEnd: int)
    requires todayStart <= todayEnd
    ensures forall x :: multiset(AvailableToday(records, todayStart, todayEnd).value)[x]
                     == if IsAvailableToday(x, todayStart, todayEnd) then multiset(records)[x] else 0
  {
    FilterMultiset(records, x => IsAvailableToday(x, todayStart, todayEnd));
  }

  // ---------------------------------------------------------------------------
  // scheduleClosestToNow

  /** `Duration.between(now, t).nano`: the nanosecond-of-second field of the
      signed duration, which threeten normalises with a floor modulus. Dafny's
      `%` by a positive divisor is that floor modulus. It is NOT the distance
      between `now` and `t`: whole seconds are discarded. */
  function DurationNano(now: int, t: int): (n: int)
    ensures 0 <= n < NanosPerSecond
    ensures (t - now - n) % NanosPerSecond == 0
  {
    (t - now) % NanosPerSecond
  }

  /** Every schedule has a start time. */
  predicate AllScheduled(records: seq<Record>) {
    forall x :: x in records ==> x.scheduledOn.Some?
  }

  /** The comparator key of `scheduleClosestToNow`. `Duration.between` throws
      on a null start time; the callers below exclude that case, so the `0`
      is never compared. */
  function NanoKey(now: int): Record -> int {
    (x: Record) => if x.scheduledOn.Some? then DurationNano(now, x.scheduledOn.value) else 0
  }

  /** `sortedWith` by the nanosecond-of-second key, then `firstOrNull`.
      Although the source documents "the schedule that is closest to now", the
      key is the nano field of the duration, not its length (see
      `ClosestToNowByDistance`). The sort compares every element of a list of
      two or more, so one without a start time makes the source throw; a list
      of one is returned without comparing. */
  function ScheduleClosestToNow(records: seq<Record>, now: int): (r: Option<Record>)
    requires |records| >= 2 ==> AllScheduled(records)
    ensures r.None? <==> records == []
    ensures r.Some? ==> r.value in records
    ensures |records| == 1 ==> r == Some(records[0])
    ensures |records| >= 2 ==>
      exists i :: IsFirstMinimal(records, NanoKey(now), i) && r == Some(records[i])
  {
    var sorted := SortBy(records, NanoKey(now));
    if records == [] then FirstOrNull(sorted)
    else
      SortByHead(records, NanoKey(now));
      assert sorted[0] in multiset(records);
      assert IsFirstMinimal(records, NanoKey(now), FirstMinIndex(records, NanoKey(now)));
      FirstOrNull(sorted)
  }

  // ---------------------------------------------------------------------------
  // What "closest to now" evidently means

  function Abs(x: int): int { if x < 0 then -x else x }

  /** The length of the duration between `now` and the start time. */
  function DistanceKey(now: int): Record -> int {
    (x: Record) => if x.scheduledOn.Some? then Abs(x.scheduledOn.value - now) else 0
  }

  /** The schedule whose start time is nearest to `now`, the earliest in the
      input among equally near ones. */
  function ClosestToNowByDistance(records: seq<Record>, now: int): (r: Option<Record>)
    requires |records| >= 2 ==> AllScheduled(records)
    ensures r.None? <==> records == []
    ensures r.Some? ==> r.value in records
    ensures |records| == 1 ==> r == Some(records[0])
    ensures |records| >= 2 ==>
      exists i :: IsFirstMinimal(records, DistanceKey(now), i) && r == Some(records[i])
  {
    var sorted := SortBy(records, DistanceKey(now));
    if records == [] then FirstOrNull(sorted)
    else
      SortByHead(records, DistanceKey(now));
      assert sorted[0] in multiset(records);
      assert IsFirstMinimal(records, DistanceKey(now), FirstMinIndex(records, DistanceKey(now)));
      FirstOrNull(sorted)
  }

  /** Three schedules around `now`: an hour before, an hour after and half an
      hour before (09:00, 11:00 and 09:30 when `now` is 10:00). */
  function AroundNow(now: int): (s: seq<Record>)
    ensures |s| == 3 && AllScheduled(s)
  {
    [Record(None, Some(now - 3600 * NanosPerSecond), None),
     Record(None, Some(now + 3600 * NanosPerSecond), None),
     Record(None, Some(now - 1800 * NanosPerSecond), None)]
  }

  /** Every nano key of `AroundNow(now)` is 0, so the source returns the
      schedule an hour before `now` although the one half an hour before is
      nearer. */
  lemma NanoKeyMissesClosest(now: int)
    ensures ScheduleClosestToNow(AroundNow(now), now) == Some(AroundNow(now)[0])
    ensures Abs(AroundNow(now)[2].scheduledOn.value - now) < Abs(AroundNow(now)[0].scheduledOn.value - now)
  {
  }

  /** On the same schedules the distance key returns the one half an hour
      before `now`. */
  lemma ClosestByDistanceFindsClosest(now: int)
    ensures ClosestToNowByDistance(AroundNow(now), now) == Some(AroundNow(now)[2])
  {
  }
}
