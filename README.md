# Scheduled-activity list queries

A Dafny model of the three list extensions over `ScheduledActivityEntity` in
`ScheduleExtensions.kt` of the Sage Research Android SDK:

- `filterByActivityId`: the schedules whose activity carries a given task,
  survey or compound-task identifier;
- `availableToday`: the schedules that start before the end of today and
  have not expired before its start;
- `scheduleClosestToNow`: a stable sort by a key computed against the
  current time, followed by `firstOrNull`.

All three are pure in the source (a `filter`, or `sortedWith` then
`firstOrNull`, over a fresh list), so they are Dafny functions over
`seq<Record>`. The clock reads become parameters: `now` for
`scheduleClosestToNow`, and the bounds of the current day (`todayStart`,
`todayEnd`) for `availableToday`. Times are integers: nanoseconds on one
local timeline, the resolution of `LocalDateTime`.

Files:

- `wrappers.dfy`: `Option` (Kotlin's nullable types) and `FirstOrNull`.
- `sequences.dfy`: Kotlin's `filter` as `Filter`, the subsequence relation
  and the lemmas that pin a filter's result down exactly.
- `sorting.dfy`: `sortedWith` for a comparator on one integer key, as a
  stable insertion sort, and the "first element with the least key" that
  its head always is.
- `schedule_extensions.dfy`: the record model and the three queries.

Decisions where the source leaves something open:

- The comparator of `scheduleClosestToNow` compares
  `Duration.between(now, scheduledOn).nano`. That is the nanosecond-of-second
  field of the signed duration, a value in [0, 10^9). It is not the length of
  the duration. The model uses that key, `(t - now) % 10^9`, because Dafny's
  `%` by a positive divisor is the floor modulus that threeten normalises
  with. A description of "the closest schedule" by absolute distance
  disagrees with the code; the model follows the code and records the
  difference under Findings.
- `Duration.between` throws on a null `scheduledOn`. Kotlin's `sortedWith`
  returns a list of at most one element without calling the comparator, and
  sorts longer lists by comparing every element. `ScheduleClosestToNow`
  therefore requires a start time on every record when there are two or more.
- `availableToday` has a nullable result type but always returns a list; the
  model returns `Option<seq<Record>>` and proves it is `Some`.
- The window bounds come from `startOfDay()` and `endOfDay()` of the current
  time. Those helpers are not part of this model, so `AvailableToday` takes
  the bounds as parameters with `todayStart <= todayEnd`. Both comparisons are
  strict, as `isBefore` and `isAfter` are.
- A missing `task`, `survey` or `compoundActivity` sub-object and a missing
  identifier inside one both read as `None`. Comparing the non-null
  `activityId` with either is false.

## Model

| member | source | states |
|---|---|---|
| `ScheduleExtensions.FilterByActivityId` | sageresearch-app-sdk/src/main/java/org/sagebionetworks/research/sageresearch/extensions/ScheduleExtensions.kt:42-48 | the result is an order-preserving subsequence of the input; a record is in it iff it is in the input, its activity is present and `activityId` equals its task, survey or compound-task identifier; no result lacks an activity; no match gives the empty list |
| `ScheduleExtensions.FilterByActivityIdCounts` | sageresearch-app-sdk/src/main/java/org/sagebionetworks/research/sageresearch/extensions/ScheduleExtensions.kt:43-47 | every matching record is kept as many times as it occurs in the input, every other record zero times |
| `ScheduleExtensions.AvailableToday` | sageresearch-app-sdk/src/main/java/org/sagebionetworks/research/sageresearch/extensions/ScheduleExtensions.kt:54-64 | the nullable result is never null; it is an order-preserving subsequence of the input; a record is in it iff `scheduledOn` is present and strictly before `todayEnd`, and `expiresOn` is absent or strictly after `todayStart`; no result lacks `scheduledOn` |
| `ScheduleExtensions.AvailableTodayCounts` | sageresearch-app-sdk/src/main/java/org/sagebionetworks/research/sageresearch/extensions/ScheduleExtensions.kt:57-63 | every available record is kept as many times as it occurs in the input, every other record zero times |
| `ScheduleExtensions.DurationNano` | sageresearch-app-sdk/src/main/java/org/sagebionetworks/research/sageresearch/extensions/ScheduleExtensions.kt:72-73 | the comparator key lies in [0, 10^9) and differs from the signed distance `t - now` by a whole number of seconds |
| `ScheduleExtensions.ScheduleClosestToNow` | sageresearch-app-sdk/src/main/java/org/sagebionetworks/research/sageresearch/extensions/ScheduleExtensions.kt:69-75 | null iff the input is empty; otherwise an element of the input; a one-element list returns its element; with two or more, the result is the element at the first position whose nano key is no greater than any other's, and every earlier element has a strictly greater key (stable tie-break) |
| `ScheduleExtensions.ClosestToNowByDistance` | sageresearch-app-sdk/src/main/java/org/sagebionetworks/research/sageresearch/extensions/ScheduleExtensions.kt:66-69 | the documented intent: null iff the input is empty; otherwise the first element whose start time is at least as near to `now`, in absolute distance, as every other's |
| `ScheduleExtensions.NanoKeyMissesClosest` | sageresearch-app-sdk/src/main/java/org/sagebionetworks/research/sageresearch/extensions/ScheduleExtensions.kt:67-74 | for schedules an hour before, an hour after and half an hour before `now`, the source returns the one an hour before although the half-hour one is strictly nearer |
| `ScheduleExtensions.ClosestByDistanceFindsClosest` | sageresearch-app-sdk/src/main/java/org/sagebionetworks/research/sageresearch/extensions/ScheduleExtensions.kt:66-67 | on the same schedules the distance key returns the one half an hour before `now` |
| `Sequences.Filter` | sageresearch-app-sdk/src/main/java/org/sagebionetworks/research/sageresearch/extensions/ScheduleExtensions.kt:43 | Kotlin's `filter`: the result is no longer than the input, is a subsequence of it, and holds exactly the input's elements that satisfy the predicate |
| `Sequences.FilterMultiset` | sageresearch-app-sdk/src/main/java/org/sagebionetworks/research/sageresearch/extensions/ScheduleExtensions.kt:57 | `filter` keeps every satisfying element as often as it occurs and drops every other |
| `Sequences.FilterIsUnique` | sageresearch-app-sdk/src/main/java/org/sagebionetworks/research/sageresearch/extensions/ScheduleExtensions.kt:43 | any subsequence of the input holding each satisfying element as often as the input does, and nothing else, is the filter's result: the properties above determine the result |
| `Sequences.FilterAppend` | sageresearch-app-sdk/src/main/java/org/sagebionetworks/research/sageresearch/extensions/ScheduleExtensions.kt:57 | filtering a concatenation is concatenating the filtered parts |
| `Sorting.SortBy` | sageresearch-app-sdk/src/main/java/org/sagebionetworks/research/sageresearch/extensions/ScheduleExtensions.kt:71 | `sortedWith` on a key comparator: the result is sorted by the key and is a permutation of the input |
| `Sorting.SortByIsStable` | sageresearch-app-sdk/src/main/java/org/sagebionetworks/research/sageresearch/extensions/ScheduleExtensions.kt:71 | the sort is stable: for every key value, the elements with that key appear in the same order as in the input |
| `Sorting.FirstMinIndex` | sageresearch-app-sdk/src/main/java/org/sagebionetworks/research/sageresearch/extensions/ScheduleExtensions.kt:71-74 | a reference definition: the first position holding the least key of a non-empty list |
| `Sorting.SortByHead` | sageresearch-app-sdk/src/main/java/org/sagebionetworks/research/sageresearch/extensions/ScheduleExtensions.kt:71-74 | the head of the stable sort is the element at the first position with the least key, so `sortedWith(...).firstOrNull()` picks it |
| `Wrappers.FirstOrNull` | sageresearch-app-sdk/src/main/java/org/sagebionetworks/research/sageresearch/extensions/ScheduleExtensions.kt:74 | `firstOrNull`: null iff the list is empty, otherwise its head |

## Left out

- The wall-clock reads (`LocalDateTime.now()`, three of them) are parameters. The two reads for one `availableToday` call can fall on different days; the model takes one pair of bounds and does not capture that race.
- `startOfDay()` and `endOfDay()` are not part of this model: the day bounds are inputs, and whether `todayEnd` is the last instant of the day or the next midnight is the caller's choice.
- `LocalDateTime` calendar arithmetic and threeten's `Duration` internals: times are integer nanoseconds; only the normalised nano field of `Duration.between` is modelled.
- The sort is an insertion sort, not the TimSort the JVM runs. Both are stable and give the same list for the same key, and the model proves only what a stable sort promises.
- The receiver list is never changed by the source (`filter` and `sortedWith` build new lists, `filterByActivityId` also copies first); Dafny sequences are values, so the model has no aliasing to speak of.
- The Room persistence of `ScheduledActivityEntity` and its other fields. Two entities that agree on the three modelled fields are equal in the model.
- The exception `Duration.between` throws on a null `scheduledOn` is excluded by a precondition of `ScheduleClosestToNow`, not modelled as an error value.
- `DataGroupQuestionStep.java` is not part of this model: a UI step whose only logic asks a global server session for data groups.

## Findings

| source | as written | input that shows it | evidently intended | confidence | as-written member | corrected member |
|---|---|---|---|---|---|---|
| sageresearch-app-sdk/src/main/java/org/sagebionetworks/research/sageresearch/extensions/ScheduleExtensions.kt:71-74 | the comparator compares `Duration.between(now, scheduledOn).nano`, the nanosecond-of-second field, which discards whole seconds | `now` at 10:00 and schedules at 09:00, 11:00 and 09:30: every key is 0, so the 09:00 schedule is returned | "the schedule that is closest to now": compare the absolute length of the duration, which returns the 09:30 schedule | high (not executed) | `ScheduleExtensions.NanoKeyMissesClosest` | `ScheduleExtensions.ClosestToNowByDistance` |
