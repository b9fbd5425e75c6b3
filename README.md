# Meeting-availability solver (FindMeetingQuery), modelled in Dafny

The model covers the meeting-availability solver of the step-portfolio
repository. The solver takes a list of calendar events and a meeting request.
It returns the ranges of the day, in minutes `[0, 1440)`, in which the
attendees are all free for at least the requested duration. It works as a
pipeline:

- reject a request longer than a day;
- build the attendee set: the mandatory attendees, plus the optional ones when they are considered;
- keep the ranges of the events that share an attendee with that set;
- sort those ranges by start, merge overlapping ones, and invert them against the day;
- drop the free ranges that are too short;
- if the pass with optional attendees finds nothing and there are mandatory attendees, run the pass again with the mandatory attendees only.

Modules:

- `Calendar` (calendar.dfy): the minimal time-range, event and request values the solver uses.
  - Ranges are half open, so `[0,60)` and `[60,120)` do not overlap.
  - The module also holds predicates on lists of ranges: sorted by start, ascending, pairwise non-overlapping, inside the day, and covering a minute.
- `Sorting` (sorting.dfy): the by-start sort, modelled as a stable insertion sort.
  - It is proved to sort, to permute and to be stable.
- `FindMeetingQuery` (find_meeting_query.dfy): every step of the source as a specification function.
  - The source's loops are methods proved to compute exactly those functions:
    - `MergeTimeRanges`: the nested `i`/`j` loops, including the `i = j` jump;
    - `FindAvailableTimes`: the cursor loop;
    - `QueryHelper`, which calls the other two.
  - The query itself is straight-line branching and is the function `QueryResult`.
- `FreeTimeProofs`, `MergeProofs` and `QueryProofs`: what the inversion, the merge and the whole query promise, as written.
  - A pass is *sound* when every range it returns lies in the day, lasts at least the duration, meets no busy event, and the ranges ascend.
  - A pass is *complete* when every free window of the day that is long enough lies inside one returned range.
  - The source's passes are proved complete whenever the events lie in the day.
  - They are proved sound when, in addition, the busy ranges of the attendee set do not overlap one another.
  - Without that hypothesis a pass can return a range that meets a busy event (see Findings).
- `UnionMerge` and `IntendedQuery`: the merge the source evidently intends, which takes the union of each group of overlapping ranges, and the solver rebuilt on it.
  - The rebuilt solver is proved sound and complete on every input whose events lie in the day.
- `Scenarios`: worked requests for the solver as written.

The merge step's own documentation (FindMeetingQuery.java:135) says it merges the ranges that overlap each other, and its result is named `unavailableNoOverlaps` (line 79). The code does something else: it compares each range with the first range of its group, and keeps the larger of that first range's end and the latest member's end. The model follows the code. The merge that the documentation describes, the union of each group of overlapping ranges, is `UnionMerge.MergeUnion`.

## Model

Source paths are relative to the repository root.

| member | source | states |
|---|---|---|
| FindMeetingQuery.HasMeetingAttendee | walkthroughs/week-5-tdd/project/src/main/java/com/google/sps/FindMeetingQuery.java:190-195 | An event concerns the meeting exactly when its attendees and the meeting's attendees share a person. |
| FindMeetingQuery.UnavailableTimes | walkthroughs/week-5-tdd/project/src/main/java/com/google/sps/FindMeetingQuery.java:170-181 | A range is busy iff some event with that range has a meeting attendee. There are no busy ranges iff no event shares an attendee. There are never more busy ranges than events. |
| FindMeetingQuery.Attendees | walkthroughs/week-5-tdd/project/src/main/java/com/google/sps/FindMeetingQuery.java:61-64 | The pass's attendee set holds the mandatory attendees, holds the optional ones when they are considered, and holds nobody else. |
| FindMeetingQuery.RemoveShortRanges | walkthroughs/week-5-tdd/project/src/main/java/com/google/sps/FindMeetingQuery.java:96-104 | The filter keeps exactly the ranges that last at least the duration. It never adds a range. |
| FindMeetingQuery.Available | walkthroughs/week-5-tdd/project/src/main/java/com/google/sps/FindMeetingQuery.java:58-88 | When the duration fits in a day, every range a pass returns lasts at least the duration. |
| FindMeetingQuery.QueryResult | walkthroughs/week-5-tdd/project/src/main/java/com/google/sps/FindMeetingQuery.java:34-46 | A request longer than 1440 minutes gets nothing, whatever the events. Every returned range lasts at least the duration. Otherwise the answer is the pass with optional attendees, unless that pass is empty and there are mandatory attendees; then it is the pass with mandatory attendees only. |
| FindMeetingQuery.MergeTimeRanges | walkthroughs/week-5-tdd/project/src/main/java/com/google/sps/FindMeetingQuery.java:139-160 | The nested loops, with the inner loop's `i = j` and `break`, compute exactly `Merge`, whose properties are proved in `MergeProofs`. |
| FindMeetingQuery.FindAvailableTimes | walkthroughs/week-5-tdd/project/src/main/java/com/google/sps/FindMeetingQuery.java:111-132 | The cursor loop and the final gap after it compute exactly `FreeTimes`, whose properties are proved in `FreeTimeProofs`. |
| FindMeetingQuery.QueryHelper | walkthroughs/week-5-tdd/project/src/main/java/com/google/sps/FindMeetingQuery.java:58-88 | The helper returns exactly one pass `Available`: attendee set, the two early `[WHOLE_DAY]` exits, sort, merge, inversion and filter. |
| Sorting.SortByStart | walkthroughs/week-5-tdd/project/src/main/java/com/google/sps/FindMeetingQuery.java:77 | The sorted busy list is ordered by start and is a permutation of its input. |
| Sorting.SortByStartIsStable | walkthroughs/week-5-tdd/project/src/main/java/com/google/sps/FindMeetingQuery.java:77 | For every start minute, the ranges starting there keep their input order, as with the library's stable sort. |
| Sorting.SortByStartKeepsNonOverlapping | walkthroughs/week-5-tdd/project/src/main/java/com/google/sps/FindMeetingQuery.java:77 | Sorting pairwise non-overlapping ranges keeps them pairwise non-overlapping. |
| FreeTimeProofs.FreeTimesComplete | walkthroughs/week-5-tdd/project/src/main/java/com/google/sps/FindMeetingQuery.java:111-132 | For non-empty busy ranges in any order, even overlapping ones, every window of the day that meets no busy range lies inside one free range. |
| FreeTimeProofs.FreeTimesCorrect | walkthroughs/week-5-tdd/project/src/main/java/com/google/sps/FindMeetingQuery.java:111-132 | Given ascending, disjoint busy ranges inside the day, the free ranges are non-empty, lie in the day and ascend. They meet no busy range. Together with the busy ranges they cover every minute of the day. Every window meeting no busy range lies inside one free range. |
| MergeProofs.MergeFixpoint | walkthroughs/week-5-tdd/project/src/main/java/com/google/sps/FindMeetingQuery.java:139-160 | The merge returns a pairwise non-overlapping list unchanged. Touching ranges count as non-overlapping. |
| MergeProofs.MergeIdempotent | walkthroughs/week-5-tdd/project/src/main/java/com/google/sps/FindMeetingQuery.java:139-160 | Merging the merge's output again changes nothing when that output is non-overlapping. |
| MergeProofs.MergeShape | walkthroughs/week-5-tdd/project/src/main/java/com/google/sps/FindMeetingQuery.java:139-160 | The merge's output is never longer than its input. Every output range starts where some input range starts. |
| MergeProofs.MergeInDay | walkthroughs/week-5-tdd/project/src/main/java/com/google/sps/FindMeetingQuery.java:139-160 | Merging ranges that lie inside the day gives ranges that lie inside the day. |
| MergeProofs.MergeWithinInput | walkthroughs/week-5-tdd/project/src/main/java/com/google/sps/FindMeetingQuery.java:144-159 | Every minute of a merged range lies in some input range, when the input ranges are non-empty. The merge may lose busy minutes but never makes them up. |
| MergeProofs.MergeHeadedByWholeDay | walkthroughs/week-5-tdd/project/src/main/java/com/google/sps/FindMeetingQuery.java:144-159 | Ranges of the day whose first range is the whole day merge to exactly `[0,1440)`. |
| MergeProofs.MergeLosesChainedOverlap | walkthroughs/week-5-tdd/project/src/main/java/com/google/sps/FindMeetingQuery.java:151-152 | As written, `[0,10),[5,50),[6,20)` merges to `[0,20)`, not to `[0,50)`. |
| MergeProofs.MergeOutputOverlaps | walkthroughs/week-5-tdd/project/src/main/java/com/google/sps/FindMeetingQuery.java:149-158 | As written, `[0,10),[5,50),[15,60)` merges to the overlapping ranges `[0,50),[15,60)`. Inverting them emits the inverted range `[50,15)`. |
| UnionMerge.MergeUnionCorrect | walkthroughs/week-5-tdd/project/src/main/java/com/google/sps/FindMeetingQuery.java:139-160 | The corrected merge of sorted in-day ranges gives in-day, ascending, disjoint ranges covering exactly the minutes its input covers. |
| UnionMerge.MergeUnionAgreesOnNonOverlapping | walkthroughs/week-5-tdd/project/src/main/java/com/google/sps/FindMeetingQuery.java:139-160 | On non-empty, pairwise non-overlapping ranges the corrected merge, the source's merge and the input all coincide. |
| QueryProofs.RemoveShortRangesKeepsAscending | walkthroughs/week-5-tdd/project/src/main/java/com/google/sps/FindMeetingQuery.java:96-104 | Filtering an ascending list keeps it ascending. |
| QueryProofs.RemoveShortRangesAppend | walkthroughs/week-5-tdd/project/src/main/java/com/google/sps/FindMeetingQuery.java:96-104 | The filter of a concatenation is the concatenation of the filters, so the kept ranges stay in their order. |
| QueryProofs.RemoveShortRangesKeepsLong | walkthroughs/week-5-tdd/project/src/main/java/com/google/sps/FindMeetingQuery.java:96-104 | The filter leaves a list unchanged iff every range in it lasts at least the duration. |
| QueryProofs.HasMeetingAttendeeMonotone | walkthroughs/week-5-tdd/project/src/main/java/com/google/sps/FindMeetingQuery.java:190-195 | An event that concerns an attendee set also concerns every larger set. |
| QueryProofs.UnavailableTimesSubset | walkthroughs/week-5-tdd/project/src/main/java/com/google/sps/FindMeetingQuery.java:170-181 | When the busy ranges of an attendee set are pairwise non-overlapping, so are those of every smaller set. |
| QueryProofs.CoveredIffBusy | walkthroughs/week-5-tdd/project/src/main/java/com/google/sps/FindMeetingQuery.java:71-79 | Any reordering of the busy ranges covers exactly the minutes at which some attendee has an event. |
| QueryProofs.FilteredFreeTimesCorrect | walkthroughs/week-5-tdd/project/src/main/java/com/google/sps/FindMeetingQuery.java:81-85 | Suppose the merged ranges are ascending and cover exactly the busy minutes. Then inverting and filtering them gives a sound and complete pass. |
| QueryProofs.AvailableWithoutAttendees | walkthroughs/week-5-tdd/project/src/main/java/com/google/sps/FindMeetingQuery.java:61-67 | With an empty attendee set, a pass returns exactly `[WHOLE_DAY]`, whatever the events. |
| QueryProofs.AvailableWithoutBusyEvents | walkthroughs/week-5-tdd/project/src/main/java/com/google/sps/FindMeetingQuery.java:71-75 | When no event shares an attendee with the pass, the pass returns exactly `[WHOLE_DAY]`. |
| QueryProofs.AvailableComplete | walkthroughs/week-5-tdd/project/src/main/java/com/google/sps/FindMeetingQuery.java:58-88 | When the events lie in the day, a pass is complete for its attendee set: every long-enough free window lies inside one returned range, whether or not the busy ranges overlap. |
| QueryProofs.AvailableCorrect | walkthroughs/week-5-tdd/project/src/main/java/com/google/sps/FindMeetingQuery.java:58-88 | When the events lie in the day, a pass is complete for its attendee set. It is also sound when the pass's busy ranges are pairwise non-overlapping. |
| QueryProofs.SelectionCorrect | walkthroughs/week-5-tdd/project/src/main/java/com/google/sps/FindMeetingQuery.java:36-45 | Assume each pass is sound and complete. Then the answer is free for the mandatory attendees. It is the optional-inclusive pass, sound and complete for everyone, whenever a slot suits everyone. Otherwise, with mandatory attendees, it is the mandatory-only pass, complete for them. It is non-empty whenever the mandatory attendees have a slot. |
| QueryProofs.QueryComplete | walkthroughs/week-5-tdd/project/src/main/java/com/google/sps/FindMeetingQuery.java:34-46 | When the events lie in the day and some slot suits everyone, the answer is the pass with optional attendees and holds every such slot. When some slot suits the mandatory attendees, the answer is not empty. No hypothesis on overlaps is needed. |
| QueryProofs.QueryCorrect | walkthroughs/week-5-tdd/project/src/main/java/com/google/sps/FindMeetingQuery.java:34-46 | When the events lie in the day, `QueryComplete`'s conclusions hold. When everyone's busy ranges are also pairwise non-overlapping, the answer is free for the mandatory attendees, it is sound for everyone whenever a slot suits everyone, and otherwise the fallback is complete for the mandatory attendees. |
| QueryProofs.WholeDayEventLeavesNothing | walkthroughs/week-5-tdd/project/src/main/java/com/google/sps/FindMeetingQuery.java:118-130 | A sound answer is empty when an event of one of its attendees covers the whole day. |
| QueryProofs.WholeDaySortedFirst | walkthroughs/week-5-tdd/project/src/main/java/com/google/sps/FindMeetingQuery.java:71-77 | When no event of the attendees listed before an all-day event also starts at minute 0, the stable sort puts the whole day first. |
| QueryProofs.QueryWholeDayBusy | walkthroughs/week-5-tdd/project/src/main/java/com/google/sps/FindMeetingQuery.java:36-45 | The query returns nothing when an event of a mandatory attendee covers the whole day, provided no event of the meeting's attendees listed before it also starts at minute 0. |
| QueryProofs.QueryMissesBusyTime | walkthroughs/week-5-tdd/project/src/main/java/com/google/sps/FindMeetingQuery.java:151-152 | As written, for events `[0,10),[5,50),[6,20)` of A and 30 minutes, the query offers `[20,1440)`. That range overlaps A's event `[5,50)`. |
| QueryProofs.QueryIgnoresWholeDayEvent | walkthroughs/week-5-tdd/project/src/main/java/com/google/sps/FindMeetingQuery.java:151-152 | As written, for events `[0,10),[0,1440),[5,20)` of A, the query offers `[20,1440)` although A is busy all day. |
| IntendedQuery.AvailableIntendedCorrect | walkthroughs/week-5-tdd/project/src/main/java/com/google/sps/FindMeetingQuery.java:58-88 | With the corrected merge, every pass is sound and complete whenever the events lie in the day. |
| IntendedQuery.QueryIntendedCorrect | walkthroughs/week-5-tdd/project/src/main/java/com/google/sps/FindMeetingQuery.java:34-46 | With the corrected merge, the query has every property of `QueryCorrect`, with no hypothesis on overlaps. |
| IntendedQuery.QueryIntendedWholeDayBusy | walkthroughs/week-5-tdd/project/src/main/java/com/google/sps/FindMeetingQuery.java:41-42 | With the corrected merge, an all-day event of a mandatory attendee always leaves nothing. |
| IntendedQuery.QueryIntendedWithoutAttendees | walkthroughs/week-5-tdd/project/src/main/java/com/google/sps/FindMeetingQuery.java:61-67 | With no attendees at all, both the corrected and the as-written query return `[WHOLE_DAY]`. |
| IntendedQuery.QueryIntendedOnChainedOverlap | walkthroughs/week-5-tdd/project/src/main/java/com/google/sps/FindMeetingQuery.java:151-152 | With the corrected merge, the input of `QueryMissesBusyTime` gets `[50,1440)`. |
| Scenarios.OneEventSplitsTheDay | walkthroughs/week-5-tdd/project/src/main/java/com/google/sps/FindMeetingQuery.java:34-46 | One event `[60,120)` of A, 30 minutes: the answer is `[0,60),[120,1440)`. |
| Scenarios.OptionalAttendeeKeepsLongGap | walkthroughs/week-5-tdd/project/src/main/java/com/google/sps/FindMeetingQuery.java:38-45 | Optional B is busy `[0,600)` and A is busy `[700,800)`. For 200 minutes the answer is `[800,1440)`, and the fallback is not taken. |
| Scenarios.BusyAllDayLeavesNothing | walkthroughs/week-5-tdd/project/src/main/java/com/google/sps/FindMeetingQuery.java:41-42 | An all-day event of the only attendee leaves nothing. |
| Scenarios.FallbackFindsNothing | walkthroughs/week-5-tdd/project/src/main/java/com/google/sps/FindMeetingQuery.java:41-42 | An all-day event shared by mandatory A and optional B leaves nothing, even after the fallback. |

## Left out

- The servlets, the data classes `DairyYear` and `CattleFarm`, and the browser scripts are not part of this model. They are HTTP, Datastore, CSV and UI plumbing, and floating-point chart arithmetic.
- `TimeRange`, `Event` and `MeetingRequest` are not part of this model. Their source is not in the repository files modelled. `Calendar` defines the minimum the solver uses:
  - start and end;
  - duration;
  - half-open overlap;
  - `fromStartEnd(s, e, false)` as `[s, e)`;
  - `START_OF_DAY = 0` and `WHOLE_DAY = [0,1440)`;
  - ordering by start.
- The source of `TimeRange` is not part of this model, so whether `fromStartEnd` checks its arguments is not known. The model assumes it accepts any pair, and a `TimeRange` here carries no invariant. The merge and inversion as written can then build an inverted range (`MergeProofs.MergeOutputOverlaps`); if `fromStartEnd` rejects such a pair, the source raises an error on that input instead.
- The library sort (`Collections.sort`) is modelled by a stable insertion sort with the same result. The library's own algorithm is not modelled.
- Java collections are modelled as values:
  - `Collection<Event>` is a sequence in iteration order, and `HashSet` is a set.
  - The attendee set that `queryHelper` extends with `addAll`, and the list it sorts in place, are local variables reassigned with their new values.
  - Both collections are fresh locals in the source, so no aliasing is lost.
- Integers are unbounded. Minutes stay within `[0,1440]` and the duration is a `long`, so no overflow is reachable.
- QueryProofs.AvailableCorrect: soundness is stated only when the pass's busy ranges are pairwise non-overlapping. Without that hypothesis a pass can return a range that meets a busy event (see Findings). Completeness is stated with no such hypothesis.
- QueryProofs.QueryCorrect: the soundness conclusions, and the fallback's completeness, are stated only when everyone's busy ranges are pairwise non-overlapping, for the same reason. The fallback's completeness depends on soundness, because the fallback is taken only when the first pass is empty.
- QueryProofs.QueryWholeDayBusy: stated only when no event of the meeting's attendees listed before the all-day event also starts at minute 0. `QueryProofs.QueryIgnoresWholeDayEvent` shows the general statement is false as written.

## Findings

| source | as written | input that shows it | evidently intended | confidence | as-written member | corrected member |
|---|---|---|---|---|---|---|
| walkthroughs/week-5-tdd/project/src/main/java/com/google/sps/FindMeetingQuery.java:151-152 | The merge tests each range for overlap with the group's first range. It sets the end to the larger of the first range's end and the current range's end, so a long range in the middle of a group is forgotten. | Events `[0,10)`, `[5,50)`, `[6,20)` of A; request for A, 30 minutes. The merge gives `[0,20)` and the query offers `[20,1440)`, although A is busy until 50. | Each group merges to its union `[0,50)`, and the query offers `[50,1440)`. | high; not executed | QueryProofs.QueryMissesBusyTime | IntendedQuery.QueryIntendedCorrect |
| walkthroughs/week-5-tdd/project/src/main/java/com/google/sps/FindMeetingQuery.java:151-152 | For the same reason, an event covering the whole day is lost when it sits between two shorter events of its group. | Events `[0,10)`, `[0,1440)`, `[5,20)` of A; request for A, 30 minutes. The query offers `[20,1440)`. | Nothing is offered, because A is busy all day. | high; not executed | QueryProofs.QueryIgnoresWholeDayEvent | IntendedQuery.QueryIntendedWholeDayBusy |
