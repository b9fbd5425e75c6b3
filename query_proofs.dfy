/** What the solver promises about its answer, as written.

    A range is FREE for an attendee set when it meets no event that one of
    those attendees attends.  A pass is SOUND when every range it returns lies
    in the day, lasts at least the requested duration, is free, and the ranges
    are ascending; it is COMPLETE when every free window of the day that is
    long enough lies inside one returned range.  The passes of the source are
    complete whenever the events lie in the day; they are sound when, in
    addition, the busy ranges of the attendee set do not overlap one another,
    and without that hypothesis they can return a range that is not free (see
    QueryMissesBusyTime). */
module QueryProofs {
  import opened Calendar
  import opened Sorting
  import opened FindMeetingQuery
  import FreeTimeProofs
  import MergeProofs

  predicate EventsInDay(events: seq<Event>)
  {
    forall i :: 0 <= i < |events| ==> events[i].when.InDay()
  }

  /** t meets no event attended by one of attendees. */
  predicate FreeFor(t: TimeRange, events: seq<Event>, attendees: set<string>)
  {
    forall i :: 0 <= i < |events| && HasMeetingAttendee(events[i].attendees, attendees) ==> !t.Overlaps(events[i].when)
  }

  /** Minute p lies in an event attended by one of attendees. */
  predicate BusyAt(events: seq<Event>, attendees: set<string>, p: int)
  {
    exists i :: 0 <= i < |events| && HasMeetingAttendee(events[i].attendees, attendees) && events[i].when.Contains(p)
  }

  /** [s, e) is a possible meeting: inside the day, non-empty, long enough and free. */
  predicate Slot(events: seq<Event>, attendees: set<string>, duration: int, s: int, e: int)
  {
    START_OF_DAY <= s < e <= MINUTES_PER_DAY && e - s >= duration && FreeFor(TimeRange(s, e), events, attendees)
  }

  ghost predicate SlotExists(events: seq<Event>, attendees: set<string>, duration: int)
  {
    exists s, e :: Slot(events, attendees, duration, s, e)
  }

  predicate Sound(result: seq<TimeRange>, events: seq<Event>, attendees: set<string>, duration: int)
  {
    AllInDay(result) && Ascending(result)
    && forall i :: 0 <= i < |result| ==> result[i].Duration() >= duration && FreeFor(result[i], events, attendees)
  }

  ghost predicate Complete(result: seq<TimeRange>, events: seq<Event>, attendees: set<string>, duration: int)
  {
    forall s, e :: Slot(events, attendees, duration, s, e) ==>
      exists i :: 0 <= i < |result| && result[i].start <= s && e <= result[i].end
  }

  // ---------------------------------------------------------------------------
  // The duration filter

  /** The filter keeps ascending lists ascending. */
  lemma {:induction false} RemoveShortRangesKeepsAscending(times: seq<TimeRange>, duration: int)
    requires Ascending(times)
    ensures Ascending(RemoveShortRanges(times, duration))
  {
    if times != [] {
      var rest := RemoveShortRanges(times[1..], duration);
      RemoveShortRangesKeepsAscending(times[1..], duration);
      if times[0].Duration() >= duration {
        forall j | 0 <= j < |rest|
          ensures times[0].end <= rest[j].start
        {
          assert rest[j] in times[1..];
          var m :| 0 <= m < |times[1..]| && times[1..][m] == rest[j];
          assert times[m + 1] == rest[j];
        }
        AscendingConcat([times[0]], rest);
      }
    }
  }

  /** The filter keeps the order of what it keeps: filtering a concatenation
      is concatenating the filtered parts. */
  lemma {:induction false} RemoveShortRangesAppend(a: seq<TimeRange>, b: seq<TimeRange>, duration: int)
    ensures RemoveShortRanges(a + b, duration) == RemoveShortRanges(a, duration) + RemoveShortRanges(b, duration)
  {
    if a != [] {
      assert (a + b)[0] == a[0];
      assert (a + b)[1..] == a[1..] + b;
      RemoveShortRangesAppend(a[1..], b, duration);
    } else {
      assert a + b == b;
    }
  }
  /** The filter leaves a list unchanged exactly when every range in it is
      long enough. */
  lemma {:induction false} RemoveShortRangesKeepsLong(times: seq<TimeRange>, duration: int)
    ensures RemoveShortRanges(times, duration) == times
      <==> forall i :: 0 <= i < |times| ==> times[i].Duration() >= duration
  {
    if times != [] {
      RemoveShortRangesKeepsLong(times[1..], duration);
      if forall i :: 0 <= i < |times| ==> times[i].Duration() >= duration {
        assert forall i :: 0 <= i < |times[1..]| ==> times[1..][i].Duration() >= duration by {
          forall i | 0 <= i < |times[1..]|
            ensures times[1..][i].Duration() >= duration
          {
            assert times[1..][i] == times[i + 1];
          }
        }
        assert [times[0]] + times[1..] == times;
      }
    }
    if RemoveShortRanges(times, duration) == times {
      forall i | 0 <= i < |times|
        ensures times[i].Duration() >= duration
      {
        assert times[i] in RemoveShortRanges(times, duration);
      }
    }
  }


  // ---------------------------------------------------------------------------
  // From busy ranges to a sound and complete pass

  lemma HasMeetingAttendeeMonotone(eventAttendees: set<string>, a: set<string>, b: set<string>)
    requires a <= b && HasMeetingAttendee(eventAttendees, a)
    ensures HasMeetingAttendee(eventAttendees, b)
  {
    var person :| person in eventAttendees * a;
    assert person in eventAttendees * b;
  }

  /** A list holding the same ranges as the busy ranges covers exactly the
      minutes at which some attendee is busy. */
  lemma CoveredIffBusy(events: seq<Event>, attendees: set<string>, busy: seq<TimeRange>, p: int)
    requires multiset(busy) == multiset(UnavailableTimes(events, attendees))
    ensures Covered(busy, p) <==> BusyAt(events, attendees, p)
  {
    var unavailable := UnavailableTimes(events, attendees);
    if Covered(busy, p) {
      var j :| 0 <= j < |busy| && busy[j].Contains(p);
      assert busy[j] in multiset(busy);
      assert busy[j] in unavailable;
    }
    if BusyAt(events, attendees, p) {
      var i :| 0 <= i < |events| && HasMeetingAttendee(events[i].attendees, attendees) && events[i].when.Contains(p);
      assert events[i].when in unavailable;
      assert events[i].when in multiset(busy);
      var j :| 0 <= j < |busy| && busy[j] == events[i].when;
    }
  }

  /** Inverting and filtering merged busy ranges that cover exactly the busy
      minutes yields a sound and complete pass. */
  lemma FilteredFreeTimesCorrect(events: seq<Event>, attendees: set<string>, merged: seq<TimeRange>, duration: int)
    requires EventsInDay(events)
    requires AllInDay(merged) && Ascending(merged)
    requires forall p :: Covered(merged, p) <==> BusyAt(events, attendees, p)
    ensures Sound(RemoveShortRanges(FreeTimes(merged), duration), events, attendees, duration)
    ensures Complete(RemoveShortRanges(FreeTimes(merged), duration), events, attendees, duration)
  {
    FilteredFreeTimesSound(events, attendees, merged, duration);
    FilteredFreeTimesComplete(events, attendees, merged, duration);
  }

  lemma FilteredFreeTimesSound(events: seq<Event>, attendees: set<string>, merged: seq<TimeRange>, duration: int)
    requires EventsInDay(events)
    requires AllInDay(merged) && Ascending(merged)
    requires forall p :: Covered(merged, p) <==> BusyAt(events, attendees, p)
    ensures Sound(RemoveShortRanges(FreeTimes(merged), duration), events, attendees, duration)
  {
    var free := FreeTimes(merged);
    var result := RemoveShortRanges(free, duration);
    FreeTimeProofs.FreeTimesCorrect(merged);
    RemoveShortRangesKeepsAscending(free, duration);
    forall i | 0 <= i < |result|
      ensures result[i].InDay() && result[i].Duration() >= duration && FreeFor(result[i], events, attendees)
    {
      assert result[i] in free;
      var f :| 0 <= f < |free| && free[f] == result[i];
      FreeRangeIsFree(events, attendees, merged, free[f]);
    }
  }

  /** Completeness needs less of the merged ranges than soundness: they need
      only lie in the day and cover no minute at which nobody is busy; their
      order and disjointness do not matter. */
  lemma FilteredFreeTimesComplete(events: seq<Event>, attendees: set<string>, merged: seq<TimeRange>, duration: int)
    requires EventsInDay(events)
    requires AllInDay(merged)
    requires forall p :: Covered(merged, p) ==> BusyAt(events, attendees, p)
    ensures Complete(RemoveShortRanges(FreeTimes(merged), duration), events, attendees, duration)
  {
    forall s, e | Slot(events, attendees, duration, s, e)
      ensures var result := RemoveShortRanges(FreeTimes(merged), duration);
        exists i :: 0 <= i < |result| && result[i].start <= s && e <= result[i].end
    {
      FilteredSlotCovered(events, attendees, merged, duration, s, e);
    }
  }

  /** One free slot lies inside one range of the filtered pass. */
  lemma FilteredSlotCovered(events: seq<Event>, attendees: set<string>, merged: seq<TimeRange>, duration: int, s: int, e: int)
    requires EventsInDay(events)
    requires AllInDay(merged)
    requires forall p :: Covered(merged, p) ==> BusyAt(events, attendees, p)
    requires Slot(events, attendees, duration, s, e)
    ensures exists i ::
              && 0 <= i < |RemoveShortRanges(FreeTimes(merged), duration)|
              && RemoveShortRanges(FreeTimes(merged), duration)[i].start <= s
              && e <= RemoveShortRanges(FreeTimes(merged), duration)[i].end
  {
    SlotAvoidsMerged(events, attendees, merged, duration, s, e);
    FreeTimeProofs.FreeTimesComplete(merged, s, e);
    var free := FreeTimes(merged);
    var result := RemoveShortRanges(free, duration);
    var f :| 0 <= f < |free| && free[f].start <= s && e <= free[f].end;
    assert free[f].Duration() >= duration;
    assert free[f] in result;
    var i :| 0 <= i < |result| && result[i] == free[f];
    assert result[i].start <= s && e <= result[i].end;
  }

  /** A non-empty range overlapping no merged range overlaps no busy event. */
  lemma FreeRangeIsFree(events: seq<Event>, attendees: set<string>, merged: seq<TimeRange>, t: TimeRange)
    requires EventsInDay(events)
    requires forall p :: Covered(merged, p) <==> BusyAt(events, attendees, p)
    requires t.start < t.end
    requires forall j :: 0 <= j < |merged| ==> !t.Overlaps(merged[j])
    ensures FreeFor(t, events, attendees)
  {
    forall k | 0 <= k < |events| && HasMeetingAttendee(events[k].attendees, attendees)
      ensures !t.Overlaps(events[k].when)
    {
      if t.Overlaps(events[k].when) {
        OverlapsIffSharedMinute(t, events[k].when);
        var p :| t.Contains(p) && events[k].when.Contains(p);
        assert BusyAt(events, attendees, p);
        var j :| 0 <= j < |merged| && merged[j].Contains(p);
        OverlapsIffSharedMinute(t, merged[j]);
        assert false;
      }
    }
  }

  /** A slot free for the attendees overlaps no merged range. */
  lemma SlotAvoidsMerged(events: seq<Event>, attendees: set<string>, merged: seq<TimeRange>, duration: int, s: int, e: int)
    requires EventsInDay(events) && AllInDay(merged)
    requires forall p :: Covered(merged, p) ==> BusyAt(events, attendees, p)
    requires Slot(events, attendees, duration, s, e)
    ensures forall j :: 0 <= j < |merged| ==> !TimeRange(s, e).Overlaps(merged[j])
  {
    var window := TimeRange(s, e);
    forall j | 0 <= j < |merged|
      ensures !window.Overlaps(merged[j])
    {
      if window.Overlaps(merged[j]) {
        OverlapsIffSharedMinute(window, merged[j]);
        var p :| window.Contains(p) && merged[j].Contains(p);
        assert Covered(merged, p);
        var k :| 0 <= k < |events| && HasMeetingAttendee(events[k].attendees, attendees) && events[k].when.Contains(p);
        OverlapsIffSharedMinute(window, events[k].when);
        assert false;
      }
    }
  }

  /** The whole day is a sound and complete answer when nobody is busy. */
  lemma WholeDayCorrect(events: seq<Event>, attendees: set<string>, duration: int)
    requires forall i :: 0 <= i < |events| ==> !HasMeetingAttendee(events[i].attendees, attendees)
    requires duration <= MINUTES_PER_DAY
    ensures Sound([WHOLE_DAY], events, attendees, duration) && Complete([WHOLE_DAY], events, attendees, duration)
  {
    WholeDayComplete(events, attendees, duration);
  }

  /** The whole day contains every slot of the day. */
  lemma WholeDayComplete(events: seq<Event>, attendees: set<string>, duration: int)
    ensures Complete([WHOLE_DAY], events, attendees, duration)
  {
    forall s, e | Slot(events, attendees, duration, s, e)
      ensures exists i :: 0 <= i < |[WHOLE_DAY]| && [WHOLE_DAY][i].start <= s && e <= [WHOLE_DAY][i].end
    {
      assert [WHOLE_DAY][0] == WHOLE_DAY;
    }
  }

  /** When no event has one of the pass's attendees, the pass answers the
      whole day, whatever the events are. */
  lemma AvailableWithoutBusyEvents(events: seq<Event>, request: MeetingRequest, considerOptional: bool)
    requires forall i :: 0 <= i < |events| ==> !HasMeetingAttendee(events[i].attendees, Attendees(request, considerOptional))
    ensures Available(events, request, considerOptional) == [WHOLE_DAY]
  {
  }

  /** A pass with no attendees at all answers the whole day, whatever the
      events are. */
  lemma AvailableWithoutAttendees(events: seq<Event>, request: MeetingRequest, considerOptional: bool)
    requires Attendees(request, considerOptional) == {}
    ensures Available(events, request, considerOptional) == [WHOLE_DAY]
  {
  }

  /** A pass of the source is complete for its attendee set whenever the
      events lie in the day; it is also sound when the busy ranges of its
      attendee set do not overlap one another. */
  lemma AvailableCorrect(events: seq<Event>, request: MeetingRequest, considerOptional: bool)
    requires EventsInDay(events)
    requires request.duration <= MINUTES_PER_DAY
    ensures var attendees := Attendees(request, considerOptional);
      var result := Available(events, request, considerOptional);
      && Complete(result, events, attendees, request.duration)
      && (NonOverlapping(UnavailableTimes(events, attendees)) ==> Sound(result, events, attendees, request.duration))
  {
    AvailableComplete(events, request, considerOptional);
    var attendees := Attendees(request, considerOptional);
    var unavailable := UnavailableTimes(events, attendees);
    if |attendees| == 0 || |unavailable| == 0 {
      WholeDayCorrect(events, attendees, request.duration);
    } else if NonOverlapping(unavailable) {
      var sorted := SortByStart(unavailable);
      SortByStartKeepsNonOverlapping(unavailable);
      SortedInDay(events, attendees);
      MergeProofs.MergeFixpoint(sorted);
      SortedNonOverlappingIsAscending(sorted);
      forall p
        ensures Covered(sorted, p) <==> BusyAt(events, attendees, p)
      {
        CoveredIffBusy(events, attendees, sorted, p);
      }
      FilteredFreeTimesCorrect(events, attendees, sorted, request.duration);
    }
  }

  /** The sorted busy ranges of in-day events lie in the day. */
  lemma SortedInDay(events: seq<Event>, attendees: set<string>)
    requires EventsInDay(events)
    ensures AllInDay(SortByStart(UnavailableTimes(events, attendees)))
  {
    var unavailable := UnavailableTimes(events, attendees);
    var sorted := SortByStart(unavailable);
    forall k | 0 <= k < |sorted|
      ensures sorted[k].InDay()
    {
      assert sorted[k] in multiset(sorted);
      assert sorted[k] in unavailable;
    }
  }

  /** As written, a pass never misses a free window, even when the busy ranges
      overlap: the merge may lose busy minutes, but every minute it keeps is
      busy, and the inversion finds every window between the kept ranges. */
  lemma AvailableComplete(events: seq<Event>, request: MeetingRequest, considerOptional: bool)
    requires EventsInDay(events)
    ensures Complete(Available(events, request, considerOptional), events,
                     Attendees(request, considerOptional), request.duration)
  {
    var attendees := Attendees(request, considerOptional);
    var unavailable := UnavailableTimes(events, attendees);
    if |attendees| == 0 || |unavailable| == 0 {
      WholeDayComplete(events, attendees, request.duration);
    } else {
      var sorted := SortByStart(unavailable);
      SortedInDay(events, attendees);
      MergeProofs.MergeInDay(sorted);
      MergeProofs.MergeWithinInput(sorted);
      forall p | Covered(Merge(sorted), p)
        ensures BusyAt(events, attendees, p)
      {
        CoveredIffBusy(events, attendees, sorted, p);
      }
      FilteredFreeTimesComplete(events, attendees, Merge(sorted), request.duration);
    }
  }

  // ---------------------------------------------------------------------------
  // The query and its fallback

  lemma FreeForSubset(t: TimeRange, events: seq<Event>, a: set<string>, b: set<string>)
    requires a <= b && FreeFor(t, events, b)
    ensures FreeFor(t, events, a)
  {
    forall i | 0 <= i < |events| && HasMeetingAttendee(events[i].attendees, a)
      ensures !t.Overlaps(events[i].when)
    {
      HasMeetingAttendeeMonotone(events[i].attendees, a, b);
    }
  }

  /** The query's choice between its two passes, given only that each pass is
      sound and complete for its attendee set:
      - every range returned is free for the mandatory attendees;
      - when some slot suits everyone, the answer is the pass with optional
        attendees, sound and complete for everyone;
      - when no slot suits everyone and there are mandatory attendees, the
        answer is the mandatory-only pass, complete for them;
      - optional attendees never leave the answer empty when some slot suits
        the mandatory attendees. */
  lemma SelectionCorrect(events: seq<Event>, request: MeetingRequest,
                         withOptional: seq<TimeRange>, mandatoryOnly: seq<TimeRange>, result: seq<TimeRange>)
    requires result == if request.duration > MINUTES_PER_DAY then []
      else if |withOptional| == 0 && |request.attendees| > 0 then mandatoryOnly else withOptional
    requires request.duration <= MINUTES_PER_DAY ==>
      var everyone := request.attendees + request.optionalAttendees;
      Sound(withOptional, events, everyone, request.duration) && Complete(withOptional, events, everyone, request.duration)
      && Sound(mandatoryOnly, events, request.attendees, request.duration)
      && Complete(mandatoryOnly, events, request.attendees, request.duration)
    ensures Sound(result, events, request.attendees, request.duration)
    ensures (SlotExists(events, request.attendees + request.optionalAttendees, request.duration)
             && request.duration <= MINUTES_PER_DAY) ==>
      result == withOptional
      && Sound(result, events, request.attendees + request.optionalAttendees, request.duration)
      && Complete(result, events, request.attendees + request.optionalAttendees, request.duration)
    ensures (!SlotExists(events, request.attendees + request.optionalAttendees, request.duration)
             && |request.attendees| > 0 && request.duration <= MINUTES_PER_DAY) ==>
      result == mandatoryOnly && Complete(result, events, request.attendees, request.duration)
    ensures |request.attendees| > 0 && SlotExists(events, request.attendees, request.duration) ==> |result| > 0
  {
    var everyone := request.attendees + request.optionalAttendees;
    var d := request.duration;
    if d <= MINUTES_PER_DAY {
      if SlotExists(events, everyone, d) {
        var s, e :| Slot(events, everyone, d, s, e);
        assert |withOptional| > 0;
      }
      if !SlotExists(events, everyone, d) && |withOptional| > 0 {
        var r := withOptional[0];
        assert r.InDay() && r.Duration() >= d && FreeFor(r, events, everyone);
        assert Slot(events, everyone, d, r.start, r.end);
        assert false;
      }
      if result == withOptional {
        forall i | 0 <= i < |result|
          ensures FreeFor(result[i], events, request.attendees)
        {
          FreeForSubset(result[i], events, request.attendees, everyone);
        }
      }
      if |request.attendees| > 0 && SlotExists(events, request.attendees, d) && result == mandatoryOnly {
        var s, e :| Slot(events, request.attendees, d, s, e);
        assert |mandatoryOnly| > 0;
      }
    }
  }

  /** The query as written never misses a slot: when some slot suits
      everyone, the answer is the pass with optional attendees and holds every
      such slot; when some slot suits the mandatory attendees, the answer is
      not empty.  No hypothesis on overlaps is needed. */
  lemma QueryComplete(events: seq<Event>, request: MeetingRequest)
    requires EventsInDay(events)
    ensures var result := QueryResult(events, request);
      var everyone := request.attendees + request.optionalAttendees;
      && (SlotExists(events, everyone, request.duration) ==>
          result == Available(events, request, true) && Complete(result, events, everyone, request.duration))
      && (|request.attendees| > 0 && SlotExists(events, request.attendees, request.duration) ==> |result| > 0)
  {
    var everyone := request.attendees + request.optionalAttendees;
    var d := request.duration;
    AvailableComplete(events, request, true);
    AvailableComplete(events, request, false);
    if SlotExists(events, everyone, d) {
      var s, e :| Slot(events, everyone, d, s, e);
      assert |Available(events, request, true)| > 0;
    }
    if |request.attendees| > 0 && SlotExists(events, request.attendees, d) {
      var s, e :| Slot(events, request.attendees, d, s, e);
      if |Available(events, request, true)| == 0 {
        assert |Available(events, request, false)| > 0;
      }
    }
  }

  /** The query as written.  It never misses a slot (QueryComplete); what it
      returns is free for the attendees, and the fallback is taken exactly
      when no slot suits everyone, when the busy ranges of everyone it
      considers do not overlap one another. */
  lemma QueryCorrect(events: seq<Event>, request: MeetingRequest)
    requires EventsInDay(events)
    ensures var result := QueryResult(events, request);
      var everyone := request.attendees + request.optionalAttendees;
      var disjoint := NonOverlapping(UnavailableTimes(events, everyone));
      && (disjoint ==> Sound(result, events, request.attendees, request.duration))
      && (SlotExists(events, everyone, request.duration) ==>
          && result == Available(events, request, true)
          && Complete(result, events, everyone, request.duration)
          && (disjoint ==> Sound(result, events, everyone, request.duration)))
      && (disjoint && !SlotExists(events, everyone, request.duration) && |request.attendees| > 0
          && request.duration <= MINUTES_PER_DAY ==>
          Complete(result, events, request.attendees, request.duration))
      && (|request.attendees| > 0 && SlotExists(events, request.attendees, request.duration) ==> |result| > 0)
  {
    QueryComplete(events, request);
    var everyone := request.attendees + request.optionalAttendees;
    if NonOverlapping(UnavailableTimes(events, everyone)) {
      if request.duration <= MINUTES_PER_DAY {
        UnavailableTimesSubset(events, request.attendees, everyone);
        AvailableCorrect(events, request, true);
        AvailableCorrect(events, request, false);
      }
      SelectionCorrect(events, request, Available(events, request, true), Available(events, request, false),
                       QueryResult(events, request));
    }
  }

  /** Fewer attendees, fewer busy ranges: pairwise non-overlap carries over to
      a smaller attendee set. */
  lemma {:induction false} UnavailableTimesSubset(events: seq<Event>, a: set<string>, b: set<string>)
    requires a <= b && NonOverlapping(UnavailableTimes(events, b))
    ensures NonOverlapping(UnavailableTimes(events, a))
  {
    if events != [] {
      var restA := UnavailableTimes(events[1..], a);
      var restB := UnavailableTimes(events[1..], b);
      var x := events[0].when;
      var inB := HasMeetingAttendee(events[0].attendees, b);
      assert UnavailableTimes(events, b) == (if inB then [x] else []) + restB;
      NonOverlappingSuffix(if inB then [x] else [], restB);
      UnavailableTimesSubset(events[1..], a, b);
      if HasMeetingAttendee(events[0].attendees, a) {
        HasMeetingAttendeeMonotone(events[0].attendees, a, b);
        forall y | y in restA
          ensures !x.Overlaps(y)
        {
          var i :| 0 <= i < |events[1..]| && events[1..][i].when == y && HasMeetingAttendee(events[1..][i].attendees, a);
          HasMeetingAttendeeMonotone(events[1..][i].attendees, a, b);
          assert y in restB;
          var j :| 0 <= j < |restB| && restB[j] == y;
          assert ([x] + restB)[0] == x && ([x] + restB)[j + 1] == y;
        }
        NonOverlappingCons(x, restA);
      }
    }
  }

  lemma NonOverlappingSuffix(a: seq<TimeRange>, b: seq<TimeRange>)
    requires NonOverlapping(a + b)
    ensures NonOverlapping(b)
  {
    forall i, j | 0 <= i < j < |b|
      ensures !b[i].Overlaps(b[j])
    {
      assert (a + b)[|a| + i] == b[i] && (a + b)[|a| + j] == b[j];
    }
  }

  lemma NonOverlappingCons(x: TimeRange, t: seq<TimeRange>)
    requires NonOverlapping(t)
    requires forall y :: y in t ==> !x.Overlaps(y)
    ensures NonOverlapping([x] + t)
  {
    forall i, j | 0 <= i < j < |[x] + t|
      ensures !([x] + t)[i].Overlaps(([x] + t)[j])
    {
      assert ([x] + t)[j] == t[j - 1];
      if i > 0 {
        assert ([x] + t)[i] == t[i - 1];
      }
    }
  }

  /** A sound answer is empty when one of its attendees is busy all day. */
  lemma WholeDayEventLeavesNothing(result: seq<TimeRange>, events: seq<Event>, attendees: set<string>, duration: int, k: nat)
    requires Sound(result, events, attendees, duration)
    requires k < |events| && events[k].when == WHOLE_DAY && HasMeetingAttendee(events[k].attendees, attendees)
    ensures result == []
  {
    if result != [] {
      assert result[0].InDay() && FreeFor(result[0], events, attendees);
      assert result[0].Overlaps(WHOLE_DAY);
    }
  }

  /** The query as written offers nothing when a mandatory attendee has an
      event covering the whole day, provided no earlier-listed event of the
      meeting's attendees also starts at minute 0: the stable sort then puts
      the whole day first, and its group absorbs every other busy range. */
  lemma QueryWholeDayBusy(events: seq<Event>, request: MeetingRequest, k: nat)
    requires EventsInDay(events)
    requires k < |events| && events[k].when == WHOLE_DAY
    requires events[k].attendees * request.attendees != {}
    requires forall i :: 0 <= i < k && events[i].when.start == START_OF_DAY ==>
      !HasMeetingAttendee(events[i].attendees, request.attendees + request.optionalAttendees)
    ensures QueryResult(events, request) == []
  {
    WholeDayPassEmpty(events, request, true, k);
    WholeDayPassEmpty(events, request, false, k);
  }

  /** Under QueryWholeDayBusy's hypotheses each pass finds nothing. */
  lemma WholeDayPassEmpty(events: seq<Event>, request: MeetingRequest, considerOptional: bool, k: nat)
    requires EventsInDay(events)
    requires k < |events| && events[k].when == WHOLE_DAY
    requires events[k].attendees * request.attendees != {}
    requires forall i :: 0 <= i < k && events[i].when.start == START_OF_DAY ==>
      !HasMeetingAttendee(events[i].attendees, request.attendees + request.optionalAttendees)
    ensures Available(events, request, considerOptional) == []
  {
    var attendees := Attendees(request, considerOptional);
    var everyone := request.attendees + request.optionalAttendees;
    var person :| person in events[k].attendees * request.attendees;
    assert person in events[k].attendees * attendees;
    forall i | 0 <= i < k && events[i].when.start == START_OF_DAY
      ensures !HasMeetingAttendee(events[i].attendees, attendees)
    {
      if HasMeetingAttendee(events[i].attendees, attendees) {
        HasMeetingAttendeeMonotone(events[i].attendees, attendees, everyone);
      }
    }
    WholeDaySortedFirst(events, attendees, k);
    var sorted := SortByStart(UnavailableTimes(events, attendees));
    MergeProofs.MergeHeadedByWholeDay(sorted);
    assert FreeTimes([WHOLE_DAY]) == [] by {
      assert [WHOLE_DAY][1..] == [];
      assert FreeTimesFrom([], MINUTES_PER_DAY) == [];
      assert FreeTimesFrom([WHOLE_DAY], START_OF_DAY) == FreeTimesFrom([], MINUTES_PER_DAY);
    }
    assert |attendees| > 0 && |UnavailableTimes(events, attendees)| > 0;
  }

  /** With no earlier-listed event of the attendees starting at minute 0, the
      stable sort puts the whole day first. */
  lemma WholeDaySortedFirst(events: seq<Event>, attendees: set<string>, k: nat)
    requires EventsInDay(events)
    requires k < |events| && events[k].when == WHOLE_DAY && HasMeetingAttendee(events[k].attendees, attendees)
    requires forall i :: 0 <= i < k && events[i].when.start == START_OF_DAY ==>
      !HasMeetingAttendee(events[i].attendees, attendees)
    ensures var sorted := SortByStart(UnavailableTimes(events, attendees));
      AllInDay(sorted) && sorted != [] && sorted[0] == WHOLE_DAY
  {
    var unavailable := UnavailableTimes(events, attendees);
    var sorted := SortByStart(unavailable);
    WholeDayFirstAtMidnight(events, attendees, k);
    SortByStartIsStable(unavailable, START_OF_DAY);
    SortedInDay(events, attendees);
    SortedHeadStartingAt(sorted, START_OF_DAY);
  }

  /** The first busy range starting at minute 0 is the whole day when no
      earlier-listed event of the attendees starts at minute 0. */
  lemma {:induction false} WholeDayFirstAtMidnight(events: seq<Event>, attendees: set<string>, k: nat)
    requires k < |events| && events[k].when == WHOLE_DAY && HasMeetingAttendee(events[k].attendees, attendees)
    requires forall i :: 0 <= i < k && events[i].when.start == START_OF_DAY ==>
      !HasMeetingAttendee(events[i].attendees, attendees)
    ensures var first := StartingAt(UnavailableTimes(events, attendees), START_OF_DAY);
      first != [] && first[0] == WHOLE_DAY
    decreases k
  {
    var x := events[0].when;
    var rest := UnavailableTimes(events[1..], attendees);
    if k == 0 {
      assert UnavailableTimes(events, attendees) == [x] + rest;
      assert ([x] + rest)[1..] == rest;
    } else {
      assert events[1..][k - 1] == events[k];
      forall i | 0 <= i < k - 1 && events[1..][i].when.start == START_OF_DAY
        ensures !HasMeetingAttendee(events[1..][i].attendees, attendees)
      {
        assert events[1..][i] == events[i + 1];
      }
      WholeDayFirstAtMidnight(events[1..], attendees, k - 1);
      if HasMeetingAttendee(events[0].attendees, attendees) {
        assert UnavailableTimes(events, attendees) == [x] + rest;
        assert ([x] + rest)[1..] == rest;
      }
    }
  }

  // ---------------------------------------------------------------------------
  // Where the source goes wrong

  /** One attendee with three overlapping events: [0,10), [5,50), [6,20). */
  function ChainedOverlapEvents(): seq<Event>
  {
    [Event(TimeRange(0, 10), {"A"}), Event(TimeRange(5, 50), {"A"}), Event(TimeRange(6, 20), {"A"})]
  }

  /** The busy ranges and their sorted order for ChainedOverlapEvents. */
  lemma ChainedOverlapBusy()
    ensures UnavailableTimes(ChainedOverlapEvents(), {"A"}) == [TimeRange(0, 10), TimeRange(5, 50), TimeRange(6, 20)]
    ensures SortByStart([TimeRange(0, 10), TimeRange(5, 50), TimeRange(6, 20)]) == [TimeRange(0, 10), TimeRange(5, 50), TimeRange(6, 20)]
  {
    var events := ChainedOverlapEvents();
    assert HasMeetingAttendee({"A"}, {"A"});
    assert events[1..][1..] == [events[2]];
    assert UnavailableTimes([events[2]], {"A"}) == [TimeRange(6, 20)];
    assert UnavailableTimes(events[1..], {"A"}) == [TimeRange(5, 50), TimeRange(6, 20)];
    var busy := [TimeRange(0, 10), TimeRange(5, 50), TimeRange(6, 20)];
    assert busy[1..][1..] == [busy[2]];
    assert SortByStart([busy[2]]) == [busy[2]];
    assert SortByStart(busy[1..]) == busy[1..];
  }

  /** As written, the query offers [20, 1440) to attendee A, who is busy
      until minute 50. */
  lemma QueryMissesBusyTime()
    ensures QueryResult(ChainedOverlapEvents(), MeetingRequest({"A"}, {}, 30)) == [TimeRange(20, MINUTES_PER_DAY)]
    ensures TimeRange(20, MINUTES_PER_DAY).Overlaps(ChainedOverlapEvents()[1].when)
  {
    var request := MeetingRequest({"A"}, {}, 30);
    ChainedOverlapAvailable();
    assert |Available(ChainedOverlapEvents(), request, true)| == 1;
  }

  lemma ChainedOverlapAvailable()
    ensures Available(ChainedOverlapEvents(), MeetingRequest({"A"}, {}, 30), true) == [TimeRange(20, MINUTES_PER_DAY)]
  {
    ChainedOverlapPass(ChainedOverlapEvents(), MeetingRequest({"A"}, {}, 30));
  }

  lemma ChainedOverlapPass(events: seq<Event>, request: MeetingRequest)
    requires events == ChainedOverlapEvents() && request == MeetingRequest({"A"}, {}, 30)
    ensures Available(events, request, true) == [TimeRange(20, MINUTES_PER_DAY)]
  {
    var busy := [TimeRange(0, 10), TimeRange(5, 50), TimeRange(6, 20)];
    RequestFromA(request);
    ChainedOverlapBusy();
    MergeProofs.MergeLosesChainedOverlap();
    FreeAfterTwenty();
    assert Available(events, request, true) == RemoveShortRanges(FreeTimes(Merge(SortByStart(busy))), 30);
    RemoveShortRangesKeepsLong([TimeRange(20, MINUTES_PER_DAY)], 30);
  }

  /** As written, an event covering the whole day does not empty the answer
      when an earlier event starting at minute 0 heads its group: A is busy
      all day and is still offered [20, 1440). */
  lemma QueryIgnoresWholeDayEvent()
    ensures QueryResult(WholeDayEvents(), MeetingRequest({"A"}, {}, 30)) == [TimeRange(20, MINUTES_PER_DAY)]
  {
    WholeDayAvailable();
    assert |Available(WholeDayEvents(), MeetingRequest({"A"}, {}, 30), true)| == 1;
  }

  /** Attendee A busy all day, with an event [0,10) listed first. */
  function WholeDayEvents(): seq<Event>
  {
    [Event(TimeRange(0, 10), {"A"}), Event(WHOLE_DAY, {"A"}), Event(TimeRange(5, 20), {"A"})]
  }

  lemma WholeDayAvailable()
    ensures Available(WholeDayEvents(), MeetingRequest({"A"}, {}, 30), true) == [TimeRange(20, MINUTES_PER_DAY)]
  {
    WholeDayPass(WholeDayEvents(), MeetingRequest({"A"}, {}, 30));
  }

  lemma WholeDayPass(events: seq<Event>, request: MeetingRequest)
    requires events == WholeDayEvents() && request == MeetingRequest({"A"}, {}, 30)
    ensures Available(events, request, true) == [TimeRange(20, MINUTES_PER_DAY)]
  {
    var busy := [TimeRange(0, 10), WHOLE_DAY, TimeRange(5, 20)];
    RequestFromA(request);
    WholeDayBusy();
    WholeDayMerge();
    FreeAfterTwenty();
    assert Available(events, request, true) == RemoveShortRanges(FreeTimes(Merge(SortByStart(busy))), 30);
    RemoveShortRangesKeepsLong([TimeRange(20, MINUTES_PER_DAY)], 30);
  }

  lemma WholeDayBusy()
    ensures UnavailableTimes(WholeDayEvents(), {"A"}) == [TimeRange(0, 10), WHOLE_DAY, TimeRange(5, 20)]
    ensures SortByStart([TimeRange(0, 10), WHOLE_DAY, TimeRange(5, 20)]) == [TimeRange(0, 10), WHOLE_DAY, TimeRange(5, 20)]
  {
    var events := WholeDayEvents();
    var busy := [TimeRange(0, 10), WHOLE_DAY, TimeRange(5, 20)];
    assert HasMeetingAttendee({"A"}, {"A"});
    assert events[1..][1..] == [events[2]];
    assert UnavailableTimes([events[2]], {"A"}) == [TimeRange(5, 20)];
    assert UnavailableTimes(events[1..], {"A"}) == busy[1..];
    assert busy[1..][1..] == [busy[2]];
    assert SortByStart([busy[2]]) == [busy[2]];
    assert Insert(busy[1], [busy[2]]) == busy[1..];
  }

  lemma WholeDayMerge()
    ensures Merge([TimeRange(0, 10), WHOLE_DAY, TimeRange(5, 20)]) == [TimeRange(0, 20)]
  {
    var busy := [TimeRange(0, 10), WHOLE_DAY, TimeRange(5, 20)];
    assert GroupEnd(busy, 0, 3) == 3;
    assert GroupEnd(busy, 0, 2) == 3;
    assert GroupEnd(busy, 0, 1) == 3;
    assert GroupEnd(busy, 0, 0) == 3;
    assert MergeFrom(busy, 3) == [];
  }

  lemma FreeAfterTwenty()
    ensures FreeTimes([TimeRange(0, 20)]) == [TimeRange(20, MINUTES_PER_DAY)]
  {
    assert [TimeRange(0, 20)][1..] == [];
  }

  /** The attendee set of a request for A alone is {A}, whatever the pass. */
  lemma RequestFromA(request: MeetingRequest)
    requires request.attendees == {"A"} && request.optionalAttendees == {}
    ensures Attendees(request, true) == {"A"} && |{"A"}| > 0
  {
  }
}
