/** The solver with the intended merge in place of the source's: the same
    passes and the same fallback, with MergeUnion as the merge step.  Its
    passes are sound and complete on every input whose events lie in the day,
    with no hypothesis on how the busy ranges overlap. */
module IntendedQuery {
  import opened Calendar
  import opened Sorting
  import opened FindMeetingQuery
  import opened UnionMerge
  import opened QueryProofs

  /** One pass, as Available, with the intended merge. */
  function AvailableIntended(events: seq<Event>, request: MeetingRequest, considerOptional: bool): (available: seq<TimeRange>)
  {
    var attendees := Attendees(request, considerOptional);
    if |attendees| == 0 then [WHOLE_DAY]
    else
      var unavailable := UnavailableTimes(events, attendees);
      if |unavailable| == 0 then [WHOLE_DAY]
      else RemoveShortRanges(FreeTimes(MergeUnion(SortByStart(unavailable))), request.duration)
  }

  /** The query, as QueryResult, over the intended passes. */
  function QueryIntended(events: seq<Event>, request: MeetingRequest): (result: seq<TimeRange>)
  {
    if request.duration > WHOLE_DAY.Duration() then []
    else
      var withOptional := AvailableIntended(events, request, true);
      if |withOptional| == 0 && |request.attendees| > 0 then AvailableIntended(events, request, false)
      else withOptional
  }

  /** Every intended pass is sound and complete for its attendee set. */
  lemma AvailableIntendedCorrect(events: seq<Event>, request: MeetingRequest, considerOptional: bool)
    requires EventsInDay(events)
    requires request.duration <= MINUTES_PER_DAY
    ensures var attendees := Attendees(request, considerOptional);
      var result := AvailableIntended(events, request, considerOptional);
      Sound(result, events, attendees, request.duration) && Complete(result, events, attendees, request.duration)
  {
    var attendees := Attendees(request, considerOptional);
    var unavailable := UnavailableTimes(events, attendees);
    if |attendees| == 0 || |unavailable| == 0 {
      WholeDayCorrect(events, attendees, request.duration);
    } else {
      var sorted := SortByStart(unavailable);
      forall k | 0 <= k < |sorted|
        ensures sorted[k].InDay()
      {
        assert sorted[k] in multiset(sorted);
        assert sorted[k] in unavailable;
      }
      MergeUnionCorrect(sorted);
      var merged := MergeUnion(sorted);
      forall p
        ensures Covered(merged, p) <==> BusyAt(events, attendees, p)
      {
        CoveredIffBusy(events, attendees, sorted, p);
      }
      FilteredFreeTimesCorrect(events, attendees, merged, request.duration);
    }
  }

  /** The intended query: every range is free for the mandatory attendees;
      when a slot suits everyone the answer is sound and complete for
      everyone; otherwise, with mandatory attendees, it is complete for them;
      and optional attendees never empty an answer the mandatory attendees
      could have. */
  lemma QueryIntendedCorrect(events: seq<Event>, request: MeetingRequest)
    requires EventsInDay(events)
    ensures var result := QueryIntended(events, request);
      var everyone := request.attendees + request.optionalAttendees;
      && Sound(result, events, request.attendees, request.duration)
      && (SlotExists(events, everyone, request.duration) && request.duration <= MINUTES_PER_DAY ==>
          Sound(result, events, everyone, request.duration) && Complete(result, events, everyone, request.duration))
      && (!SlotExists(events, everyone, request.duration) && |request.attendees| > 0 && request.duration <= MINUTES_PER_DAY ==>
          Complete(result, events, request.attendees, request.duration))
      && (|request.attendees| > 0 && SlotExists(events, request.attendees, request.duration) ==> |result| > 0)
  {
    if request.duration <= MINUTES_PER_DAY {
      AvailableIntendedCorrect(events, request, true);
      AvailableIntendedCorrect(events, request, false);
    }
    SelectionCorrect(events, request, AvailableIntended(events, request, true), AvailableIntended(events, request, false),
                     QueryIntended(events, request));
  }

  /** An event covering the whole day with a mandatory attendee leaves the
      intended query nothing to offer. */
  lemma QueryIntendedWholeDayBusy(events: seq<Event>, request: MeetingRequest, k: nat)
    requires EventsInDay(events)
    requires k < |events| && events[k].when == WHOLE_DAY
    requires events[k].attendees * request.attendees != {}
    ensures QueryIntended(events, request) == []
  {
    QueryIntendedCorrect(events, request);
    WholeDayEventLeavesNothing(QueryIntended(events, request), events, request.attendees, request.duration, k);
  }

  /** With no attendees at all, the intended query, like the source's, offers
      the whole day whatever the events are. */
  lemma QueryIntendedWithoutAttendees(events: seq<Event>, request: MeetingRequest)
    requires request.attendees == {} && request.optionalAttendees == {}
    requires request.duration <= MINUTES_PER_DAY
    ensures QueryIntended(events, request) == [WHOLE_DAY] == QueryResult(events, request)
  {
    AvailableWithoutAttendees(events, request, true);
  }

  /** On the input the source gets wrong, the intended query keeps minutes 20
      to 49 busy and offers [50, 1440). */
  lemma QueryIntendedOnChainedOverlap()
    ensures QueryIntended(ChainedOverlapEvents(), MeetingRequest({"A"}, {}, 30)) == [TimeRange(50, MINUTES_PER_DAY)]
  {
    var request := MeetingRequest({"A"}, {}, 30);
    ChainedOverlapAvailableIntended();
    assert |AvailableIntended(ChainedOverlapEvents(), request, true)| == 1;
  }

  lemma ChainedOverlapAvailableIntended()
    ensures AvailableIntended(ChainedOverlapEvents(), MeetingRequest({"A"}, {}, 30), true) == [TimeRange(50, MINUTES_PER_DAY)]
  {
    ChainedOverlapPassIntended(ChainedOverlapEvents(), MeetingRequest({"A"}, {}, 30));
  }

  lemma ChainedOverlapPassIntended(events: seq<Event>, request: MeetingRequest)
    requires events == ChainedOverlapEvents() && request == MeetingRequest({"A"}, {}, 30)
    ensures AvailableIntended(events, request, true) == [TimeRange(50, MINUTES_PER_DAY)]
  {
    var busy := [TimeRange(0, 10), TimeRange(5, 50), TimeRange(6, 20)];
    RequestFromA(request);
    ChainedOverlapBusy();
    MergeUnionOnChainedOverlap();
    FreeAfterFifty();
    assert AvailableIntended(events, request, true) == RemoveShortRanges(FreeTimes(MergeUnion(SortByStart(busy))), 30);
    RemoveShortRangesKeepsLong([TimeRange(50, MINUTES_PER_DAY)], 30);
  }

  lemma FreeAfterFifty()
    ensures FreeTimes([TimeRange(0, 50)]) == [TimeRange(50, MINUTES_PER_DAY)]
  {
    assert [TimeRange(0, 50)][1..] == [];
  }
}
