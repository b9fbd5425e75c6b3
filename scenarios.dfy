/** Worked requests for the solver as written: one attendee with one event,
    an optional attendee whose busy time leaves only a short gap, and events
    that fill the whole day. */
module Scenarios {
  import opened Calendar
  import opened Sorting
  import opened FindMeetingQuery
  import opened QueryProofs
  import MergeProofs

  /** A is busy from 60 to 120 and asks for 30 minutes: the day before and
      after the event is offered. */
  lemma OneEventSplitsTheDay()
    ensures QueryResult([Event(TimeRange(60, 120), {"A"})], MeetingRequest({"A"}, {}, 30))
         == [TimeRange(0, 60), TimeRange(120, MINUTES_PER_DAY)]
  {
    var events := [Event(TimeRange(60, 120), {"A"})];
    var request := MeetingRequest({"A"}, {}, 30);
    OneEventPass(events, request);
  }

  lemma OneEventPass(events: seq<Event>, request: MeetingRequest)
    requires events == [Event(TimeRange(60, 120), {"A"})] && request == MeetingRequest({"A"}, {}, 30)
    ensures Available(events, request, true) == [TimeRange(0, 60), TimeRange(120, MINUTES_PER_DAY)]
  {
    var busy := [TimeRange(60, 120)];
    RequestFromA(request);
    assert HasMeetingAttendee({"A"}, {"A"});
    assert UnavailableTimes(events, {"A"}) == busy;
    assert SortByStart(busy) == busy;
    MergeProofs.MergeFixpoint(busy);
    assert busy[1..] == [];
    assert FreeTimes(busy) == [TimeRange(0, 60), TimeRange(120, MINUTES_PER_DAY)];
    RemoveShortRangesKeepsLong([TimeRange(0, 60), TimeRange(120, MINUTES_PER_DAY)], 30);
  }

  /** Optional B is busy until 600 and A from 700 to 800; of the gaps, only
      [800, 1440) lasts 200 minutes, so it is the answer and the fallback to
      A alone is not taken. */
  lemma OptionalAttendeeKeepsLongGap()
    ensures QueryResult([Event(TimeRange(0, 600), {"B"}), Event(TimeRange(700, 800), {"A"})],
                        MeetingRequest({"A"}, {"B"}, 200))
         == [TimeRange(800, MINUTES_PER_DAY)]
  {
    var events := [Event(TimeRange(0, 600), {"B"}), Event(TimeRange(700, 800), {"A"})];
    var request := MeetingRequest({"A"}, {"B"}, 200);
    OptionalAttendeePass(events, request);
  }

  lemma OptionalAttendeePass(events: seq<Event>, request: MeetingRequest)
    requires events == [Event(TimeRange(0, 600), {"B"}), Event(TimeRange(700, 800), {"A"})]
    requires request == MeetingRequest({"A"}, {"B"}, 200)
    ensures Available(events, request, true) == [TimeRange(800, MINUTES_PER_DAY)]
  {
    var busy := [TimeRange(0, 600), TimeRange(700, 800)];
    AttendeesAB(request);
    OptionalAttendeeBusy(events);
    OptionalAttendeeFree(busy);
    assert Available(events, request, true) == RemoveShortRanges(FreeTimes(Merge(SortByStart(busy))), 200);
  }

  lemma AttendeesAB(request: MeetingRequest)
    requires request.attendees == {"A"} && request.optionalAttendees == {"B"}
    ensures Attendees(request, true) == {"A", "B"} && |{"A", "B"}| > 0
  {
    assert "A" in {"A", "B"};
  }

  lemma OptionalAttendeeBusy(events: seq<Event>)
    requires events == [Event(TimeRange(0, 600), {"B"}), Event(TimeRange(700, 800), {"A"})]
    ensures UnavailableTimes(events, {"A", "B"}) == [TimeRange(0, 600), TimeRange(700, 800)]
  {
    var everyone := {"A", "B"};
    assert HasMeetingAttendee({"B"}, everyone) && HasMeetingAttendee({"A"}, everyone);
    assert events[1..] == [events[1]];
    assert UnavailableTimes(events[1..], everyone) == [TimeRange(700, 800)];
  }

  lemma OptionalAttendeeFree(busy: seq<TimeRange>)
    requires busy == [TimeRange(0, 600), TimeRange(700, 800)]
    ensures RemoveShortRanges(FreeTimes(Merge(SortByStart(busy))), 200) == [TimeRange(800, MINUTES_PER_DAY)]
  {
    assert SortByStart(busy) == busy by {
      assert busy[1..] == [busy[1]];
    }
    MergeProofs.MergeFixpoint(busy);
    TwoGapsFree(busy);
    assert RemoveShortRanges([TimeRange(600, 700), TimeRange(800, MINUTES_PER_DAY)], 200)
        == [TimeRange(800, MINUTES_PER_DAY)];
  }

  lemma TwoGapsFree(busy: seq<TimeRange>)
    requires busy == [TimeRange(0, 600), TimeRange(700, 800)]
    ensures FreeTimes(busy) == [TimeRange(600, 700), TimeRange(800, MINUTES_PER_DAY)]
  {
    assert busy[1..][1..] == [];
    assert FreeTimesFrom(busy[1..][1..], 800) == [TimeRange(800, MINUTES_PER_DAY)];
    assert FreeTimesFrom(busy[1..], 600) == [TimeRange(600, 700), TimeRange(800, MINUTES_PER_DAY)];
  }

  /** An event filling the day for the only attendee leaves nothing. */
  lemma BusyAllDayLeavesNothing()
    ensures QueryResult([Event(WHOLE_DAY, {"A"})], MeetingRequest({"A"}, {}, 30)) == []
  {
    var events := [Event(WHOLE_DAY, {"A"})];
    var request := MeetingRequest({"A"}, {}, 30);
    assert "A" in events[0].attendees * request.attendees;
    QueryWholeDayBusy(events, request, 0);
  }

  /** When mandatory A and optional B share an all-day event, the fallback
      to A alone is taken and also finds nothing. */
  lemma FallbackFindsNothing()
    ensures QueryResult([Event(WHOLE_DAY, {"A", "B"})], MeetingRequest({"A"}, {"B"}, 10)) == []
  {
    var events := [Event(WHOLE_DAY, {"A", "B"})];
    var request := MeetingRequest({"A"}, {"B"}, 10);
    assert "A" in events[0].attendees * request.attendees;
    QueryWholeDayBusy(events, request, 0);
  }
}
