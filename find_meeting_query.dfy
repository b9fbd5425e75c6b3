/** The meeting-availability solver (FindMeetingQuery.java), as written.

    Each step of the source is a specification function; the steps the source
    writes as loops that append to a list are also methods proved to compute
    exactly that function.  Properties of the steps are proved in the modules
    FreeTimeProofs, MergeProofs and QueryProofs. */
module FindMeetingQuery {
  import opened Calendar
  import opened Sorting

  function Max(a: int, b: int): (m: int) { if a < b then b else a }

  // ---------------------------------------------------------------------------
  // Attendees and busy ranges

  /** At least one meeting attendee also attends the event. */
  function HasMeetingAttendee(eventAttendees: set<string>, meetingAttendees: set<string>): (b: bool)
    ensures b <==> eventAttendees * meetingAttendees != {}
  {
    SharedAttendee(eventAttendees, meetingAttendees);
    exists person :: person in meetingAttendees && person in eventAttendees
  }

  lemma SharedAttendee(eventAttendees: set<string>, meetingAttendees: set<string>)
    ensures (exists person :: person in meetingAttendees && person in eventAttendees)
      <==> eventAttendees * meetingAttendees != {}
  {
    if eventAttendees * meetingAttendees != {} {
      var person :| person in eventAttendees * meetingAttendees;
    }
    if exists person :: person in meetingAttendees && person in eventAttendees {
      var person :| person in meetingAttendees && person in eventAttendees;
      assert person in eventAttendees * meetingAttendees;
    }
  }

  /** The ranges of the events that share an attendee with the meeting, in
      event order. */
  function UnavailableTimes(events: seq<Event>, attendees: set<string>): (busy: seq<TimeRange>)
    ensures |busy| <= |events|
    ensures busy == [] <==> forall i :: 0 <= i < |events| ==> !HasMeetingAttendee(events[i].attendees, attendees)
    ensures forall t :: t in busy <==>
      exists i :: 0 <= i < |events| && events[i].when == t && HasMeetingAttendee(events[i].attendees, attendees)
  {
    if events == [] then []
    else
      var rest := UnavailableTimes(events[1..], attendees);
      assert forall i :: 0 < i < |events| ==> events[i] == events[1..][i - 1];
      if HasMeetingAttendee(events[0].attendees, attendees) then [events[0].when] + rest else rest
  }

  /** The attendee set of one pass: the mandatory attendees, plus the optional
      ones when they are considered. */
  function Attendees(request: MeetingRequest, considerOptional: bool): (attendees: set<string>)
    ensures request.attendees <= attendees
    ensures attendees <= request.attendees + request.optionalAttendees
    ensures considerOptional ==> request.optionalAttendees <= attendees
    ensures forall person :: person in attendees <==>
      person in request.attendees || (considerOptional && person in request.optionalAttendees)
  {
    if considerOptional then request.attendees + request.optionalAttendees else request.attendees
  }

  // ---------------------------------------------------------------------------
  // Merging sorted busy ranges, as written

  /** The index the source's inner loop stops at when it scans from j for
      ranges overlapping times[first]: the first index from j on whose range
      does not overlap times[first], or the end of the list. */
  function GroupEnd(times: seq<TimeRange>, first: nat, j: nat): (g: nat)
    requires first < |times| && j <= |times|
    ensures j <= g <= |times|
    decreases |times| - j
  {
    if j == |times| || !times[first].Overlaps(times[j]) then j
    else GroupEnd(times, first, j + 1)
  }

  /** The source's merge from index first on.  The group of times[first] is
      the run of ranges, starting with times[first] itself, that overlap
      times[first]; the merged range runs from its start to the larger of its
      own end and the end of the group's LAST member; the scan resumes after
      the group (or after times[first] when even it does not overlap itself). */
  function MergeFrom(times: seq<TimeRange>, first: nat): (merged: seq<TimeRange>)
    decreases |times| - first
  {
    if first >= |times| then []
    else
      var g := GroupEnd(times, first, first);
      var endTime := if g == first then times[first].end else Max(times[first].end, times[g - 1].end);
      [FromStartEnd(times[first].start, endTime)] + MergeFrom(times, if g == first then first + 1 else g)
  }

  function Merge(times: seq<TimeRange>): (merged: seq<TimeRange>)
  {
    MergeFrom(times, 0)
  }

  // ---------------------------------------------------------------------------
  // Inverting busy ranges against the day

  /** The gaps before each busy range and after the last one, starting from
      minute cursor; a gap is emitted whenever its two ends differ. */
  function FreeTimesFrom(busy: seq<TimeRange>, cursor: int): (free: seq<TimeRange>)
    decreases |busy|
  {
    if busy == [] then
      if cursor != MINUTES_PER_DAY then [FromStartEnd(cursor, MINUTES_PER_DAY)] else []
    else
      (if cursor != busy[0].start then [FromStartEnd(cursor, busy[0].start)] else [])
      + FreeTimesFrom(busy[1..], busy[0].end)
  }

  function FreeTimes(busy: seq<TimeRange>): (free: seq<TimeRange>)
  {
    FreeTimesFrom(busy, START_OF_DAY)
  }

  // ---------------------------------------------------------------------------
  // Duration filter

  /** The ranges of times that last at least duration minutes, in order. */
  function RemoveShortRanges(times: seq<TimeRange>, duration: int): (kept: seq<TimeRange>)
    ensures |kept| <= |times|
    ensures forall t :: t in kept <==> t in times && t.Duration() >= duration
  {
    if times == [] then []
    else
      var rest := RemoveShortRanges(times[1..], duration);
      assert times == [times[0]] + times[1..];
      if times[0].Duration() >= duration then [times[0]] + rest else rest
  }

  // ---------------------------------------------------------------------------
  // One pass and the query

  /** One pass of the solver (queryHelper) for the attendee set chosen by
      considerOptional. */
  function Available(events: seq<Event>, request: MeetingRequest, considerOptional: bool): (available: seq<TimeRange>)
    ensures request.duration <= WHOLE_DAY.Duration() ==>
      forall t :: t in available ==> t.Duration() >= request.duration
  {
    var attendees := Attendees(request, considerOptional);
    if |attendees| == 0 then [WHOLE_DAY]
    else
      var unavailable := UnavailableTimes(events, attendees);
      if |unavailable| == 0 then [WHOLE_DAY]
      else RemoveShortRanges(FreeTimes(Merge(SortByStart(unavailable))), request.duration)
  }

  /** The query: nothing for a request longer than a day; otherwise the pass
      with optional attendees, unless it finds nothing and there are mandatory
      attendees, in which case the pass with mandatory attendees only. */
  function QueryResult(events: seq<Event>, request: MeetingRequest): (result: seq<TimeRange>)
    ensures request.duration > WHOLE_DAY.Duration() ==> result == []
    ensures forall t :: t in result ==> t.Duration() >= request.duration
    ensures request.duration <= WHOLE_DAY.Duration() ==>
      result == if |Available(events, request, true)| == 0 && |request.attendees| > 0
                then Available(events, request, false)
                else Available(events, request, true)
  {
    if request.duration > WHOLE_DAY.Duration() then []
    else
      var withOptional := Available(events, request, true);
      if |withOptional| == 0 && |request.attendees| > 0 then Available(events, request, false)
      else withOptional
  }

  // ---------------------------------------------------------------------------
  // The source's loops

  method MergeTimeRanges(times: seq<TimeRange>) returns (merged: seq<TimeRange>)
    ensures merged == Merge(times)
  {
    merged := [];
    var i := 0;
    while i < |times|
      invariant 0 <= i <= |times|
      invariant merged + MergeFrom(times, i) == Merge(times)
    {
      var current := times[i];
      var startTime := current.start;
      var endTime := current.end;
      ghost var first := i;
      var j := i;
      while j < |times|
        invariant first <= j <= |times|
        invariant GroupEnd(times, first, j) == GroupEnd(times, first, first)
        invariant i == if j == first then first else j - 1
        invariant endTime == if j == first then current.end else Max(current.end, times[j - 1].end)
      {
        var next := times[j];
        if current.Overlaps(next) {
          endTime := Max(current.end, next.end);
          i := j;
        } else {
          break;
        }
        j := j + 1;
      }
      assert GroupEnd(times, first, first) == j;
      merged := merged + [FromStartEnd(startTime, endTime)];
      i := i + 1;
    }
  }

  method FindAvailableTimes(unavailableTimes: seq<TimeRange>) returns (availableTimes: seq<TimeRange>)
    ensures availableTimes == FreeTimes(unavailableTimes)
  {
    availableTimes := [];
    var startTime := START_OF_DAY;
    var endTime;
    for i := 0 to |unavailableTimes|
      invariant availableTimes + FreeTimesFrom(unavailableTimes[i..], startTime) == FreeTimes(unavailableTimes)
    {
      var tr := unavailableTimes[i];
      assert unavailableTimes[i..][1..] == unavailableTimes[i + 1..];
      endTime := tr.start;
      if startTime != endTime {
        availableTimes := availableTimes + [FromStartEnd(startTime, endTime)];
      }
      startTime := tr.end;
    }
    endTime := WHOLE_DAY.Duration();
    if startTime != endTime {
      availableTimes := availableTimes + [FromStartEnd(startTime, endTime)];
    }
  }

  method QueryHelper(events: seq<Event>, request: MeetingRequest, considerOptional: bool)
    returns (available: seq<TimeRange>)
    ensures available == Available(events, request, considerOptional)
  {
    var attendees := request.attendees;
    if considerOptional {
      attendees := attendees + request.optionalAttendees;
    }
    if |attendees| == 0 {
      return [WHOLE_DAY];
    }
    var unavailableTimes := UnavailableTimes(events, attendees);
    if |unavailableTimes| == 0 {
      return [WHOLE_DAY];
    }
    unavailableTimes := SortByStart(unavailableTimes);
    var unavailableNoOverlaps := MergeTimeRanges(unavailableTimes);
    var availableTimes := FindAvailableTimes(unavailableNoOverlaps);
    available := RemoveShortRanges(availableTimes, request.duration);
  }
}
