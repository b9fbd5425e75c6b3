/** The value types the meeting solver works on: half-open minute ranges of a
    single day, calendar events and meeting requests.  The solver's own source
    does not define them; only what the solver uses is modelled here. */
module Calendar {

  /** Start of the day's minute axis. */
  const START_OF_DAY: int := 0

  /** Length of the day in minutes; the exclusive end of the minute axis. */
  const MINUTES_PER_DAY: int := 1440

  /** A range of minutes [start, end).  Nothing forces start < end: the solver
      itself can build a range whose end lies before its start. */
  datatype TimeRange = TimeRange(start: int, end: int)
  {
    function Duration(): int { end - start }

    /** Half-open overlap: [0,60) and [60,120) do not overlap. */
    predicate Overlaps(other: TimeRange) { start < other.end && other.start < end }

    /** Minute p lies in the range. */
    predicate Contains(p: int) { start <= p < end }

    /** A non-empty range inside the day's minute axis. */
    predicate InDay() { START_OF_DAY <= start < end <= MINUTES_PER_DAY }
  }

  /** The range [s, e); the exclusive form of the source's fromStartEnd. */
  function FromStartEnd(s: int, e: int): (r: TimeRange)
    ensures r.Duration() == e - s
    ensures forall p :: r.Contains(p) <==> s <= p < e
  {
    TimeRange(s, e)
  }

  /** The whole day, [0, 1440). */
  const WHOLE_DAY: TimeRange := TimeRange(START_OF_DAY, MINUTES_PER_DAY)

  /** An event: when it happens and who attends it. */
  datatype Event = Event(when: TimeRange, attendees: set<string>)

  /** A meeting request: mandatory attendees, optional attendees and the
      meeting's length in minutes. */
  datatype MeetingRequest = MeetingRequest(attendees: set<string>, optionalAttendees: set<string>, duration: int)

  /** The order the source sorts by (ORDER_BY_START). */
  predicate SortedByStart(s: seq<TimeRange>)
  {
    forall i, j :: 0 <= i < j < |s| ==> s[i].start <= s[j].start
  }

  /** Every range ends no later than any later range starts: the ranges are
      ascending and pairwise disjoint (touching allowed). */
  predicate Ascending(s: seq<TimeRange>)
  {
    forall i, j :: 0 <= i < j < |s| ==> s[i].end <= s[j].start
  }

  /** No two ranges at different positions overlap. */
  predicate NonOverlapping(s: seq<TimeRange>)
  {
    forall i, j :: 0 <= i < j < |s| ==> !s[i].Overlaps(s[j])
  }

  predicate NonEmptyRanges(s: seq<TimeRange>)
  {
    forall k :: 0 <= k < |s| ==> s[k].start < s[k].end
  }

  predicate AllInDay(s: seq<TimeRange>)
  {
    forall i :: 0 <= i < |s| ==> s[i].InDay()
  }

  /** Some range of s contains minute p. */
  predicate Covered(s: seq<TimeRange>, p: int)
  {
    exists i :: 0 <= i < |s| && s[i].Contains(p)
  }

  lemma CoveredAppend(a: seq<TimeRange>, b: seq<TimeRange>, p: int)
    ensures Covered(a + b, p) <==> Covered(a, p) || Covered(b, p)
  {
    if Covered(a + b, p) {
      var i :| 0 <= i < |a + b| && (a + b)[i].Contains(p);
      if i >= |a| {
        assert b[i - |a|] == (a + b)[i];
      }
    }
    if Covered(a, p) {
      var i :| 0 <= i < |a| && a[i].Contains(p);
      assert (a + b)[i] == a[i];
    }
    if Covered(b, p) {
      var i :| 0 <= i < |b| && b[i].Contains(p);
      assert (a + b)[|a| + i] == b[i];
    }
  }

  /** Two non-empty ranges overlap exactly when they share a minute. */
  lemma OverlapsIffSharedMinute(a: TimeRange, b: TimeRange)
    requires a.start < a.end && b.start < b.end
    ensures a.Overlaps(b) <==> exists p :: a.Contains(p) && b.Contains(p)
  {
    if a.Overlaps(b) {
      var p := if a.start < b.start then b.start else a.start;
      assert a.Contains(p) && b.Contains(p);
    }
  }

  /** In a list sorted by start, non-overlapping non-empty ranges are ascending. */
  lemma SortedNonOverlappingIsAscending(s: seq<TimeRange>)
    requires SortedByStart(s) && NonOverlapping(s)
    requires forall i :: 0 <= i < |s| ==> s[i].start < s[i].end
    ensures Ascending(s)
  {
  }

  lemma AscendingConcat(a: seq<TimeRange>, b: seq<TimeRange>)
    requires Ascending(a) && Ascending(b)
    requires forall i, j :: 0 <= i < |a| && 0 <= j < |b| ==> a[i].end <= b[j].start
    ensures Ascending(a + b)
  {
    forall i, j | 0 <= i < j < |a + b|
      ensures (a + b)[i].end <= (a + b)[j].start
    {
      if j < |a| {
        assert (a + b)[i] == a[i] && (a + b)[j] == a[j];
      } else if i < |a| {
        assert (a + b)[i] == a[i] && (a + b)[j] == b[j - |a|];
      } else {
        assert (a + b)[i] == b[i - |a|] && (a + b)[j] == b[j - |a|];
      }
    }
  }
}
