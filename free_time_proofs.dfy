/** What the inversion of busy ranges (findAvailableTimesFromUnavailableTimes)
    promises when the busy ranges it is given are ascending, pairwise disjoint
    and inside the day: the free ranges are non-empty, inside the day and
    ascending, never meet a busy range, together with the busy ranges cover
    the whole day, and contain every busy-free window. */
module FreeTimeProofs {
  import opened Calendar
  import opened FindMeetingQuery

  /** What the loop needs of its input when it starts at minute cursor. */
  predicate ValidBusyFrom(busy: seq<TimeRange>, cursor: int)
  {
    START_OF_DAY <= cursor <= MINUTES_PER_DAY && AllInDay(busy) && Ascending(busy)
    && (|busy| > 0 ==> cursor <= busy[0].start)
  }

  lemma ValidBusyTail(busy: seq<TimeRange>, cursor: int)
    requires ValidBusyFrom(busy, cursor) && |busy| > 0
    ensures ValidBusyFrom(busy[1..], busy[0].end)
    ensures forall j :: 0 <= j < |busy| ==> busy[0].start <= busy[j].start
  {
    assert busy[0].InDay();
    if |busy| > 1 {
      assert busy[1..][0] == busy[1];
    }
  }

  /** Free ranges are non-empty, inside the day, start no earlier than the
      cursor and are ascending. */
  lemma {:induction false} FreeTimesFromShape(busy: seq<TimeRange>, cursor: int)
    requires ValidBusyFrom(busy, cursor)
    ensures var free := FreeTimesFrom(busy, cursor);
      AllInDay(free) && Ascending(free)
      && forall i :: 0 <= i < |free| ==> cursor <= free[i].start
    decreases |busy|
  {
    if |busy| > 0 {
      ValidBusyTail(busy, cursor);
      var head := if cursor != busy[0].start then [FromStartEnd(cursor, busy[0].start)] else [];
      var rest := FreeTimesFrom(busy[1..], busy[0].end);
      FreeTimesFromShape(busy[1..], busy[0].end);
      AscendingConcat(head, rest);
      var free := head + rest;
      forall i | 0 <= i < |free|
        ensures free[i].InDay() && cursor <= free[i].start
      {
        if i >= |head| {
          assert free[i] == rest[i - |head|];
        }
      }
    }
  }

  /** No free range overlaps a busy range. */
  lemma {:induction false} FreeTimesFromAvoidBusy(busy: seq<TimeRange>, cursor: int)
    requires ValidBusyFrom(busy, cursor)
    ensures var free := FreeTimesFrom(busy, cursor);
      forall i, j :: 0 <= i < |free| && 0 <= j < |busy| ==> !free[i].Overlaps(busy[j])
    decreases |busy|
  {
    if |busy| > 0 {
      ValidBusyTail(busy, cursor);
      var head := if cursor != busy[0].start then [FromStartEnd(cursor, busy[0].start)] else [];
      var rest := FreeTimesFrom(busy[1..], busy[0].end);
      FreeTimesFromShape(busy[1..], busy[0].end);
      FreeTimesFromAvoidBusy(busy[1..], busy[0].end);
      var free := head + rest;
      forall i, j | 0 <= i < |free| && 0 <= j < |busy|
        ensures !free[i].Overlaps(busy[j])
      {
        if i >= |head| {
          assert free[i] == rest[i - |head|];
          if j > 0 {
            assert busy[j] == busy[1..][j - 1];
          }
        }
      }
    }
  }

  /** Every minute of the day from the cursor on is free or busy. */
  lemma {:induction false} FreeTimesFromCover(busy: seq<TimeRange>, cursor: int, p: int)
    requires ValidBusyFrom(busy, cursor)
    requires cursor <= p < MINUTES_PER_DAY
    ensures Covered(FreeTimesFrom(busy, cursor), p) || Covered(busy, p)
    decreases |busy|
  {
    if |busy| == 0 {
      assert FreeTimesFrom(busy, cursor)[0].Contains(p);
    } else {
      ValidBusyTail(busy, cursor);
      var head := if cursor != busy[0].start then [FromStartEnd(cursor, busy[0].start)] else [];
      var rest := FreeTimesFrom(busy[1..], busy[0].end);
      CoveredAppend(head, rest, p);
      if p < busy[0].start {
        assert head[0].Contains(p);
      } else if p < busy[0].end {
        assert busy[0].Contains(p);
      } else {
        FreeTimesFromCover(busy[1..], busy[0].end, p);
        if Covered(busy[1..], p) {
          var j :| 0 <= j < |busy[1..]| && busy[1..][j].Contains(p);
          assert busy[j + 1].Contains(p);
        }
      }
    }
  }

  /** A window that meets no busy range lies inside one free range.  The busy
      ranges need only be non-empty: neither their order nor their
      disjointness matters, since the window lies before each busy range it
      meets on the way or after it. */
  lemma {:induction false} FreeTimesFromComplete(busy: seq<TimeRange>, cursor: int, s: int, e: int)
    requires NonEmptyRanges(busy)
    requires cursor <= s < e <= MINUTES_PER_DAY
    requires forall j :: 0 <= j < |busy| ==> !TimeRange(s, e).Overlaps(busy[j])
    ensures var free := FreeTimesFrom(busy, cursor);
      exists i :: 0 <= i < |free| && free[i].start <= s && e <= free[i].end
    decreases |busy|
  {
    var free := FreeTimesFrom(busy, cursor);
    if |busy| == 0 {
      assert free[0].start <= s && e <= free[0].end;
    } else {
      assert busy[0].start < busy[0].end && !TimeRange(s, e).Overlaps(busy[0]);
      var head := if cursor != busy[0].start then [FromStartEnd(cursor, busy[0].start)] else [];
      var rest := FreeTimesFrom(busy[1..], busy[0].end);
      assert free == head + rest;
      if s < busy[0].start {
        assert cursor != busy[0].start && e <= busy[0].start;
        assert head == [FromStartEnd(cursor, busy[0].start)];
        assert free[0] == head[0];
        assert free[0].start <= s && e <= free[0].end;
        assert free == FreeTimesFrom(busy, cursor);
      } else {
        forall j | 0 <= j < |busy[1..]|
          ensures !TimeRange(s, e).Overlaps(busy[1..][j])
        {
          assert busy[1..][j] == busy[j + 1];
        }
        assert NonEmptyRanges(busy[1..]) by {
          forall j | 0 <= j < |busy[1..]|
            ensures busy[1..][j].start < busy[1..][j].end
          {
            assert busy[1..][j] == busy[j + 1];
          }
        }
        FreeTimesFromComplete(busy[1..], busy[0].end, s, e);
        var i :| 0 <= i < |rest| && rest[i].start <= s && e <= rest[i].end;
        assert free[|head| + i] == rest[i];
      }
    }
  }

  /** The inversion over the whole day, on non-empty busy ranges in any order
      and possibly overlapping: every window of the day that meets no busy
      range lies inside one free range. */
  lemma FreeTimesComplete(busy: seq<TimeRange>, s: int, e: int)
    requires NonEmptyRanges(busy)
    requires START_OF_DAY <= s < e <= MINUTES_PER_DAY
    requires forall j :: 0 <= j < |busy| ==> !TimeRange(s, e).Overlaps(busy[j])
    ensures exists i :: 0 <= i < |FreeTimes(busy)| && FreeTimes(busy)[i].start <= s && e <= FreeTimes(busy)[i].end
  {
    FreeTimesFromComplete(busy, START_OF_DAY, s, e);
    var free := FreeTimesFrom(busy, START_OF_DAY);
    var i :| 0 <= i < |free| && free[i].start <= s && e <= free[i].end;
    assert FreeTimes(busy)[i] == free[i];
  }

  /** The inversion over the whole day: free ranges are non-empty, inside the
      day and ascending; none meets a busy range; every minute of the day is
      free or busy; every window that meets no busy range lies inside a free
      range. */
  lemma FreeTimesCorrect(busy: seq<TimeRange>)
    requires AllInDay(busy) && Ascending(busy)
    ensures var free := FreeTimes(busy);
      && AllInDay(free) && Ascending(free)
      && (forall i, j :: 0 <= i < |free| && 0 <= j < |busy| ==> !free[i].Overlaps(busy[j]))
      && (forall p :: START_OF_DAY <= p < MINUTES_PER_DAY ==> Covered(free, p) || Covered(busy, p))
      && (forall s, e :: START_OF_DAY <= s < e <= MINUTES_PER_DAY
            && (forall j :: 0 <= j < |busy| ==> !TimeRange(s, e).Overlaps(busy[j]))
            ==> exists i :: 0 <= i < |free| && free[i].start <= s && e <= free[i].end)
  {
    if |busy| > 0 {
      assert busy[0].InDay();
    }
    FreeTimesFromShape(busy, START_OF_DAY);
    FreeTimesFromAvoidBusy(busy, START_OF_DAY);
    forall p | START_OF_DAY <= p < MINUTES_PER_DAY
      ensures Covered(FreeTimes(busy), p) || Covered(busy, p)
    {
      FreeTimesFromCover(busy, START_OF_DAY, p);
    }
    forall s, e | START_OF_DAY <= s < e <= MINUTES_PER_DAY
        && (forall j :: 0 <= j < |busy| ==> !TimeRange(s, e).Overlaps(busy[j]))
      ensures exists i :: 0 <= i < |FreeTimes(busy)| && FreeTimes(busy)[i].start <= s && e <= FreeTimes(busy)[i].end
    {
      FreeTimesFromComplete(busy, START_OF_DAY, s, e);
      var free := FreeTimesFrom(busy, START_OF_DAY);
      var i :| 0 <= i < |free| && free[i].start <= s && e <= free[i].end;
      assert FreeTimes(busy)[i] == free[i];
    }
  }
}
