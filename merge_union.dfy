/** The merge the source evidently intends: each next range is compared with
    the merged range built so far, and the merged range is extended to the
    larger of ITS end and the next range's end.  On ranges of the day sorted by
    start, this yields ascending, disjoint ranges covering exactly the minutes
    the input covers. */
module UnionMerge {
  import opened Calendar
  import opened FindMeetingQuery
  import MergeProofs

  /** Merges rest into the running merged range current. */
  function MergeRun(current: TimeRange, rest: seq<TimeRange>): (merged: seq<TimeRange>)
    decreases |rest|
  {
    if rest == [] then [current]
    else if current.Overlaps(rest[0]) then
      MergeRun(FromStartEnd(current.start, Max(current.end, rest[0].end)), rest[1..])
    else
      [current] + MergeRun(rest[0], rest[1..])
  }

  function MergeUnion(times: seq<TimeRange>): (merged: seq<TimeRange>)
  {
    if times == [] then [] else MergeRun(times[0], times[1..])
  }

  /** What MergeRun needs: the running range and the rest lie in the day, the
      rest is sorted and starts no earlier than the running range. */
  predicate RunInput(current: TimeRange, rest: seq<TimeRange>)
  {
    current.InDay() && AllInDay(rest) && SortedByStart(rest)
    && forall j :: 0 <= j < |rest| ==> current.start <= rest[j].start
  }

  lemma RunInputNext(current: TimeRange, rest: seq<TimeRange>)
    requires RunInput(current, rest) && |rest| > 0
    ensures current.Overlaps(rest[0]) ==>
      RunInput(FromStartEnd(current.start, Max(current.end, rest[0].end)), rest[1..])
    ensures !current.Overlaps(rest[0]) ==> RunInput(rest[0], rest[1..]) && current.end <= rest[0].start
  {
    assert rest[0].InDay();
    assert forall j :: 0 <= j < |rest[1..]| ==> rest[1..][j] == rest[j + 1];
  }

  lemma {:induction false} MergeRunShape(current: TimeRange, rest: seq<TimeRange>)
    requires RunInput(current, rest)
    ensures var m := MergeRun(current, rest);
      AllInDay(m) && Ascending(m) && forall k :: 0 <= k < |m| ==> current.start <= m[k].start
    decreases |rest|
  {
    if |rest| > 0 {
      RunInputNext(current, rest);
      if current.Overlaps(rest[0]) {
        MergeRunShape(FromStartEnd(current.start, Max(current.end, rest[0].end)), rest[1..]);
      } else {
        var tail := MergeRun(rest[0], rest[1..]);
        MergeRunShape(rest[0], rest[1..]);
        AscendingConcat([current], tail);
        var m := [current] + tail;
        forall k | 0 <= k < |m|
          ensures m[k].InDay() && current.start <= m[k].start
        {
          if k > 0 {
            assert m[k] == tail[k - 1];
          }
        }
      }
    }
  }

  lemma {:induction false} MergeRunCovers(current: TimeRange, rest: seq<TimeRange>, p: int)
    requires RunInput(current, rest)
    ensures Covered(MergeRun(current, rest), p) <==> current.Contains(p) || Covered(rest, p)
    decreases |rest|
  {
    if |rest| == 0 {
      if Covered(MergeRun(current, rest), p) {
        var i :| 0 <= i < 1 && [current][i].Contains(p);
      }
      if current.Contains(p) {
        assert [current][0].Contains(p);
      }
    } else {
      RunInputNext(current, rest);
      assert rest == [rest[0]] + rest[1..];
      CoveredAppend([rest[0]], rest[1..], p);
      assert Covered([rest[0]], p) <==> rest[0].Contains(p) by {
        if rest[0].Contains(p) {
          assert [rest[0]][0].Contains(p);
        }
      }
      if current.Overlaps(rest[0]) {
        MergeRunCovers(FromStartEnd(current.start, Max(current.end, rest[0].end)), rest[1..], p);
      } else {
        MergeRunCovers(rest[0], rest[1..], p);
        CoveredAppend([current], MergeRun(rest[0], rest[1..]), p);
        assert Covered([current], p) <==> current.Contains(p) by {
          if current.Contains(p) {
            assert [current][0].Contains(p);
          }
        }
      }
    }
  }

  /** On ranges of the day sorted by start, the intended merge yields ranges of
      the day that are ascending and pairwise disjoint, and a minute is covered
      by the output exactly when it is covered by the input. */
  lemma MergeUnionCorrect(s: seq<TimeRange>)
    requires AllInDay(s) && SortedByStart(s)
    ensures AllInDay(MergeUnion(s)) && Ascending(MergeUnion(s))
    ensures forall p :: Covered(MergeUnion(s), p) <==> Covered(s, p)
  {
    if |s| > 0 {
      assert s[0].InDay();
      assert forall j :: 0 <= j < |s[1..]| ==> s[1..][j] == s[j + 1];
      assert RunInput(s[0], s[1..]);
      MergeRunShape(s[0], s[1..]);
      forall p
        ensures Covered(MergeUnion(s), p) <==> Covered(s, p)
      {
        MergeRunCovers(s[0], s[1..], p);
        assert s == [s[0]] + s[1..];
        CoveredAppend([s[0]], s[1..], p);
        if s[0].Contains(p) {
          assert [s[0]][0].Contains(p);
        }
      }
    }
  }

  lemma {:induction false} MergeRunFixpoint(s: seq<TimeRange>, i: nat)
    requires NonEmptyRanges(s) && NonOverlapping(s)
    requires i < |s|
    ensures MergeRun(s[i], s[i + 1..]) == s[i..]
    decreases |s| - i
  {
    if i + 1 < |s| {
      assert s[i + 1..][0] == s[i + 1];
      assert !s[i].Overlaps(s[i + 1]);
      assert s[i + 1..][1..] == s[i + 2..];
      MergeRunFixpoint(s, i + 1);
      assert s[i..] == [s[i]] + s[i + 1..];
    }
  }

  /** Where the source's merge was already right, the intended merge agrees:
      on non-empty, non-overlapping ranges both change nothing. */
  lemma MergeUnionAgreesOnNonOverlapping(s: seq<TimeRange>)
    requires NonEmptyRanges(s) && NonOverlapping(s)
    ensures MergeUnion(s) == s == Merge(s)
  {
    if |s| > 0 {
      MergeRunFixpoint(s, 0);
    }
    MergeProofs.MergeFixpoint(s);
  }

  /** The intended merge on the input that the source's merge gets wrong:
      [0,10), [5,50), [6,20) merge to [0,50). */
  lemma MergeUnionOnChainedOverlap()
    ensures MergeUnion([TimeRange(0, 10), TimeRange(5, 50), TimeRange(6, 20)]) == [TimeRange(0, 50)]
  {
  }
}
