/** Properties of the source's merge step (mergeTimeRanges) as written, and
    the inputs on which it does not compute the union of its input. */
module MergeProofs {
  import opened Calendar
  import opened FindMeetingQuery

  /** A range's group is itself alone when the next range does not overlap
      it; an empty (or inverted) range does not even overlap itself. */
  lemma GroupEndOfIsolated(s: seq<TimeRange>, i: nat)
    requires i < |s|
    requires i + 1 < |s| ==> !s[i].Overlaps(s[i + 1])
    ensures GroupEnd(s, i, i) == if s[i].start < s[i].end then i + 1 else i
  {
    if s[i].start < s[i].end {
      assert s[i].Overlaps(s[i]);
    }
  }

  lemma {:induction false} MergeFromFixpoint(s: seq<TimeRange>, i: nat)
    requires NonOverlapping(s)
    requires i <= |s|
    ensures MergeFrom(s, i) == s[i..]
    decreases |s| - i
  {
    if i < |s| {
      GroupEndOfIsolated(s, i);
      MergeFromFixpoint(s, i + 1);
      assert s[i..] == [s[i]] + s[i + 1..];
    }
  }

  /** On pairwise non-overlapping ranges (touching allowed) the merge changes
      nothing. */
  lemma MergeFixpoint(s: seq<TimeRange>)
    requires NonOverlapping(s)
    ensures Merge(s) == s
  {
    MergeFromFixpoint(s, 0);
  }

  /** Merging again changes nothing once the merge's output is pairwise
      non-overlapping. */
  lemma MergeIdempotent(s: seq<TimeRange>)
    requires NonOverlapping(Merge(s))
    ensures Merge(Merge(s)) == Merge(s)
  {
    MergeFixpoint(Merge(s));
  }

  lemma {:induction false} MergeFromShape(s: seq<TimeRange>, i: nat)
    requires i <= |s|
    ensures var m := MergeFrom(s, i);
      && |m| <= |s| - i
      && forall k :: 0 <= k < |m| ==> exists j :: i <= j < |s| && m[k].start == s[j].start
    decreases |s| - i
  {
    if i < |s| {
      var g := GroupEnd(s, i, i);
      var next := if g == i then i + 1 else g;
      MergeFromShape(s, next);
      var m := MergeFrom(s, i);
      var rest := MergeFrom(s, next);
      forall k | 0 <= k < |m|
        ensures exists j :: i <= j < |s| && m[k].start == s[j].start
      {
        if k == 0 {
          assert m[0].start == s[i].start;
        } else {
          assert m[k] == rest[k - 1];
        }
      }
    }
  }

  /** The merge never lengthens the list, and every merged range starts where
      some input range starts. */
  lemma MergeShape(s: seq<TimeRange>)
    ensures |Merge(s)| <= |s|
    ensures forall k :: 0 <= k < |Merge(s)| ==> exists j :: 0 <= j < |s| && Merge(s)[k].start == s[j].start
  {
    MergeFromShape(s, 0);
  }

  lemma {:induction false} MergeFromInDay(s: seq<TimeRange>, i: nat)
    requires AllInDay(s)
    requires i <= |s|
    ensures AllInDay(MergeFrom(s, i))
    decreases |s| - i
  {
    if i < |s| {
      var g := GroupEnd(s, i, i);
      var next := if g == i then i + 1 else g;
      MergeFromInDay(s, next);
      if g != i {
        assert s[g - 1].InDay();
      }
      var m := MergeFrom(s, i);
      assert m[0].InDay();
      forall k | 0 < k < |m|
        ensures m[k].InDay()
      {
        assert m[k] == MergeFrom(s, next)[k - 1];
      }
    }
  }

  /** Merging ranges of the day yields non-empty ranges of the day. */
  lemma MergeInDay(s: seq<TimeRange>)
    requires AllInDay(s)
    ensures AllInDay(Merge(s))
  {
    MergeFromInDay(s, 0);
  }

  /** Every member of a group overlaps the group's first range. */
  lemma {:induction false} GroupEndOverlaps(s: seq<TimeRange>, first: nat, j: nat)
    requires first < |s| && j <= |s|
    ensures forall m :: j <= m < GroupEnd(s, first, j) ==> s[first].Overlaps(s[m])
    decreases |s| - j
  {
    if j < |s| && s[first].Overlaps(s[j]) {
      GroupEndOverlaps(s, first, j + 1);
    }
  }

  lemma {:induction false} MergeFromWithinInput(s: seq<TimeRange>, i: nat)
    requires NonEmptyRanges(s) && i <= |s|
    ensures forall k, p :: 0 <= k < |MergeFrom(s, i)| && MergeFrom(s, i)[k].Contains(p) ==> Covered(s, p)
    decreases |s| - i
  {
    if i < |s| {
      var g := GroupEnd(s, i, i);
      assert s[i].Overlaps(s[i]);
      assert g == GroupEnd(s, i, i + 1);
      GroupEndOverlaps(s, i, i);
      MergeFromWithinInput(s, g);
      var m := MergeFrom(s, i);
      forall k, p | 0 <= k < |m| && m[k].Contains(p)
        ensures Covered(s, p)
      {
        if k == 0 {
          if p < s[i].end {
            assert s[i].Contains(p);
          } else {
            assert s[i].Overlaps(s[g - 1]);
            assert s[g - 1].Contains(p);
          }
        } else {
          assert m[k] == MergeFrom(s, g)[k - 1];
        }
      }
    }
  }

  /** As written, the merge never makes busy time up: every minute of a
      merged range lies in some input range.  (It may lose busy minutes; see
      MergeLosesChainedOverlap.) */
  lemma MergeWithinInput(s: seq<TimeRange>)
    requires NonEmptyRanges(s)
    ensures forall p :: Covered(Merge(s), p) ==> Covered(s, p)
  {
    MergeFromWithinInput(s, 0);
    forall p | Covered(Merge(s), p)
      ensures Covered(s, p)
    {
      var k :| 0 <= k < |Merge(s)| && Merge(s)[k].Contains(p);
    }
  }

  lemma {:induction false} GroupEndToEnd(s: seq<TimeRange>, first: nat, j: nat)
    requires first < |s| && j <= |s|
    requires forall m :: j <= m < |s| ==> s[first].Overlaps(s[m])
    ensures GroupEnd(s, first, j) == |s|
    decreases |s| - j
  {
    if j < |s| {
      GroupEndToEnd(s, first, j + 1);
    }
  }

  /** Sorted ranges of the day headed by the whole day merge into the whole
      day: every range of the day overlaps the first one. */
  lemma MergeHeadedByWholeDay(s: seq<TimeRange>)
    requires AllInDay(s) && |s| > 0 && s[0] == WHOLE_DAY
    ensures Merge(s) == [WHOLE_DAY]
  {
    GroupEndToEnd(s, 0, 0);
    assert s[|s| - 1].InDay();
    assert MergeFrom(s, |s|) == [];
  }

  /** As written, a chain of overlaps is cut short: [5,50) overlaps [0,10)
      but the merged range ends at 20, the end of the group's last member,
      so minutes 20 to 49 are lost from the busy time. */
  lemma MergeLosesChainedOverlap()
    ensures Merge([TimeRange(0, 10), TimeRange(5, 50), TimeRange(6, 20)]) == [TimeRange(0, 20)]
  {
    var s := [TimeRange(0, 10), TimeRange(5, 50), TimeRange(6, 20)];
    assert GroupEnd(s, 0, 3) == 3;
    assert GroupEnd(s, 0, 0) == 3;
  }

  /** As written, a range that overlaps a group member but not the group's
      first range starts a new merged range, so the merged ranges overlap and
      the inversion produces a range that ends before it starts. */
  lemma MergeOutputOverlaps()
    ensures Merge([TimeRange(0, 10), TimeRange(5, 50), TimeRange(15, 60)]) == [TimeRange(0, 50), TimeRange(15, 60)]
    ensures FreeTimes(Merge([TimeRange(0, 10), TimeRange(5, 50), TimeRange(15, 60)]))
      == [TimeRange(50, 15), TimeRange(60, MINUTES_PER_DAY)]
  {
    var s := [TimeRange(0, 10), TimeRange(5, 50), TimeRange(15, 60)];
    assert GroupEnd(s, 0, 2) == 2;
    assert GroupEnd(s, 0, 0) == 2;
    assert GroupEnd(s, 2, 3) == 3;
    assert GroupEnd(s, 2, 2) == 3;
    assert MergeFrom(s, 2) == [TimeRange(15, 60)];
  }
}
