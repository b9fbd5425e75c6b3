/** Sorting of busy ranges by start.  The source calls the library's stable
    sort with the by-start comparator; the model is a stable insertion sort,
    proved to sort, to permute, and to keep ranges with equal starts in their
    original order (which is what makes the result the stable sort's). */
module Sorting {
  import opened Calendar

  /** Inserts x in front of the first range of s that starts no earlier. */
  function Insert(x: TimeRange, s: seq<TimeRange>): (r: seq<TimeRange>)
    ensures multiset(r) == multiset(s) + multiset{x}
    ensures SortedByStart(s) ==> SortedByStart(r)
  {
    if s == [] || x.start <= s[0].start then [x] + s
    else
      var rest := Insert(x, s[1..]);
      assert s == [s[0]] + s[1..];
      if SortedByStart(s) then
        InsertHeadBound(x, s[0], s[1..], rest);
        ConsSorted(s[0], rest);
        [s[0]] + rest
      else
        [s[0]] + rest
  }

  lemma InsertHeadBound(x: TimeRange, h: TimeRange, t: seq<TimeRange>, rest: seq<TimeRange>)
    requires SortedByStart([h] + t) && h.start < x.start
    requires multiset(rest) == multiset(t) + multiset{x}
    ensures forall y :: y in multiset(rest) ==> h.start <= y.start
  {
    forall y | y in multiset(rest)
      ensures h.start <= y.start
    {
      if y != x {
        assert y in t;
        var j :| 0 <= j < |t| && t[j] == y;
        assert ([h] + t)[0] == h && ([h] + t)[j + 1] == y;
      }
    }
  }

  /** A sorted list stays sorted under a head that starts no later than any of it. */
  lemma ConsSorted(h: TimeRange, t: seq<TimeRange>)
    requires SortedByStart(t)
    requires forall y :: y in multiset(t) ==> h.start <= y.start
    ensures SortedByStart([h] + t)
  {
    forall j | 0 < j < |[h] + t|
      ensures h.start <= ([h] + t)[j].start
    {
      assert t[j - 1] in multiset(t);
    }
  }

  /** Sorts by start; ranges with equal starts keep their relative order. */
  function SortByStart(s: seq<TimeRange>): (r: seq<TimeRange>)
    ensures SortedByStart(r)
    ensures multiset(r) == multiset(s)
  {
    if s == [] then []
    else
      assert s == [s[0]] + s[1..];
      Insert(s[0], SortByStart(s[1..]))
  }

  /** The ranges of s that start at minute k, in the order of s. */
  function StartingAt(s: seq<TimeRange>, k: int): seq<TimeRange>
  {
    if s == [] then []
    else (if s[0].start == k then [s[0]] else []) + StartingAt(s[1..], k)
  }

  /** A sorted list whose ranges all start at k or later is headed by its
      first range starting at k, when it has one. */
  lemma {:induction false} SortedHeadStartingAt(s: seq<TimeRange>, k: int)
    requires SortedByStart(s)
    requires forall j :: 0 <= j < |s| ==> k <= s[j].start
    requires StartingAt(s, k) != []
    ensures s != [] && s[0] == StartingAt(s, k)[0]
  {
    StartingAtMember(s, k);
    var j :| 0 <= j < |s| && s[j] == StartingAt(s, k)[0];
    assert s[0].start == k;
  }

  lemma {:induction false} StartingAtMember(s: seq<TimeRange>, k: int)
    ensures forall x :: x in StartingAt(s, k) ==> x in s && x.start == k
  {
    if s != [] {
      StartingAtMember(s[1..], k);
    }
  }

  lemma {:induction false} InsertStartingAt(x: TimeRange, s: seq<TimeRange>, k: int)
    ensures StartingAt(Insert(x, s), k) == (if x.start == k then [x] else []) + StartingAt(s, k)
  {
    var own := if x.start == k then [x] else [];
    if s == [] || x.start <= s[0].start {
      assert ([x] + s)[1..] == s;
    } else {
      var head := if s[0].start == k then [s[0]] else [];
      var rest := Insert(x, s[1..]);
      InsertStartingAt(x, s[1..], k);
      assert ([s[0]] + rest)[1..] == rest;
      assert StartingAt(Insert(x, s), k) == head + StartingAt(rest, k);
      if x.start == k {
        // x starts later than s[0], so s[0] does not start at k
        assert head == [] && head + StartingAt(rest, k) == StartingAt(rest, k);
        assert StartingAt(s, k) == StartingAt(s[1..], k);
      } else {
        assert own == [] && own + StartingAt(s, k) == StartingAt(s, k);
        assert own + StartingAt(s[1..], k) == StartingAt(s[1..], k);
      }
    }
  }

  /** Stability: among ranges with the same start, the sort keeps the input order. */
  lemma {:induction false} SortByStartIsStable(s: seq<TimeRange>, k: int)
    ensures StartingAt(SortByStart(s), k) == StartingAt(s, k)
  {
    if s != [] {
      SortByStartIsStable(s[1..], k);
      InsertStartingAt(s[0], SortByStart(s[1..]), k);
    }
  }

  /** Sorting keeps a list of pairwise non-overlapping ranges non-overlapping. */
  lemma {:induction false} SortByStartKeepsNonOverlapping(s: seq<TimeRange>)
    requires NonOverlapping(s)
    ensures NonOverlapping(SortByStart(s))
  {
    if s != [] {
      var t := SortByStart(s[1..]);
      SortByStartKeepsNonOverlapping(s[1..]);
      forall y | y in t
        ensures !s[0].Overlaps(y)
      {
        assert y in multiset(t);
        var j :| 0 <= j < |s[1..]| && s[1..][j] == y;
        assert s[j + 1] == y;
      }
      InsertKeepsNonOverlapping(s[0], t);
    }
  }

  lemma {:induction false} InsertKeepsNonOverlapping(x: TimeRange, s: seq<TimeRange>)
    requires NonOverlapping(s)
    requires forall y :: y in s ==> !x.Overlaps(y)
    ensures NonOverlapping(Insert(x, s))
  {
    var r := Insert(x, s);
    if s == [] || x.start <= s[0].start {
      forall i, j | 0 <= i < j < |r|
        ensures !r[i].Overlaps(r[j])
      {
        if i == 0 {
          assert r[j] == s[j - 1];
        } else {
          assert r[i] == s[i - 1] && r[j] == s[j - 1];
        }
      }
    } else {
      var rest := Insert(x, s[1..]);
      InsertKeepsNonOverlapping(x, s[1..]);
      forall i, j | 0 <= i < j < |r|
        ensures !r[i].Overlaps(r[j])
      {
        if i == 0 {
          var y := rest[j - 1];
          assert y in multiset(rest);
          if y != x {
            assert y in s[1..];
            var m :| 0 <= m < |s[1..]| && s[1..][m] == y;
            assert s[m + 1] == y;
          } else {
            assert s[0] in s;
          }
        } else {
          assert r[i] == rest[i - 1] && r[j] == rest[j - 1];
        }
      }
    }
  }
}
