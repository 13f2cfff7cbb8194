/** `merge_intervals` of src/aoc/tools.py.  An interval `[start, end]` is
    a pair; it covers the integers from `start` to `end` inclusive, and none
    when `start > end`. */
module Intervals {

  type Interval = (int, int)

  /** `x` lies in one of the intervals of `s`. */
  ghost predicate Covered(s: seq<Interval>, x: int) {
    exists iv :: iv in s && iv.0 <= x <= iv.1
  }

  predicate SortedByStart(s: seq<Interval>) {
    forall i, j :: 0 <= i < j < |s| ==> s[i].0 <= s[j].0
  }

  /** Appending keeps the order exactly when nothing before starts later. */
  lemma SortedSnoc(s: seq<Interval>, x: Interval)
    ensures SortedByStart(s + [x]) <==> SortedByStart(s) && forall y :: y in s ==> y.0 <= x.0
  {
    if SortedByStart(s + [x]) {
      forall y | y in s ensures y.0 <= x.0 {
        var i :| 0 <= i < |s| && s[i] == y;
        assert (s + [x])[i] == y && (s + [x])[|s|] == x;
      }
      forall i, j | 0 <= i < j < |s| ensures s[i].0 <= s[j].0 {
        assert (s + [x])[i] == s[i] && (s + [x])[j] == s[j];
      }
    }
    if SortedByStart(s) && forall y :: y in s ==> y.0 <= x.0 {
      forall i, j | 0 <= i < j < |s + [x]| ensures (s + [x])[i].0 <= (s + [x])[j].0 {
        if j == |s| {
          assert (s + [x])[i] in s;
        }
      }
    }
  }

  /** `iv` placed after every interval of the sorted `s` that starts no
      later, as a stable sort places it. */
  function InsertByStart(iv: Interval, s: seq<Interval>): (r: seq<Interval>)
    ensures multiset(r) == multiset(s) + multiset{iv}
  {
    if s == [] then [iv]
    else if s[|s| - 1].0 <= iv.0 then s + [iv]
    else
      var r := InsertByStart(iv, s[..|s| - 1]) + [s[|s| - 1]];
      assert s == s[..|s| - 1] + [s[|s| - 1]];
      r
  }

  lemma {:induction false} InsertByStartSorted(iv: Interval, s: seq<Interval>)
    requires SortedByStart(s)
    ensures SortedByStart(InsertByStart(iv, s))
  {
    if s == [] {
    } else if s[|s| - 1].0 <= iv.0 {
      SortedSnoc(s, iv);
    } else {
      var front, l := s[..|s| - 1], s[|s| - 1];
      assert s == front + [l];
      SortedSnoc(front, l);
      InsertByStartSorted(iv, front);
      var r0 := InsertByStart(iv, front);
      forall y | y in r0 ensures y.0 <= l.0 {
        assert y in multiset(r0);
        assert y == iv || y in multiset(front);
      }
      SortedSnoc(r0, l);
    }
  }

  /** `intervals.sort(key=lambda x: x[0])`: a stable sort on the start. */
  function SortByStart(s: seq<Interval>): (r: seq<Interval>)
    ensures SortedByStart(r) && multiset(r) == multiset(s)
  {
    if s == [] then []
    else
      assert s == s[..|s| - 1] + [s[|s| - 1]];
      var front := SortByStart(s[..|s| - 1]);
      InsertByStartSorted(s[|s| - 1], front);
      InsertByStart(s[|s| - 1], front)
  }

  /** The intervals of `s` that start at `c`, in their order in `s`. */
  function StartingAt(s: seq<Interval>, c: int): seq<Interval> {
    if s == [] then []
    else StartingAt(s[..|s| - 1], c) + (if s[|s| - 1].0 == c then [s[|s| - 1]] else [])
  }

  lemma {:induction false} StartingAtAppend(s: seq<Interval>, t: seq<Interval>, c: int)
    ensures StartingAt(s + t, c) == StartingAt(s, c) + StartingAt(t, c)
    decreases |t|
  {
    if t != [] {
      var t0 := t[..|t| - 1];
      assert (s + t)[..|s + t| - 1] == s + t0;
      StartingAtAppend(s, t0, c);
    } else {
      assert s + t == s;
    }
  }

  lemma {:induction false} InsertByStartStable(iv: Interval, s: seq<Interval>, c: int)
    ensures StartingAt(InsertByStart(iv, s), c) == StartingAt(s, c) + (if iv.0 == c then [iv] else [])
  {
    if s == [] {
      assert StartingAt([iv], c) == StartingAt([], c) + (if iv.0 == c then [iv] else []);
    } else if s[|s| - 1].0 <= iv.0 {
      StartingAtAppend(s, [iv], c);
      assert StartingAt([iv], c) == StartingAt([], c) + (if iv.0 == c then [iv] else []);
    } else {
      var front, l := s[..|s| - 1], s[|s| - 1];
      InsertByStartStable(iv, front, c);
      StartingAtAppend(InsertByStart(iv, front), [l], c);
      assert StartingAt([l], c) == StartingAt([], c) + (if l.0 == c then [l] else []);
    }
  }

  /** The sort is stable: the intervals with any one start keep their
      relative order. */
  lemma {:induction false} SortByStartStable(s: seq<Interval>, c: int)
    ensures StartingAt(SortByStart(s), c) == StartingAt(s, c)
  {
    if s != [] {
      SortByStartStable(s[..|s| - 1], c);
      InsertByStartStable(s[|s| - 1], SortByStart(s[..|s| - 1]), c);
    }
  }

  /** A sequence already sorted by start is left as it is. */
  lemma {:induction false} SortByStartOfSorted(s: seq<Interval>)
    requires SortedByStart(s)
    ensures SortByStart(s) == s
  {
    if s != [] {
      var front := s[..|s| - 1];
      assert s == front + [s[|s| - 1]];
      SortedSnoc(front, s[|s| - 1]);
      SortByStartOfSorted(front);
    }
  }

  /** Reordering the intervals covers the same points. */
  lemma CoveredPermutation(s: seq<Interval>, t: seq<Interval>, x: int)
    requires multiset(s) == multiset(t)
    ensures Covered(s, x) <==> Covered(t, x)
  {
    forall iv ensures iv in s <==> iv in t {
      assert iv in s <==> iv in multiset(s);
      assert iv in t <==> iv in multiset(t);
    }
  }

  /** Replacing the last interval `last` by `(last.0, max(last.1, c.1))`
      covers what `last` and `c` covered, when `c` starts inside `last`. */
  lemma CoveredWiden(front: seq<Interval>, last: Interval, c: Interval, x: int)
    requires last.0 <= c.0 <= last.1
    ensures var widened := (last.0, if last.1 >= c.1 then last.1 else c.1);
      Covered(front + [widened], x) <==> Covered(front + [last] + [c], x)
  {
    var widened := (last.0, if last.1 >= c.1 then last.1 else c.1);
    if Covered(front + [last] + [c], x) {
      var iv :| iv in front + [last] + [c] && iv.0 <= x <= iv.1;
      if iv in front {
        assert iv in front + [widened];
      } else {
        assert widened in front + [widened];
      }
    }
    if Covered(front + [widened], x) {
      var iv :| iv in front + [widened] && iv.0 <= x <= iv.1;
      if iv in front {
        assert iv in front + [last] + [c];
      } else if x <= last.1 {
        assert last in front + [last] + [c];
      } else {
        assert c in front + [last] + [c];
      }
    }
  }

  lemma CoveredSnoc(s: seq<Interval>, c: Interval, x: int)
    ensures Covered(s + [c], x) <==> Covered(s, x) || c.0 <= x <= c.1
  {
    if Covered(s, x) {
      var iv :| iv in s && iv.0 <= x <= iv.1;
      assert iv in s + [c];
    }
    if c.0 <= x <= c.1 {
      assert c in s + [c];
    }
  }

  /** One step of the merge: `c` is folded into the last merged interval
      when it starts no later than that interval's end, and appended
      otherwise. */
  function MergeStep(merged: seq<Interval>, c: Interval): seq<Interval> {
    if merged == [] then [c]
    else
      var last := merged[|merged| - 1];
      if c.0 <= last.1 then merged[..|merged| - 1] + [(last.0, if last.1 >= c.1 then last.1 else c.1)]
      else merged + [c]
  }

  /** The merge of the intervals of `rest`, in order, into those already
      merged. */
  function MergeFrom(merged: seq<Interval>, rest: seq<Interval>): seq<Interval>
    decreases |rest|
  {
    if rest == [] then merged else MergeFrom(MergeStep(merged, rest[0]), rest[1..])
  }

  /** The inputs of tests/test_tools.py are already sorted by start. */
  lemma OverlappingSorted()
    ensures SortByStart([(1, 3), (2, 6), (8, 10), (15, 18)]) == [(1, 3), (2, 6), (8, 10), (15, 18)]
  {
    SortByStartOfSorted([(1, 3), (2, 6), (8, 10), (15, 18)]);
  }

  lemma TouchingSorted()
    ensures SortByStart([(1, 2), (3, 4)]) == [(1, 2), (3, 4)]
    ensures SortByStart([(1, 5)]) == [(1, 5)]
  {
    SortByStartOfSorted([(1, 2), (3, 4)]);
    SortByStartOfSorted([(1, 5)]);
  }

  lemma FoldOverlapping()
    ensures MergeFrom([], [(1, 3), (2, 6), (8, 10), (15, 18)]) == [(1, 6), (8, 10), (15, 18)]
  {
  }

  lemma FoldTouching()
    ensures MergeFrom([], [(1, 2), (3, 4)]) == [(1, 2), (3, 4)]
    ensures MergeFrom([], [(1, 5)]) == [(1, 5)]
  {
  }

  /** Merging from position `k` on is one step and then merging the rest. */
  lemma MergeFromAt(merged: seq<Interval>, s: seq<Interval>, k: nat)
    requires k < |s|
    ensures MergeFrom(merged, s[k..]) == MergeFrom(MergeStep(merged, s[k]), s[k + 1..])
  {
    assert s[k..][1..] == s[k + 1..];
  }

  /** The overlapping example of tests/test_tools.py. */
  lemma MergeOverlapping()
    ensures MergeFrom([], SortByStart([(1, 3), (2, 6), (8, 10), (15, 18)])) == [(1, 6), (8, 10), (15, 18)]
  {
    OverlappingSorted();
    FoldOverlapping();
  }

  /** Intervals that only touch at consecutive integers stay apart, as
      tests/test_tools.py expects: `[1, 2]` is not merged with `[3, 4]`
      although together they cover 1..4 without a gap. */
  lemma MergeTouchingApart()
    ensures MergeFrom([], SortByStart([(1, 2), (3, 4)])) == [(1, 2), (3, 4)]
    ensures MergeFrom([], SortByStart([(1, 5)])) == [(1, 5)]
  {
    TouchingSorted();
    FoldTouching();
  }

  /** `merge_intervals(intervals)`: the intervals sorted by start, with
      each one that starts inside the previous merged interval folded into
      it.  The result is `MergeFrom` of the sorted intervals; it is sorted, its
      intervals are separated by gaps, and it covers the same integers as
      the input. */
  method MergeIntervals(intervals: seq<Interval>) returns (merged: seq<Interval>)
    ensures merged == MergeFrom([], SortByStart(intervals))
    ensures intervals == [] ==> merged == []
    ensures |merged| <= |intervals|
    ensures Separated(merged)
    ensures forall x :: Covered(merged, x) <==> Covered(intervals, x)
  {
    if intervals == [] {
      return [];
    }
    var sorted := SortByStart(intervals);
    assert |sorted| == |multiset(sorted)| == |intervals|;
    merged := [sorted[0]];
    MergeFromAt([], sorted, 0);
    for k := 1 to |sorted|
      invariant 1 <= |merged| <= k
      invariant MergeFrom(merged, sorted[k..]) == MergeFrom([], sorted)
      invariant Separated(merged)
      invariant merged[|merged| - 1].0 <= sorted[k - 1].0
      invariant forall x :: Covered(merged, x) <==> Covered(sorted[..k], x)
    {
      assert sorted[..k + 1] == sorted[..k] + [sorted[k]];
      MergeFromAt(merged, sorted, k);
      var merged2 := Absorb(merged, sorted[k]);
      CoveredStep(merged, merged2, sorted[..k], sorted[k]);
      merged := merged2;
    }
    assert sorted[..|sorted|] == sorted;
    CoveredSorted(merged, sorted, intervals);
  }

  /** Covering what a prefix covers, then absorbing the next interval,
      covers what the longer prefix covers. */
  lemma CoveredStep(merged: seq<Interval>, merged2: seq<Interval>, prefix: seq<Interval>, c: Interval)
    requires forall x :: Covered(merged, x) <==> Covered(prefix, x)
    requires forall x :: Covered(merged2, x) <==> Covered(merged, x) || c.0 <= x <= c.1
    ensures forall x :: Covered(merged2, x) <==> Covered(prefix + [c], x)
  {
    forall x ensures Covered(merged2, x) <==> Covered(prefix + [c], x) {
      CoveredSnoc(prefix, c, x);
    }
  }

  /** What covers the sorted intervals covers the original ones. */
  lemma CoveredSorted(merged: seq<Interval>, sorted: seq<Interval>, intervals: seq<Interval>)
    requires multiset(sorted) == multiset(intervals)
    requires forall x :: Covered(merged, x) <==> Covered(sorted, x)
    ensures forall x :: Covered(merged, x) <==> Covered(intervals, x)
  {
    forall x ensures Covered(sorted, x) <==> Covered(intervals, x) {
      CoveredPermutation(sorted, intervals, x);
    }
  }

  /** Sorted by start, with a gap after every interval. */
  predicate Separated(s: seq<Interval>) {
    SortedByStart(s) && forall i :: 0 < i < |s| ==> s[i - 1].1 < s[i].0
  }

  /** The body of the loop in `merge_intervals`: widen the last merged
      interval when `current` starts inside it, otherwise append `current`. */
  method Absorb(merged: seq<Interval>, current: Interval) returns (merged2: seq<Interval>)
    requires merged != [] && Separated(merged)
    requires merged[|merged| - 1].0 <= current.0
    ensures merged2 == MergeStep(merged, current)
    ensures 1 <= |merged2| <= |merged| + 1
    ensures Separated(merged2)
    ensures merged2[|merged2| - 1].0 <= current.0
    ensures forall x :: Covered(merged2, x) <==> Covered(merged, x) || current.0 <= x <= current.1
  {
    var last := merged[|merged| - 1];
    var front := merged[..|merged| - 1];
    assert merged == front + [last];
    if current.0 <= last.1 {
      var widened := (last.0, if last.1 >= current.1 then last.1 else current.1);
      forall x ensures Covered(front + [widened], x) <==> Covered(merged, x) || current.0 <= x <= current.1 {
        CoveredWiden(front, last, current, x);
        CoveredSnoc(merged, current, x);
      }
      SeparatedWiden(front, last, widened);
      merged2 := front + [widened];
    } else {
      forall x ensures Covered(merged + [current], x) <==> Covered(merged, x) || current.0 <= x <= current.1 {
        CoveredSnoc(merged, current, x);
      }
      SeparatedAppend(merged, current);
      merged2 := merged + [current];
    }
  }

  /** Widening the last interval, keeping its start, keeps the gaps. */
  lemma SeparatedWiden(front: seq<Interval>, last: Interval, widened: Interval)
    requires Separated(front + [last]) && widened.0 == last.0
    ensures Separated(front + [widened])
  {
    var m := front + [last];
    var w := front + [widened];
    SortedSnoc(front, last);
    SortedSnoc(front, widened);
    forall i | 0 < i < |w| ensures w[i - 1].1 < w[i].0 {
      assert w[i - 1] == m[i - 1];
      assert w[i].0 == m[i].0;
    }
  }

  /** An interval starting after the end of the last one, and no earlier
      than its start, can follow it. */
  lemma SeparatedAppend(merged: seq<Interval>, c: Interval)
    requires merged != [] && Separated(merged)
    requires merged[|merged| - 1].0 <= c.0 && merged[|merged| - 1].1 < c.0
    ensures Separated(merged + [c])
  {
    var m := merged + [c];
    forall y | y in merged ensures y.0 <= c.0 {
      var i :| 0 <= i < |merged| && merged[i] == y;
      assert merged[i].0 <= merged[|merged| - 1].0;
    }
    SortedSnoc(merged, c);
    forall i | 0 < i < |m| ensures m[i - 1].1 < m[i].0 {
      if i < |merged| {
        assert m[i - 1] == merged[i - 1] && m[i] == merged[i];
      }
    }
  }
}
