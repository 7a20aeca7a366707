/** The simplified Tim sort of the visualizer: insertion sort on blocks of
    RUN = 4 values, then bottom-up merging of neighbouring blocks of width
    4, 8, 16, ... Both phases record the very same steps as insertion sort
    and merge sort, so they reuse those modules. No position is reported
    sorted until the final step. */
module Tim {
  import opened Types
  import opened Recorder
  import opened Order
  import Insertion
  import Merge

  /** The block width of the first phase. */
  const RUN: nat := 4

  /** Every block of width w starting at `from`, from + w, from + 2w, ...
      is sorted (the last one may be cut short by the end of a). */
  ghost predicate RunsFrom(a: seq<int>, from: nat, w: nat)
    requires w > 0
    decreases |a| - from
  {
    from >= |a| || (SortedBetween(a, from, Min(from + w, |a|)) && RunsFrom(a, from + w, w))
  }

  /** `upto` is a multiple of w and every block of width w below it is
      sorted, the blocks being cut short by the end of a. */
  ghost predicate RunsUpTo(a: seq<int>, upto: nat, w: nat)
    requires w > 0
  {
    upto == 0 || (upto >= w && SortedBetween(a, upto - w, Min(upto, |a|)) && RunsUpTo(a, upto - w, w))
  }

  /** Blocks sorted below x and from x on are all the blocks. */
  lemma {:induction false} Join(a: seq<int>, x: nat, w: nat)
    requires w > 0 && RunsUpTo(a, x, w) && RunsFrom(a, x, w)
    ensures RunsFrom(a, 0, w)
    decreases x
  {
    if x > 0 {
      assert x - w < |a| ==> SortedBetween(a, x - w, Min(x, |a|));
      Join(a, x - w, w);
    }
  }

  /** RunsFrom only looks at positions from `from` on. */
  lemma {:induction false} RunsFromFrame(a: seq<int>, b: seq<int>, from: nat, w: nat)
    requires w > 0 && |a| == |b|
    requires forall k :: from <= k < |a| ==> a[k] == b[k]
    requires RunsFrom(a, from, w)
    ensures RunsFrom(b, from, w)
    decreases |a| - from
  {
    if from < |a| {
      RunsFromFrame(a, b, from + w, w);
    }
  }

  /** RunsUpTo only looks at positions below `upto`. */
  lemma {:induction false} RunsUpToFrame(a: seq<int>, b: seq<int>, upto: nat, w: nat)
    requires w > 0 && |a| == |b|
    requires forall k :: 0 <= k < upto && k < |a| ==> a[k] == b[k]
    requires RunsUpTo(a, upto, w)
    ensures RunsUpTo(b, upto, w)
    decreases upto
  {
    if upto > 0 {
      RunsUpToFrame(a, b, upto - w, w);
    }
  }

  /** The positions the merge at `left` overwrites, in order: every
      position of the pair [left, min(left + 2 size, n)) when it has a
      second block, none otherwise. */
  function PairWrites(n: nat, size: nat, left: nat): (r: seq<int>)
    ensures |r| == if left + size < n then Min(left + 2 * size, n) - left else 0
    ensures forall k :: 0 <= k < |r| ==> r[k] == left + k && r[k] < n
  {
    if left + size < n then Span(left, Min(left + 2 * size, n)) else []
  }

  /** The positions a merge pass of width size overwrites from the pair at
      `left` on, pair after pair. */
  function PassWrites(n: nat, size: nat, left: nat): (r: seq<int>)
    requires size > 0
    decreases n - left
  {
    if left >= n then [] else PairWrites(n, size, left) + PassWrites(n, size, left + 2 * size)
  }

  /** The positions all merge passes from width size on overwrite, pass
      after pass, for widths size, 2 size, 4 size, ... below n. */
  function TimWrites(n: nat, size: nat): (r: seq<int>)
    requires size > 0
    decreases n - size
  {
    if size >= n then [] else PassWrites(n, size, 0) + TimWrites(n, 2 * size)
  }

  /** Every merge of the second phase overwrites positions of the array only. */
  lemma {:induction false} PassWritesInRange(n: nat, size: nat, left: nat)
    requires size > 0
    ensures forall x :: x in PassWrites(n, size, left) ==> left <= x < n
    decreases n - left
  {
    if left < n {
      PassWritesInRange(n, size, left + 2 * size);
    }
  }

  /** The first phase: insertion sort of every block [i, min(i + RUN, n)).
      Its first step, for two values or more, is the highlight of position
      1; no step overwrites a single position. */
  method SortRuns(a: seq<int>, trace: seq<SortStep>)
    returns (a': seq<int>, trace': seq<SortStep>)
    requires Consistent(trace, |a|, []) && StrictSwaps(trace)
    ensures |a'| == |a| && multiset(a') == multiset(a)
    ensures RunsFrom(a', 0, RUN)
    ensures trace <= trace' && Consistent(trace', |a|, []) && StrictSwaps(trace')
    ensures Overwritten(trace') == Overwritten(trace)
    ensures |a| <= 1 ==> trace' == trace
    ensures |a| >= 2 ==> |trace'| > |trace| && trace'[|trace|] == CreateStep(a, [1], [], [])
  {
    a', trace' := a, trace;
    var i := 0;
    while i < |a|
      invariant RunsState(a, trace, a', trace', i)
      decreases |a| - i
    {
      var a0, t0 := a', trace';
      a', trace' := Insertion.InsertionRun(a', trace', i, Min(i + RUN, |a|));
      RunsNext(a, trace, a0, t0, a', trace', i);
      i := i + RUN;
    }
    RunsDone(a, trace, a', trace', i);
  }

  /** What the first phase has established once the blocks below i are
      sorted. */
  ghost predicate RunsState(a: seq<int>, trace: seq<SortStep>, a': seq<int>, trace': seq<SortStep>, i: nat)
  {
    && |a'| == |a| && multiset(a') == multiset(a)
    && RunsUpTo(a', i, RUN)
    && trace <= trace' && Consistent(trace', |a|, []) && StrictSwaps(trace')
    && Overwritten(trace') == Overwritten(trace)
    && (i == 0 ==> a' == a && trace' == trace)
    && (|a| <= 1 ==> trace' == trace)
    && (i > 0 && |a| >= 2 ==> |trace'| > |trace| && trace'[|trace|] == CreateStep(a, [1], [], []))
  }

  /** The insertion sort of the block at i extends the first phase by one
      block; the block at 0 records the highlight of 1 first. */
  lemma RunsNext(a: seq<int>, trace: seq<SortStep>, a0: seq<int>, t0: seq<SortStep>,
                 a1: seq<int>, t1: seq<SortStep>, i: nat)
    requires RunsState(a, trace, a0, t0, i) && i < |a|
    requires |a1| == |a0| && multiset(a1) == multiset(a0)
    requires SameOutside(a0, a1, i, Min(i + RUN, |a|)) && SortedBetween(a1, i, Min(i + RUN, |a|))
    requires t0 <= t1 && Consistent(t1, |a|, []) && StrictSwaps(t1)
    requires Overwritten(t1) == Overwritten(t0)
    requires Min(i + RUN, |a|) <= i + 1 ==> a1 == a0 && t1 == t0
    requires i + 1 < Min(i + RUN, |a|) ==> |t1| > |t0| && t1[|t0|] == CreateStep(a0, [i + 1], [], [])
    ensures RunsState(a, trace, a1, t1, i + RUN)
  {
    RunsUpToFrame(a0, a1, i, RUN);
    if i > 0 && |a| >= 2 {
      PrefixAt(t0, t1, |trace|);
    }
  }

  /** Past the end of the array every block is sorted. */
  lemma RunsDone(a: seq<int>, trace: seq<SortStep>, a': seq<int>, trace': seq<SortStep>, i: nat)
    requires RunsState(a, trace, a', trace', i) && i >= |a|
    ensures |a'| == |a| && multiset(a') == multiset(a)
    ensures RunsFrom(a', 0, RUN)
    ensures trace <= trace' && Consistent(trace', |a|, []) && StrictSwaps(trace')
    ensures Overwritten(trace') == Overwritten(trace)
    ensures |a| <= 1 ==> trace' == trace
    ensures |a| >= 2 ==> |trace'| > |trace| && trace'[|trace|] == CreateStep(a, [1], [], [])
  {
    Join(a', i, RUN);
  }

  /** One merge of the second phase at `left`: the block [left, mid] with
      the block (mid, right], where mid = left + size - 1 and right is the
      end of the pair or of the array. Nothing happens when there is no
      second block; otherwise the steps are merge sort's merge of the pair,
      which starts with the comparison of left and left + size and
      overwrites every position of the pair once, in order. */
  method MergePair(a: seq<int>, trace: seq<SortStep>, left: nat, size: nat)
    returns (a': seq<int>, trace': seq<SortStep>)
    requires 0 < size && left < |a|
    requires RunsFrom(a, left, size)
    ensures |a'| == |a| && multiset(a') == multiset(a)
    ensures SameOutside(a, a', left, Min(left + 2 * size, |a|))
    ensures SortedBetween(a', left, Min(left + 2 * size, |a|))
    ensures Writes(trace, trace', |a|, PairWrites(|a|, size, left))
    ensures left + size >= |a| ==> a' == a && trace' == trace
    ensures left + size < |a| ==>
      |trace'| > |trace| && trace'[|trace|] == Merge.CompareStep(a, left, left + size)
  {
    var mid := left + size - 1;
    var right := Min(left + 2 * size - 1, |a| - 1);
    a', trace' := a, trace;
    if mid < right {
      assert RunsFrom(a, left + size, size);
      a', trace' := Merge.MergeSegments(a, trace, left, mid, right);
      Merge.MergedSegment(a, a', left, mid, right);
      PairSpan(|a|, size, left, right);
    } else {
      WritesNothing(trace, |a|);
    }
  }

  /** The pair's writes are the span merge sort's merge of [left, right]
      overwrites. */
  lemma PairSpan(n: nat, size: nat, left: nat, right: int)
    requires left + size < n && right == Min(left + 2 * size - 1, n - 1)
    ensures PairWrites(n, size, left) == Span(left, right + 1)
  {
  }

  /** One sweep of the second phase for width `size`: MergePair at left =
      0, 2 size, 4 size, ... Blocks of width size become blocks of width
      2 size, and the sweep overwrites the pairs' positions in turn. */
  method MergePass(a: seq<int>, trace: seq<SortStep>, size: nat)
    returns (a': seq<int>, trace': seq<SortStep>)
    requires 0 < size && RunsFrom(a, 0, size)
    ensures |a'| == |a| && multiset(a') == multiset(a)
    ensures RunsFrom(a', 0, 2 * size)
    ensures Writes(trace, trace', |a|, PassWrites(|a|, size, 0))
  {
    a', trace' := SweepFrom(a, trace, size, 0);
  }

  /** Half-way through a sweep at `left`: sorted blocks of width 2 size
      below it, sorted blocks of width size from it on. */
  ghost predicate Halfway(a: seq<int>, size: nat, left: nat)
    requires 0 < size
  {
    RunsUpTo(a, left, 2 * size) && RunsFrom(a, left, size)
  }

  /** The sweep from the pair at `left` on: the merge at `left`, then the
      rest of the sweep. */
  method SweepFrom(a: seq<int>, trace: seq<SortStep>, size: nat, left: nat)
    returns (a': seq<int>, trace': seq<SortStep>)
    requires 0 < size && Halfway(a, size, left)
    ensures |a'| == |a| && multiset(a') == multiset(a)
    ensures RunsFrom(a', 0, 2 * size)
    ensures Writes(trace, trace', |a|, PassWrites(|a|, size, left))
    decreases |a| - left
  {
    if left >= |a| {
      a', trace' := a, trace;
      SweepDone(a, trace, size, left);
      return;
    }
    var a1, t1 := SweepStep(a, trace, size, left);
    a', trace' := SweepFrom(a1, t1, size, left + 2 * size);
    SweepWrites(trace, t1, trace', |a|, size, left);
  }

  /** The merge at `left`, which leaves the sweep half-way at
      left + 2 size. */
  method SweepStep(a: seq<int>, trace: seq<SortStep>, size: nat, left: nat)
    returns (a': seq<int>, trace': seq<SortStep>)
    requires 0 < size && left < |a| && Halfway(a, size, left)
    ensures |a'| == |a| && multiset(a') == multiset(a)
    ensures Halfway(a', size, left + 2 * size)
    ensures Writes(trace, trace', |a|, PairWrites(|a|, size, left))
  {
    a', trace' := MergePair(a, trace, left, size);
    SweepFrame(a, a', size, left);
  }

  /** Past the end of the array the sweep is complete and writes nothing. */
  lemma SweepDone(a: seq<int>, trace: seq<SortStep>, size: nat, left: nat)
    requires 0 < size && left >= |a| && Halfway(a, size, left)
    ensures RunsFrom(a, 0, 2 * size)
    ensures Writes(trace, trace, |a|, PassWrites(|a|, size, left))
  {
    Join(a, left, 2 * size);
    WritesNothing(trace, |a|);
  }

  /** The merge at `left` leaves the sweep half-way at left + 2 size. */
  lemma SweepFrame(a0: seq<int>, a1: seq<int>, size: nat, left: nat)
    requires 0 < size && left < |a0| && |a1| == |a0|
    requires Halfway(a0, size, left)
    requires SameOutside(a0, a1, left, Min(left + 2 * size, |a0|))
    requires SortedBetween(a1, left, Min(left + 2 * size, |a0|))
    ensures Halfway(a1, size, left + 2 * size)
  {
    RunsUpToFrame(a0, a1, left, 2 * size);
    if left + 2 * size < |a0| {
      assert RunsFrom(a0, left + size, size);
      RunsFromFrame(a0, a1, left + 2 * size, size);
    }
  }

  /** The pair's writes followed by the rest of the sweep's. */
  lemma SweepWrites(t: seq<SortStep>, t1: seq<SortStep>, t': seq<SortStep>, n: nat, size: nat, left: nat)
    requires 0 < size && left < n
    requires Writes(t, t1, n, PairWrites(n, size, left))
    requires Writes(t1, t', n, PassWrites(n, size, left + 2 * size))
    ensures Writes(t, t', n, PassWrites(n, size, left))
  {
    WritesChain(t, t1, t', n, PairWrites(n, size, left), PassWrites(n, size, left + 2 * size));
  }

  /** The merge passes for widths size, 2 size, 4 size, ... while the width
      is below n. */
  method MergePasses(a: seq<int>, trace: seq<SortStep>, size: nat)
    returns (a': seq<int>, trace': seq<SortStep>)
    requires 0 < size && RunsFrom(a, 0, size)
    ensures |a'| == |a| && multiset(a') == multiset(a)
    ensures SortedBetween(a', 0, |a'|)
    ensures Writes(trace, trace', |a|, TimWrites(|a|, size))
    ensures size >= |a| ==> a' == a && trace' == trace
    decreases |a| - size
  {
    if size >= |a| {
      a', trace' := a, trace;
      if |a| > 0 {
        assert SortedBetween(a, 0, Min(size, |a|));
      }
      WritesNothing(trace, |a|);
      return;
    }
    var a1, t1 := MergePass(a, trace, size);
    a', trace' := MergePasses(a1, t1, 2 * size);
    PassesWrites(trace, t1, trace', |a|, size);
  }

  /** One pass's writes followed by the later passes'. */
  lemma PassesWrites(t: seq<SortStep>, t1: seq<SortStep>, t': seq<SortStep>, n: nat, size: nat)
    requires 0 < size < n
    requires Writes(t, t1, n, PassWrites(n, size, 0))
    requires Writes(t1, t', n, TimWrites(n, 2 * size))
    ensures Writes(t, t', n, TimWrites(n, size))
  {
    WritesChain(t, t1, t', n, PassWrites(n, size, 0), TimWrites(n, 2 * size));
  }

  /** The trace generateTimSortSteps records for `input`: no initial step, so
      for two values or more it begins with the highlight of 1; the overwrite
      steps write exactly TimWrites(n, RUN) in order; every two-position write
      removes a strict inversion; nothing reported sorted before the final
      step, which shows the sorted input with 0..n-1 sorted. */
  ghost predicate TimTrace(trace: seq<SortStep>, input: seq<int>)
  {
    && |trace| > 0 && Consistent(trace, |input|, Range(|input|)) && StrictSwaps(trace)
    && (forall k :: 0 <= k < |trace| - 1 ==> trace[k].sorted == [])
    && (|input| <= 1 ==> |trace| == 1)
    && (|input| >= 2 ==> trace[0] == CreateStep(input, [1], [], []))
    && Overwritten(trace) == TimWrites(|input|, RUN)
    && Last(trace).comparison == [] && Last(trace).swap == []
    && Last(trace).sorted == Range(|input|)
    && SortedPermutation(Last(trace).values, input)
  }

  /** generateTimSortSteps: no initial step; the run phase, then merge
      passes for size = RUN, 2 RUN, ... while size < n, then the final step
      marking 0..n-1. For two values or more the first step highlights
      position 1, and the positions overwritten on their own are exactly
      the merge passes' writes, pass after pass. */
  method GenerateTimSortSteps(input: seq<int>) returns (trace: seq<SortStep>)
    ensures TimTrace(trace, input)
  {
    var a, merged := TimPhases(input);
    var final := CreateStep(a, [], [], Range(|input|));
    NothingMarked(merged, |input|);
    Append(merged, final, |input|, []);
    FinishKeepsOverwritten(merged, a);
    if |input| >= 2 {
      PrefixAt(merged, merged + [final], 0);
    }
    trace := merged + [final];
  }

  /** The two phases before the final step: runs sorted by insertion,
      then the merge passes with doubling width. */
  method TimPhases(input: seq<int>) returns (a: seq<int>, merged: seq<SortStep>)
    ensures |a| == |input| && SortedPermutation(a, input)
    ensures Consistent(merged, |input|, []) && StrictSwaps(merged)
    ensures Overwritten(merged) == TimWrites(|input|, RUN)
    ensures |input| <= 1 ==> merged == []
    ensures |input| >= 2 ==> |merged| > 0 && merged[0] == CreateStep(input, [1], [], [])
  {
    var runs;
    a, runs := SortRuns(input, []);
    a, merged := MergePasses(a, runs, RUN);
    TimMerged(runs, merged, |input|);
    if |input| >= 2 {
      PrefixAt(runs, merged, 0);
    }
  }

  /** After the run phase, which overwrites nothing, the merge passes'
      writes are all the trace's overwrites, and the trace stays
      consistent. */
  lemma TimMerged(runs: seq<SortStep>, merged: seq<SortStep>, n: nat)
    requires Consistent(runs, n, []) && StrictSwaps(runs) && Overwritten(runs) == Overwritten([])
    requires Writes(runs, merged, n, TimWrites(n, RUN))
    ensures Consistent(merged, n, []) && StrictSwaps(merged)
    ensures Overwritten(merged) == TimWrites(n, RUN)
  {
    WritesConsistent(runs, merged, n, TimWrites(n, RUN));
    WritesStrict(runs, merged, n, TimWrites(n, RUN));
    assert [] + TimWrites(n, RUN) == TimWrites(n, RUN);
  }
}
