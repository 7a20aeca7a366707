/** Selection sort as traced by the visualizer. */
module Selection {
  import opened Types
  import opened Recorder
  import opened Order

  /** a[i] is already at most every later value. */
  ghost predicate MinAt(a: seq<int>, i: nat)
  {
    forall k :: i < k < |a| ==> a[i] <= a[k]
  }

  /** No step of the trace writes any position. */
  ghost predicate NoSwaps(t: seq<SortStep>)
  {
    forall k :: 0 <= k < |t| ==> t[k].swap == []
  }

  /** Each of the first i positions of a holds the minimum of a from there
      on. */
  ghost predicate MinsUpTo(a: seq<int>, i: nat)
  {
    forall p :: 0 <= p < i ==> MinAt(a, p)
  }

  /** An array is in order exactly when every position holds the minimum of
      a from there on. */
  lemma SortedIffMins(a: seq<int>)
    ensures Sorted(a) <==> MinsUpTo(a, |a|)
  {
    if MinsUpTo(a, |a|) {
      forall p, q | 0 <= p < q < |a|
        ensures a[p] <= a[q]
      {
        assert MinAt(a, p);
      }
    }
  }

  /** Steps recorded after prev hold a write exactly when the last of them
      does (`moved`); so the whole trace is free of writes exactly when prev
      is and nothing moved. */
  lemma SwapsAfter(prev: seq<SortStep>, t: seq<SortStep>, moved: bool)
    requires prev <= t && |prev| < |t|
    requires forall k :: |prev| <= k < |t| - 1 ==> t[k].swap == []
    requires moved <==> Last(t).swap != []
    ensures NoSwaps(t) <==> NoSwaps(prev) && !moved
  {
    if NoSwaps(prev) && !moved {
      forall k | 0 <= k < |t|
        ensures t[k].swap == []
      {
        if k < |prev| {
          assert t[k] == prev[k];
        }
      }
    }
    if NoSwaps(t) {
      forall k | 0 <= k < |prev|
        ensures prev[k].swap == []
      {
        assert t[k] == prev[k];
      }
    }
  }

  /** The first position of the minimum of a[i..j). */
  ghost function FirstMin(a: seq<int>, i: nat, j: nat): (r: nat)
    requires i < j <= |a|
    ensures i <= r < j
    decreases j
  {
    if j == i + 1 then i
    else
      var m := FirstMin(a, i, j - 1);
      if a[j - 1] < a[m] then j - 1 else m
  }

  /** FirstMin is at most every value of a[i..j) and strictly below every
      value before it: the first position of the minimum. */
  lemma {:induction false} FirstMinIsMin(a: seq<int>, i: nat, j: nat)
    requires i < j <= |a|
    ensures forall k :: i <= k < j ==> a[FirstMin(a, i, j)] <= a[k]
    ensures forall k :: i <= k < FirstMin(a, i, j) ==> a[FirstMin(a, i, j)] < a[k]
    decreases j
  {
    if j > i + 1 {
      FirstMinIsMin(a, i, j - 1);
    }
  }

  /** The comparison steps of the scan for the minimum of a[i..j): one for
      each candidate c in i+1..j-1, comparing the first minimum of a[i..c)
      with c. */
  ghost function ScanSteps(a: seq<int>, i: nat, j: nat, marks: seq<int>): (r: seq<SortStep>)
    requires i < j <= |a|
    ensures |r| == j - i - 1
    decreases j
  {
    if j == i + 1 then []
    else ScanSteps(a, i, j - 1, marks) + [CreateStep(a, [FirstMin(a, i, j - 1), j - 1], [], marks)]
  }

  /** Step k of the scan compares candidate i+1+k with the first minimum
      before it, over the unchanged array, with the current marks and no
      write. */
  lemma {:induction false} ScanStepsAt(a: seq<int>, i: nat, j: nat, marks: seq<int>)
    requires i < j <= |a|
    ensures forall k :: 0 <= k < j - i - 1 ==>
              ScanSteps(a, i, j, marks)[k] == CreateStep(a, [FirstMin(a, i, i + 1 + k), i + 1 + k], [], marks)
    decreases j
  {
    if j > i + 1 {
      ScanStepsAt(a, i, j - 1, marks);
    }
  }

  /** Appending the scan's steps keeps the marks and writes nothing. */
  lemma ScannedShape(a: seq<int>, i: nat, t0: seq<SortStep>, marks: seq<int>)
    requires i < |a|
    ensures ExtendsWith(t0, t0 + ScanSteps(a, i, |a|, marks), |a|, marks)
    ensures forall k :: |t0| <= k < |t0 + ScanSteps(a, i, |a|, marks)| ==> (t0 + ScanSteps(a, i, |a|, marks))[k].swap == []
  {
    ScanStepsAt(a, i, |a|, marks);
  }

  /** The scan of a[i..n) for its minimum, one comparison step per candidate
      j > i against the minimum so far, replacing it only on a strictly
      smaller value: the result is the FIRST position of the minimum. The
      scan only records, it never writes. */
  method FindMin(a: seq<int>, trace: seq<SortStep>, i: nat, marks: seq<int>)
    returns (minIdx: nat, trace': seq<SortStep>)
    requires i < |a|
    requires Consistent(trace, |a|, marks)
    ensures i <= minIdx < |a|
    ensures forall k :: i <= k < |a| ==> a[minIdx] <= a[k]
    ensures forall k :: i <= k < minIdx ==> a[minIdx] < a[k]
    ensures ExtendsWith(trace, trace', |a|, marks) && Consistent(trace', |a|, marks)
    ensures forall k :: |trace| <= k < |trace'| ==> trace'[k].swap == []
    ensures minIdx == FirstMin(a, i, |a|) && trace' == trace + ScanSteps(a, i, |a|, marks)
  {
    minIdx := i;
    trace' := trace;
    var j := i + 1;
    while j < |a|
      invariant i < j <= |a|
      invariant minIdx == FirstMin(a, i, j)
      invariant trace' == trace + ScanSteps(a, i, j, marks)
    {
      trace' := trace' + [CreateStep(a, [minIdx, j], [], marks)];
      if a[j] < a[minIdx] {
        minIdx := j;
      }
      j := j + 1;
    }
    ScannedShape(a, i, trace, marks);
    ExtendsConsistent(trace, trace', |a|, marks);
    FirstMinIsMin(a, i, j);
  }

  /** The start of an outer iteration at i: the highlight of i, then the
      scan for the first position m of the minimum of a[i..n). Nothing is
      written. */
  method HighlightScan(a: seq<int>, trace: seq<SortStep>, i: nat, marks: seq<int>)
    returns (m: nat, trace': seq<SortStep>)
    requires i < |a|
    requires Consistent(trace, |a|, marks) && StrictSwaps(trace)
    ensures i <= m < |a|
    ensures forall k :: i <= k < |a| ==> a[m] <= a[k]
    ensures forall k :: i <= k < m ==> a[m] < a[k]
    ensures |trace'| > |trace| && trace'[|trace|] == CreateStep(a, [i], [], marks)
    ensures forall k :: |trace| <= k < |trace'| ==> trace'[k].swap == []
    ensures ExtendsWith(trace, trace', |a|, marks)
    ensures Consistent(trace', |a|, marks) && StrictSwaps(trace')
  {
    var start := CreateStep(a, [i], [], marks);
    Append(trace, start, |a|, marks);
    var before := trace + [start];
    assert ExtendsWith(trace, before, |a|, marks);
    m, trace' := FindMin(a, before, i, marks);
    ExtendsTrans(trace, before, trace', |a|, marks);
    assert trace'[|trace|] == start;
    assert StrictSwaps(trace') by {
      forall k | 0 <= k < |trace'|
        ensures StrictSwap(trace'[k])
      {
        if k < |before| {
          assert trace'[k] == before[k];
        }
      }
    }
  }

  /** One outer iteration at i: highlight i, find the first position m of
      the minimum of a[i..n), and exchange it into i, with a swap step, only
      when m != i, that is, exactly when some later value is strictly
      smaller than a[i]. The swap step, if any, is the last step recorded. */
  method SelectInto(a: seq<int>, trace: seq<SortStep>, i: nat, marks: seq<int>)
    returns (a': seq<int>, trace': seq<SortStep>, m: nat)
    requires i < |a|
    requires Consistent(trace, |a|, marks) && StrictSwaps(trace)
    ensures i <= m < |a| && (m == i <==> MinAt(a, i))
    ensures forall k :: i <= k < |a| ==> a[m] <= a[k]
    ensures forall k :: i <= k < m ==> a[m] < a[k]
    ensures |a'| == |a| && multiset(a') == multiset(a)
    ensures SameOutside(a, a', i, |a|)
    ensures forall k :: i <= k < |a| ==> a'[i] <= a'[k]
    ensures |trace'| > |trace| && trace'[|trace|] == CreateStep(a, [i], [], marks)
    ensures forall k :: |trace| <= k < |trace'| - 1 ==> trace'[k].swap == []
    ensures m == i ==> a' == a && Last(trace').swap == []
    ensures m != i ==> a' == Swap(a, i, m) && Last(trace') == CreateStep(a', [], [i, m], marks)
    ensures ExtendsWith(trace, trace', |a|, marks)
    ensures trace <= trace' && Consistent(trace', |a|, marks) && StrictSwaps(trace')
  {
    m, trace' := HighlightScan(a, trace, i, marks);
    a' := a;
    if m != i {
      a' := Swap(a, i, m);
      var swapped := CreateStep(a', [], [i, m], marks);
      Append(trace', swapped, |a|, marks);
      var scanned := trace';
      trace' := trace' + [swapped];
      assert ExtendsWith(scanned, trace', |a|, marks);
      ExtendsTrans(trace, scanned, trace', |a|, marks);
    }
  }

  /** What the outer loop keeps about the buffer after i iterations: a[0..i)
      is in order and at most every later value. */
  ghost predicate Selected(input: seq<int>, a: seq<int>, i: nat)
  {
    && i <= |a| == |input| && multiset(a) == multiset(input)
    && SortedBetween(a, 0, i)
    && forall p, q :: 0 <= p < i <= q < |a| ==> a[p] <= a[q]
  }

  /** What the outer loop keeps about writes after i iterations: none so
      far exactly when each of the first i positions of the input held the
      minimum of the rest, and then the buffer is still the input. */
  ghost predicate Unwritten(input: seq<int>, a: seq<int>, trace: seq<SortStep>, i: nat)
  {
    && (NoSwaps(trace) <==> MinsUpTo(input, i))
    && (MinsUpTo(input, i) ==> a == input)
  }

  /** SelectInto at i carries Selected from i to i + 1. */
  lemma SelectedStep(input: seq<int>, a: seq<int>, a': seq<int>, i: nat, m: nat)
    requires Selected(input, a, i) && i < |a|
    requires |a'| == |a| && multiset(a') == multiset(a)
    requires SameOutside(a, a', i, |a|)
    requires forall k :: i <= k < |a| ==> a'[i] <= a'[k]
    ensures Selected(input, a', i + 1)
  {
    if i > 0 {
      SegmentAtLeast(a, a', i, |a|, a[i - 1]);
    }
  }

  /** SelectInto at i, which picked m and recorded prev..t, carries
      Unwritten from i to i + 1. */
  lemma UnwrittenStep(input: seq<int>, a: seq<int>, a': seq<int>, prev: seq<SortStep>, t: seq<SortStep>,
                      i: nat, m: nat)
    requires Unwritten(input, a, prev, i) && i < |a| == |input|
    requires m == i <==> MinAt(a, i)
    requires m == i ==> a' == a
    requires prev <= t && |prev| < |t|
    requires forall k :: |prev| <= k < |t| - 1 ==> t[k].swap == []
    requires m != i <==> Last(t).swap != []
    ensures Unwritten(input, a', t, i + 1)
  {
    SwapsAfter(prev, t, m != i);
    assert MinsUpTo(input, i + 1) <==> MinsUpTo(input, i) && MinAt(input, i);
  }

  /** What the outer loop keeps after i iterations: the buffer state, the
      write account, the input as the first step, 0..i-1 as the marks, and
      0..i-2 shown by the last step once an iteration has run. */
  ghost predicate Round(input: seq<int>, a: seq<int>, trace: seq<SortStep>, i: nat)
  {
    && Selected(input, a, i)
    && Unwritten(input, a, trace, i)
    && |trace| > 0 && trace[0] == CreateStep(input, [], [], [])
    && Consistent(trace, |input|, Range(i)) && StrictSwaps(trace)
    && (i > 0 ==> |trace| >= 2 && Last(trace).sorted == Range(i - 1))
  }

  /** One iteration of the outer loop of generateSelectionSortSteps, with i
      marked sorted afterwards. */
  method SelectionRound(input: seq<int>, a: seq<int>, trace: seq<SortStep>, i: nat)
    returns (a': seq<int>, trace': seq<SortStep>)
    requires i < |input| && Round(input, a, trace, i)
    ensures Round(input, a', trace', i + 1)
  {
    var m;
    a', trace', m := SelectInto(a, trace, i, Range(i));
    SelectedStep(input, a, a', i, m);
    UnwrittenStep(input, a, a', trace, trace', i, m);
    PrefixAt(trace, trace', 0);
    assert Last(trace').sorted == Range(i);
    assert Range(i + 1) == Range(i) + [i];
    assert Marks(Range(i)) <= Marks(Range(i + 1));
  }

  /** The trace generateSelectionSortSteps records for `input`: the input
      first, the steps of the last iteration showing 0..n-2 sorted, a write
      step somewhere exactly when the input is out of order, and the sorted
      input with 0..n-1 sorted at the end. Every two-position write removes
      a strict inversion. */
  ghost predicate SelectionTrace(trace: seq<SortStep>, input: seq<int>)
  {
    && |trace| > 0 && trace[0] == CreateStep(input, [], [], [])
    && Consistent(trace, |input|, Range(|input|)) && StrictSwaps(trace)
    && (|input| > 0 ==> |trace| >= 2 && trace[|trace| - 2].sorted == Range(|input| - 1))
    && (Sorted(input) <==> NoSwaps(trace))
    && Last(trace).comparison == [] && Last(trace).swap == []
    && Last(trace).sorted == Range(|input|)
    && SortedPermutation(Last(trace).values, input)
  }

  /** generateSelectionSortSteps: the input as the first step, then for
      each i a highlight, the scan, at most one swap, and i marked sorted;
      finally all of 0..n-1 marked. No step ever writes exactly when the
      input is already in order. */
  method GenerateSelectionSortSteps(input: seq<int>) returns (trace: seq<SortStep>)
    ensures SelectionTrace(trace, input)
  {
    var a := input;
    var n := |a|;
    trace := [CreateStep(a, [], [], [])];
    var i := 0;
    while i < n
      invariant 0 <= i <= n
      invariant Round(input, a, trace, i)
    {
      a, trace := SelectionRound(input, a, trace, i);
      i := i + 1;
    }
    var final := CreateStep(a, [], [], Range(n));
    Append(trace, final, n, Range(n));
    var prev := trace;
    trace := trace + [final];
    SwapsAfter(prev, trace, false);
    SortedIffMins(input);
  }
}
