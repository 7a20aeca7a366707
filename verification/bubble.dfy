/** Bubble sort as traced by the visualizer: n full outer passes, no early
    exit, a comparison step before every neighbour test. */
module Bubble {
  import opened Types
  import opened Recorder
  import opened Order

  /** One iteration of the inner loop at j: a comparison step for (j, j+1),
      then, only when a[j] > a[j+1], the exchange and a swap step. Afterwards
      a'[j+1] is the larger of the pair. */
  method CompareAndSwap(a: seq<int>, trace: seq<SortStep>, j: nat, marks: seq<int>)
    returns (a': seq<int>, trace': seq<SortStep>)
    requires j + 1 < |a|
    requires Consistent(trace, |a|, marks) && StrictSwaps(trace)
    ensures |a'| == |a| && multiset(a') == multiset(a)
    ensures SameOutside(a, a', j, j + 2)
    ensures a'[j] <= a'[j + 1]
    ensures a[j] <= a[j + 1] ==> a' == a
    ensures a[j] > a[j + 1] ==> a'[j] == a[j + 1] && a'[j + 1] == a[j]
    ensures trace' == trace + [CreateStep(a, [j, j + 1], [], marks)] +
      (if a[j] > a[j + 1] then [CreateStep(a', [j, j + 1], [j, j + 1], marks)] else [])
    ensures Consistent(trace', |a|, marks) && StrictSwaps(trace')
  {
    a' := a;
    var compare := CreateStep(a', [j, j + 1], [], marks);
    Append(trace, compare, |a|, marks);
    trace' := trace + [compare];
    if a'[j] > a'[j + 1] {
      a' := Swap(a', j, j + 1);
      var swapped := CreateStep(a', [j, j + 1], [j, j + 1], marks);
      Append(trace', swapped, |a|, marks);
      trace' := trace' + [swapped];
    }
  }

  /** One inner pass over a[0..m]: each neighbour pair in turn goes through
      CompareAndSwap. The pass carries the largest of a[0..m] to m and leaves
      everything after m alone. */
  method BubblePass(a: seq<int>, trace: seq<SortStep>, m: nat, marks: seq<int>)
    returns (a': seq<int>, trace': seq<SortStep>)
    requires m < |a|
    requires Consistent(trace, |a|, marks) && StrictSwaps(trace)
    ensures |a'| == |a| && multiset(a') == multiset(a)
    ensures SameOutside(a, a', 0, m + 1)
    ensures forall k :: 0 <= k <= m ==> a'[k] <= a'[m]
    ensures ExtendsWith(trace, trace', |a|, marks)
    ensures forall k :: |trace| <= k < |trace'| ==> |trace'[k].comparison| == 2
    ensures Consistent(trace', |a|, marks) && StrictSwaps(trace')
  {
    a', trace' := a, trace;
    var j := 0;
    while j < m
      invariant 0 <= j <= m
      invariant |a'| == |a| && multiset(a') == multiset(a)
      invariant SameOutside(a, a', 0, m + 1)
      invariant forall k :: 0 <= k <= j ==> a'[k] <= a'[j]
      invariant ExtendsWith(trace, trace', |a|, marks)
      invariant forall k :: |trace| <= k < |trace'| ==> |trace'[k].comparison| == 2
      invariant Consistent(trace', |a|, marks) && StrictSwaps(trace')
    {
      a', trace' := CompareAndSwap(a', trace', j, marks);
      j := j + 1;
    }
  }

  /** What the outer loop keeps about the buffer after i passes: the last i
      positions are in order and at least every value before them. */
  ghost predicate Bubbled(input: seq<int>, a: seq<int>, i: nat)
  {
    && i <= |a| == |input| && multiset(a) == multiset(input)
    && SortedBetween(a, |a| - i, |a|)
    && forall p, q :: 0 <= p < |a| - i <= q < |a| ==> a[p] <= a[q]
  }

  /** The pass up to m = n-i-1 carries Bubbled from i to i + 1. */
  lemma BubbledStep(input: seq<int>, a: seq<int>, a': seq<int>, i: nat)
    requires Bubbled(input, a, i) && i < |a|
    requires |a'| == |a| && multiset(a') == multiset(a)
    requires SameOutside(a, a', 0, |a| - i)
    requires forall k :: 0 <= k < |a| - i ==> a'[k] <= a'[|a| - i - 1]
    ensures Bubbled(input, a', i + 1)
  {
    if i > 0 {
      SegmentAtMost(a, a', 0, |a| - i, a'[|a| - i]);
    }
  }

  /** The trace generateBubbleSortSteps records for `input`: the input first;
      before the final step the positions n-1, ..., 0 reported sorted, one per
      pass; every two-position write removes a strict inversion; the sorted
      input with 0..n-1 sorted at the end. */
  ghost predicate BubbleTrace(trace: seq<SortStep>, input: seq<int>)
  {
    && |trace| >= 2 && trace[0] == CreateStep(input, [], [], [])
    && trace[|trace| - 2].sorted == seq(|input|, k => |input| - 1 - k)
    && Consistent(trace, |input|, Range(|input|)) && StrictSwaps(trace)
    && Last(trace).comparison == [] && Last(trace).swap == []
    && Last(trace).sorted == Range(|input|)
    && SortedPermutation(Last(trace).values, input)
  }

  /** generateBubbleSortSteps: the input as the first step, n outer passes
      each ending with a step that marks one more position sorted, and a
      final step marking all of 0..n-1. The step before the final one
      reports n-1, n-2, ..., 0 sorted, one position per pass. */
  method GenerateBubbleSortSteps(input: seq<int>) returns (trace: seq<SortStep>)
    ensures BubbleTrace(trace, input)
  {
    var a := input;
    var n := |a|;
    var marks: seq<int> := [];
    trace := [CreateStep(a, [], [], [])];
    var i := 0;
    while i < n
      invariant 0 <= i <= n
      invariant Bubbled(input, a, i)
      invariant |trace| > 0 && trace[0] == CreateStep(input, [], [], [])
      invariant Consistent(trace, n, marks) && StrictSwaps(trace)
      invariant forall x :: x in marks ==> 0 <= x < n
      invariant marks == seq(i, k => n - 1 - k) && Last(trace).sorted == marks
    {
      var before, prev := a, trace;
      a, trace := BubblePass(a, trace, n - i - 1, marks);
      BubbledStep(input, before, a, i);
      var marked := CreateStep(a, [], [], marks + [n - i - 1]);
      Append(trace, marked, n, marks);
      marks := marks + [n - i - 1];
      trace := trace + [marked];
      PrefixAt(prev, trace, 0);
      i := i + 1;
    }
    var final := CreateStep(a, [], [], Range(n));
    RangeMarks(n, marks);
    Append(trace, final, n, marks);
    trace := trace + [final];
  }
}
