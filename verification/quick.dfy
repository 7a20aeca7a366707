/** Quick sort (Lomuto partition, last element as pivot) as traced by the
    visualizer. No position is reported sorted until the final step. */
module Quick {
  import opened Types
  import opened Recorder
  import opened Order

  /** One scan position j of the partition loop: a comparison step of j
      against the pivot at high, and, when a[j] is strictly below the pivot,
      growth of the low region to i+1 by exchanging i+1 with j (with a swap
      step). */
  method PartitionStep(a: seq<int>, trace: seq<SortStep>, low: nat, high: nat, i: int, j: nat)
    returns (a': seq<int>, trace': seq<SortStep>, i': int)
    requires low <= j < high < |a| && low - 1 <= i < j
    requires forall k :: low <= k <= i ==> a[k] < a[high]
    requires forall k :: i < k < j ==> a[high] <= a[k]
    requires Consistent(trace, |a|, [])
    ensures i <= i' <= i + 1 && i' < j + 1
    ensures |a'| == |a| && multiset(a') == multiset(a)
    ensures SameOutside(a, a', low, high) && a'[high] == a[high]
    ensures forall k :: low <= k <= i' ==> a'[k] < a'[high]
    ensures forall k :: i' < k < j + 1 ==> a'[high] <= a'[k]
    ensures trace <= trace' && Consistent(trace', |a|, [])
    ensures |trace'| > |trace| && trace'[|trace|] == CreateStep(a, [j, high], [], [])
    ensures a[j] < a[high] ==>
              i' == i + 1 && a' == Swap(a, i + 1, j) &&
              trace' == trace + [CreateStep(a, [j, high], [], []), CreateStep(a', [i + 1, j], [i + 1, j], [])]
    ensures a[high] <= a[j] ==> i' == i && a' == a && trace' == trace + [CreateStep(a, [j, high], [], [])]
  {
    var compare := CreateStep(a, [j, high], [], []);
    Append(trace, compare, |a|, []);
    trace' := trace + [compare];
    a', i' := a, i;
    if a[j] < a[high] {
      i' := i + 1;
      a', trace' := GrowLow(a, trace', low, high, i, j);
    }
  }

  /** The exchange branch of a scan position: with a[j] strictly below the
      pivot, exchanging i+1 and j (with a swap step) grows the region below
      the pivot by one and keeps the region at least the pivot behind it. */
  method GrowLow(a: seq<int>, trace: seq<SortStep>, low: nat, high: nat, i: int, j: nat)
    returns (a': seq<int>, trace': seq<SortStep>)
    requires low <= j < high < |a| && low - 1 <= i < j
    requires forall k :: low <= k <= i ==> a[k] < a[high]
    requires forall k :: i < k < j ==> a[high] <= a[k]
    requires a[j] < a[high]
    requires Consistent(trace, |a|, [])
    ensures |a'| == |a| && multiset(a') == multiset(a)
    ensures SameOutside(a, a', low, high) && a'[high] == a[high]
    ensures forall k :: low <= k <= i + 1 ==> a'[k] < a'[high]
    ensures forall k :: i + 1 < k < j + 1 ==> a'[high] <= a'[k]
    ensures a' == Swap(a, i + 1, j)
    ensures trace' == trace + [CreateStep(a', [i + 1, j], [i + 1, j], [])]
    ensures Consistent(trace', |a|, [])
  {
    a' := Swap(a, i + 1, j);
    var swapped := CreateStep(a', [i + 1, j], [i + 1, j], []);
    Append(trace, swapped, |a|, []);
    trace' := trace + [swapped];
  }

  /** partition(low, high): returns p in [low, high] with a'[low..p) strictly
      below a'[p] (the old a[high]) and a'(p..high] at least a'[p]; only
      [low, high] is permuted. The first step compares low with the pivot
      when low < high, and the last one shows the pivot exchanged into p. */
  method Partition(a: seq<int>, trace: seq<SortStep>, low: nat, high: nat)
    returns (a': seq<int>, trace': seq<SortStep>, p: nat)
    requires low <= high < |a|
    requires Consistent(trace, |a|, [])
    ensures low <= p <= high
    ensures |a'| == |a| && multiset(a') == multiset(a)
    ensures SameOutside(a, a', low, high + 1)
    ensures a'[p] == a[high]
    ensures forall k :: low <= k < p ==> a'[k] < a'[p]
    ensures forall k :: p < k <= high ==> a'[p] <= a'[k]
    ensures trace <= trace' && Consistent(trace', |a|, [])
    ensures low < high ==> |trace'| > |trace| && trace'[|trace|] == CreateStep(a, [low, high], [], [])
    ensures |trace'| > |trace| && Last(trace') == CreateStep(a', [p, high], [p, high], [])
  {
    a', trace' := a, trace;
    var i: int := low - 1;
    var j := low;
    ghost var first := CreateStep(a, [low, high], [], []);
    while j < high
      invariant low <= j <= high && low - 1 <= i < j
      invariant |a'| == |a| && multiset(a') == multiset(a)
      invariant SameOutside(a, a', low, high) && a'[high] == a[high]
      invariant forall k :: low <= k <= i ==> a'[k] < a'[high]
      invariant forall k :: i < k < j ==> a'[high] <= a'[k]
      invariant trace <= trace' && Consistent(trace', |a|, [])
      invariant j == low ==> a' == a && trace' == trace
      invariant j > low ==> |trace'| > |trace| && trace'[|trace|] == first
    {
      var before := trace';
      a', trace', i := PartitionStep(a', trace', low, high, i, j);
      if j > low {
        PrefixAt(before, trace', |trace|);
      }
      j := j + 1;
    }
    p := i + 1;
    a' := Swap(a', p, high);
    var placed := CreateStep(a', [p, high], [p, high], []);
    Append(trace', placed, |a|, []);
    var before := trace';
    trace' := trace' + [placed];
    if low < high {
      PrefixAt(before, trace', |trace|);
    }
  }

  /** quickSort(low, high): sorts a[low..high] in place and touches nothing
      else. Called with high = low - 1 on an empty range. A range of fewer
      than two positions records nothing; otherwise the first step is the
      comparison of low with the pivot at high. */
  method QuickSortRange(a: seq<int>, trace: seq<SortStep>, low: nat, high: int)
    returns (a': seq<int>, trace': seq<SortStep>)
    requires low <= high + 1 <= |a|
    requires Consistent(trace, |a|, [])
    ensures |a'| == |a| && multiset(a') == multiset(a)
    ensures SameOutside(a, a', low, high + 1)
    ensures SortedBetween(a', low, high + 1)
    ensures trace <= trace' && Consistent(trace', |a|, [])
    ensures high <= low ==> trace' == trace
    ensures low < high ==> |trace'| > |trace| && trace'[|trace|] == CreateStep(a, [low, high], [], [])
    decreases high - low
  {
    a', trace' := a, trace;
    if low < high {
      var pi: int;
      a', trace', pi := Partition(a', trace', low, high);
      var parted, partedTrace := a', trace';
      a', trace' := QuickSortRange(a', trace', low, pi - 1);
      SegmentBelow(parted, a', low, pi, parted[pi]);
      var leftDone := a';
      a', trace' := QuickSortRange(a', trace', pi + 1, high);
      SegmentAtLeast(leftDone, a', pi + 1, high + 1, parted[pi]);
      PrefixAt(partedTrace, trace', |trace|);
    }
  }

  /** The trace generateQuickSortSteps records for `input`: no initial step,
      so for two values or more it begins with the comparison of 0 with the
      pivot at n - 1; nothing reported sorted before the final step, which
      shows the sorted input with 0..n-1 sorted. */
  ghost predicate QuickTrace(trace: seq<SortStep>, input: seq<int>)
  {
    && |trace| > 0 && Consistent(trace, |input|, Range(|input|))
    && (forall k :: 0 <= k < |trace| - 1 ==> trace[k].sorted == [])
    && (|input| <= 1 ==> |trace| == 1)
    && (|input| >= 2 ==> trace[0] == CreateStep(input, [0, |input| - 1], [], []))
    && Last(trace).comparison == [] && Last(trace).swap == []
    && Last(trace).sorted == Range(|input|)
    && SortedPermutation(Last(trace).values, input)
  }

  /** generateQuickSortSteps: no initial step; the recursive sort, then the
      final step marking 0..n-1. With two values or more the first step
      compares position 0 with the pivot at n - 1. */
  method GenerateQuickSortSteps(input: seq<int>) returns (trace: seq<SortStep>)
    ensures QuickTrace(trace, input)
  {
    var a := input;
    var n := |a|;
    trace := [];
    a, trace := QuickSortRange(a, trace, 0, n - 1);
    var final := CreateStep(a, [], [], Range(n));
    NothingMarked(trace, n);
    Append(trace, final, n, []);
    var sorted := trace;
    trace := trace + [final];
    if n >= 2 {
      PrefixAt(sorted, trace, 0);
    }
  }
}
