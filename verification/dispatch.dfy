/** getSortSteps: the single entry point of the engine, a switch from the
    chosen algorithm to its generator. Whatever the algorithm, a successful
    run is an animation that ends on the sorted input with every position
    reported sorted. */
module Dispatch {
  import opened Types
  import opened Recorder
  import opened Order
  import Bubble
  import Selection
  import Insertion
  import Quick
  import Merge
  import Heap
  import Radix
  import Counting
  import Shell
  import Tim

  /** Radix and Counting sort index digit and count tables by the values, so
      they are only meaningful on non-negative inputs; the other eight take
      any integers. */
  ghost predicate Accepts(algo: AlgorithmType, input: seq<int>)
  {
    (algo.RadixSort? || algo.CountingSort?) ==> NonNegative(input)
  }

  /** The sorted list of the final step: 0..n-1 ascending, except for Heap
      sort, which lists the positions in the order it finalized them. */
  function FinalMarks(algo: AlgorithmType, n: nat): (r: seq<int>)
    ensures forall k :: 0 <= k < n ==> k in r
    ensures n > 0 ==> forall k :: 0 <= k < |r| ==> 0 <= r[k] < n
  {
    Heap.HeapMarksCover(n);
    RangeCovers(n);
    if algo.HeapSort? then Heap.HeapMarks(n) else Range(n)
  }

  /** A complete animation of sorting `input`: every snapshot has its
      length, marks only grow and stay within `marks`, and the last snapshot
      is the sorted input with nothing highlighted and `marks` reported
      sorted. */
  ghost predicate Animation(t: seq<SortStep>, input: seq<int>, marks: seq<int>)
  {
    && |t| > 0
    && Consistent(t, |input|, marks)
    && Last(t).comparison == [] && Last(t).swap == []
    && Last(t).sorted == marks
    && Last(t).values == SortOf(input)
  }

  /** Every generator's final snapshot is a sorted permutation of its input,
      and hence the one sorted arrangement of it. */
  lemma EndsSorted(t: seq<SortStep>, input: seq<int>, marks: seq<int>)
    requires |t| > 0 && Consistent(t, |input|, marks)
    requires Last(t).comparison == [] && Last(t).swap == [] && Last(t).sorted == marks
    requires SortedPermutation(Last(t).values, input)
    ensures Animation(t, input, marks)
  {
    SortedPermutationIsSortOf(Last(t).values, input);
  }

  /** An input that is already in order is shown unchanged at the end. */
  lemma PresortedKept(t: seq<SortStep>, input: seq<int>, marks: seq<int>)
    requires Animation(t, input, marks) && Sorted(input)
    ensures Last(t).values == input
  {
    SortedPermutationIsSortOf(input, input);
  }

  /** The trace of `input` that the generator of `algo` promises: the
      switch of getSortSteps sends each algorithm to its own generator. */
  ghost predicate GeneratedBy(algo: AlgorithmType, t: seq<SortStep>, input: seq<int>)
  {
    match algo
    case BubbleSort => Bubble.BubbleTrace(t, input)
    case SelectionSort => Selection.SelectionTrace(t, input)
    case InsertionSort => Insertion.InsertionTrace(t, input)
    case QuickSort => Quick.QuickTrace(t, input)
    case MergeSort => Merge.MergeTrace(t, input)
    case HeapSort => Heap.HeapTrace(t, input)
    case RadixSort => Radix.RadixTrace(t, input)
    case CountingSort => Counting.CountingTrace(t, input, SortOf(input))
    case ShellSort => Shell.ShellTrace(t, input)
    case TimSort => Tim.TimTrace(t, input)
  }

  /** Whatever the algorithm, the trace its generator promises is an
      animation ending on the sorted input with the algorithm's final marks. */
  lemma GeneratedEnds(algo: AlgorithmType, t: seq<SortStep>, input: seq<int>)
    requires GeneratedBy(algo, t, input)
    ensures Animation(t, input, FinalMarks(algo, |input|))
  {
    if algo.CountingSort? {
      Counting.CountingConsistent(input, SortOf(input), t);
      assert Last(t).values == SortOf(input);
    } else {
      EndsSorted(t, input, FinalMarks(algo, |input|));
    }
  }

  /** getSortSteps. Only Counting sort on an empty input fails (the runtime
      rejects the array length it computes); every other call yields an
      animation ending on the sorted input. The switch's default branch is
      unreachable because the enumeration is closed. */
  method GetSortSteps(algo: AlgorithmType, input: seq<int>) returns (r: Result<seq<SortStep>>)
    requires Accepts(algo, input)
    ensures r.Failure? <==> algo.CountingSort? && |input| == 0
    ensures r.Failure? ==> r.error == InvalidArrayLength
    ensures r.Success? ==> GeneratedBy(algo, r.value, input)
    ensures r.Success? ==> Animation(r.value, input, FinalMarks(algo, |input|))
  {
    match algo {
      case CountingSort =>
        r := Counting.GenerateCountingSortSteps(input);
      case BubbleSort =>
        var t := Bubble.GenerateBubbleSortSteps(input);
        r := Success(t);
      case SelectionSort =>
        var t := Selection.GenerateSelectionSortSteps(input);
        r := Success(t);
      case InsertionSort =>
        var t := Insertion.GenerateInsertionSortSteps(input);
        r := Success(t);
      case QuickSort =>
        var t := Quick.GenerateQuickSortSteps(input);
        r := Success(t);
      case MergeSort =>
        var t := Merge.GenerateMergeSortSteps(input);
        r := Success(t);
      case HeapSort =>
        var t := Heap.GenerateHeapSortSteps(input);
        r := Success(t);
      case RadixSort =>
        var t := Radix.GenerateRadixSortSteps(input);
        r := Success(t);
      case ShellSort =>
        var t := Shell.GenerateShellSortSteps(input);
        r := Success(t);
      case TimSort =>
        var t := Tim.GenerateTimSortSteps(input);
        r := Success(t);
    }
    if r.Success? {
      GeneratedEnds(algo, r.value, input);
    }
  }
}
