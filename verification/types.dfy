/** The two shapes the sort engine shares with the rest of the visualizer:
    the closed set of algorithms a user can pick, and one recorded step. */
module Types {

  /** The ten algorithms, a closed enumeration. */
  datatype AlgorithmType =
    | BubbleSort
    | SelectionSort
    | InsertionSort
    | QuickSort
    | MergeSort
    | HeapSort
    | RadixSort
    | CountingSort
    | ShellSort
    | TimSort

  /** One snapshot of a run: the whole array at that instant (`values`; `array` is a Dafny keyword), the positions
      being compared, the positions just written, and the positions reported
      as finalized. (The optional description text is never set by the
      engine and is not modelled.) */
  datatype SortStep = SortStep(
    values: seq<int>,
    comparison: seq<int>,
    swap: seq<int>,
    sorted: seq<int>)

  /** The one runtime failure of the engine: Counting sort on an empty input
      asks for an array of length -Infinity + 1 and the runtime throws. */
  datatype SortError = InvalidArrayLength

  datatype Result<T> = Success(value: T) | Failure(error: SortError)
}
