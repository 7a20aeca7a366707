/** Heap sort as traced by the visualizer: bottom-up max-heap build by
    sift-down, then repeated extraction of the root into the shrinking
    suffix, each extracted position appended to the sorted list. */
module Heap {
  import opened Types
  import opened Recorder
  import opened Order

  /** Node k of the heap a[0..n) is at least each of its children that lie
      inside the heap. */
  ghost predicate HeapAt(a: seq<int>, n: int, k: int)
  {
    0 <= k && n <= |a| ==>
      && (2 * k + 1 < n ==> a[k] >= a[2 * k + 1])
      && (2 * k + 2 < n ==> a[k] >= a[2 * k + 2])
  }

  ghost predicate MaxHeap(a: seq<int>, n: int)
  {
    forall k :: 0 <= k < n ==> HeapAt(a, n, k)
  }

  /** Position k lies in the subtree rooted at `root`. */
  ghost predicate InSubtree(root: nat, k: nat)
    decreases k
  {
    k == root || (k > root && InSubtree(root, (k - 1) / 2))
  }

  /** A subtree of a child lies inside the subtree of its parent. */
  lemma {:induction false} SubtreeOfChild(i: nat, c: nat, k: nat)
    requires c == 2 * i + 1 || c == 2 * i + 2
    requires InSubtree(c, k)
    ensures InSubtree(i, k)
    decreases k
  {
    if k != c {
      SubtreeOfChild(i, c, (k - 1) / 2);
    }
  }

  /** The root of a max-heap is its largest value. */
  lemma {:induction false} RootIsMax(a: seq<int>, n: int, k: int)
    requires n <= |a| && MaxHeap(a, n) && 0 <= k < n
    ensures a[0] >= a[k]
    decreases k
  {
    if k > 0 {
      var parent := (k - 1) / 2;
      assert HeapAt(a, n, parent);
      RootIsMax(a, n, parent);
    }
  }

  /** The comparison part of heapify(n, i): a highlight step for i, then a
      comparison step of the largest so far against each child inside the
      heap, all showing the array as it is. `largest` moves to a child only
      when the child is strictly greater, so it stays i on ties. */
  method PickLargest(a: seq<int>, trace: seq<SortStep>, n: nat, i: nat, marks: seq<int>)
    returns (largest: nat, trace': seq<SortStep>)
    requires i < n <= |a|
    ensures largest == i || (largest == 2 * i + 1 && largest < n) || (largest == 2 * i + 2 && largest < n)
    ensures a[largest] >= a[i]
    ensures 2 * i + 1 < n ==> a[largest] >= a[2 * i + 1]
    ensures 2 * i + 2 < n ==> a[largest] >= a[2 * i + 2]
    ensures largest != i ==> a[largest] > a[i]
    ensures ExtendsWith(trace, trace', |a|, marks)
    ensures |trace'| == |trace| + 1 + (if 2 * i + 1 < n then 1 else 0) + (if 2 * i + 2 < n then 1 else 0)
    ensures trace'[|trace|] == CreateStep(a, [i], [], marks)
    ensures forall k :: |trace| < k < |trace'| ==>
      trace'[k].values == a && trace'[k].swap == [] && |trace'[k].comparison| == 2 && trace'[k].comparison[1] < n
    ensures 2 * i + 1 < n ==> trace'[|trace| + 1] == CreateStep(a, [i, 2 * i + 1], [], marks)
    ensures 2 * i + 2 < n ==>
              Last(trace') == CreateStep(a, [if a[2 * i + 1] > a[i] then 2 * i + 1 else i, 2 * i + 2], [], marks)
  {
    largest := i;
    var left := 2 * i + 1;
    var right := 2 * i + 2;
    trace' := trace + [CreateStep(a, [i], [], marks)];
    if left < n {
      trace' := trace' + [CreateStep(a, [largest, left], [], marks)];
      if a[left] > a[largest] {
        largest := left;
      }
    }
    if right < n {
      trace' := trace' + [CreateStep(a, [largest, right], [], marks)];
      if a[right] > a[largest] {
        largest := right;
      }
    }
  }

  /** heapify(n, i): sift-down of a[i] inside the heap a[0..n). If every
      node below i already dominates its children, afterwards every node from
      i on does; only positions in the subtree of i (and inside the heap) can
      change, and the new a[i] is the largest of the old a[i] and its
      children. The first step highlights i, and nothing moves when a[i]
      already dominates its children. */
  method Heapify(a: seq<int>, trace: seq<SortStep>, n: nat, i: nat, marks: seq<int>)
    returns (a': seq<int>, trace': seq<SortStep>)
    requires i < n <= |a|
    requires forall k :: i < k < n ==> HeapAt(a, n, k)
    ensures |a'| == |a| && multiset(a') == multiset(a)
    ensures forall k :: i <= k < n ==> HeapAt(a', n, k)
    ensures forall k :: 0 <= k < |a| && (n <= k || !InSubtree(i, k)) ==> a'[k] == a[k]
    ensures a'[i] == a[i] || (2 * i + 1 < n && a'[i] == a[2 * i + 1]) || (2 * i + 2 < n && a'[i] == a[2 * i + 2])
    ensures ExtendsWith(trace, trace', |a|, marks)
    ensures |trace'| > |trace| && trace'[|trace|] == CreateStep(a, [i], [], marks)
    ensures HeapAt(a, n, i) ==> a' == a
    decreases n - i, 1
  {
    var largest, t;
    largest, t := PickLargest(a, trace, n, i, marks);
    a', trace' := a, t;
    if largest != i {
      a', trace' := SiftFrom(a, t, n, i, largest, marks);
      PrefixAt(t, trace', |trace|);
    }
  }

  /** The exchange part of heapify(n, i) once its larger child c is known:
      i exchanged with c (a swap step showing the array after it), then
      heapify(n, c). Afterwards a[i] holds the old a[c]. */
  method SiftFrom(a: seq<int>, trace: seq<SortStep>, n: nat, i: nat, c: nat, marks: seq<int>)
    returns (a': seq<int>, trace': seq<SortStep>)
    requires i < c < n <= |a| && (c == 2 * i + 1 || c == 2 * i + 2)
    requires forall k :: i < k < n ==> HeapAt(a, n, k)
    requires a[c] > a[i]
    requires 2 * i + 1 < n ==> a[c] >= a[2 * i + 1]
    requires 2 * i + 2 < n ==> a[c] >= a[2 * i + 2]
    ensures |a'| == |a| && multiset(a') == multiset(a)
    ensures forall k :: i <= k < n ==> HeapAt(a', n, k)
    ensures forall k :: 0 <= k < |a| && (n <= k || !InSubtree(i, k)) ==> a'[k] == a[k]
    ensures a'[i] == a[c]
    ensures ExtendsWith(trace, trace', |a|, marks)
    ensures |trace'| > |trace| && trace'[|trace|] == CreateStep(Swap(a, i, c), [i, c], [i, c], marks)
    decreases n - i, 0
  {
    var b := Swap(a, i, c);
    var t := trace + [CreateStep(b, [i, c], [i, c], marks)];
    SwapKeepsLower(a, b, n, i, c);
    a', trace' := Heapify(b, t, n, c, marks);
    SiftedDown(a, b, a', n, i, c);
    PrefixAt(t, trace', |trace|);
  }

  /** Exchanging i with its child c leaves the nodes below c as they were. */
  lemma SwapKeepsLower(a: seq<int>, b: seq<int>, n: nat, i: nat, c: nat)
    requires i < c < n <= |a| && (c == 2 * i + 1 || c == 2 * i + 2)
    requires forall k :: i < k < n ==> HeapAt(a, n, k)
    requires b == Swap(a, i, c)
    ensures forall k :: c < k < n ==> HeapAt(b, n, k)
  {
    forall k | c < k < n
      ensures HeapAt(b, n, k)
    {
      assert HeapAt(a, n, k);
    }
  }

  /** The step that closes heapify's recursion: i exchanged with its larger
      child c (giving b), then the sift-down below c (giving a'), leaves every
      node from i on dominating its children and changes only the subtree of i. */
  lemma SiftedDown(a: seq<int>, b: seq<int>, a': seq<int>, n: nat, i: nat, c: nat)
    requires i < c < n <= |a| && (c == 2 * i + 1 || c == 2 * i + 2)
    requires forall k :: i < k < n ==> HeapAt(a, n, k)
    requires a[c] >= a[i]
    requires 2 * i + 1 < n ==> a[c] >= a[2 * i + 1]
    requires 2 * i + 2 < n ==> a[c] >= a[2 * i + 2]
    requires b == Swap(a, i, c)
    requires |a'| == |a|
    requires forall k :: c <= k < n ==> HeapAt(a', n, k)
    requires forall k :: 0 <= k < |a| && (n <= k || !InSubtree(c, k)) ==> a'[k] == b[k]
    requires a'[c] == b[c] || (2 * c + 1 < n && a'[c] == b[2 * c + 1]) || (2 * c + 2 < n && a'[c] == b[2 * c + 2])
    ensures forall k :: i <= k < n ==> HeapAt(a', n, k)
    ensures forall k :: 0 <= k < |a| && (n <= k || !InSubtree(i, k)) ==> a'[k] == a[k]
    ensures a'[i] == a[c]
  {
    assert !InSubtree(c, i);
    forall k | 0 <= k < |a| && (n <= k || !InSubtree(i, k))
      ensures a'[k] == a[k]
    {
      if k < n && InSubtree(c, k) {
        SubtreeOfChild(i, c, k);
      }
    }
    assert HeapAt(a, n, c);
    forall k | i <= k < c
      ensures HeapAt(a', n, k)
    {
      var l, r := 2 * k + 1, 2 * k + 2;
      assert !InSubtree(c, k);
      if l < n {
        assert l == c || !InSubtree(c, l);
      }
      if r < n {
        assert r == c || !InSubtree(c, r);
      }
      if k > i {
        assert HeapAt(a, n, k);
      }
    }
  }

  /** The sorted list Heap sort ends with: n-1, ..., 1, 0, and [0] when the
      input is empty. */
  function HeapMarks(n: nat): (r: seq<int>)
  {
    if n == 0 then [0] else seq(n, k => n - 1 - k)
  }

  /** Heap sort's final list reports every position once: it holds each of
      0..n-1, and nothing else when n > 0. */
  lemma HeapMarksCover(n: nat)
    ensures forall k :: 0 <= k < n ==> k in HeapMarks(n)
    ensures n > 0 ==> |HeapMarks(n)| == n && forall k :: 0 <= k < n ==> 0 <= HeapMarks(n)[k] < n
  {
    forall k | 0 <= k < n
      ensures k in HeapMarks(n)
    {
      assert HeapMarks(n)[n - 1 - k] == k;
    }
  }

  /** One extraction at i: the root goes to i (a swap step, i appended to
      the sorted list first), then heapify(i, 0) restores the heap on a[0..i),
      starting with the highlight of the root. */
  method Extract(a: seq<int>, trace: seq<SortStep>, i: nat, marks: seq<int>)
    returns (a': seq<int>, trace': seq<SortStep>)
    requires 0 < i < |a|
    requires MaxHeap(a, i + 1)
    requires Consistent(trace, |a|, marks)
    ensures |a'| == |a| && multiset(a') == multiset(a)
    ensures MaxHeap(a', i)
    ensures SameOutside(a, a', 0, i + 1)
    ensures forall k :: 0 <= k <= i ==> a'[k] <= a'[i]
    ensures a'[i] == a[0]
    ensures trace <= trace' && Consistent(trace', |a|, marks + [i])
    ensures ExtendsWith(trace, trace', |a|, marks + [i])
    ensures |trace'| > |trace| + 1
    ensures trace'[|trace|] == CreateStep(Swap(a, 0, i), [0, i], [0, i], marks + [i])
    ensures trace'[|trace| + 1] == CreateStep(Swap(a, 0, i), [0], [], marks + [i])
  {
    var b := Swap(a, 0, i);
    var moved := CreateStep(b, [0, i], [0, i], marks + [i]);
    SwapRootKeepsLower(a, b, i);
    a', trace' := Heapify(b, trace + [moved], i, 0, marks + [i]);
    ExtractedValues(a, b, a', i);
    ExtractedTrace(trace, moved, trace', |a|, marks, i, CreateStep(b, [0], [], marks + [i]));
  }

  /** Moving the root to i leaves the nodes between the root and i
      dominating their children inside the heap a[0..i). */
  lemma SwapRootKeepsLower(a: seq<int>, b: seq<int>, i: nat)
    requires 0 < i < |a| && MaxHeap(a, i + 1) && b == Swap(a, 0, i)
    ensures forall k :: 0 < k < i ==> HeapAt(b, i, k)
  {
    forall k | 0 < k < i
      ensures HeapAt(b, i, k)
    {
      assert HeapAt(a, i + 1, k);
    }
  }

  /** The array side of an extraction: b is a with the root moved to i,
      a' is b after heapify(i, 0). The heap shrinks to a[0..i) with the old
      root at i, at least every value of the heap. */
  lemma ExtractedValues(a: seq<int>, b: seq<int>, a': seq<int>, i: nat)
    requires 0 < i < |a| && MaxHeap(a, i + 1) && b == Swap(a, 0, i)
    requires |a'| == |b| && multiset(a') == multiset(b)
    requires forall k :: 0 <= k < i ==> HeapAt(a', i, k)
    requires forall k :: 0 <= k < |b| && (i <= k || !InSubtree(0, k)) ==> a'[k] == b[k]
    ensures multiset(a') == multiset(a)
    ensures MaxHeap(a', i)
    ensures SameOutside(a, a', 0, i + 1)
    ensures forall k :: 0 <= k <= i ==> a'[k] <= a'[i]
    ensures a'[i] == a[0]
  {
    forall k | 0 <= k <= i
      ensures a[0] >= a[k]
    {
      RootIsMax(a, i + 1, k);
    }
    SegmentAtMost(b, a', 0, i, b[i]);
  }

  /** The trace side of an extraction: the swap step with i newly marked,
      then heapify's steps, starting with `first`. */
  lemma ExtractedTrace(trace: seq<SortStep>, moved: SortStep, t': seq<SortStep>, n: nat,
                       marks: seq<int>, i: nat, first: SortStep)
    requires Consistent(trace, n, marks)
    requires |moved.values| == n && moved.sorted == marks + [i]
    requires ExtendsWith(trace + [moved], t', n, marks + [i])
    requires |t'| > |trace| + 1 && t'[|trace| + 1] == first
    ensures trace <= t' && Consistent(t', n, marks + [i])
    ensures ExtendsWith(trace, t', n, marks + [i])
    ensures t'[|trace|] == moved && t'[|trace| + 1] == first
  {
    assert Marks(marks) <= Marks(marks + [i]);
    Append(trace, moved, n, marks);
    ExtendsConsistent(trace + [moved], t', n, marks + [i]);
    PrefixAt(trace + [moved], t', |trace|);
  }

  /** The build phase of generateHeapSortSteps: heapify(n, i) for i from
      n/2 - 1 down to 0, nothing marked. It records nothing for fewer than
      two values; otherwise its first step is the highlight of n/2 - 1. */
  method BuildHeap(input: seq<int>) returns (a: seq<int>, trace: seq<SortStep>)
    ensures |a| == |input| && multiset(a) == multiset(input)
    ensures MaxHeap(a, |a|)
    ensures Consistent(trace, |a|, [])
    ensures |input| <= 1 ==> trace == []
    ensures |input| >= 2 ==> |trace| > 0 && trace[0] == CreateStep(input, [|input| / 2 - 1], [], [])
  {
    a := input;
    var n := |a|;
    trace := [];
    var i := n / 2 - 1;
    while i >= 0
      invariant -1 <= i <= n / 2 - 1 && |a| == n
      invariant multiset(a) == multiset(input)
      invariant forall k :: i < k < n ==> HeapAt(a, n, k)
      invariant Consistent(trace, n, [])
      invariant i == n / 2 - 1 ==> a == input && trace == []
      invariant n >= 2 && i < n / 2 - 1 ==> |trace| > 0 && trace[0] == CreateStep(input, [n / 2 - 1], [], [])
    {
      var before := trace;
      a, trace := Heapify(a, trace, n, i, []);
      ExtendsConsistent(before, trace, n, []);
      if i < n / 2 - 1 {
        PrefixAt(before, trace, 0);
      }
      i := i - 1;
    }
  }

  /** The extraction phase of generateHeapSortSteps: Extract at i for i
      from n - 1 down to 1. The array ends sorted, and the list of sorted
      positions is n-1, ..., 1, which 0 then completes to HeapMarks(n). */
  method SortDown(a: seq<int>, trace: seq<SortStep>) returns (a': seq<int>, trace': seq<SortStep>, marks: seq<int>)
    requires MaxHeap(a, |a|) && Consistent(trace, |a|, [])
    ensures |a'| == |a| && multiset(a') == multiset(a)
    ensures SortedBetween(a', 0, |a'|)
    ensures marks + [0] == HeapMarks(|a|)
    ensures trace <= trace' && Consistent(trace', |a|, marks)
    ensures |a| <= 1 ==> trace' == trace
    ensures |a| >= 2 ==> |trace'| > |trace| && Last(trace').sorted == marks
  {
    a', trace', marks := a, trace, [];
    var i := |a| - 1;
    while i > 0
      invariant DownState(a, trace, a', trace', marks, i)
      decreases i
    {
      var a0, t0 := a', trace';
      a', trace' := Extract(a', trace', i, marks);
      DownStep(a, trace, a0, t0, a', trace', marks, i);
      marks := marks + [i];
      i := i - 1;
    }
    DownDone(a, trace, a', trace', marks, i);
  }

  /** What the extraction phase has established down to i: a max-heap on
      a[0..i], above it the largest values in order, n-1, ..., i+1 marked. */
  ghost predicate DownState(a: seq<int>, trace: seq<SortStep>, a': seq<int>, trace': seq<SortStep>,
                            marks: seq<int>, i: int)
  {
    var n := |a|;
    && ((n == 0 && i == -1) || (0 <= i < n))
    && |a'| == n && multiset(a') == multiset(a)
    && MaxHeap(a', i + 1)
    && SortedBetween(a', i + 1, n)
    && (forall p, q :: 0 <= p <= i < q < n ==> a'[p] <= a'[q])
    && marks == seq(n - 1 - i, k => n - 1 - k)
    && trace <= trace' && Consistent(trace', n, marks)
    && (n <= 1 ==> trace' == trace)
    && (n >= 2 && i < n - 1 ==> |trace'| > |trace| && Last(trace').sorted == marks)
  }

  /** The extraction at i moves the phase down to i - 1. */
  lemma DownStep(a: seq<int>, trace: seq<SortStep>, a0: seq<int>, t0: seq<SortStep>,
                 a1: seq<int>, t1: seq<SortStep>, marks: seq<int>, i: int)
    requires DownState(a, trace, a0, t0, marks, i) && i > 0
    requires |a1| == |a0| && multiset(a1) == multiset(a0)
    requires MaxHeap(a1, i) && SameOutside(a0, a1, 0, i + 1)
    requires forall k :: 0 <= k <= i ==> a1[k] <= a1[i]
    requires a1[i] == a0[0]
    requires t0 <= t1 && Consistent(t1, |a|, marks + [i])
    requires |t1| > |t0| && Last(t1).sorted == marks + [i]
    ensures DownState(a, trace, a1, t1, marks + [i], i - 1)
  {
    var n := |a|;
    assert forall q :: i < q < n ==> a0[0] <= a0[q];
    assert marks + [i] == seq(n - 1 - (i - 1), k => n - 1 - k);
  }

  /** With i at 0 the extraction phase is complete. */
  lemma DownDone(a: seq<int>, trace: seq<SortStep>, a': seq<int>, trace': seq<SortStep>, marks: seq<int>, i: int)
    requires DownState(a, trace, a', trace', marks, i) && i <= 0
    ensures |a'| == |a| && multiset(a') == multiset(a)
    ensures SortedBetween(a', 0, |a'|)
    ensures marks + [0] == HeapMarks(|a|)
    ensures trace <= trace' && Consistent(trace', |a|, marks)
    ensures |a| <= 1 ==> trace' == trace
    ensures |a| >= 2 ==> |trace'| > |trace| && Last(trace').sorted == marks
  {
    assert marks + [0] == HeapMarks(|a|);
  }

  /** The trace generateHeapSortSteps records for `input`: no initial step,
      so for two values or more it begins with the highlight of n/2 - 1; the
      last extraction's steps show n-1, ..., 1 sorted; the final step shows
      the sorted input with HeapMarks(n) sorted. */
  ghost predicate HeapTrace(trace: seq<SortStep>, input: seq<int>)
  {
    && |trace| > 0 && Consistent(trace, |input|, HeapMarks(|input|))
    && (|input| <= 1 ==> |trace| == 1)
    && (|input| >= 2 ==> trace[0] == CreateStep(input, [|input| / 2 - 1], [], []))
    && (|input| >= 2 ==> |trace| >= 2 && trace[|trace| - 2].sorted == seq(|input| - 1, k => |input| - 1 - k))
    && Last(trace).comparison == [] && Last(trace).swap == []
    && Last(trace).sorted == HeapMarks(|input|)
    && SortedPermutation(Last(trace).values, input)
  }

  /** generateHeapSortSteps: no initial step; heapify from n/2 - 1 down to
      0, extraction from n-1 down to 1, then 0 appended to the sorted list and
      a final step showing it. For two values or more the first step is the
      highlight of n/2 - 1, the first node heapified. */
  method GenerateHeapSortSteps(input: seq<int>) returns (trace: seq<SortStep>)
    ensures HeapTrace(trace, input)
  {
    var heap, built := BuildHeap(input);
    var a, extracted, marks := SortDown(heap, built);
    var final := CreateStep(a, [], [], marks + [0]);
    Append(extracted, final, |input|, marks);
    if |input| >= 2 {
      PrefixAt(built, extracted, 0);
      PrefixAt(extracted, extracted + [final], 0);
      assert marks == HeapMarks(|input|)[..|input| - 1];
    }
    trace := extracted + [final];
  }
}
