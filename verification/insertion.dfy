/** Insertion sort as traced by the visualizer, and the run insertion that
    Tim sort repeats on each block (the two record identical steps). No
    position is reported sorted until the final step. */
module Insertion {
  import opened Types
  import opened Recorder
  import opened Order

  /** a[lo..j] while a[k] sinks: sorted apart from position k, and a[k]
      strictly below everything to its right up to j. */
  ghost predicate Sinking(a: seq<int>, lo: nat, j: nat, k: nat)
  {
    && lo <= k <= j < |a|
    && (forall p, q :: lo <= p < q <= j && p != k && q != k ==> a[p] <= a[q])
    && (forall q :: k < q <= j ==> a[k] < a[q])
  }

  /** Exchanging a strictly greater left neighbour moves the sinking value
      one place left. */
  lemma SinkStep(a: seq<int>, lo: nat, j: nat, k: nat)
    requires Sinking(a, lo, j, k) && lo < k && a[k - 1] > a[k]
    ensures Sinking(Swap(a, k - 1, k), lo, j, k - 1)
  {
    var b := Swap(a, k - 1, k);
    forall p, q | lo <= p < q <= j && p != k - 1 && q != k - 1
      ensures b[p] <= b[q]
    {
      if p == k {
        assert b[p] == a[k - 1] && b[q] == a[q];
      } else if q == k {
        assert b[q] == a[k - 1] && b[p] == a[p];
      }
    }
  }

  /** The loop test fails exactly when the sinking value has reached its
      sorted position: a[lo..j] is then in order, and only then. */
  lemma SinkDone(a: seq<int>, lo: nat, j: nat, k: nat)
    requires Sinking(a, lo, j, k)
    ensures (k == lo || a[k - 1] <= a[k]) <==> SortedBetween(a, lo, j + 1)
  {
    if k == lo || a[k - 1] <= a[k] {
      forall p, q | lo <= p < q <= j
        ensures a[p] <= a[q]
      {
        if p == k {
        } else if q == k {
          if p < k - 1 {
            assert a[p] <= a[k - 1];
          }
        }
      }
    }
  }

  /** A comparison step that writes nothing shows a strict inversion at its
      two positions: insertion sort records the neighbour test only when the
      left value is strictly greater, that is, only when it will exchange. */
  ghost predicate StrictCompare(s: SortStep)
  {
    |s.comparison| == 2 && s.swap == [] ==>
      && 0 <= s.comparison[0] < |s.values|
      && 0 <= s.comparison[1] < |s.values|
      && s.values[s.comparison[0]] > s.values[s.comparison[1]]
  }

  /** Every step of t from position `from` on is a StrictCompare. */
  ghost predicate StrictComparesFrom(t: seq<SortStep>, from: nat)
  {
    forall k :: from <= k < |t| ==> StrictCompare(t[k])
  }

  /** One exchange of the sinking loop with its two steps: the comparison of
      k - 1 and k, then the array after exchanging them. */
  method ExchangeDown(a: seq<int>, trace: seq<SortStep>, k: nat)
    returns (a': seq<int>, trace': seq<SortStep>)
    requires 0 < k < |a| && a[k - 1] > a[k]
    requires Consistent(trace, |a|, []) && StrictSwaps(trace)
    ensures a' == Swap(a, k - 1, k)
    ensures trace' == trace + [CreateStep(a, [k - 1, k], [], []), CreateStep(a', [k - 1, k], [k - 1, k], [])]
    ensures Consistent(trace', |a|, []) && StrictSwaps(trace')
    ensures StrictComparesFrom(trace', |trace|)
    ensures Overwritten(trace') == Overwritten(trace)
  {
    var compare := CreateStep(a, [k - 1, k], [], []);
    Append(trace, compare, |a|, []);
    OverwrittenAppend(trace, compare);
    trace' := trace + [compare];
    a' := Swap(a, k - 1, k);
    var swapped := CreateStep(a', [k - 1, k], [k - 1, k], []);
    Append(trace', swapped, |a|, []);
    OverwrittenAppend(trace', swapped);
    trace' := trace' + [swapped];
  }

  /** Recording a step that is a StrictCompare keeps the property. */
  lemma ComparesAppend(t: seq<SortStep>, s: SortStep, from: nat)
    requires from <= |t| && StrictComparesFrom(t, from) && StrictCompare(s)
    ensures StrictComparesFrom(t + [s], from)
  {
    assert forall k :: from <= k < |t| ==> (t + [s])[k] == t[k];
  }

  /** Steps recorded after t that are StrictCompares keep the property. */
  lemma ComparesExtend(t: seq<SortStep>, t': seq<SortStep>, from: nat)
    requires from <= |t| <= |t'| && t <= t'
    requires StrictComparesFrom(t, from) && StrictComparesFrom(t', |t|)
    ensures StrictComparesFrom(t', from)
  {
    forall k | from <= k < |t'|
      ensures StrictCompare(t'[k])
    {
      if k < |t| {
        assert t'[k] == t[k];
      }
    }
  }

  /** Sinking a[j] into the sorted a[lo..j): while the left neighbour is
      strictly greater, a comparison step, the exchange, and a swap step. The
      test that stops the loop is never recorded. */
  method Sink(a: seq<int>, trace: seq<SortStep>, lo: nat, j: nat)
    returns (a': seq<int>, trace': seq<SortStep>)
    requires lo < j < |a|
    requires SortedBetween(a, lo, j)
    requires Consistent(trace, |a|, []) && StrictSwaps(trace)
    ensures |a'| == |a| && multiset(a') == multiset(a)
    ensures SameOutside(a, a', lo, j + 1)
    ensures SortedBetween(a', lo, j + 1)
    ensures trace <= trace' && Consistent(trace', |a|, []) && StrictSwaps(trace')
    ensures StrictComparesFrom(trace', |trace|)
    ensures Overwritten(trace') == Overwritten(trace)
  {
    a', trace' := a, trace;
    var k: nat := j;
    while k > lo && a'[k - 1] > a'[k]
      invariant lo <= k <= j
      invariant |a'| == |a| && multiset(a') == multiset(a)
      invariant SameOutside(a, a', lo, j + 1)
      invariant Sinking(a', lo, j, k)
      invariant trace <= trace' && Consistent(trace', |a|, []) && StrictSwaps(trace')
      invariant StrictComparesFrom(trace', |trace|)
      invariant Overwritten(trace') == Overwritten(trace)
    {
      SinkStep(a', lo, j, k);
      var before := trace';
      a', trace' := ExchangeDown(a', trace', k);
      ComparesExtend(before, trace', |trace|);
      k := k - 1;
    }
    SinkDone(a', lo, j, k);
  }

  /** One iteration of the outer loop at j: a highlight step for j, then
      Sink. The first step it records is that highlight. */
  method InsertOne(a: seq<int>, trace: seq<SortStep>, lo: nat, j: nat)
    returns (a': seq<int>, trace': seq<SortStep>)
    requires lo < j < |a| && SortedBetween(a, lo, j)
    requires Consistent(trace, |a|, []) && StrictSwaps(trace)
    ensures |a'| == |a| && multiset(a') == multiset(a)
    ensures SameOutside(a, a', lo, j + 1)
    ensures SortedBetween(a', lo, j + 1)
    ensures trace <= trace' && Consistent(trace', |a|, []) && StrictSwaps(trace')
    ensures StrictComparesFrom(trace', |trace|)
    ensures |trace'| > |trace| && trace'[|trace|] == CreateStep(a, [j], [], [])
    ensures Overwritten(trace') == Overwritten(trace)
  {
    var start := CreateStep(a, [j], [], []);
    Append(trace, start, |a|, []);
    OverwrittenAppend(trace, start);
    ComparesAppend(trace, start, |trace|);
    var before := trace + [start];
    a', trace' := Sink(a, before, lo, j);
    ComparesExtend(before, trace', |trace|);
  }

  /** What InsertionRun keeps after running its outer loop on lo+1..j-1,
      from (a, trace) to (a', trace'). */
  ghost predicate RunState(a: seq<int>, trace: seq<SortStep>, a': seq<int>, trace': seq<SortStep>,
                           lo: nat, j: nat, hi: nat, first: SortStep)
  {
    && lo < j <= hi <= |a|
    && |a'| == |a| && multiset(a') == multiset(a)
    && SameOutside(a, a', lo, hi)
    && SortedBetween(a', lo, j)
    && trace <= trace' && Consistent(trace', |a|, []) && StrictSwaps(trace')
    && StrictComparesFrom(trace', |trace|)
    && Overwritten(trace') == Overwritten(trace)
    && (j == lo + 1 ==> a' == a && trace' == trace)
    && (j > lo + 1 ==> |trace'| > |trace| && trace'[|trace|] == first)
  }

  /** One call of InsertOne at j carries RunState from j to j + 1. */
  lemma RunStep(a: seq<int>, trace: seq<SortStep>, a0: seq<int>, a1: seq<int>,
                before: seq<SortStep>, after: seq<SortStep>, lo: nat, j: nat, hi: nat, first: SortStep)
    requires RunState(a, trace, a0, before, lo, j, hi, first) && j < hi
    requires first == CreateStep(a, [lo + 1], [], [])
    requires |a1| == |a0| && multiset(a1) == multiset(a0)
    requires SameOutside(a0, a1, lo, j + 1) && SortedBetween(a1, lo, j + 1)
    requires before <= after && Consistent(after, |a|, []) && StrictSwaps(after)
    requires StrictComparesFrom(after, |before|)
    requires |after| > |before| && after[|before|] == CreateStep(a0, [j], [], [])
    requires Overwritten(after) == Overwritten(before)
    ensures RunState(a, trace, a1, after, lo, j + 1, hi, first)
  {
    ComparesExtend(before, after, |trace|);
    if j > lo + 1 {
      PrefixAt(before, after, |trace|);
    }
  }

  /** Insertion sort of a[lo..hi): InsertOne for each j from lo+1. Only
      [lo, hi) changes, and it ends sorted. Nothing is recorded for a range
      of fewer than two positions; otherwise the first step is the
      highlight of lo+1. Every comparison step shows a strict inversion, and
      no step overwrites a single position. */
  method InsertionRun(a: seq<int>, trace: seq<SortStep>, lo: nat, hi: nat)
    returns (a': seq<int>, trace': seq<SortStep>)
    requires lo <= hi <= |a|
    requires Consistent(trace, |a|, []) && StrictSwaps(trace)
    ensures |a'| == |a| && multiset(a') == multiset(a)
    ensures SameOutside(a, a', lo, hi)
    ensures SortedBetween(a', lo, hi)
    ensures trace <= trace' && Consistent(trace', |a|, []) && StrictSwaps(trace')
    ensures StrictComparesFrom(trace', |trace|)
    ensures Overwritten(trace') == Overwritten(trace)
    ensures hi <= lo + 1 ==> a' == a && trace' == trace
    ensures lo + 1 < hi ==> |trace'| > |trace| && trace'[|trace|] == CreateStep(a, [lo + 1], [], [])
  {
    a', trace' := a, trace;
    if hi <= lo + 1 {
      return;
    }
    var j := lo + 1;
    ghost var first := CreateStep(a, [lo + 1], [], []);
    while j < hi
      invariant RunState(a, trace, a', trace', lo, j, hi, first)
    {
      var before, a0 := trace', a';
      a', trace' := InsertOne(a', trace', lo, j);
      RunStep(a, trace, a0, a', before, trace', lo, j, hi, first);
      j := j + 1;
    }
  }

  /** The trace generateInsertionSortSteps records for `input`: the input
      first, then the highlight of 1; every comparison step shows a strict
      inversion; nothing reported sorted before the final step, which shows
      the sorted input with 0..n-1 sorted. */
  ghost predicate InsertionTrace(trace: seq<SortStep>, input: seq<int>)
  {
    && |trace| > 0 && trace[0] == CreateStep(input, [], [], [])
    && Consistent(trace, |input|, Range(|input|)) && StrictSwaps(trace)
    && StrictComparesFrom(trace, 0)
    && (|input| >= 2 ==> |trace| > 2 && trace[1] == CreateStep(input, [1], [], []))
    && (forall k :: 0 <= k < |trace| - 1 ==> trace[k].sorted == [])
    && Last(trace).comparison == [] && Last(trace).swap == []
    && Last(trace).sorted == Range(|input|)
    && SortedPermutation(Last(trace).values, input)
  }

  /** generateInsertionSortSteps: the input as the first step, the run
      insertion over the whole array, and the final step marking 0..n-1.
      The second step highlights position 1 when there are two values or
      more, and every comparison step shows a strict inversion, the one the
      following swap removes. */
  method GenerateInsertionSortSteps(input: seq<int>) returns (trace: seq<SortStep>)
    ensures InsertionTrace(trace, input)
  {
    var a := input;
    var n := |a|;
    var first := CreateStep(a, [], [], []);
    ComparesAppend([], first, 0);
    trace := [first];
    a, trace := InsertionRun(a, trace, 0, n);
    ghost var run := trace;
    var final := CreateStep(a, [], [], Range(n));
    NothingMarked(trace, n);
    Append(trace, final, n, []);
    ComparesAppend(trace, final, 0);
    trace := trace + [final];
    if n >= 2 {
      PrefixAt(run, trace, 1);
    }
  }
}
