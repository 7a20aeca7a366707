/** Counting sort as traced by the visualizer: one highlight step per
    position while counting, then the array is rebuilt from the value
    counts, one overwrite step per position, left to right. The rebuild
    writes the sorted input, so each overwrite step shows a growing sorted
    prefix over the untouched rest of the input. */
module Counting {
  import opened Types
  import opened Recorder
  import opened Order

  /** k copies of v. */
  function Rep(v: int, k: nat): (r: seq<int>)
    ensures |r| == k
    ensures forall q :: 0 <= q < k ==> r[q] == v
  {
    seq(k, _ => v)
  }

  /** The values 0, 1, ..., hi-1, each repeated as often as it occurs in m:
      what the rebuild writes after going through the counts below hi. */
  function Block(m: multiset<int>, hi: nat): (r: seq<int>)
  {
    if hi == 0 then [] else Block(m, hi - 1) + Rep(hi - 1, m[hi - 1])
  }

  lemma {:induction false} RepCount(v: int, k: nat, w: int)
    ensures multiset(Rep(v, k))[w] == if w == v then k else 0
  {
    if k > 0 {
      RepCount(v, k - 1, w);
      assert Rep(v, k) == Rep(v, k - 1) + [v];
    }
  }

  /** Block(m, hi) holds v exactly m[v] times when v is in [0, hi), and
      not at all otherwise. */
  lemma {:induction false} BlockCount(m: multiset<int>, hi: nat, v: int)
    ensures multiset(Block(m, hi))[v] == if 0 <= v < hi then m[v] else 0
  {
    if hi > 0 {
      BlockCount(m, hi - 1, v);
      RepCount(hi - 1, m[hi - 1], v);
      var b, r := Block(m, hi - 1), Rep(hi - 1, m[hi - 1]);
      assert Block(m, hi) == b + r;
      assert multiset(b + r)[v] == multiset(b)[v] + multiset(r)[v];
    }
  }

  /** Block(m, hi) holds each v in [0, hi) exactly m[v] times, and nothing else. */
  lemma BlockCounts(m: multiset<int>, hi: nat)
    ensures forall v :: multiset(Block(m, hi))[v] == if 0 <= v < hi then m[v] else 0
  {
    forall v
      ensures multiset(Block(m, hi))[v] == if 0 <= v < hi then m[v] else 0
    {
      BlockCount(m, hi, v);
    }
  }

  /** Block(m, hi) is sorted and lies in [0, hi). */
  lemma {:induction false} BlockSorted(m: multiset<int>, hi: nat)
    ensures Sorted(Block(m, hi))
    ensures forall k :: 0 <= k < |Block(m, hi)| ==> 0 <= Block(m, hi)[k] < hi
  {
    if hi > 0 {
      BlockSorted(m, hi - 1);
      var b, r := Block(m, hi - 1), Rep(hi - 1, m[hi - 1]);
      assert Block(m, hi) == b + r;
      forall i, j | 0 <= i < j < |b + r|
        ensures (b + r)[i] <= (b + r)[j]
      {
        if j < |b| {
          assert (b + r)[i] == b[i] && (b + r)[j] == b[j];
        }
      }
    }
  }

  /** Going through more counts only extends what has been written. */
  lemma {:induction false} BlockPrefix(m: multiset<int>, i: nat, j: nat)
    requires i <= j
    ensures Block(m, i) <= Block(m, j)
    decreases j - i
  {
    if i < j {
      BlockPrefix(m, i + 1, j);
    }
  }

  /** For a list of values in [0, max], going through every count writes
      exactly the reference sort of the list. */
  lemma BlockIsSortOf(input: seq<int>, max: int)
    requires 0 <= max
    requires forall k :: 0 <= k < |input| ==> 0 <= input[k] <= max
    ensures Block(multiset(input), max + 1) == SortOf(input)
  {
    var b := Block(multiset(input), max + 1);
    BlockPermutes(input, max);
    BlockSorted(multiset(input), max + 1);
    SortedPermutationIsSortOf(b, input);
  }

  /** Going through every count writes the values of the list, each as
      often as it occurs. */
  lemma BlockPermutes(input: seq<int>, max: int)
    requires 0 <= max
    requires forall k :: 0 <= k < |input| ==> 0 <= input[k] <= max
    ensures multiset(Block(multiset(input), max + 1)) == multiset(input)
    ensures |Block(multiset(input), max + 1)| == |input|
  {
    var m := multiset(input);
    var b := Block(m, max + 1);
    BlockCounts(m, max + 1);
    forall v
      ensures multiset(b)[v] == m[v]
    {
      if m[v] > 0 {
        assert v in m;
        var k :| 0 <= k < |input| && input[k] == v;
      }
    }
    assert multiset(b) == m;
    assert |b| == |multiset(b)|;
  }

  /** `reconstructCounts`: c[v] is the number of occurrences of v in the
      input, for every v in [0, max]. */
  method CountValues(input: seq<int>, max: int) returns (c: seq<nat>)
    requires 0 <= max
    requires forall k :: 0 <= k < |input| ==> 0 <= input[k] <= max
    ensures |c| == max + 1
    ensures forall v :: 0 <= v <= max ==> c[v] == multiset(input)[v]
  {
    c := seq(max + 1, _ => 0);
    for i := 0 to |input|
      invariant |c| == max + 1
      invariant forall v :: 0 <= v <= max ==> c[v] == multiset(input[..i])[v]
    {
      assert input[..i + 1] == input[..i] + [input[i]];
      c := c[input[i] := c[input[i]] + 1];
    }
    assert input[..|input|] == input;
  }

  /** The counting phase: one highlight step per position over the
      unchanged input. */
  method Highlights(input: seq<int>) returns (trace: seq<SortStep>)
    ensures |trace| == |input|
    ensures forall k :: 0 <= k < |input| ==> trace[k] == CreateStep(input, [k], [], [])
  {
    trace := [];
    for i := 0 to |input|
      invariant |trace| == i
      invariant forall k :: 0 <= k < i ==> trace[k] == CreateStep(input, [k], [], [])
    {
      trace := trace + [CreateStep(input, [i], [], [])];
    }
  }

  /** The overwrite step for position p of the rebuild: positions 0..p hold
      the first p+1 values of the result, the rest is still the input, p is
      the one written, and 0..p-1 are reported sorted. */
  ghost function Placed(result: seq<int>, input: seq<int>, p: nat): (r: SortStep)
    requires p < |result| == |input|
  {
    CreateStep(result[..p + 1] + input[p + 1..], [], [p], Range(p))
  }

  /** Going through the count of v appends m[v] copies of v right after
      Block(m, v), and stays a prefix of what all counts below hi write. */
  lemma BlockRun(m: multiset<int>, v: nat, hi: nat)
    requires v < hi
    ensures Block(m, v + 1) <= Block(m, hi)
    ensures |Block(m, v)| + m[v] == |Block(m, v + 1)| <= |Block(m, hi)|
    ensures forall q :: |Block(m, v)| <= q < |Block(m, v + 1)| ==> Block(m, hi)[q] == v
  {
    BlockPrefix(m, v + 1, hi);
    assert Block(m, v + 1) == Block(m, v) + Rep(v, m[v]);
  }

  /** The inner `while` of the rebuild for one value v: count copies of v
      written from idx on, one overwrite step each. */
  method PlaceCopies(a: seq<int>, trace: seq<SortStep>, idx: nat, v: int, count: nat,
                     ghost result: seq<int>, ghost input: seq<int>, ghost base: nat)
    returns (a': seq<int>, trace': seq<SortStep>, idx': nat)
    requires idx + count <= |result| == |input|
    requires forall q :: idx <= q < idx + count ==> result[q] == v
    requires a == result[..idx] + input[idx..]
    requires |trace| == base + idx
    ensures idx' == idx + count
    ensures a' == result[..idx'] + input[idx'..]
    ensures trace <= trace' && |trace'| == base + idx'
    ensures forall p :: idx <= p < idx' ==> trace'[base + p] == Placed(result, input, p)
  {
    a', trace', idx' := a, trace, idx;
    var left := count;
    while left > 0
      invariant idx' + left == idx + count
      invariant a' == result[..idx'] + input[idx'..]
      invariant trace <= trace' && |trace'| == base + idx'
      invariant forall p :: idx <= p < idx' ==> trace'[base + p] == Placed(result, input, p)
    {
      a' := a'[idx' := v];
      assert a' == result[..idx' + 1] + input[idx' + 1..];
      trace' := trace' + [CreateStep(a', [], [idx'], Range(idx'))];
      left := left - 1;
      idx' := idx' + 1;
    }
  }

  /** The rebuild: for v = 0 .. max, PlaceCopies with v's count. It
      writes Block(m, max + 1) over the whole array, m being the input's
      multiset of values. */
  method Rebuild(input: seq<int>, trace: seq<SortStep>, c: seq<nat>)
    returns (a: seq<int>, trace': seq<SortStep>)
    requires forall v :: 0 <= v < |c| ==> c[v] == multiset(input)[v]
    requires |Block(multiset(input), |c|)| == |input|
    ensures a == Block(multiset(input), |c|)
    ensures trace <= trace' && |trace'| == |trace| + |input|
    ensures forall p :: 0 <= p < |input| ==>
      trace'[|trace| + p] == Placed(Block(multiset(input), |c|), input, p)
  {
    ghost var m := multiset(input);
    ghost var result := Block(m, |c|);
    a, trace' := input, trace;
    var idx := 0;
    var v := 0;
    while v < |c|
      invariant v <= |c|
      invariant idx == |Block(m, v)| && Block(m, v) <= result
      invariant a == result[..idx] + input[idx..]
      invariant trace <= trace' && |trace'| == |trace| + idx
      invariant forall p :: 0 <= p < idx ==> trace'[|trace| + p] == Placed(result, input, p)
    {
      BlockRun(m, v, |c|);
      a, trace', idx := PlaceCopies(a, trace', idx, v, c[v], result, input, |trace|);
      v := v + 1;
    }
    assert idx == |result|;
    assert a == result[..|result|] + input[|input|..];
  }

  /** The shape of a counting-sort trace over a non-empty input whose
      rebuild writes `result`: n highlight steps over the input, n overwrite
      steps where step p shows result[0..p] over the rest of the input and
      reports 0..p-1 sorted, and the final step showing `result` with
      0..n-1 sorted. */
  ghost predicate CountingTrace(t: seq<SortStep>, input: seq<int>, result: seq<int>)
  {
    var n := |input|;
    n > 0 && |result| == n && |t| == 2 * n + 1 &&
    (forall k :: 0 <= k < n ==> t[k] == CreateStep(input, [k], [], [])) &&
    (forall p :: 0 <= p < n ==>
      t[n + p] == CreateStep(result[..p + 1] + input[p + 1..], [], [p], Range(p))) &&
    Last(t) == CreateStep(result, [], [], Range(n))
  }

  /** generateCountingSortSteps. `Math.max` of an empty list is -Infinity
      and `new Array(-Infinity + 1)` throws, so empty input fails. Otherwise
      the trace is a counting trace whose rebuild writes the reference sort
      of the input; even a single value gives three steps. */
  method GenerateCountingSortSteps(input: seq<int>) returns (r: Result<seq<SortStep>>)
    requires NonNegative(input)
    ensures r.Failure? <==> |input| == 0
    ensures r.Failure? ==> r.error == InvalidArrayLength
    ensures r.Success? ==> CountingTrace(r.value, input, SortOf(input))
    ensures r.Success? ==> Consistent(r.value, |input|, Range(|input|))
    ensures r.Success? ==> SortedPermutation(Last(r.value).values, input)
  {
    if |input| == 0 {
      return Failure(InvalidArrayLength);
    }
    var max := MaxOf(input);
    var trace := CountingSteps(input, max);
    BlockIsSortOf(input, max);
    CountingConsistent(input, Block(multiset(input), max + 1), trace);
    r := Success(trace);
  }

  /** The three phases for a non-empty input whose values lie in
      [0, max]: highlights, the rebuild from the counts, the final step. */
  method CountingSteps(input: seq<int>, max: int) returns (trace: seq<SortStep>)
    requires |input| > 0 && 0 <= max
    requires forall k :: 0 <= k < |input| ==> 0 <= input[k] <= max
    ensures CountingTrace(trace, input, Block(multiset(input), max + 1))
  {
    var n := |input|;
    trace := Highlights(input);
    var c := CountValues(input, max);
    ghost var result := Block(multiset(input), max + 1);
    BlockPermutes(input, max);
    var a;
    a, trace := Rebuild(input, trace, c);
    trace := trace + [CreateStep(a, [], [], Range(n))];
    forall p | 0 <= p < n
      ensures trace[n + p] == CreateStep(result[..p + 1] + input[p + 1..], [], [p], Range(p))
    {
      assert trace[n + p] == Placed(result, input, p);
    }
  }

  /** Any counting trace is consistent: every step has n values and the
      sorted marks 0..p-1 only ever grow, ending at 0..n-1. */
  lemma CountingConsistent(input: seq<int>, result: seq<int>, t: seq<SortStep>)
    requires CountingTrace(t, input, result)
    ensures Consistent(t, |input|, Range(|input|))
  {
    var n := |input|;
    forall k | 0 <= k < |t|
      ensures |t[k].values| == n
    {
      if n <= k < 2 * n {
        assert t[n + (k - n)] == CreateStep(result[..k - n + 1] + input[k - n + 1..], [], [k - n], Range(k - n));
      }
    }
    forall k | 0 <= k < |t| - 1
      ensures Marks(t[k].sorted) <= Marks(t[k + 1].sorted)
    {
      if k < n {
        assert t[k].sorted == [];
      } else {
        assert t[n + (k - n)] == CreateStep(result[..k - n + 1] + input[k - n + 1..], [], [k - n], Range(k - n));
        if k + 1 < 2 * n {
          assert t[n + (k + 1 - n)] == CreateStep(result[..k + 2 - n] + input[k + 2 - n..], [], [k + 1 - n], Range(k + 1 - n));
        }
        RangeMarks(k + 1 - n, Range(k - n));
      }
    }
  }
}
