/** Shell sort as traced by the visualizer: gaps n/2, n/4, ..., 1, each a
    gapped insertion sort that lifts a[i] out as `temp`, shifts larger
    values up by one gap, and writes `temp` back. No position is reported
    sorted until the final step. */
module Shell {
  import opened Types
  import opened Recorder
  import opened Order

  /** The value at k is at least the value one gap before it (when both
      lie in a). */
  ghost predicate GapPair(a: seq<int>, gap: nat, k: int)
  {
    gap <= k < |a| ==> a[k - gap] <= a[k]
  }

  /** Every value before position hi is at most the value one gap after it:
      a[k - gap] <= a[k] for gap <= k < hi. */
  ghost predicate GapSortedBelow(a: seq<int>, gap: nat, hi: nat)
  {
    forall k :: gap <= k < hi ==> GapPair(a, gap, k)
  }

  /** With gap 1 this is plain sortedness. */
  lemma {:induction false} AdjacentSorted(a: seq<int>, hi: nat)
    requires hi <= |a| && GapSortedBelow(a, 1, hi)
    ensures SortedBetween(a, 0, hi)
    decreases hi
  {
    if hi > 1 {
      AdjacentSorted(a, hi - 1);
      assert GapPair(a, 1, hi - 1);
      forall i | 0 <= i < hi - 1
        ensures a[i] <= a[hi - 1]
      {
        assert a[i] <= a[hi - 2];
      }
    }
  }

  /** The inner loop body: a[j] takes the value one gap below (which is
      greater than temp). Two steps: the comparison of j and j - gap on the
      array before, then the overwrite of j on the array after; neither
      highlights a position on its own. */
  method Shift(a: seq<int>, trace: seq<SortStep>, gap: nat, j: nat)
    returns (a': seq<int>, trace': seq<SortStep>)
    requires 0 < gap <= j < |a|
    ensures a' == a[j := a[j - gap]]
    ensures |trace'| == |trace| + 2
    ensures trace'[|trace|] == CreateStep(a, [j, j - gap], [], [])
    ensures trace'[|trace| + 1] == CreateStep(a', [j, j - gap], [j], [])
    ensures Shows(trace, trace', |a|, [])
  {
    var compare := CreateStep(a, [j, j - gap], [], []);
    a' := a[j := a[j - gap]];
    var write := CreateStep(a', [j, j - gap], [j], []);
    trace' := trace + [compare, write];
    PairShows(trace, compare, write, |a|);
  }

  /** Two steps that each compare two positions highlight nothing on their
      own. */
  lemma PairShows(t: seq<SortStep>, s1: SortStep, s2: SortStep, n: nat)
    requires |s1.values| == n && s1.sorted == [] && |s1.comparison| == 2
    requires |s2.values| == n && s2.sorted == [] && |s2.comparison| == 2
    ensures Shows(t, t + [s1, s2], n, [])
  {
    ShowsStep(t, s1, n);
    ShowsStep(t + [s1], s2, n);
    assert t + [s1] + [s2] == t + [s1, s2];
    ShowsMore(t, t + [s1], t + [s1, s2], n, []);
  }

  /** The state inside GapInsert's shift loop: `temp` (originally a[i])
      has been lifted out, the values of its gap chain above hole j have
      moved up one gap, a[j] still holds a copy of a[j + gap], and every
      gap pair up to i is ordered except (i - gap, i) before the first
      shift. */
  ghost predicate Lifted(orig: seq<int>, a: seq<int>, temp: int, gap: nat, i: nat, j: nat)
  {
    0 < gap <= i < |orig| && j <= i && |a| == |orig| &&
    multiset(a[j := temp]) == multiset(orig) &&
    SameOutside(orig, a, 0, i + 1) &&
    (forall k :: gap <= k <= i && !(k == i && j == i) ==> GapPair(a, gap, k)) &&
    (j == i ==> a == orig && temp == orig[i]) &&
    (j < i ==> j + gap <= i && temp < a[j + gap] && a[j] == a[j + gap])
  }

  lemma LiftStart(orig: seq<int>, gap: nat, i: nat)
    requires 0 < gap <= i < |orig| && GapSortedBelow(orig, gap, i)
    ensures Lifted(orig, orig, orig[i], gap, i, i)
  {
    assert orig[i := orig[i]] == orig;
  }

  /** Shifting a[j - gap] up and moving the hole down exchanges two values
      of the array with temp written into the hole. */
  lemma ShiftPermutes(a: seq<int>, temp: int, gap: nat, j: nat)
    requires 0 < gap <= j < |a|
    ensures multiset(a[j := a[j - gap]][j - gap := temp]) == multiset(a[j := temp])
  {
    assert a[j := a[j - gap]][j - gap := temp] == Swap(a[j := temp], j, j - gap);
  }

  /** The gap pairs stay ordered when a[j - gap] > temp is shifted into the
      hole j; the pair (i - gap, i) becomes ordered with the first shift. */
  lemma ShiftOrdered(a: seq<int>, temp: int, gap: nat, i: nat, j: nat)
    requires 0 < gap <= j <= i < |a|
    requires forall k :: gap <= k <= i && !(k == i && j == i) ==> GapPair(a, gap, k)
    requires j < i ==> j + gap <= i && a[j] == a[j + gap]
    ensures GapSortedBelow(a[j := a[j - gap]], gap, i + 1)
  {
    var b := a[j := a[j - gap]];
    forall k | gap <= k <= i
      ensures GapPair(b, gap, k)
    {
      if k == j {
      } else if k == j + gap {
        assert GapPair(a, gap, j);
      } else {
        assert GapPair(a, gap, k);
        assert b[k - gap] == a[k - gap] && b[k] == a[k];
      }
    }
  }

  /** One shift keeps the loop state, one gap lower. */
  lemma LiftShift(orig: seq<int>, a: seq<int>, temp: int, gap: nat, i: nat, j: nat)
    requires Lifted(orig, a, temp, gap, i, j)
    requires j >= gap && a[j - gap] > temp
    ensures Lifted(orig, a[j := a[j - gap]], temp, gap, i, j - gap)
  {
    ShiftPermutes(a, temp, gap, j);
    ShiftOrdered(a, temp, gap, i, j);
  }

  /** Writing temp into the hole where the loop stopped leaves a[0..i]
      gap-sorted. */
  lemma LiftDone(orig: seq<int>, a: seq<int>, temp: int, gap: nat, i: nat, j: nat)
    requires Lifted(orig, a, temp, gap, i, j)
    requires j < gap || a[j - gap] <= temp
    ensures multiset(a[j := temp]) == multiset(orig)
    ensures SameOutside(orig, a[j := temp], 0, i + 1)
    ensures GapSortedBelow(a[j := temp], gap, i + 1)
  {
    var b := a[j := temp];
    forall k | gap <= k <= i
      ensures GapPair(b, gap, k)
    {
      if k != j && k != j + gap {
        assert GapPair(a, gap, k);
      }
    }
  }

  /** GapInsert's inner loop: shift the gap chain below the hole up while
      its values are strictly greater than temp; stops at the hole `place`
      where temp belongs. */
  method ShiftChain(orig: seq<int>, trace: seq<SortStep>, temp: int, gap: nat, i: nat)
    returns (a': seq<int>, trace': seq<SortStep>, place: nat)
    requires Lifted(orig, orig, temp, gap, i, i)
    ensures Lifted(orig, a', temp, gap, i, place)
    ensures place < gap || a'[place - gap] <= temp
    ensures Shows(trace, trace', |orig|, [])
  {
    a', trace', place := orig, trace, i;
    ShowsNothing(trace, |orig|);
    while place >= gap && a'[place - gap] > temp
      invariant Lifted(orig, a', temp, gap, i, place)
      invariant Shows(trace, trace', |orig|, [])
    {
      a', trace' := ShiftOn(orig, trace, a', trace', temp, gap, i, place);
      place := place - gap;
    }
  }

  /** One turn of the shift loop: the shift at hole j, the hole moving down
      one gap. */
  method ShiftOn(orig: seq<int>, trace: seq<SortStep>, a: seq<int>, t: seq<SortStep>,
                 temp: int, gap: nat, i: nat, j: nat)
    returns (a': seq<int>, t': seq<SortStep>)
    requires Lifted(orig, a, temp, gap, i, j) && Shows(trace, t, |orig|, [])
    requires j >= gap && a[j - gap] > temp
    ensures Lifted(orig, a', temp, gap, i, j - gap) && Shows(trace, t', |orig|, [])
  {
    LiftShift(orig, a, temp, gap, i, j);
    a', t' := Shift(a, t, gap, j);
    ShowsMore(trace, t, t', |orig|, []);
  }

  /** One position i of a gapped pass: temp = a[i] moves down its gap
      chain past every strictly greater value and is written where it stops,
      at `place`. If a[0..i) was gap-sorted, a[0..i] is; only [0, i]
      changes. The first step highlights i, the last shows temp written at
      `place`, and i is the only position highlighted on its own. */
  method GapInsert(a: seq<int>, trace: seq<SortStep>, gap: nat, i: nat)
    returns (a': seq<int>, trace': seq<SortStep>, place: nat)
    requires 0 < gap <= i < |a|
    requires GapSortedBelow(a, gap, i)
    ensures |a'| == |a| && multiset(a') == multiset(a)
    ensures SameOutside(a, a', 0, i + 1)
    ensures GapSortedBelow(a', gap, i + 1)
    ensures place <= i && a'[place] == a[i]
    ensures |trace'| >= |trace| + 2 && trace'[|trace|] == CreateStep(a, [i], [], [])
    ensures Last(trace') == CreateStep(a', [], [place], [])
    ensures Shows(trace, trace', |a|, [i])
  {
    var temp := a[i];
    var lift := CreateStep(a, [i], [], []);
    ShowsStep(trace, lift, |a|);
    LiftStart(a, gap, i);
    var shifted, t1;
    shifted, t1, place := ShiftChain(a, trace + [lift], temp, gap, i);
    LiftDone(a, shifted, temp, gap, i, place);
    a' := shifted[place := temp];
    var put := CreateStep(a', [], [place], []);
    ShowsStep(t1, put, |a|);
    trace' := t1 + [put];
    InsertShows(trace, lift, t1, put, |a|);
  }

  /** The highlight of i, then steps that highlight nothing on their own. */
  lemma InsertShows(t: seq<SortStep>, lift: SortStep, t1: seq<SortStep>, put: SortStep, n: nat)
    requires Shows(t, t + [lift], n, HighlightOf(lift)) && Shows(t + [lift], t1, n, [])
    requires Shows(t1, t1 + [put], n, HighlightOf(put)) && put.comparison == []
    ensures Shows(t, t1 + [put], n, HighlightOf(lift))
    ensures |t1 + [put]| >= |t| + 2 && (t1 + [put])[|t|] == lift
  {
    ShowsMore(t, t + [lift], t1, n, HighlightOf(lift));
    ShowsMore(t, t1, t1 + [put], n, HighlightOf(lift));
    PrefixAt(t + [lift], t1 + [put], |t|);
  }

  /** One gapped pass: GapInsert for i = gap .. n-1. Afterwards the whole
      array is gap-sorted; the pass highlights gap, gap + 1, ..., n - 1 in
      turn, starting with its first step. */
  method ShellPass(a: seq<int>, trace: seq<SortStep>, gap: nat)
    returns (a': seq<int>, trace': seq<SortStep>)
    requires 0 < gap
    ensures |a'| == |a| && multiset(a') == multiset(a)
    ensures GapSortedBelow(a', gap, |a|)
    ensures Shows(trace, trace', |a|, Span(gap, |a|))
    ensures gap >= |a| ==> a' == a && trace' == trace
    ensures gap < |a| ==> |trace'| > |trace| && trace'[|trace|] == CreateStep(a, [gap], [], [])
  {
    a', trace' := a, trace;
    var i := gap;
    ShowsNothing(trace, |a|);
    while i < |a|
      invariant PassState(a, trace, a', trace', gap, i)
      decreases |a| - i
    {
      var a0, t0 := a', trace';
      var place;
      a', trace', place := GapInsert(a', trace', gap, i);
      PassStep(a, trace, a0, t0, a', trace', gap, i);
      i := i + 1;
    }
    PassDone(a, trace, a', trace', gap, i);
  }

  /** What a pass has established once the positions below i are done. */
  ghost predicate PassState(a: seq<int>, trace: seq<SortStep>, a': seq<int>, trace': seq<SortStep>, gap: nat, i: nat)
  {
    && gap <= i && (i <= |a| || i == gap)
    && |a'| == |a| && multiset(a') == multiset(a)
    && GapSortedBelow(a', gap, i)
    && Shows(trace, trace', |a|, Span(gap, i))
    && (i == gap ==> a' == a && trace' == trace)
    && (i > gap ==> |trace'| > |trace| && trace'[|trace|] == CreateStep(a, [gap], [], []))
  }

  /** GapInsert at i moves the pass on to i + 1. */
  lemma PassStep(a: seq<int>, trace: seq<SortStep>, a0: seq<int>, t0: seq<SortStep>,
                 a1: seq<int>, t1: seq<SortStep>, gap: nat, i: nat)
    requires PassState(a, trace, a0, t0, gap, i) && i < |a|
    requires |a1| == |a0| && multiset(a1) == multiset(a0)
    requires GapSortedBelow(a1, gap, i + 1)
    requires |t1| >= |t0| + 2 && t1[|t0|] == CreateStep(a0, [i], [], [])
    requires Shows(t0, t1, |a|, [i])
    ensures PassState(a, trace, a1, t1, gap, i + 1)
  {
    ShowsChain(trace, t0, t1, |a|, Span(gap, i), [i]);
    SpanSnoc(gap, i);
    if i > gap {
      PrefixAt(t0, t1, |trace|);
    }
  }

  lemma PassDone(a: seq<int>, trace: seq<SortStep>, a': seq<int>, trace': seq<SortStep>, gap: nat, i: nat)
    requires PassState(a, trace, a', trace', gap, i) && i >= |a|
    ensures |a'| == |a| && multiset(a') == multiset(a)
    ensures GapSortedBelow(a', gap, |a|)
    ensures Shows(trace, trace', |a|, Span(gap, |a|))
    ensures gap >= |a| ==> a' == a && trace' == trace
    ensures gap < |a| ==> |trace'| > |trace| && trace'[|trace|] == CreateStep(a, [gap], [], [])
  {
    if gap >= |a| {
      assert Span(gap, i) == [] == Span(gap, |a|);
    }
  }

  /** The positions highlighted on their own by the passes with gaps gap,
      gap/2, gap/4, ..., 1: gap..n-1 for each of them in turn. */
  function GapHighlights(n: nat, gap: nat): (r: seq<int>)
    decreases gap
  {
    if gap == 0 then [] else Span(gap, n) + GapHighlights(n, gap / 2)
  }

  /** The passes with gaps gap, gap/2, ..., 1, none when gap is 0. The last
      has gap 1, an insertion sort, so the array ends sorted. */
  method ShellPasses(a: seq<int>, trace: seq<SortStep>, gap: nat)
    returns (a': seq<int>, trace': seq<SortStep>)
    ensures |a'| == |a| && multiset(a') == multiset(a)
    ensures gap > 0 ==> SortedBetween(a', 0, |a'|)
    ensures Shows(trace, trace', |a|, GapHighlights(|a|, gap))
    ensures gap == 0 ==> a' == a && trace' == trace
    ensures 0 < gap < |a| ==> |trace'| > |trace| && trace'[|trace|] == CreateStep(a, [gap], [], [])
    decreases gap
  {
    if gap == 0 {
      a', trace' := a, trace;
      ShowsNothing(trace, |a|);
      return;
    }
    var a1, t1 := ShellPass(a, trace, gap);
    if gap == 1 {
      AdjacentSorted(a1, |a1|);
    }
    a', trace' := ShellPasses(a1, t1, gap / 2);
    PassesShow(a, a1, a', trace, t1, trace', gap);
  }

  /** One pass followed by the later ones. */
  lemma PassesShow(a: seq<int>, a1: seq<int>, a': seq<int>, t: seq<SortStep>, t1: seq<SortStep>, t': seq<SortStep>, gap: nat)
    requires 0 < gap && |a1| == |a| && |a'| == |a|
    requires Shows(t, t1, |a|, Span(gap, |a|))
    requires Shows(t1, t', |a|, GapHighlights(|a|, gap / 2))
    requires gap < |a| ==> |t1| > |t| && t1[|t|] == CreateStep(a, [gap], [], [])
    requires gap == 1 ==> SortedBetween(a1, 0, |a1|)
    requires gap / 2 == 0 ==> a' == a1
    requires gap / 2 > 0 ==> SortedBetween(a', 0, |a'|)
    ensures SortedBetween(a', 0, |a'|)
    ensures Shows(t, t', |a|, GapHighlights(|a|, gap))
    ensures gap < |a| ==> |t'| > |t| && t'[|t|] == CreateStep(a, [gap], [], [])
  {
    ShowsChain(t, t1, t', |a|, Span(gap, |a|), GapHighlights(|a|, gap / 2));
    if gap < |a| {
      PrefixAt(t1, t', |t|);
    }
  }

  /** The trace generateShellSortSteps records for `input`: no initial step,
      so for two values or more it begins with the highlight of n/2; the
      highlights are exactly those of the passes for n/2, n/4, ..., 1; nothing
      reported sorted before the final step, which shows the sorted input with
      0..n-1 sorted. */
  ghost predicate ShellTrace(trace: seq<SortStep>, input: seq<int>)
  {
    && |trace| > 0 && Consistent(trace, |input|, Range(|input|))
    && (forall k :: 0 <= k < |trace| - 1 ==> trace[k].sorted == [])
    && (|input| <= 1 ==> |trace| == 1)
    && (|input| >= 2 ==> trace[0] == CreateStep(input, [|input| / 2], [], []))
    && Highlighted(trace) == GapHighlights(|input|, |input| / 2)
    && Last(trace).comparison == [] && Last(trace).swap == []
    && Last(trace).sorted == Range(|input|)
    && SortedPermutation(Last(trace).values, input)
  }

  /** generateShellSortSteps: no initial step; passes with gap n/2, n/4,
      ..., 1 (none when n < 2), then the final step marking 0..n-1. For two
      values or more the first step highlights n/2, and the positions
      highlighted on their own are n/2..n-1, then n/4..n-1, ..., then
      1..n-1: one highlight per position of every pass. */
  method GenerateShellSortSteps(input: seq<int>) returns (trace: seq<SortStep>)
    ensures ShellTrace(trace, input)
  {
    var a, passes := ShellPasses(input, [], |input| / 2);
    if |input| <= 1 {
      assert SortedBetween(a, 0, |a|);
    }
    ShellFinished(passes, a, |input| / 2);
    if |input| >= 2 {
      PrefixAt(passes, passes + [CreateStep(a, [], [], Range(|a|))], 0);
    }
    trace := passes + [CreateStep(a, [], [], Range(|a|))];
  }

  /** Closing the passes' steps with the final step. */
  lemma ShellFinished(t: seq<SortStep>, a: seq<int>, gap: nat)
    requires Shows([], t, |a|, GapHighlights(|a|, gap))
    ensures Consistent(t + [CreateStep(a, [], [], Range(|a|))], |a|, Range(|a|))
    ensures forall k :: 0 <= k < |t| ==>
      (t + [CreateStep(a, [], [], Range(|a|))])[k] == t[k] && t[k].sorted == []
    ensures Highlighted(t + [CreateStep(a, [], [], Range(|a|))]) == GapHighlights(|a|, gap)
  {
    FinishUnmarked(t, a);
    FinishKeepsOverwritten(t, a);
    assert [] + GapHighlights(|a|, gap) == GapHighlights(|a|, gap);
  }
}
