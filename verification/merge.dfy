/** Top-down merge sort as traced by the visualizer; its merge is also the
    merge phase of Tim sort, which records the very same steps. No position
    is reported sorted until the final step. */
module Merge {
  import opened Types
  import opened Recorder
  import opened Order

  /** The step that highlights positions i and j of `values` for comparison. */
  function CompareStep(values: seq<int>, i: int, j: int): (r: SortStep)
  {
    CreateStep(values, [i, j], [], [])
  }

  /** Reference merge of two lists: the head of the left list goes first on
      ties, so equal values keep their left-before-right order. */
  function MergeSeqs(l: seq<int>, r: seq<int>): (m: seq<int>)
    ensures |m| == |l| + |r|
    decreases |l| + |r|
  {
    if l == [] then r
    else if r == [] then l
    else if l[0] <= r[0] then [l[0]] + MergeSeqs(l[1..], r)
    else [r[0]] + MergeSeqs(l, r[1..])
  }

  /** The merge holds exactly the values of both lists. */
  lemma {:induction false} MergePermutes(l: seq<int>, r: seq<int>)
    ensures multiset(MergeSeqs(l, r)) == multiset(l) + multiset(r)
    decreases |l| + |r|
  {
    if l != [] && r != [] {
      if l[0] <= r[0] {
        MergePermutes(l[1..], r);
        HeadTail(l);
      } else {
        MergePermutes(l, r[1..]);
        HeadTail(r);
      }
    }
  }


  lemma {:induction false} MergeSorted(l: seq<int>, r: seq<int>)
    requires Sorted(l) && Sorted(r)
    ensures Sorted(MergeSeqs(l, r))
    ensures |MergeSeqs(l, r)| > 0 ==>
      (|l| > 0 && MergeSeqs(l, r)[0] == l[0]) || (|r| > 0 && MergeSeqs(l, r)[0] == r[0])
    decreases |l| + |r|
  {
    if l != [] && r != [] {
      var m := MergeSeqs(l, r);
      if l[0] <= r[0] {
        MergeSorted(l[1..], r);
        var rest := MergeSeqs(l[1..], r);
        assert m == [l[0]] + rest;
        assert |rest| > 0 ==> l[0] <= rest[0];
      } else {
        MergeSorted(l, r[1..]);
        var rest := MergeSeqs(l, r[1..]);
        assert m == [r[0]] + rest;
        assert |rest| > 0 ==> r[0] <= rest[0];
      }
    }
  }

  /** Taking the left head: the merge continues with the left tail. */
  lemma TakeLeft(l: seq<int>, r: seq<int>, i: nat, j: nat, m: seq<int>)
    requires i < |l| && j < |r| && l[i] <= r[j]
    requires m == MergeSeqs(l[i..], r[j..])
    ensures |m| > 0 && m[0] == l[i] && m[1..] == MergeSeqs(l[i + 1..], r[j..])
  {
    assert l[i..][1..] == l[i + 1..];
  }

  /** Taking the right head: the merge continues with the right tail. */
  lemma TakeRight(l: seq<int>, r: seq<int>, i: nat, j: nat, m: seq<int>)
    requires i < |l| && j < |r| && l[i] > r[j]
    requires m == MergeSeqs(l[i..], r[j..])
    ensures |m| > 0 && m[0] == r[j] && m[1..] == MergeSeqs(l[i..], r[j + 1..])
  {
    assert r[j..][1..] == r[j + 1..];
  }

  /** One overwrite: position k takes v and an overwrite step records it. */
  method Overwrite(a: seq<int>, trace: seq<SortStep>, k: nat, v: int)
    returns (a': seq<int>, trace': seq<SortStep>)
    requires k < |a|
    ensures a' == a[k := v]
    ensures trace' == trace + [CreateStep(a', [], [k], [])]
    ensures Writes(trace, trace', |a|, [k])
  {
    a' := a[k := v];
    var written := CreateStep(a', [], [k], []);
    WritesStep(trace, written, |a|);
    trace' := trace + [written];
  }

  /** The first loop of merge: while both copies have values left, a
      comparison step for the two heads, then the smaller one (the left one
      on ties) is written at k. Stops as soon as one copy is used up, with
      a[start..k) holding the first k - start values of the merge, written
      in the order start, start+1, ..., k-1. With both copies non-empty the
      first step compares start with mid + 1. */
  method MergeHeads(a: seq<int>, trace: seq<SortStep>, start: nat, mid: nat, left: seq<int>, right: seq<int>)
    returns (a': seq<int>, trace': seq<SortStep>, i: nat, j: nat)
    requires start + |left| == mid + 1 && mid + 1 + |right| <= |a|
    ensures i <= |left| && j <= |right| && (i == |left| || j == |right|)
    ensures SameOutside(a, a', start, mid + 1 + |right|)
    ensures forall p :: start <= p < start + i + j ==> a'[p] == MergeSeqs(left, right)[p - start]
    ensures MergeSeqs(left, right)[i + j..] == MergeSeqs(left[i..], right[j..])
    ensures Writes(trace, trace', |a|, Span(start, start + i + j))
    ensures |left| > 0 && |right| > 0 ==>
              |trace'| > |trace| && trace'[|trace|] == CompareStep(a, start, mid + 1)
  {
    a', trace' := a, trace;
    i, j := 0, 0;
    while i < |left| && j < |right|
      invariant HeadsValues(a, a', start, mid, left, right, i, j)
      invariant HeadsSteps(a, trace, a', trace', start, mid, i + j)
    {
      a', trace', i, j := HeadsNext(a, trace, a', trace', start, mid, left, right, i, j);
    }
  }

  /** One iteration of merge's first loop, from the loop's point of view. */
  method HeadsNext(a: seq<int>, trace: seq<SortStep>, a0: seq<int>, t0: seq<SortStep>,
                   start: nat, mid: nat, left: seq<int>, right: seq<int>, i: nat, j: nat)
    returns (a1: seq<int>, t1: seq<SortStep>, i': nat, j': nat)
    requires i < |left| && j < |right|
    requires HeadsValues(a, a0, start, mid, left, right, i, j)
    requires HeadsSteps(a, trace, a0, t0, start, mid, i + j)
    ensures i' + j' == i + j + 1 && i <= i' <= |left| && j <= j' <= |right|
    ensures HeadsValues(a, a1, start, mid, left, right, i', j')
    ensures HeadsSteps(a, trace, a1, t1, start, mid, i' + j')
  {
    a1, t1, i', j' := MergeOne(a0, t0, start, mid, left, right, i, j);
    HeadsValuesStep(a, a0, a1, start, mid, left, right, i, j, i', j');
    HeadsStepsStep(a, trace, a0, t0, a1, t1, start, mid, i, j);
  }

  /** The values of merge's first loop after i left and j right heads have
      been taken: the first i + j values of the merge sit at start, ..., and
      what is left of the merge is the merge of what is left of the copies. */
  ghost predicate HeadsValues(a: seq<int>, a': seq<int>, start: nat, mid: nat, left: seq<int>, right: seq<int>, i: nat, j: nat)
  {
    && start + |left| == mid + 1 && mid + 1 + |right| <= |a|
    && i <= |left| && j <= |right|
    && SameOutside(a, a', start, mid + 1 + |right|)
    && (forall p :: start <= p < start + i + j ==> a'[p] == MergeSeqs(left, right)[p - start])
    && MergeSeqs(left, right)[i + j..] == MergeSeqs(left[i..], right[j..])
  }

  /** The steps of merge's first loop after c values have been written: one
      overwrite step for each of start, ..., start + c - 1 in that order, and
      the first step compares start with mid + 1. */
  ghost predicate HeadsSteps(a: seq<int>, trace: seq<SortStep>, a': seq<int>, trace': seq<SortStep>, start: nat, mid: nat, c: nat)
  {
    && Writes(trace, trace', |a|, Span(start, start + c))
    && (c == 0 ==> a' == a && trace' == trace)
    && (c > 0 ==> |trace'| > |trace| && trace'[|trace|] == CompareStep(a, start, mid + 1))
  }

  lemma DropFirst(s: seq<int>, k: nat)
    requires k < |s|
    ensures s[k..][0] == s[k] && s[k..][1..] == s[k + 1..]
  {
  }

  /** One MergeOne call keeps the values of merge's first loop. */
  lemma HeadsValuesStep(a: seq<int>, a0: seq<int>, a1: seq<int>, start: nat, mid: nat, left: seq<int>, right: seq<int>,
                        i: nat, j: nat, i': nat, j': nat)
    requires HeadsValues(a, a0, start, mid, left, right, i, j)
    requires i < |left| && j < |right|
    requires i' + j' == i + j + 1 && i <= i' <= |left| && j <= j' <= |right|
    requires |MergeSeqs(left[i..], right[j..])| > 0
    requires a1 == a0[start + i + j := MergeSeqs(left[i..], right[j..])[0]]
    requires MergeSeqs(left[i'..], right[j'..]) == MergeSeqs(left[i..], right[j..])[1..]
    ensures HeadsValues(a, a1, start, mid, left, right, i', j')
  {
    DropFirst(MergeSeqs(left, right), i + j);
  }

  /** One MergeOne call keeps the steps of merge's first loop. */
  lemma HeadsStepsStep(a: seq<int>, trace: seq<SortStep>, a0: seq<int>, t0: seq<SortStep>, a1: seq<int>, t1: seq<SortStep>,
                       start: nat, mid: nat, i: nat, j: nat)
    requires HeadsSteps(a, trace, a0, t0, start, mid, i + j)
    requires t1 == t0 + [CompareStep(a0, start + i, mid + 1 + j), CreateStep(a1, [], [start + i + j], [])]
    requires Writes(t0, t1, |a|, [start + i + j])
    ensures HeadsSteps(a, trace, a1, t1, start, mid, i + j + 1)
  {
    WritesChain(trace, t0, t1, |a|, Span(start, start + i + j), [start + i + j]);
    SpanSnoc(start, start + i + j);
    if i + j > 0 {
      PrefixAt(t0, t1, |trace|);
    }
  }

  /** One iteration of the first merge loop at heads i, j: a comparison step,
      then the next value of the merge written at start + i + j, taken from
      the left copy when left[i] <= right[j]. */
  method MergeOne(a: seq<int>, trace: seq<SortStep>, start: nat, mid: nat, left: seq<int>, right: seq<int>, i: nat, j: nat)
    returns (a': seq<int>, trace': seq<SortStep>, i': nat, j': nat)
    requires start + |left| == mid + 1 && mid + 1 + |right| <= |a|
    requires i < |left| && j < |right|
    ensures i' + j' == i + j + 1 && i <= i' <= |left| && j <= j' <= |right|
    ensures |MergeSeqs(left[i..], right[j..])| > 0
    ensures a' == a[start + i + j := MergeSeqs(left[i..], right[j..])[0]]
    ensures MergeSeqs(left[i'..], right[j'..]) == MergeSeqs(left[i..], right[j..])[1..]
    ensures trace' == trace + [CompareStep(a, start + i, mid + 1 + j),
                               CreateStep(a', [], [start + i + j], [])]
    ensures Writes(trace, trace', |a|, [start + i + j])
  {
    var compare := CompareStep(a, start + i, mid + 1 + j);
    WritesStep(trace, compare, |a|);
    trace' := trace + [compare];
    ghost var rest := MergeSeqs(left[i..], right[j..]);
    var v;
    if left[i] <= right[j] {
      TakeLeft(left, right, i, j, rest);
      v, i', j' := left[i], i + 1, j;
    } else {
      TakeRight(left, right, i, j, rest);
      v, i', j' := right[j], i, j + 1;
    }
    a', trace' := Overwrite(a, trace', start + i + j, v);
    WritesChain(trace, trace + [compare], trace', |a|, [], [start + i + j]);
  }

  /** The two closing loops of merge: the rest of one copy, src[from..],
      written to positions k, k+1, ..., e-1 with one overwrite step each, in
      that order. */
  method CopyRest(a: seq<int>, trace: seq<SortStep>, src: seq<int>, from: nat, k: nat, e: nat)
    returns (a': seq<int>, trace': seq<SortStep>)
    requires from <= |src| && e == k + |src| - from && e <= |a|
    ensures SameOutside(a, a', k, e)
    ensures forall p :: k <= p < e ==> a'[p] == src[from + p - k]
    ensures Writes(trace, trace', |a|, Span(k, e))
  {
    a', trace' := a, trace;
    var i, w := from, k;
    while i < |src|
      invariant from <= i <= |src| && w == k + i - from
      invariant SameOutside(a, a', k, e)
      invariant forall p :: k <= p < w ==> a'[p] == src[from + p - k]
      invariant Writes(trace, trace', |a|, Span(k, w))
    {
      var before := trace';
      a', trace' := Overwrite(a', trace', w, src[i]);
      WritesChain(trace, before, trace', |a|, Span(k, w), [w]);
      SpanSnoc(k, w);
      i := i + 1;
      w := w + 1;
    }
  }

  /** merge(start, mid, end): a[start..mid] and a[mid+1..end] are copied out
      and written back in merged order, one comparison step per pair of heads
      looked at and one overwrite step per position written. The segment ends
      up as the reference merge of the two halves; nothing else changes. The
      first step compares start with mid + 1, and the positions overwritten
      are start, start+1, ..., end, each once and in that order. */
  method MergeSegments(a: seq<int>, trace: seq<SortStep>, start: nat, mid: nat, end: nat)
    returns (a': seq<int>, trace': seq<SortStep>)
    requires start <= mid < end < |a|
    ensures SameOutside(a, a', start, end + 1)
    ensures a'[start..end + 1] == MergeSeqs(a[start..mid + 1], a[mid + 1..end + 1])
    ensures Writes(trace, trace', |a|, Span(start, end + 1))
    ensures |trace'| > |trace| && trace'[|trace|] == CompareStep(a, start, mid + 1)
  {
    var left := a[start..mid + 1];
    var right := a[mid + 1..end + 1];
    var i, j;
    a', trace', i, j := MergeHeads(a, trace, start, mid, left, right);
    MergeWithEmpty(left[i..], right[j..]);
    a', trace' := MergeTails(a, trace, a', trace', start, mid, end, MergeSeqs(left, right), left, right, i, j);
  }

  /** A merge in which one list is empty is the other list. */
  lemma MergeWithEmpty(l: seq<int>, r: seq<int>)
    requires l == [] || r == []
    ensures MergeSeqs(l, r) == l + r
  {
    if l == [] {
      assert l + r == r;
    } else {
      assert l + r == l;
    }
  }

  /** The two closing loops of merge, once MergeHeads has stopped at heads
      i and j with `merged` written up to start + i + j: the rest of the left
      copy goes next, then the rest of the right copy. The segment then holds
      `merged` and the overwrite steps since the start of merge cover
      start..end. */
  method MergeTails(a: seq<int>, trace: seq<SortStep>, a0: seq<int>, t0: seq<SortStep>,
                    start: nat, mid: nat, end: nat, merged: seq<int>, left: seq<int>, right: seq<int>, i: nat, j: nat)
    returns (a': seq<int>, trace': seq<SortStep>)
    requires start + |left| == mid + 1 && mid + 1 + |right| == end + 1 && end < |a|
    requires i <= |left| && j <= |right| && |merged| == |left| + |right|
    requires SameOutside(a, a0, start, end + 1)
    requires forall p :: start <= p < start + i + j ==> a0[p] == merged[p - start]
    requires merged[i + j..] == left[i..] + right[j..]
    requires Writes(trace, t0, |a|, Span(start, start + i + j))
    requires |t0| > |trace| && t0[|trace|] == CompareStep(a, start, mid + 1)
    ensures SameOutside(a, a', start, end + 1)
    ensures a'[start..end + 1] == merged
    ensures Writes(trace, trace', |a|, Span(start, end + 1))
    ensures |trace'| > |trace| && trace'[|trace|] == CompareStep(a, start, mid + 1)
  {
    var k := start + i + j;
    var m := k + |left| - i;
    var a1, t1 := CopyOn(a, trace, a0, t0, start, mid, end, merged, left, i, k, m, right[j..]);
    assert right[j..] + [] == right[j..];
    a', trace' := CopyOn(a, trace, a1, t1, start, mid, end, merged, right, j, m, end + 1, []);
    MergedPrefix(a', start, end, merged);
  }

  /** One copy loop of merge: with `merged` written up to k and the rest of
      src, followed by `rest`, still to come, copying src[from..] to k, ...,
      e - 1 extends the written prefix and the overwrite steps up to e. */
  method CopyOn(a: seq<int>, trace: seq<SortStep>, b: seq<int>, t: seq<SortStep>, start: nat, mid: nat, end: nat,
                merged: seq<int>, src: seq<int>, from: nat, k: nat, e: nat, rest: seq<int>)
    returns (b': seq<int>, t': seq<SortStep>)
    requires start <= k && from <= |src| && e == k + |src| - from && e <= end + 1 <= |a| && |merged| == end + 1 - start
    requires SameOutside(a, b, start, end + 1)
    requires forall p :: start <= p < k ==> b[p] == merged[p - start]
    requires merged[k - start..] == src[from..] + rest
    requires Writes(trace, t, |a|, Span(start, k))
    requires |t| > |trace| && t[|trace|] == CompareStep(a, start, mid + 1)
    ensures SameOutside(a, b', start, end + 1)
    ensures forall p :: start <= p < e ==> b'[p] == merged[p - start]
    ensures merged[e - start..] == rest
    ensures Writes(trace, t', |a|, Span(start, e))
    ensures |t'| > |trace| && t'[|trace|] == CompareStep(a, start, mid + 1)
  {
    b', t' := CopyRest(b, t, src, from, k, e);
    CopiedRun(a, b, b', start, end, merged, src, from, k, e, rest);
    WritesOn(trace, t, t', |a|, start, k, e, CompareStep(a, start, mid + 1));
  }

  /** The values side of CopyOn. */
  lemma CopiedRun(a: seq<int>, b: seq<int>, b': seq<int>, start: nat, end: nat, merged: seq<int>,
                  src: seq<int>, from: nat, k: nat, e: nat, rest: seq<int>)
    requires start <= k && from <= |src| && e == k + |src| - from && e <= end + 1 <= |a| && |merged| == end + 1 - start
    requires SameOutside(a, b, start, end + 1)
    requires forall p :: start <= p < k ==> b[p] == merged[p - start]
    requires merged[k - start..] == src[from..] + rest
    requires SameOutside(b, b', k, e)
    requires forall p :: k <= p < e ==> b'[p] == src[from + p - k]
    ensures SameOutside(a, b', start, end + 1)
    ensures forall p :: start <= p < e ==> b'[p] == merged[p - start]
    ensures merged[e - start..] == rest
  {
    forall p | k <= p < e
      ensures b'[p] == merged[p - start]
    {
      assert merged[p - start] == merged[k - start..][p - k];
    }
    assert merged[e - start..] == merged[k - start..][|src| - from..];
  }

  /** The whole segment written: it holds `merged`. */
  lemma MergedPrefix(a: seq<int>, start: nat, end: nat, merged: seq<int>)
    requires end < |a| && |merged| == end + 1 - start
    requires forall p :: start <= p < end + 1 ==> a[p] == merged[p - start]
    ensures a[start..end + 1] == merged
  {
  }

  /** Writes start..k-1 and then k..m-1 are the writes start..m-1, and the
      first step stays first. */
  lemma WritesOn(t0: seq<SortStep>, t1: seq<SortStep>, t2: seq<SortStep>, n: nat, start: int, k: int, m: int, first: SortStep)
    requires start <= k <= m
    requires Writes(t0, t1, n, Span(start, k)) && Writes(t1, t2, n, Span(k, m))
    requires |t1| > |t0| && t1[|t0|] == first
    ensures Writes(t0, t2, n, Span(start, m))
    ensures |t2| > |t0| && t2[|t0|] == first
  {
    WritesChain(t0, t1, t2, n, Span(start, k), Span(k, m));
    SpanJoin(start, k, m);
    PrefixAt(t1, t2, |t0|);
  }

  /** What a merge of two sorted halves leaves behind: the whole array is a
      permutation of what it was, and [start, end] is sorted. */
  lemma MergedSegment(a: seq<int>, b: seq<int>, start: nat, mid: nat, end: nat)
    requires start <= mid < end < |a|
    requires SameOutside(a, b, start, end + 1)
    requires b[start..end + 1] == MergeSeqs(a[start..mid + 1], a[mid + 1..end + 1])
    ensures multiset(b) == multiset(a)
    ensures SortedBetween(a, start, mid + 1) && SortedBetween(a, mid + 1, end + 1) ==>
              SortedBetween(b, start, end + 1)
  {
    MergedPermutes(a, b, start, mid, end);
    if SortedBetween(a, start, mid + 1) && SortedBetween(a, mid + 1, end + 1) {
      MergedSorted(a, b, start, mid, end);
    }
  }

  lemma SliceSplit(a: seq<int>, lo: int, mid: int, hi: int)
    requires 0 <= lo <= mid <= hi <= |a|
    ensures a[lo..hi] == a[lo..mid] + a[mid..hi]
  {
  }

  lemma MergedPermutes(a: seq<int>, b: seq<int>, start: nat, mid: nat, end: nat)
    requires start <= mid < end < |a|
    requires SameOutside(a, b, start, end + 1)
    requires b[start..end + 1] == MergeSeqs(a[start..mid + 1], a[mid + 1..end + 1])
    ensures multiset(b) == multiset(a)
  {
    MergedSegmentPermutes(a, b[start..end + 1], start, mid, end);
    PermutationFromSegment(a, b, start, end + 1);
  }

  /** The merge of the two halves of a[start..end] holds the values of
      a[start..end]. */
  lemma MergedSegmentPermutes(a: seq<int>, m: seq<int>, start: nat, mid: nat, end: nat)
    requires start <= mid < end < |a|
    requires m == MergeSeqs(a[start..mid + 1], a[mid + 1..end + 1])
    ensures multiset(m) == multiset(a[start..end + 1])
  {
    SliceSplit(a, start, mid + 1, end + 1);
    MergeOfSplit(a[start..mid + 1], a[mid + 1..end + 1], a[start..end + 1]);
  }

  /** The merge of the two parts of a list holds the values of the list. */
  lemma MergeOfSplit(l: seq<int>, r: seq<int>, whole: seq<int>)
    requires whole == l + r
    ensures multiset(MergeSeqs(l, r)) == multiset(whole)
  {
    MergePermutes(l, r);
  }

  lemma MergedSorted(a: seq<int>, b: seq<int>, start: nat, mid: nat, end: nat)
    requires start <= mid < end < |a| == |b|
    requires SortedBetween(a, start, mid + 1) && SortedBetween(a, mid + 1, end + 1)
    requires b[start..end + 1] == MergeSeqs(a[start..mid + 1], a[mid + 1..end + 1])
    ensures SortedBetween(b, start, end + 1)
  {
    SortedSlice(a, start, mid + 1);
    SortedSlice(a, mid + 1, end + 1);
    MergeSorted(a[start..mid + 1], a[mid + 1..end + 1]);
    SortedSlice(b, start, end + 1);
  }

  /** The positions mergeSort(start, end) overwrites, in the order it
      overwrites them: those of the two halves, then the whole range once
      for their merge. */
  function SortWrites(start: int, end: int): (r: seq<int>)
    ensures forall x :: x in r ==> start <= x <= end
    decreases end - start
  {
    if start >= end then []
    else
      var mid := (start + end) / 2;
      SortWrites(start, mid) + SortWrites(mid + 1, end) + Span(start, end + 1)
  }

  /** mergeSort(start, end): sorts a[start..end] and touches nothing else;
      called with end = start - 1 on an empty array. A range of fewer than
      two positions records nothing; otherwise the first step compares
      start with start + 1, the first pair the recursion reaches. */
  method MergeSortRange(a: seq<int>, trace: seq<SortStep>, start: nat, end: int)
    returns (a': seq<int>, trace': seq<SortStep>)
    requires start <= end + 1 <= |a|
    ensures multiset(a') == multiset(a)
    ensures SameOutside(a, a', start, end + 1)
    ensures SortedBetween(a', start, end + 1)
    ensures Writes(trace, trace', |a|, SortWrites(start, end))
    ensures end <= start ==> a' == a && trace' == trace
    ensures start < end ==> |trace'| > |trace| && trace'[|trace|] == CompareStep(a, start, start + 1)
    decreases end - start, 2
  {
    if start >= end {
      return a, trace;
    }
    a', trace' := SortHalves(a, trace, start, end);
  }

  /** mergeSort(start, end) on a range of two positions or more: both halves
      are sorted by recursive calls, then merged. */
  method SortHalves(a: seq<int>, trace: seq<SortStep>, start: nat, end: nat)
    returns (a': seq<int>, trace': seq<SortStep>)
    requires start < end < |a|
    ensures multiset(a') == multiset(a) && SameOutside(a, a', start, end + 1) && SortedBetween(a', start, end + 1)
    ensures Writes(trace, trace', |a|, SortWrites(start, end))
    ensures |trace'| > |trace| && trace'[|trace|] == CompareStep(a, start, start + 1)
    decreases end - start, 1
  {
    var mid := (start + end) / 2;
    var a2, t2 := SortBoth(a, trace, start, mid, end);
    a', trace' := MergeSegments(a2, t2, start, mid, end);
    HalvesMerged(a, a2, a', start, mid, end);
    MergedWrites(trace, t2, trace', |a|, start, mid, end);
    if start < mid {
      PrefixAt(t2, trace', |trace|);
    }
  }

  /** The two recursive calls of mergeSort(start, end). */
  method SortBoth(a: seq<int>, trace: seq<SortStep>, start: nat, mid: nat, end: nat)
    returns (a': seq<int>, trace': seq<SortStep>)
    requires start <= mid < end < |a| && mid == (start + end) / 2
    ensures multiset(a') == multiset(a) && SameOutside(a, a', start, end + 1)
    ensures SortedBetween(a', start, mid + 1) && SortedBetween(a', mid + 1, end + 1)
    ensures Writes(trace, trace', |a|, SortWrites(start, mid) + SortWrites(mid + 1, end))
    ensures start == mid ==> a' == a && trace' == trace
    ensures start < mid ==> |trace'| > |trace| && trace'[|trace|] == CompareStep(a, start, start + 1)
    decreases end - start, 0
  {
    var a1, t1 := MergeSortRange(a, trace, start, mid);
    a', trace' := MergeSortRange(a1, t1, mid + 1, end);
    HalvesSorted(a, a1, a', start, mid, end);
    WritesChain(trace, t1, trace', |a|, SortWrites(start, mid), SortWrites(mid + 1, end));
    if start < mid {
      PrefixAt(t1, trace', |trace|);
    }
  }

  /** The values side of mergeSort's two recursive calls: each sorts its
      half and keeps the values. */
  lemma HalvesSorted(a: seq<int>, a1: seq<int>, a2: seq<int>, start: nat, mid: nat, end: nat)
    requires start <= mid < end < |a|
    requires multiset(a1) == multiset(a) && SameOutside(a, a1, start, mid + 1) && SortedBetween(a1, start, mid + 1)
    requires multiset(a2) == multiset(a1) && SameOutside(a1, a2, mid + 1, end + 1) && SortedBetween(a2, mid + 1, end + 1)
    ensures multiset(a2) == multiset(a) && SameOutside(a, a2, start, end + 1)
    ensures SortedBetween(a2, start, mid + 1) && SortedBetween(a2, mid + 1, end + 1)
  {
    assert SortedBetween(a2, start, mid + 1) by {
      forall p, q | start <= p < q < mid + 1
        ensures a2[p] <= a2[q]
      {
        assert a2[p] == a1[p] && a2[q] == a1[q];
      }
    }
  }

  /** The values side of mergeSort's merge: merging two sorted halves sorts
      the range and keeps the values. */
  lemma HalvesMerged(a: seq<int>, a2: seq<int>, a3: seq<int>, start: nat, mid: nat, end: nat)
    requires start <= mid < end < |a|
    requires multiset(a2) == multiset(a) && SameOutside(a, a2, start, end + 1)
    requires SortedBetween(a2, start, mid + 1) && SortedBetween(a2, mid + 1, end + 1)
    requires SameOutside(a2, a3, start, end + 1)
    requires a3[start..end + 1] == MergeSeqs(a2[start..mid + 1], a2[mid + 1..end + 1])
    ensures multiset(a3) == multiset(a) && SameOutside(a, a3, start, end + 1) && SortedBetween(a3, start, end + 1)
  {
    MergedSegment(a2, a3, start, mid, end);
  }

  /** The overwrites of the two recursive calls, then those of the merge,
      make up SortWrites. */
  lemma MergedWrites(t0: seq<SortStep>, t1: seq<SortStep>, t2: seq<SortStep>, n: nat, start: int, mid: int, end: int)
    requires start < end && mid == (start + end) / 2
    requires Writes(t0, t1, n, SortWrites(start, mid) + SortWrites(mid + 1, end))
    requires Writes(t1, t2, n, Span(start, end + 1))
    ensures Writes(t0, t2, n, SortWrites(start, end))
  {
    WritesChain(t0, t1, t2, n, SortWrites(start, mid) + SortWrites(mid + 1, end), Span(start, end + 1));
  }

  /** The trace generateMergeSortSteps records for `input`: no initial step,
      so for two values or more it begins with the comparison of 0 with 1; the
      overwrite steps write exactly SortWrites(0, n - 1) in order; nothing
      reported sorted before the final step, which shows the sorted input with
      0..n-1 sorted. */
  ghost predicate MergeTrace(trace: seq<SortStep>, input: seq<int>)
  {
    && |trace| > 0 && Consistent(trace, |input|, Range(|input|))
    && (forall k :: 0 <= k < |trace| - 1 ==> trace[k].sorted == [])
    && (|input| <= 1 ==> |trace| == 1)
    && (|input| >= 2 ==> trace[0] == CompareStep(input, 0, 1))
    && Overwritten(trace) == SortWrites(0, |input| - 1)
    && Last(trace).comparison == [] && Last(trace).swap == []
    && Last(trace).sorted == Range(|input|)
    && SortedPermutation(Last(trace).values, input)
  }

  /** generateMergeSortSteps: no initial step; the recursive sort, then the
      final step marking 0..n-1. With two values or more the first step
      compares positions 0 and 1, and the positions overwritten are those of
      SortWrites(0, n - 1). */
  method GenerateMergeSortSteps(input: seq<int>) returns (trace: seq<SortStep>)
    ensures MergeTrace(trace, input)
  {
    var a, sorted := MergeSortRange(input, [], 0, |input| - 1);
    trace := sorted + [CreateStep(a, [], [], Range(|input|))];
    FinishUnmarkedWrites(sorted, a, SortWrites(0, |input| - 1));
    if |input| >= 2 {
      PrefixAt(sorted, trace, 0);
    }
  }
}
