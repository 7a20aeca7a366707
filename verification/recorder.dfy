/** The step recorder (`createStep`) and the predicates that describe a
    recorded trace as a whole. */
module Recorder {
  import opened Types

  /** Snapshot of the working buffer and the highlight lists. Sequences are
      values, so the snapshot can never alias the buffer or the caller's
      list of sorted positions: a later write to either leaves it as it was. */
  function CreateStep(values: seq<int>, comparison: seq<int>, swap: seq<int>, sorted: seq<int>): (r: SortStep)
    ensures r.values == values && r.sorted == sorted
    ensures r.comparison == comparison && r.swap == swap
  {
    SortStep(values, comparison, swap, sorted)
  }

  /** The list [0, 1, ..., n-1] that every generator reports as sorted at the end. */
  function Range(n: nat): (r: seq<int>)
    ensures |r| == n
    ensures forall k :: 0 <= k < n ==> r[k] == k
  {
    seq(n, k => k)
  }

  function Last(t: seq<SortStep>): (r: SortStep)
    requires |t| > 0
  {
    t[|t| - 1]
  }

  /** The positions lo, lo+1, ..., hi-1 (none when hi <= lo). */
  function Span(lo: int, hi: int): (r: seq<int>)
    ensures |r| == if hi <= lo then 0 else hi - lo
    ensures forall k :: 0 <= k < |r| ==> r[k] == lo + k
    decreases hi - lo
  {
    if hi <= lo then [] else Span(lo, hi - 1) + [hi - 1]
  }

  lemma SpanSnoc(lo: int, hi: int)
    requires lo <= hi
    ensures Span(lo, hi + 1) == Span(lo, hi) + [hi]
  {
  }

  lemma ConcatAssoc<T>(x: seq<T>, y: seq<T>, z: seq<T>)
    ensures x + y + z == x + (y + z)
  {
  }

  /** Consecutive spans join into one. */
  lemma {:induction false} SpanJoin(lo: int, mid: int, hi: int)
    requires lo <= mid <= hi
    ensures Span(lo, mid) + Span(mid, hi) == Span(lo, hi)
    decreases hi - mid
  {
    if mid < hi {
      SpanJoin(lo, mid, hi - 1);
      ConcatAssoc(Span(lo, mid), Span(mid, hi - 1), [hi - 1]);
    }
  }

  /** The position a step overwrites on its own (a swap list of one
      position), as a list of at most one position. */
  function OverwriteOf(s: SortStep): (r: seq<int>)
  {
    if |s.swap| == 1 then s.swap else []
  }

  /** The position a step highlights on its own (one comparison position
      and no write), as a list of at most one position. */
  function HighlightOf(s: SortStep): (r: seq<int>)
  {
    if |s.comparison| == 1 && s.swap == [] then s.comparison else []
  }

  /** The positions highlighted on their own by the first n steps of t, in
      trace order. */
  function HighlightedUpTo(t: seq<SortStep>, n: nat): (r: seq<int>)
    requires n <= |t|
  {
    if n == 0 then [] else HighlightedUpTo(t, n - 1) + HighlightOf(t[n - 1])
  }

  /** The positions overwritten on their own by the first n steps of t, in
      trace order. */
  function OverwrittenUpTo(t: seq<SortStep>, n: nat): (r: seq<int>)
    requires n <= |t|
  {
    if n == 0 then [] else OverwrittenUpTo(t, n - 1) + OverwriteOf(t[n - 1])
  }

  function Highlighted(t: seq<SortStep>): (r: seq<int>)
  {
    HighlightedUpTo(t, |t|)
  }

  function Overwritten(t: seq<SortStep>): (r: seq<int>)
  {
    OverwrittenUpTo(t, |t|)
  }

  lemma {:induction false} UpToPrefix(t: seq<SortStep>, t': seq<SortStep>, n: nat)
    requires t <= t' && n <= |t|
    ensures HighlightedUpTo(t', n) == HighlightedUpTo(t, n)
    ensures OverwrittenUpTo(t', n) == OverwrittenUpTo(t, n)
  {
    if n > 0 {
      UpToPrefix(t, t', n - 1);
      assert t'[n - 1] == t[n - 1];
    }
  }

  lemma HighlightedAppend(t: seq<SortStep>, s: SortStep)
    ensures Highlighted(t + [s]) == Highlighted(t) + HighlightOf(s)
  {
    UpToPrefix(t, t + [s], |t|);
  }

  lemma OverwrittenAppend(t: seq<SortStep>, s: SortStep)
    ensures Overwritten(t + [s]) == Overwritten(t) + OverwriteOf(s)
  {
    UpToPrefix(t, t + [s], |t|);
  }

  /** t' is t followed by steps that each show n values, report nothing
      sorted and write at most one position (a comparison, a highlight or a
      single overwrite); the positions those steps overwrite are w, in order. */
  ghost predicate Writes(t: seq<SortStep>, t': seq<SortStep>, n: nat, w: seq<int>)
  {
    && t <= t'
    && (forall k :: |t| <= k < |t'| ==> |t'[k].values| == n && t'[k].sorted == [] && |t'[k].swap| <= 1)
    && Overwritten(t') == Overwritten(t) + w
  }

  /** One more such step. */
  lemma WritesStep(t: seq<SortStep>, s: SortStep, n: nat)
    requires |s.values| == n && s.sorted == [] && |s.swap| <= 1
    ensures Writes(t, t + [s], n, OverwriteOf(s))
  {
    OverwrittenAppend(t, s);
  }

  lemma WritesChain(t0: seq<SortStep>, t1: seq<SortStep>, t2: seq<SortStep>, n: nat, w1: seq<int>, w2: seq<int>)
    requires Writes(t0, t1, n, w1) && Writes(t1, t2, n, w2)
    ensures Writes(t0, t2, n, w1 + w2)
  {
    forall k | |t0| <= k < |t2|
      ensures |t2[k].values| == n && t2[k].sorted == [] && |t2[k].swap| <= 1
    {
      if k < |t1| {
        assert t2[k] == t1[k];
      }
    }
    ConcatAssoc(Overwritten(t0), w1, w2);
  }

  /** No steps at all write nothing. */
  lemma WritesNothing(t: seq<SortStep>, n: nat)
    ensures Writes(t, t, n, [])
  {
    assert Overwritten(t) + [] == Overwritten(t);
  }

  /** t' is t followed by steps that each show n values and report nothing
      sorted; the positions those steps highlight on their own are h, in
      order. */
  ghost predicate Shows(t: seq<SortStep>, t': seq<SortStep>, n: nat, h: seq<int>)
  {
    ExtendsWith(t, t', n, []) && Highlighted(t') == Highlighted(t) + h
  }

  /** One more such step. */
  lemma ShowsStep(t: seq<SortStep>, s: SortStep, n: nat)
    requires |s.values| == n && s.sorted == []
    ensures Shows(t, t + [s], n, HighlightOf(s))
  {
    HighlightedAppend(t, s);
  }

  /** Such steps that highlight nothing on their own after steps that
      highlight h. */
  lemma ShowsMore(t0: seq<SortStep>, t1: seq<SortStep>, t2: seq<SortStep>, n: nat, h: seq<int>)
    requires Shows(t0, t1, n, h) && Shows(t1, t2, n, [])
    ensures Shows(t0, t2, n, h)
  {
    ExtendsTrans(t0, t1, t2, n, []);
    assert Highlighted(t1) + [] == Highlighted(t1);
  }

  lemma ShowsChain(t0: seq<SortStep>, t1: seq<SortStep>, t2: seq<SortStep>, n: nat, h1: seq<int>, h2: seq<int>)
    requires Shows(t0, t1, n, h1) && Shows(t1, t2, n, h2)
    ensures Shows(t0, t2, n, h1 + h2)
  {
    ExtendsTrans(t0, t1, t2, n, []);
    ConcatAssoc(Highlighted(t0), h1, h2);
  }

  lemma ShowsNothing(t: seq<SortStep>, n: nat)
    ensures Shows(t, t, n, [])
  {
    assert Highlighted(t) + [] == Highlighted(t);
  }

  /** Such steps keep a trace with nothing sorted consistent. */
  lemma WritesConsistent(t: seq<SortStep>, t': seq<SortStep>, n: nat, w: seq<int>)
    requires Consistent(t, n, []) && Writes(t, t', n, w)
    ensures Consistent(t', n, [])
  {
    ExtendsConsistent(t, t', n, []);
  }

  /** Steps that write at most one position keep every swap strict. */
  lemma WritesStrict(t: seq<SortStep>, t': seq<SortStep>, n: nat, w: seq<int>)
    requires StrictSwaps(t) && Writes(t, t', n, w)
    ensures StrictSwaps(t')
  {
    forall k | 0 <= k < |t'|
      ensures StrictSwap(t'[k])
    {
      if k < |t| {
        assert t'[k] == t[k];
      }
    }
  }

  /** The positions a list of sorted indices marks, as a set. */
  function Marks(s: seq<int>): (r: set<int>)
  {
    set x | x in s
  }

  /** Every step shows an array of length n. */
  ghost predicate SameLength(t: seq<SortStep>, n: nat)
  {
    forall k :: 0 <= k < |t| ==> |t[k].values| == n
  }

  /** A position once reported sorted stays reported sorted in every later step. */
  ghost predicate MarksGrow(t: seq<SortStep>)
  {
    forall k :: 0 <= k < |t| - 1 ==> Marks(t[k].sorted) <= Marks(t[k + 1].sorted)
  }

  /** The shape every generator keeps while it runs: arrays of length n, marks
      that only grow, and the marks shown last are all in `marks`, the list
      the generator currently holds. */
  ghost predicate Consistent(t: seq<SortStep>, n: nat, marks: seq<int>)
  {
    && SameLength(t, n)
    && MarksGrow(t)
    && (|t| > 0 ==> Marks(Last(t).sorted) <= Marks(marks))
  }

  /** A step that writes two positions shows a strictly smaller value at the
      first of them than at the second: the write removed a strict inversion,
      so equal values are never exchanged. */
  ghost predicate StrictSwap(s: SortStep)
  {
    |s.swap| == 2 ==>
      && 0 <= s.swap[0] < |s.values|
      && 0 <= s.swap[1] < |s.values|
      && s.values[s.swap[0]] < s.values[s.swap[1]]
  }

  ghost predicate StrictSwaps(t: seq<SortStep>)
  {
    forall k :: 0 <= k < |t| ==> StrictSwap(t[k])
  }

  /** Appending a step whose array has length n and whose marks include the
      current ones keeps a trace consistent, now with the step's marks. */
  lemma Append(t: seq<SortStep>, s: SortStep, n: nat, marks: seq<int>)
    requires Consistent(t, n, marks)
    requires |s.values| == n && Marks(marks) <= Marks(s.sorted)
    ensures Consistent(t + [s], n, s.sorted)
    ensures StrictSwaps(t) && StrictSwap(s) ==> StrictSwaps(t + [s])
    ensures t <= t + [s]
  {
    var r := t + [s];
    assert forall k :: 0 <= k < |t| ==> r[k] == t[k];
  }

  /** Extending a trace leaves its recorded steps where they were. */
  lemma PrefixAt(t: seq<SortStep>, t': seq<SortStep>, k: nat)
    requires t <= t' && k < |t|
    ensures k < |t'| && t'[k] == t[k]
  {
  }

  /** t' is t followed by steps that all show an array of length n and the
      list of sorted positions `marks`: earlier steps are left untouched. */
  ghost predicate ExtendsWith(t: seq<SortStep>, t': seq<SortStep>, n: nat, marks: seq<int>)
  {
    t <= t' && forall k :: |t| <= k < |t'| ==> |t'[k].values| == n && t'[k].sorted == marks
  }

  lemma ExtendsTrans(t: seq<SortStep>, t': seq<SortStep>, t'': seq<SortStep>, n: nat, marks: seq<int>)
    requires ExtendsWith(t, t', n, marks) && ExtendsWith(t', t'', n, marks)
    ensures ExtendsWith(t, t'', n, marks)
  {
  }

  /** Steps recorded with the current marks keep a trace consistent. */
  lemma ExtendsConsistent(t: seq<SortStep>, t': seq<SortStep>, n: nat, marks: seq<int>)
    requires Consistent(t, n, marks) && ExtendsWith(t, t', n, marks)
    ensures Consistent(t', n, marks)
  {
    forall k | 0 <= k < |t'| - 1
      ensures Marks(t'[k].sorted) <= Marks(t'[k + 1].sorted)
    {
      if k + 1 < |t| {
        assert t'[k] == t[k] && t'[k + 1] == t[k + 1];
      } else if k + 1 == |t| {
        assert t'[k] == Last(t);
      }
    }
  }

  /** Every position below n is in Range(n). */
  lemma RangeMarks(n: nat, marks: seq<int>)
    requires forall x :: x in marks ==> 0 <= x < n
    ensures Marks(marks) <= Marks(Range(n))
  {
    forall x | x in Marks(marks)
      ensures x in Marks(Range(n))
    {
      assert Range(n)[x] == x;
    }
  }

  /** Range(n) lists every position below n. */
  lemma RangeCovers(n: nat)
    ensures forall k :: 0 <= k < n ==> k in Range(n)
  {
    forall k | 0 <= k < n
      ensures k in Range(n)
    {
      assert Range(n)[k] == k;
    }
  }

  lemma MarksEmpty(s: seq<int>)
    ensures Marks(s) == {} ==> s == []
  {
    if s != [] {
      assert s[0] in Marks(s);
    }
  }

  /** A consistent trace whose current marks are empty has shown no mark
      in any step: marks never disappear once shown. */
  lemma {:induction false} NothingMarked(t: seq<SortStep>, n: nat)
    requires Consistent(t, n, [])
    ensures forall k :: 0 <= k < |t| ==> t[k].sorted == []
    decreases |t|
  {
    if |t| > 0 {
      var s := Last(t).sorted;
      MarksEmpty(s);
      var init := t[..|t| - 1];
      if |init| > 0 {
        assert init[|init| - 1] == t[|t| - 2];
        assert Marks(Last(init).sorted) <= Marks(s);
      }
      NothingMarked(init, n);
      assert forall k :: 0 <= k < |init| ==> t[k] == init[k];
    }
  }

  /** Closing a trace in which nothing was reported sorted with the final
      step (the array as it is, no highlights, 0..n-1 sorted) keeps it
      consistent, and leaves every earlier step as it was, unmarked. */
  lemma FinishUnmarked(t: seq<SortStep>, a: seq<int>)
    requires ExtendsWith([], t, |a|, [])
    ensures Consistent(t + [CreateStep(a, [], [], Range(|a|))], |a|, Range(|a|))
    ensures forall k :: 0 <= k < |t| ==>
      (t + [CreateStep(a, [], [], Range(|a|))])[k] == t[k] && t[k].sorted == []
  {
    ExtendsConsistent([], t, |a|, []);
    NothingMarked(t, |a|);
    Append(t, CreateStep(a, [], [], Range(|a|)), |a|, []);
  }

  /** The final step overwrites and highlights nothing on its own. */
  lemma FinishKeepsOverwritten(t: seq<SortStep>, a: seq<int>)
    ensures Overwritten(t + [CreateStep(a, [], [], Range(|a|))]) == Overwritten(t)
    ensures Highlighted(t + [CreateStep(a, [], [], Range(|a|))]) == Highlighted(t)
  {
    OverwrittenAppend(t, CreateStep(a, [], [], Range(|a|)));
    HighlightedAppend(t, CreateStep(a, [], [], Range(|a|)));
    assert Overwritten(t) + [] == Overwritten(t);
    assert Highlighted(t) + [] == Highlighted(t);
  }

  /** The same close for a trace of such single-write steps, which keeps
      their writes as the trace's overwrites. */
  lemma FinishUnmarkedWrites(t: seq<SortStep>, a: seq<int>, w: seq<int>)
    requires Writes([], t, |a|, w)
    ensures Consistent(t + [CreateStep(a, [], [], Range(|a|))], |a|, Range(|a|))
    ensures forall k :: 0 <= k < |t| ==>
      (t + [CreateStep(a, [], [], Range(|a|))])[k] == t[k] && t[k].sorted == []
    ensures Overwritten(t + [CreateStep(a, [], [], Range(|a|))]) == w
  {
    FinishUnmarked(t, a);
    OverwrittenAppend(t, CreateStep(a, [], [], Range(|a|)));
  }
}
