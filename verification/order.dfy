/** Order facts shared by all ten algorithms: sortedness, permutations of
    the working buffer, and a reference sort that pins down the one array
    every generator must end with. */
module Order {

  /** a[lo..hi) is in non-decreasing order. */
  ghost predicate SortedBetween(a: seq<int>, lo: int, hi: int)
  {
    forall i, j :: 0 <= lo <= i < j < hi <= |a| ==> a[i] <= a[j]
  }

  ghost predicate Sorted(a: seq<int>)
  {
    SortedBetween(a, 0, |a|)
  }

  /** r is the input sorted: in order and holding exactly the input's values. */
  ghost predicate SortedPermutation(r: seq<int>, input: seq<int>)
  {
    Sorted(r) && multiset(r) == multiset(input)
  }

  /** a and b agree everywhere except possibly on [lo, hi). */
  ghost predicate SameOutside(a: seq<int>, b: seq<int>, lo: int, hi: int)
  {
    |a| == |b| && forall k :: 0 <= k < |a| && !(lo <= k < hi) ==> a[k] == b[k]
  }

  ghost predicate NonNegative(s: seq<int>)
  {
    forall k :: 0 <= k < |s| ==> s[k] >= 0
  }

  /** `Math.max` over a non-empty list. */
  function MaxOf(s: seq<int>): (m: int)
    requires |s| > 0
    ensures m in s
    ensures forall k :: 0 <= k < |s| ==> s[k] <= m
  {
    if |s| == 1 then s[0]
    else
      var rest := MaxOf(s[1..]);
      if s[0] >= rest then s[0] else rest
  }

  function Min(x: int, y: int): (r: int)
  {
    if x <= y then x else y
  }

  /** Exchange of two positions of the buffer. */
  function Swap(a: seq<int>, i: int, j: int): (r: seq<int>)
    requires 0 <= i < |a| && 0 <= j < |a|
    ensures |r| == |a| && r[i] == a[j] && r[j] == a[i]
    ensures forall k :: 0 <= k < |a| && k != i && k != j ==> r[k] == a[k]
    ensures multiset(r) == multiset(a)
  {
    a[i := a[j]][j := a[i]]
  }

  /** A permutation that leaves everything outside [lo, hi) alone permutes
      [lo, hi) among itself. */
  lemma SegmentPermutation(a: seq<int>, b: seq<int>, lo: int, hi: int)
    requires 0 <= lo <= hi <= |a|
    requires SameOutside(a, b, lo, hi) && multiset(a) == multiset(b)
    ensures multiset(a[lo..hi]) == multiset(b[lo..hi])
  {
    assert a == a[..lo] + a[lo..hi] + a[hi..];
    assert b == b[..lo] + b[lo..hi] + b[hi..];
    assert a[..lo] == b[..lo];
    assert a[hi..] == b[hi..];
    var outside := multiset(a[..lo]) + multiset(a[hi..]);
    assert multiset(a) == multiset(a[lo..hi]) + outside;
    assert multiset(b) == multiset(b[lo..hi]) + outside;
    assert multiset(a[lo..hi]) == multiset(a) - outside;
  }

  /** Conversely, permuting [lo, hi) and nothing else permutes the whole. */
  lemma PermutationFromSegment(a: seq<int>, b: seq<int>, lo: int, hi: int)
    requires 0 <= lo <= hi <= |a|
    requires SameOutside(a, b, lo, hi) && multiset(a[lo..hi]) == multiset(b[lo..hi])
    ensures multiset(a) == multiset(b)
  {
    assert a == a[..lo] + a[lo..hi] + a[hi..];
    assert b == b[..lo] + b[lo..hi] + b[hi..];
    assert a[..lo] == b[..lo];
    assert a[hi..] == b[hi..];
  }

  /** Sortedness of a range and of the slice holding it are the same. */
  lemma SortedSlice(a: seq<int>, lo: int, hi: int)
    requires 0 <= lo <= hi <= |a|
    ensures SortedBetween(a, lo, hi) <==> Sorted(a[lo..hi])
  {
    if Sorted(a[lo..hi]) {
      forall i, j | lo <= i < j < hi
        ensures a[i] <= a[j]
      {
        assert a[lo..hi][i - lo] == a[i] && a[lo..hi][j - lo] == a[j];
      }
    }
  }

  /** Every value of b[lo..hi) already occurred in a[lo..hi). */
  lemma SegmentValues(a: seq<int>, b: seq<int>, lo: int, hi: int)
    requires 0 <= lo <= hi <= |a|
    requires SameOutside(a, b, lo, hi) && multiset(a) == multiset(b)
    ensures forall k :: lo <= k < hi ==> exists m :: lo <= m < hi && a[m] == b[k]
  {
    SegmentPermutation(a, b, lo, hi);
    forall k | lo <= k < hi
      ensures exists m :: lo <= m < hi && a[m] == b[k]
    {
      assert b[lo..hi][k - lo] == b[k];
      assert b[k] in multiset(a[lo..hi]);
      var m' :| 0 <= m' < hi - lo && a[lo..hi][m'] == b[k];
      assert a[lo + m'] == b[k];
    }
  }

  /** An upper bound on a segment survives a permutation of that segment. */
  lemma SegmentAtMost(a: seq<int>, b: seq<int>, lo: int, hi: int, bound: int)
    requires 0 <= lo <= hi <= |a|
    requires SameOutside(a, b, lo, hi) && multiset(a) == multiset(b)
    requires forall k :: lo <= k < hi ==> a[k] <= bound
    ensures forall k :: lo <= k < hi ==> b[k] <= bound
  {
    SegmentValues(a, b, lo, hi);
  }

  /** A strict upper bound on a segment survives a permutation of that segment. */
  lemma SegmentBelow(a: seq<int>, b: seq<int>, lo: int, hi: int, bound: int)
    requires 0 <= lo <= hi <= |a|
    requires SameOutside(a, b, lo, hi) && multiset(a) == multiset(b)
    requires forall k :: lo <= k < hi ==> a[k] < bound
    ensures forall k :: lo <= k < hi ==> b[k] < bound
  {
    SegmentValues(a, b, lo, hi);
  }

  /** A lower bound on a segment survives a permutation of that segment. */
  lemma SegmentAtLeast(a: seq<int>, b: seq<int>, lo: int, hi: int, bound: int)
    requires 0 <= lo <= hi <= |a|
    requires SameOutside(a, b, lo, hi) && multiset(a) == multiset(b)
    requires forall k :: lo <= k < hi ==> bound <= a[k]
    ensures forall k :: lo <= k < hi ==> bound <= b[k]
  {
    SegmentValues(a, b, lo, hi);
  }

  // ---------------------------------------------------------------------
  // Reference sort

  /** A value at most the head of a sorted list extends it sorted. */
  lemma ConsSorted(x: int, t: seq<int>)
    requires Sorted(t) && (|t| > 0 ==> x <= t[0])
    ensures Sorted([x] + t)
  {
    var r := [x] + t;
    forall i, j | 0 <= i < j < |r|
      ensures r[i] <= r[j]
    {
      if i == 0 {
        assert r[j] == t[j - 1] && t[0] <= t[j - 1];
      } else {
        assert r[i] == t[i - 1] && r[j] == t[j - 1];
      }
    }
  }

  /** Insertion of x into a sorted list, before the first larger-or-equal value. */
  function Insert(x: int, s: seq<int>): (r: seq<int>)
    ensures multiset(r) == multiset(s) + multiset{x}
    ensures Sorted(s) ==> Sorted(r)
    ensures |r| > 0 && (r[0] == x || (|s| > 0 && r[0] == s[0]))
  {
    if s == [] || x <= s[0] then
      ConsSortedWhen(x, s);
      [x] + s
    else
      assert s == [s[0]] + s[1..];
      var rest := Insert(x, s[1..]);
      InsertStep(x, s, rest);
      [s[0]] + rest
  }

  lemma ConsSortedWhen(x: int, s: seq<int>)
    requires s == [] || x <= s[0]
    ensures Sorted(s) ==> Sorted([x] + s)
  {
    if Sorted(s) {
      ConsSorted(x, s);
    }
  }

  /** The step case of Insert: s[0] < x goes in front of the insertion into
      the tail. */
  lemma InsertStep(x: int, s: seq<int>, rest: seq<int>)
    requires |s| > 0 && s[0] < x
    requires Sorted(s[1..]) ==> Sorted(rest)
    requires |rest| > 0 && (rest[0] == x || (|s| > 1 && rest[0] == s[1]))
    ensures Sorted(s) ==> Sorted([s[0]] + rest)
  {
    if Sorted(s) {
      assert Sorted(s[1..]) by {
        forall i, j | 0 <= i < j < |s[1..]|
          ensures s[1..][i] <= s[1..][j]
        {
          assert s[1..][i] == s[i + 1] && s[1..][j] == s[j + 1];
        }
      }
      assert |s| > 1 ==> s[0] <= s[1];
      ConsSorted(s[0], rest);
    }
  }

  /** The reference sort, independent of all ten algorithms. */
  function SortOf(s: seq<int>): (r: seq<int>)
    ensures SortedPermutation(r, s) && |r| == |s|
  {
    if s == [] then []
    else
      assert s == [s[0]] + s[1..];
      var t := SortOf(s[1..]);
      assert multiset(s) == multiset(s[1..]) + multiset{s[0]};
      var r := Insert(s[0], t);
      assert |r| == |multiset(r)| == |multiset(s)| == |s|;
      r
  }

  /** There is only one sorted arrangement of a multiset of values: two
      sorted permutations of each other are equal. */
  lemma {:induction false} SortedPermutationUnique(a: seq<int>, b: seq<int>)
    requires Sorted(a) && Sorted(b) && multiset(a) == multiset(b)
    ensures a == b
    decreases |a|
  {
    if a == [] || b == [] {
      assert |a| == |multiset(a)| == |multiset(b)| == |b|;
    } else {
      SortedHeads(a, b);
      TailsPermute(a, b);
      SortedTail(a);
      SortedTail(b);
      SortedPermutationUnique(a[1..], b[1..]);
      ConsEqual(a, b);
    }
  }

  /** Sorted permutations of each other start with the same value: each
      head is at most every value of the other list. */
  lemma SortedHeads(a: seq<int>, b: seq<int>)
    requires Sorted(a) && Sorted(b) && multiset(a) == multiset(b) && a != [] && b != []
    ensures a[0] == b[0]
  {
    assert a[0] <= b[0] by {
      assert b[0] in multiset(a);
      var j :| 0 <= j < |a| && a[j] == b[0];
    }
    assert b[0] <= a[0] by {
      assert a[0] in multiset(b);
      var i :| 0 <= i < |b| && b[i] == a[0];
    }
  }

  lemma HeadTail(s: seq<int>)
    requires s != []
    ensures multiset(s) == multiset{s[0]} + multiset(s[1..])
  {
    assert s == [s[0]] + s[1..];
  }

  /** Equal heads removed from permutations of each other leave
      permutations of each other. */
  lemma TailsPermute(a: seq<int>, b: seq<int>)
    requires a != [] && b != [] && a[0] == b[0] && multiset(a) == multiset(b)
    ensures multiset(a[1..]) == multiset(b[1..])
  {
    HeadTail(a);
    HeadTail(b);
    assert multiset(a[1..]) == multiset(a) - multiset{a[0]};
    assert multiset(b[1..]) == multiset(b) - multiset{b[0]};
  }

  lemma SortedTail(s: seq<int>)
    requires Sorted(s) && s != []
    ensures Sorted(s[1..])
  {
    forall i, j | 0 <= i < j < |s| - 1
      ensures s[1..][i] <= s[1..][j]
    {
      assert s[1..][i] == s[i + 1] && s[1..][j] == s[j + 1];
    }
  }

  lemma ConsEqual(a: seq<int>, b: seq<int>)
    requires a != [] && b != [] && a[0] == b[0] && a[1..] == b[1..]
    ensures a == b
  {
    assert a == [a[0]] + a[1..];
    assert b == [b[0]] + b[1..];
  }

  /** So a generator's final array is the reference sort of its input
      exactly when it is a sorted permutation of it. */
  lemma SortedPermutationIsSortOf(r: seq<int>, input: seq<int>)
    requires SortedPermutation(r, input)
    ensures r == SortOf(input)
  {
    SortedPermutationUnique(r, SortOf(input));
  }
}
