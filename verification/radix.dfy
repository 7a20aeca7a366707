/** Least-significant-digit radix sort, base 10, as traced by the
    visualizer. Each pass for exp = 1, 10, 100, ... (while max / exp > 0)
    records one highlight step per position, distributes the values stably
    into ten digit buckets, and copies the result back one position at a
    time with an overwrite step each. */
module Radix {
  import opened Types
  import opened Recorder
  import opened Order

  /** The decimal digit of x selected by exp: `Math.floor(x / exp) % 10`.
      For the non-negative integers sorted here, floor division is Dafny's
      division. */
  function Digit(x: int, exp: nat): (d: int)
    requires exp > 0
    ensures 0 <= d < 10
  {
    (x / exp) % 10
  }

  /** The sort key a pass with exp leaves in order: x modulo 10 * exp. */
  ghost predicate SortedBy(s: seq<int>, m: nat)
    requires m > 0
  {
    forall i, j :: 0 <= i < j < |s| ==> s[i] % m <= s[j] % m
  }

  lemma MulGap(a: int, b: int, m: int)
    requires a > b && m > 0
    ensures a * m - b * m >= m
  {
    MulMono(b + 1, a, m);
    assert (b + 1) * m == b * m + m;
  }

  lemma MulMono(a: int, b: int, m: int)
    requires a <= b && m >= 0
    ensures a * m <= b * m
  {
    assert b * m - a * m == (b - a) * m;
  }

  /** Division with remainder is unique. */
  lemma ModUnique(x: int, m: int, q: int, r: int)
    requires m > 0 && x == q * m + r && 0 <= r < m
    ensures x % m == r && x / m == q
  {
    var q', r' := x / m, x % m;
    if q' > q {
      MulGap(q', q, m);
      assert false;
    } else if q' < q {
      MulGap(q, q', m);
      assert false;
    }
  }

  /** x modulo 10 * exp splits into the digit at exp and x modulo exp. */
  lemma KeySplit(x: int, exp: nat)
    requires exp > 0
    ensures x % (10 * exp) == Digit(x, exp) * exp + x % exp
  {
    var q, r := x / exp, x % exp;
    var h, d := q / 10, q % 10;
    assert x == q * exp + r;
    assert q == h * 10 + d;
    assert q * exp == h * (10 * exp) + d * exp by {
      assert q * exp == (h * 10 + d) * exp;
    }
    MulMono(d, 9, exp);
    ModUnique(x, 10 * exp, h, d * exp + r);
  }

  /** A smaller digit at exp means a smaller key modulo 10 * exp. */
  lemma KeyByDigit(x: int, y: int, exp: nat)
    requires exp > 0 && Digit(x, exp) < Digit(y, exp)
    ensures x % (10 * exp) < y % (10 * exp)
  {
    KeySplit(x, exp);
    KeySplit(y, exp);
    var dx, dy := Digit(x, exp), Digit(y, exp);
    var rx, ry := x % exp, y % exp;
    assert rx < exp && 0 <= ry;
    MulMono(dx + 1, dy, exp);
    assert (dx + 1) * exp == dx * exp + exp;
    assert dx * exp + rx < dy * exp + ry;
  }

  /** With equal digits at exp, the keys compare as x and y modulo exp. */
  lemma KeyWithinDigit(x: int, y: int, exp: nat)
    requires exp > 0 && Digit(x, exp) == Digit(y, exp) && x % exp <= y % exp
    ensures x % (10 * exp) <= y % (10 * exp)
  {
    KeySplit(x, exp);
    KeySplit(y, exp);
  }

  lemma DivDiv(x: int, exp: nat)
    requires exp > 0
    ensures x / exp / 10 == x / (exp * 10)
  {
    var q := x / exp;
    assert x == (q / 10) * (exp * 10) + ((q % 10) * exp + x % exp);
    assert (q % 10) * exp <= 9 * exp;
    ModUnique(x, exp * 10, q / 10, (q % 10) * exp + x % exp);
  }

  /** The number of passes for a largest value x: its count of decimal
      digits, none when x <= 0. */
  function Digits(x: int): (r: nat)
    decreases if x <= 0 then 0 else x
  {
    if x <= 0 then 0 else 1 + Digits(x / 10)
  }

  /** The values of s whose digit at exp is d, in their order in s. */
  function Bucket(s: seq<int>, exp: nat, d: int): (b: seq<int>)
    requires exp > 0
  {
    if s == [] then []
    else (if Digit(s[0], exp) == d then [s[0]] else []) + Bucket(s[1..], exp, d)
  }

  /** Buckets 0 .. d-1, one after another. */
  function BucketsBelow(s: seq<int>, exp: nat, d: nat): (r: seq<int>)
    requires exp > 0
  {
    if d == 0 then [] else BucketsBelow(s, exp, d - 1) + Bucket(s, exp, d - 1)
  }

  /** The reference result of one pass: the ten digit buckets in order. */
  function Distribute(s: seq<int>, exp: nat): (r: seq<int>)
    requires exp > 0
  {
    BucketsBelow(s, exp, 10)
  }

  lemma {:induction false} BucketAppend(x: seq<int>, y: seq<int>, exp: nat, d: int)
    requires exp > 0
    ensures Bucket(x + y, exp, d) == Bucket(x, exp, d) + Bucket(y, exp, d)
  {
    if x == [] {
      assert x + y == y;
    } else {
      var z := x + y;
      assert z[0] == x[0] && z[1..] == x[1..] + y;
      BucketAppend(x[1..], y, exp, d);
      var h := if Digit(x[0], exp) == d then [x[0]] else [];
      assert Bucket(z, exp, d) == h + Bucket(z[1..], exp, d);
      assert Bucket(x, exp, d) == h + Bucket(x[1..], exp, d);
    }
  }

  /** How often v occurs in s, counted element by element; the bucket
      lemmas below count with it because plain integer sums are cheaper to
      reason about than multiset unions. */
  function Occurrences(s: seq<int>, v: int): (r: nat)
  {
    if s == [] then 0 else (if s[0] == v then 1 else 0) + Occurrences(s[1..], v)
  }

  lemma {:induction false} OccurrencesAppend(b: seq<int>, c: seq<int>, v: int)
    ensures Occurrences(b + c, v) == Occurrences(b, v) + Occurrences(c, v)
  {
    if b == [] {
      assert b + c == c;
    } else {
      assert (b + c)[1..] == b[1..] + c;
      OccurrencesAppend(b[1..], c, v);
    }
  }

  /** Occurrences agrees with the multiset view. */
  lemma {:induction false} OccurrencesMultiplicity(s: seq<int>, v: int)
    ensures Occurrences(s, v) == multiset(s)[v]
  {
    if s != [] {
      OccurrencesMultiplicity(s[1..], v);
      assert s == [s[0]] + s[1..];
    }
  }

  /** Bucket d holds exactly the values of s whose digit is d, as often as
      they occur in s. */
  lemma {:induction false} BucketCount(s: seq<int>, exp: nat, d: int, v: int)
    requires exp > 0
    ensures Occurrences(Bucket(s, exp, d), v) == if Digit(v, exp) == d then Occurrences(s, v) else 0
  {
    if s != [] {
      BucketCount(s[1..], exp, d, v);
      var h := if Digit(s[0], exp) == d then [s[0]] else [];
      OccurrencesAppend(h, Bucket(s[1..], exp, d), v);
    }
  }

  /** Buckets 0 .. d-1 hold the values of s whose digit is below d. */
  lemma {:induction false} BelowCount(s: seq<int>, exp: nat, d: nat, v: int)
    requires exp > 0
    ensures Occurrences(BucketsBelow(s, exp, d), v) == if Digit(v, exp) < d then Occurrences(s, v) else 0
  {
    if d > 0 {
      var b, c := BucketsBelow(s, exp, d - 1), Bucket(s, exp, d - 1);
      OccurrencesAppend(b, c, v);
      BelowCount(s, exp, d - 1, v);
      BucketCount(s, exp, d - 1, v);
    }
  }

  /** A pass only rearranges the values. */
  lemma DistributePermutes(s: seq<int>, exp: nat)
    requires exp > 0
    ensures multiset(Distribute(s, exp)) == multiset(s)
    ensures |Distribute(s, exp)| == |s|
  {
    forall v
      ensures multiset(Distribute(s, exp))[v] == multiset(s)[v]
    {
      BelowCount(s, exp, 10, v);
      OccurrencesMultiplicity(s, v);
      OccurrencesMultiplicity(Distribute(s, exp), v);
    }
    assert multiset(Distribute(s, exp)) == multiset(s);
    assert |multiset(Distribute(s, exp))| == |multiset(s)|;
  }

  lemma {:induction false} BucketDigits(s: seq<int>, exp: nat, d: int)
    requires exp > 0
    ensures forall k :: 0 <= k < |Bucket(s, exp, d)| ==> Digit(Bucket(s, exp, d)[k], exp) == d
  {
    if s != [] {
      BucketDigits(s[1..], exp, d);
    }
  }

  lemma {:induction false} BucketAtLeast(s: seq<int>, exp: nat, d: int, lo: int)
    requires exp > 0
    requires forall k :: 0 <= k < |s| ==> lo <= s[k] % exp
    ensures forall k :: 0 <= k < |Bucket(s, exp, d)| ==> lo <= Bucket(s, exp, d)[k] % exp
  {
    if s != [] {
      BucketAtLeast(s[1..], exp, d, lo);
    }
  }

  /** Taking one bucket keeps the order of the values modulo exp. */
  lemma {:induction false} BucketSortedBy(s: seq<int>, exp: nat, d: int)
    requires exp > 0 && SortedBy(s, exp)
    ensures SortedBy(Bucket(s, exp, d), exp)
  {
    if s != [] {
      BucketSortedBy(s[1..], exp, d);
      BucketAtLeast(s[1..], exp, d, s[0] % exp);
    }
  }

  lemma {:induction false} BelowSortedBy(s: seq<int>, exp: nat, d: nat)
    requires exp > 0 && SortedBy(s, exp)
    ensures SortedBy(BucketsBelow(s, exp, d), 10 * exp)
    ensures forall k :: 0 <= k < |BucketsBelow(s, exp, d)| ==> Digit(BucketsBelow(s, exp, d)[k], exp) < d
  {
    if d > 0 {
      BelowSortedBy(s, exp, d - 1);
      BucketSortedBy(s, exp, d - 1);
      BucketDigits(s, exp, d - 1);
      var b, c := BucketsBelow(s, exp, d - 1), Bucket(s, exp, d - 1);
      assert BucketsBelow(s, exp, d) == b + c;
      forall i, j | 0 <= i < j < |b + c|
        ensures (b + c)[i] % (10 * exp) <= (b + c)[j] % (10 * exp)
      {
        if j < |b| {
          assert (b + c)[i] == b[i] && (b + c)[j] == b[j];
        } else if i < |b| {
          KeyByDigit(b[i], c[j - |b|], exp);
        } else {
          KeyWithinDigit(c[i - |b|], c[j - |b|], exp);
        }
      }
    }
  }

  /** The pass invariant of least-significant-digit radix sort: values in
      order modulo exp come out of a pass in order modulo 10 * exp. */
  lemma DistributeSorts(s: seq<int>, exp: nat)
    requires exp > 0 && SortedBy(s, exp)
    ensures SortedBy(Distribute(s, exp), 10 * exp)
  {
    BelowSortedBy(s, exp, 10);
  }

  lemma {:induction false} BelowPrefix(s: seq<int>, exp: nat, d: nat, e: nat)
    requires exp > 0 && d <= e
    ensures BucketsBelow(s, exp, d) <= BucketsBelow(s, exp, e)
    decreases e - d
  {
    if d < e {
      BelowPrefix(s, exp, d + 1, e);
    }
  }

  /** out holds bucket e of s at offset |BucketsBelow(e)|, its place in
      the distributed sequence. */
  ghost predicate Region(out: seq<int>, s: seq<int>, exp: nat, e: nat)
    requires exp > 0
  {
    var lo, c := |BucketsBelow(s, exp, e)|, Bucket(s, exp, e);
    lo + |c| <= |out| && out[lo..lo + |c|] == c
  }

  /** A sequence that holds bucket e in its region for every e < d begins
      with BucketsBelow(d). */
  lemma {:induction false} FromRegions(out: seq<int>, s: seq<int>, exp: nat, d: nat)
    requires exp > 0 && |BucketsBelow(s, exp, d)| <= |out|
    requires forall e :: 0 <= e < d ==> Region(out, s, exp, e)
    ensures out[..|BucketsBelow(s, exp, d)|] == BucketsBelow(s, exp, d)
  {
    if d > 0 {
      var b, c := BucketsBelow(s, exp, d - 1), Bucket(s, exp, d - 1);
      assert Region(out, s, exp, d - 1);
      assert BucketsBelow(s, exp, d) == b + c;
      FromRegions(out, s, exp, d - 1);
      assert out[..|b| + |c|] == out[..|b|] + out[|b|..|b| + |c|];
    }
  }

  /** Where the right-to-left loop puts the next value of digit d once
      positions i.. are placed: one past the last free slot of bucket d's
      region. */
  ghost function Next(a: seq<int>, exp: nat, i: nat, d: int): (r: nat)
    requires exp > 0 && i <= |a| && 0 <= d
  {
    |BucketsBelow(a, exp, d)| + |Bucket(a[..i], exp, d)|
  }

  /** count[d] is Next(d) for every digit, and bucket d of a[i..] fits
      between Next(d) and the end. */
  ghost predicate CountsAt(a: seq<int>, exp: nat, i: nat, count: seq<int>)
  {
    exp > 0 && i <= |a| && |count| == 10 &&
    forall d :: 0 <= d < 10 ==>
      count[d] == Next(a, exp, i, d) && Next(a, exp, i, d) + |Bucket(a[i..], exp, d)| <= |a|
  }

  /** Bucket d of a[i..] sits in `out` from Next(d) on. */
  ghost predicate ValuesAt(a: seq<int>, exp: nat, i: nat, out: seq<int>)
  {
    exp > 0 && i <= |a| &&
    forall d, q :: 0 <= d < 10 && 0 <= q < |Bucket(a[i..], exp, d)| && Next(a, exp, i, d) + q < |out| ==>
      out[Next(a, exp, i, d) + q] == Bucket(a[i..], exp, d)[q]
  }

  /** Positions from i on have been placed by the right-to-left loop. */
  ghost predicate Placing(a: seq<int>, exp: nat, i: nat, count: seq<int>, out: seq<int>)
  {
    |out| == |a| && CountsAt(a, exp, i, count) && ValuesAt(a, exp, i, out)
  }

  /** Bucket sizes split at any position, and bucket regions follow one
      another in digit order. */
  lemma Regions(a: seq<int>, exp: nat, i: nat)
    requires exp > 0 && i <= |a|
    ensures forall d :: 0 <= d < 10 ==>
      |Bucket(a[..i], exp, d)| + |Bucket(a[i..], exp, d)| == |Bucket(a, exp, d)|
    ensures forall d, e :: 0 <= d <= e <= 10 ==>
      |BucketsBelow(a, exp, d)| <= |BucketsBelow(a, exp, e)|
    ensures |BucketsBelow(a, exp, 10)| == |a|
  {
    forall d | 0 <= d < 10
      ensures |Bucket(a[..i], exp, d)| + |Bucket(a[i..], exp, d)| == |Bucket(a, exp, d)|
    {
      assert a[..i] + a[i..] == a;
      BucketAppend(a[..i], a[i..], exp, d);
    }
    forall d, e | 0 <= d <= e <= 10
      ensures |BucketsBelow(a, exp, d)| <= |BucketsBelow(a, exp, e)|
    {
      BelowPrefix(a, exp, d, e);
    }
    DistributePermutes(a, exp);
  }

  lemma PlaceStart(a: seq<int>, exp: nat, count: seq<int>, out: seq<int>)
    requires exp > 0 && |out| == |a| && |count| == 10
    requires forall d :: 0 <= d < 10 ==> count[d] == |BucketsBelow(a, exp, d + 1)|
    ensures Placing(a, exp, |a|, count, out)
  {
    Regions(a, exp, |a|);
    assert a[..|a|] == a;
    assert a[|a|..] == [];
  }

  /** The counts after one iteration at j = i - 1. */
  lemma StepCounts(a: seq<int>, exp: nat, j: nat, count: seq<int>)
    requires CountsAt(a, exp, j + 1, count)
    ensures 0 < count[Digit(a[j], exp)] <= |a|
    ensures CountsAt(a, exp, j, count[Digit(a[j], exp) := count[Digit(a[j], exp)] - 1])
  {
    var d := Digit(a[j], exp);
    var count' := count[d := count[d] - 1];
    StepBucketsAt(a, exp, j + 1, d);
    assert count[d] == Next(a, exp, j + 1, d);
    assert Next(a, exp, j + 1, d) + |Bucket(a[j + 1..], exp, d)| <= |a|;
    forall e | 0 <= e < 10
      ensures count'[e] == Next(a, exp, j, e)
      ensures Next(a, exp, j, e) + |Bucket(a[j..], exp, e)| <= |a|
    {
      StepBucketsAt(a, exp, j + 1, e);
    }
  }

  /** Moving the boundary from i to i - 1 moves x = a[i - 1] from the
      prefix to the suffix: only bucket Digit(x) is affected. */
  lemma StepBucketsAt(a: seq<int>, exp: nat, i: nat, e: int)
    requires exp > 0 && 0 < i <= |a| && 0 <= e < 10
    ensures e != Digit(a[i - 1], exp) ==>
      Next(a, exp, i - 1, e) == Next(a, exp, i, e) &&
      Bucket(a[i - 1..], exp, e) == Bucket(a[i..], exp, e)
    ensures e == Digit(a[i - 1], exp) ==>
      Next(a, exp, i - 1, e) + 1 == Next(a, exp, i, e) &&
      Bucket(a[i - 1..], exp, e) == [a[i - 1]] + Bucket(a[i..], exp, e)
  {
    var x := a[i - 1];
    assert a[..i] == a[..i - 1] + [x];
    assert a[i - 1..] == [x] + a[i..];
    BucketAppend(a[..i - 1], [x], exp, e);
    BucketAppend([x], a[i..], exp, e);
    assert Bucket([x], exp, e) == (if Digit(x, exp) == e then [x] else []) + Bucket([], exp, e);
  }

  /** Bucket e's part of a[i..] ends exactly where bucket e + 1's region
      begins. */
  lemma RegionEnd(a: seq<int>, exp: nat, i: nat, e: int)
    requires exp > 0 && i <= |a| && 0 <= e < 10
    ensures Next(a, exp, i, e) + |Bucket(a[i..], exp, e)| == |BucketsBelow(a, exp, e + 1)|
  {
    assert a[..i] + a[i..] == a;
    BucketAppend(a[..i], a[i..], exp, e);
  }

  /** One placed value after the iteration at j = i - 1. */
  lemma StepValue(a: seq<int>, exp: nat, j: nat, count: seq<int>, out: seq<int>, e: int, q: int)
    requires |out| == |a| && CountsAt(a, exp, j + 1, count) && ValuesAt(a, exp, j + 1, out)
    requires 0 < count[Digit(a[j], exp)] <= |a|
    requires 0 <= e < 10 && 0 <= q < |Bucket(a[j..], exp, e)| && Next(a, exp, j, e) + q < |a|
    ensures out[count[Digit(a[j], exp)] - 1 := a[j]][Next(a, exp, j, e) + q] == Bucket(a[j..], exp, e)[q]
  {
    var x := a[j];
    var d := Digit(x, exp);
    StepBucketsAt(a, exp, j + 1, e);
    var out' := out[count[d] - 1 := x];
    var b := Bucket(a[j + 1..], exp, e);
    assert count[d] == Next(a, exp, j + 1, d);
    if e == d {
      assert Bucket(a[j..], exp, e) == [x] + b;
      if q == 0 {
        assert Next(a, exp, j, e) + q == count[d] - 1;
        assert out'[count[d] - 1] == x;
      } else {
        var k := Next(a, exp, j + 1, e) + (q - 1);
        assert Next(a, exp, j, e) + q == k;
        assert k >= count[d];
        assert out'[k] == out[k] == b[q - 1];
        assert ([x] + b)[q] == b[q - 1];
      }
    } else {
      var k := Next(a, exp, j + 1, e) + q;
      assert Next(a, exp, j, e) + q == k;
      assert Bucket(a[j..], exp, e) == b;
      assert out[k] == b[q];
      OtherRegion(a, exp, j, e, k);
      assert out'[k] == out[k];
    }
  }

  /** A slot inside the part of bucket e's region that holds a[j + 1..] is
      not the slot where a[j] goes when its digit is not e. */
  lemma OtherRegion(a: seq<int>, exp: nat, j: nat, e: int, k: int)
    requires exp > 0 && j < |a| && 0 <= e < 10 && e != Digit(a[j], exp)
    requires Next(a, exp, j + 1, e) <= k < Next(a, exp, j + 1, e) + |Bucket(a[j + 1..], exp, e)|
    ensures k != Next(a, exp, j + 1, Digit(a[j], exp)) - 1
  {
    var d := Digit(a[j], exp);
    NextStep(a, exp, j + 1);
    if e < d {
      RegionEnd(a, exp, j + 1, e);
      BelowLength(a, exp, e + 1, d);
    } else {
      RegionEnd(a, exp, j + 1, d);
      BelowLength(a, exp, d + 1, e);
    }
  }

  /** Regions of later digits start later. */
  lemma BelowLength(s: seq<int>, exp: nat, d: nat, e: nat)
    requires exp > 0 && d <= e
    ensures |BucketsBelow(s, exp, d)| <= |BucketsBelow(s, exp, e)|
  {
    BelowPrefix(s, exp, d, e);
  }

  /** Moving the boundary from i to i - 1 frees one slot of a[i - 1]'s
      bucket. */
  lemma NextStep(a: seq<int>, exp: nat, i: nat)
    requires exp > 0 && 0 < i <= |a|
    ensures Next(a, exp, i - 1, Digit(a[i - 1], exp)) + 1 == Next(a, exp, i, Digit(a[i - 1], exp))
  {
    StepBucketsAt(a, exp, i, Digit(a[i - 1], exp));
  }

  /** One iteration at j = i - 1: its value x goes to count[d] - 1 for
      its digit d, just before the values of bucket d already placed. */
  lemma PlaceStep(a: seq<int>, exp: nat, j: nat, count: seq<int>, out: seq<int>)
    requires Placing(a, exp, j + 1, count, out)
    ensures 0 < count[Digit(a[j], exp)] <= |a|
    ensures Placing(a, exp, j,
      count[Digit(a[j], exp) := count[Digit(a[j], exp)] - 1],
      out[count[Digit(a[j], exp)] - 1 := a[j]])
  {
    StepCounts(a, exp, j, count);
    var out' := out[count[Digit(a[j], exp)] - 1 := a[j]];
    forall e, q | 0 <= e < 10 && 0 <= q < |Bucket(a[j..], exp, e)| && Next(a, exp, j, e) + q < |out'|
      ensures out'[Next(a, exp, j, e) + q] == Bucket(a[j..], exp, e)[q]
    {
      StepValue(a, exp, j, count, out, e, q);
    }
  }

  lemma PlaceEnd(a: seq<int>, exp: nat, count: seq<int>, out: seq<int>)
    requires Placing(a, exp, 0, count, out)
    ensures out == Distribute(a, exp)
  {
    forall e | 0 <= e < 10
      ensures Region(out, a, exp, e)
    {
      PlacedRegion(a, exp, count, out, e);
    }
    DistributePermutes(a, exp);
    FromRegions(out, a, exp, 10);
    assert out[..|out|] == out;
  }

  /** After the loop, bucket e fills its region. */
  lemma PlacedRegion(a: seq<int>, exp: nat, count: seq<int>, out: seq<int>, e: nat)
    requires Placing(a, exp, 0, count, out) && e < 10
    ensures Region(out, a, exp, e)
  {
    assert a[0..] == a;
    assert Bucket(a[..0], exp, e) == [];
    assert Next(a, exp, 0, e) == |BucketsBelow(a, exp, e)|;
  }

  /** The "build output" loop: from the last position down to the first,
      each value goes to the slot just below its digit's running end.
      Given the accumulated counts it produces exactly the ten buckets in
      order: the distribution is stable. */
  method Place(a: seq<int>, exp: nat, accumulated: seq<int>) returns (out: seq<int>)
    requires exp > 0 && |accumulated| == 10
    requires forall d :: 0 <= d < 10 ==> accumulated[d] == |BucketsBelow(a, exp, d + 1)|
    ensures out == Distribute(a, exp)
  {
    out := seq(|a|, _ => 0);
    var count := accumulated;
    var i: nat := |a|;
    PlaceStart(a, exp, count, out);
    while i > 0
      invariant Placing(a, exp, i, count, out)
    {
      var d := Digit(a[i - 1], exp);
      PlaceStep(a, exp, i - 1, count, out);
      out := out[count[d] - 1 := a[i - 1]];
      count := count[d := count[d] - 1];
      i := i - 1;
    }
    PlaceEnd(a, exp, count, out);
  }

  /** The counting loop of a pass: count[d] becomes the size of bucket d,
      with one highlight step per position over the unchanged array. */
  method CountDigits(a: seq<int>, trace: seq<SortStep>, exp: nat)
    returns (count: seq<int>, trace': seq<SortStep>)
    requires exp > 0
    ensures |count| == 10 && forall d :: 0 <= d < 10 ==> count[d] == |Bucket(a, exp, d)|
    ensures trace <= trace' && |trace'| == |trace| + |a|
    ensures forall k :: |trace| <= k < |trace'| ==> trace'[k] == CreateStep(a, [k - |trace|], [], [])
  {
    count := seq(10, _ => 0);
    trace' := trace;
    for i := 0 to |a|
      invariant |count| == 10 && forall d :: 0 <= d < 10 ==> count[d] == |Bucket(a[..i], exp, d)|
      invariant trace <= trace' && |trace'| == |trace| + i
      invariant forall k :: |trace| <= k < |trace'| ==> trace'[k] == CreateStep(a, [k - |trace|], [], [])
    {
      var digit := Digit(a[i], exp);
      forall d | 0 <= d < 10
        ensures Bucket(a[..i + 1], exp, d) == Bucket(a[..i], exp, d) + Bucket([a[i]], exp, d)
        ensures Bucket([a[i]], exp, d) == if digit == d then [a[i]] else []
      {
        assert [a[i]][1..] == [];
        assert a[..i + 1] == a[..i] + [a[i]];
        BucketAppend(a[..i], [a[i]], exp, d);
      }
      count := count[digit := count[digit] + 1];
      trace' := trace' + [CreateStep(a, [i], [], [])];
    }
    assert a[..|a|] == a;
  }

  /** The accumulation loop: count[d] becomes the end of bucket d's region. */
  method Accumulate(a: seq<int>, exp: nat, count: seq<int>) returns (ends: seq<int>)
    requires exp > 0
    requires |count| == 10 && forall d :: 0 <= d < 10 ==> count[d] == |Bucket(a, exp, d)|
    ensures |ends| == 10 && forall d :: 0 <= d < 10 ==> ends[d] == |BucketsBelow(a, exp, d + 1)|
  {
    ends := count;
    for i := 1 to 10
      invariant |ends| == 10
      invariant forall d :: 0 <= d < i ==> ends[d] == |BucketsBelow(a, exp, d + 1)|
      invariant forall d :: i <= d < 10 ==> ends[d] == count[d]
    {
      ends := ends[i := ends[i] + ends[i - 1]];
    }
  }

  /** The copy-back loop: position k takes out[k], with an overwrite step
      showing out[0..k] over the rest of the old array. */
  method CopyBack(a: seq<int>, trace: seq<SortStep>, out: seq<int>)
    returns (a': seq<int>, trace': seq<SortStep>)
    requires |out| == |a|
    ensures a' == out
    ensures trace <= trace' && |trace'| == |trace| + |a|
    ensures forall k :: |trace| <= k < |trace'| ==>
      trace'[k] == CreateStep(out[..k - |trace| + 1] + a[k - |trace| + 1..], [], [k - |trace|], [])
  {
    a', trace' := a, trace;
    for i := 0 to |a|
      invariant a' == out[..i] + a[i..]
      invariant trace <= trace' && |trace'| == |trace| + i
      invariant forall k :: |trace| <= k < |trace'| ==>
        trace'[k] == CreateStep(out[..k - |trace| + 1] + a[k - |trace| + 1..], [], [k - |trace|], [])
    {
      a' := a'[i := out[i]];
      assert a' == out[..i + 1] + a[i + 1..];
      trace' := trace' + [CreateStep(a', [], [i], [])];
    }
    assert out[..|a|] == out;
  }

  /** The 2n steps of a pass over a that leaves b: a highlight of each
      position of a in turn, then an overwrite of each position while b is
      copied over a from the left. */
  ghost function PassSteps(a: seq<int>, b: seq<int>): (r: seq<SortStep>)
    requires |b| == |a|
  {
    seq(2 * |a|, k requires 0 <= k < 2 * |a| =>
      if k < |a| then CreateStep(a, [k], [], [])
      else CreateStep(b[..k - |a| + 1] + a[k - |a| + 1..], [], [k - |a|], []))
  }

  /** Every step of the passes for exp, 10 exp, 100 exp, ... while
      max / exp > 0, starting from a: each pass's steps over the array it
      starts from, that array distributed by the pass's digit. */
  ghost function RadixSteps(a: seq<int>, exp: nat, max: int): (r: seq<SortStep>)
    requires exp > 0
    decreases Digits(max / exp)
  {
    if max / exp <= 0 then []
    else
      DistributePermutes(a, exp);
      DigitsStep(max, exp);
      PassSteps(a, Distribute(a, exp)) + RadixSteps(Distribute(a, exp), exp * 10, max)
  }

  /** A pass's steps laid out one by one are PassSteps. */
  lemma PassStepsLaidOut(trace: seq<SortStep>, trace': seq<SortStep>, a: seq<int>, b: seq<int>)
    requires |b| == |a| && trace <= trace' && |trace'| == |trace| + 2 * |a|
    requires forall k :: |trace| <= k < |trace| + |a| ==> trace'[k] == CreateStep(a, [k - |trace|], [], [])
    requires forall k :: |trace| + |a| <= k < |trace'| ==>
      trace'[k] == CreateStep(b[..k - |trace| - |a| + 1] + a[k - |trace| - |a| + 1..], [], [k - |trace| - |a|], [])
    ensures trace' == trace + PassSteps(a, b)
  {
    var steps := PassSteps(a, b);
    forall k | 0 <= k < |trace'|
      ensures trace'[k] == (trace + steps)[k]
    {
      if k >= |trace| {
        assert steps[k - |trace|] == trace'[k];
      }
    }
  }

  /** One pass for exp: n highlight steps over the array as it was, then
      n overwrite steps while the stable distribution by the digit at exp
      is copied back. */
  method RadixPass(a: seq<int>, trace: seq<SortStep>, exp: nat)
    returns (a': seq<int>, trace': seq<SortStep>)
    requires exp > 0
    ensures a' == Distribute(a, exp) && |a'| == |a|
    ensures trace <= trace' && |trace'| == |trace| + 2 * |a|
    ensures ExtendsWith(trace, trace', |a|, [])
    ensures forall k :: |trace| <= k < |trace| + |a| ==> trace'[k] == CreateStep(a, [k - |trace|], [], [])
    ensures forall k :: |trace| + |a| <= k < |trace'| ==>
      trace'[k] == CreateStep(a'[..k - |trace| - |a| + 1] + a[k - |trace| - |a| + 1..], [], [k - |trace| - |a|], [])
    ensures trace' == trace + PassSteps(a, a')
  {
    var count, highlighted := CountDigits(a, trace, exp);
    var ends := Accumulate(a, exp, count);
    var out := Place(a, exp, ends);
    DistributePermutes(a, exp);
    a', trace' := CopyBack(a, highlighted, out);
    PassStepsLaidOut(trace, trace', a, a');
  }

  /** Once every value is below exp, order modulo exp is plain order. */
  lemma SortedOnceBelow(a: seq<int>, exp: nat)
    requires exp > 0 && SortedBy(a, exp)
    requires forall k :: 0 <= k < |a| ==> 0 <= a[k] < exp
    ensures Sorted(a)
  {
    forall k | 0 <= k < |a|
      ensures a[k] % exp == a[k]
    {
      ModUnique(a[k], exp, 0, a[k]);
    }
  }

  lemma ValuesKept(a: seq<int>, b: seq<int>, lo: int, hi: int)
    requires multiset(a) == multiset(b)
    requires forall k :: 0 <= k < |a| ==> lo <= a[k] <= hi
    ensures forall k :: 0 <= k < |b| ==> lo <= b[k] <= hi
  {
    forall k | 0 <= k < |b|
      ensures lo <= b[k] <= hi
    {
      assert b[k] in multiset(a);
    }
  }

  lemma BelowWhenQuotientZero(x: int, m: nat)
    requires m > 0 && 0 <= x && x / m <= 0
    ensures x < m
  {
  }

  /** Every sequence is in order modulo 1. */
  lemma SortedByOne(a: seq<int>)
    ensures SortedBy(a, 1)
  {
    forall i, j | 0 <= i < j < |a|
      ensures a[i] % 1 <= a[j] % 1
    {
      ModUnique(a[i], 1, a[i], 0);
      ModUnique(a[j], 1, a[j], 0);
    }
  }

  /** A pass uses up one digit of max. */
  lemma DigitsStep(max: int, exp: nat)
    requires exp > 0 && max / exp > 0
    ensures Digits(max / exp) == 1 + Digits(max / (exp * 10))
  {
    DivDiv(max, exp);
  }

  /** What a pass keeps for the next one: the values, their bounds, and
      order modulo ten times the exponent. */
  lemma PassKeeps(before: seq<int>, a: seq<int>, exp: nat, max: int)
    requires exp > 0 && a == Distribute(before, exp) && SortedBy(before, exp)
    requires forall k :: 0 <= k < |before| ==> 0 <= before[k] <= max
    ensures |a| == |before| && multiset(a) == multiset(before)
    ensures forall k :: 0 <= k < |a| ==> 0 <= a[k] <= max
    ensures SortedBy(a, exp * 10)
  {
    DistributePermutes(before, exp);
    DistributeSorts(before, exp);
    assert 10 * exp == exp * 10;
    ValuesKept(before, a, 0, max);
  }

  /** A pass's steps are 2n steps over n values with nothing marked. */
  lemma PassStepsShape(a: seq<int>, b: seq<int>)
    requires |b| == |a|
    ensures |PassSteps(a, b)| == 2 * |a|
    ensures ExtendsWith([], PassSteps(a, b), |a|, [])
  {
    var steps := PassSteps(a, b);
    forall k | 0 <= k < |steps|
      ensures |steps[k].values| == |a| && steps[k].sorted == []
    {
    }
  }

  /** Two step lists over n values with nothing marked join into one. */
  lemma ExtendsJoin(x: seq<SortStep>, y: seq<SortStep>, n: nat)
    requires ExtendsWith([], x, n, []) && ExtendsWith([], y, n, [])
    ensures ExtendsWith([], x + y, n, [])
  {
    forall k | 0 <= k < |x + y|
      ensures |(x + y)[k].values| == n && (x + y)[k].sorted == []
    {
      if k >= |x| {
        assert (x + y)[k] == y[k - |x|];
      }
    }
  }

  /** The passes' steps from a: two per position and remaining digit,
      every one over n values with nothing marked. */
  lemma {:induction false} RadixStepsShape(a: seq<int>, exp: nat, max: int)
    requires exp > 0
    ensures |RadixSteps(a, exp, max)| == 2 * |a| * Digits(max / exp)
    ensures ExtendsWith([], RadixSteps(a, exp, max), |a|, [])
    decreases Digits(max / exp)
  {
    if max / exp > 0 {
      var n: int, d: int := 2 * |a|, Digits(max / (exp * 10));
      assert n * (d + 1) == n * d + n;
      DistributePermutes(a, exp);
      DigitsStep(max, exp);
      var b := Distribute(a, exp);
      RadixStepsShape(b, exp * 10, max);
      PassStepsShape(a, b);
      ExtendsJoin(PassSteps(a, b), RadixSteps(b, exp * 10, max), |a|);
      assert RadixSteps(a, exp, max) == PassSteps(a, b) + RadixSteps(b, exp * 10, max);
    }
  }

  /** When a digit remains, the passes' steps begin with a highlight of
      each position of a in turn. */
  lemma RadixStepsStart(a: seq<int>, exp: nat, max: int)
    requires exp > 0 && max / exp > 0
    ensures |RadixSteps(a, exp, max)| >= 2 * |a|
    ensures forall k :: 0 <= k < |a| ==> RadixSteps(a, exp, max)[k] == CreateStep(a, [k], [], [])
  {
    DistributePermutes(a, exp);
    var steps := PassSteps(a, Distribute(a, exp));
    assert RadixSteps(a, exp, max) == steps + RadixSteps(Distribute(a, exp), exp * 10, max);
    forall k | 0 <= k < |a|
      ensures RadixSteps(a, exp, max)[k] == CreateStep(a, [k], [], [])
    {
      assert RadixSteps(a, exp, max)[k] == steps[k];
    }
  }

  /** The pass loop from the pass for exp on, one pass per call: the
      values come out sorted, and the steps are exactly those RadixSteps
      lists. */
  method PassesFrom(a: seq<int>, exp: nat, max: int) returns (sorted: seq<int>, steps: seq<SortStep>)
    requires exp > 0 && SortedBy(a, exp)
    requires forall k :: 0 <= k < |a| ==> 0 <= a[k] <= max
    ensures |sorted| == |a| && SortedPermutation(sorted, a)
    ensures steps == RadixSteps(a, exp, max)
    decreases Digits(max / exp)
  {
    if max / exp <= 0 {
      if |a| > 0 {
        assert 0 <= a[0] <= max;
        BelowWhenQuotientZero(max, exp);
        SortedOnceBelow(a, exp);
      }
      sorted, steps := a, [];
    } else {
      var a', pass := RadixPass(a, [], exp);
      assert pass == PassSteps(a, a');
      PassKeeps(a, a', exp, max);
      DigitsStep(max, exp);
      var rest;
      sorted, rest := PassesFrom(a', exp * 10, max);
      steps := pass + rest;
    }
  }

  /** The pass loop for exp = 1, 10, 100, ... while max / exp > 0, where
      max is at least every value (and max >= 0 unless there are none).
      It makes Digits(max) passes and leaves the values sorted. */
  method Passes(input: seq<int>, max: int) returns (a: seq<int>, trace: seq<SortStep>)
    requires forall k :: 0 <= k < |input| ==> 0 <= input[k] <= max
    ensures |a| == |input| && SortedPermutation(a, input)
    ensures trace == RadixSteps(input, 1, max)
    ensures |trace| == 2 * |input| * Digits(max)
    ensures Digits(max) > 0 ==> |trace| >= 2 * |input|
    ensures ExtendsWith([], trace, |input|, [])
    ensures Digits(max) > 0 ==> forall k :: 0 <= k < |input| ==> trace[k] == CreateStep(input, [k], [], [])
  {
    SortedByOne(input);
    a, trace := PassesFrom(input, 1, max);
    RadixStepsShape(input, 1, max);
    assert max / 1 == max;
    if max > 0 {
      RadixStepsStart(input, 1, max);
    }
  }

  /** The trace generateRadixSortSteps records for `input`: every step before
      the last is the one RadixSteps lists for the input, two per position and
      decimal digit of the maximum; nothing reported sorted before the final
      step, which shows the sorted input with 0..n-1 sorted. */
  ghost predicate RadixTrace(trace: seq<SortStep>, input: seq<int>)
  {
    && |trace| > 0 && Consistent(trace, |input|, Range(|input|))
    && (forall k :: 0 <= k < |trace| - 1 ==> trace[k].sorted == [])
    && (|input| == 0 ==> |trace| == 1)
    && (|input| > 0 ==> |trace| == 2 * |input| * Digits(MaxOf(input)) + 1)
    && ((forall k :: 0 <= k < |input| ==> input[k] == 0) ==> |trace| == 1)
    && (|input| > 0 && MaxOf(input) > 0 ==>
      forall k :: 0 <= k < |input| ==> trace[k] == CreateStep(input, [k], [], []))
    && Last(trace).comparison == [] && Last(trace).swap == []
    && Last(trace).sorted == Range(|input|)
    && SortedPermutation(Last(trace).values, input)
    && trace[..|trace| - 1] == RadixSteps(input, 1, if |input| == 0 then -1 else MaxOf(input))
  }

  /** generateRadixSortSteps. `Math.max` of an empty list is -Infinity,
      for which the loop test fails at once; -1 stands for it here. There
      is one pass per decimal digit of the largest value, so an empty or
      all-zero input gives only the final step, and the first pass begins
      by highlighting the input position by position. */
  method GenerateRadixSortSteps(input: seq<int>) returns (trace: seq<SortStep>)
    requires NonNegative(input)
    ensures RadixTrace(trace, input)
  {
    var max := if |input| == 0 then -1 else MaxOf(input);
    var a;
    a, trace := Passes(input, max);
    if |input| > 0 && forall k :: 0 <= k < |input| ==> input[k] == 0 {
      var k :| 0 <= k < |input| && input[k] == max;
      assert Digits(max) == 0;
      assert |trace| == 2 * |input| * 0 == 0;
    }
    FinishUnmarked(trace, a);
    var passes := trace;
    trace := trace + [CreateStep(a, [], [], Range(|a|))];
    assert trace[..|trace| - 1] == passes;
    if |input| > 0 && max > 0 {
      assert Digits(max) >= 1;
      assert |passes| >= 2 * |input|;
      forall k | 0 <= k < |input|
        ensures trace[k] == CreateStep(input, [k], [], [])
      {
        assert trace[k] == passes[k];
      }
    }
  }
}
