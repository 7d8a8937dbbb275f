/**
 * Exact counterparts of the arithmetic the analytics uses on lists of integers:
 * counting with a condition, the sum, the minimum and maximum, the mean
 * (`statistics.mean`), sorting (`sorted`), the median of `statistics.median`
 * and the upper-middle element `sorted(xs)[len(xs) // 2]` of the reports page.
 * Means and medians are exact `real`s rather than floating point.
 */
module Statistics {

  /** Number of elements of `s` satisfying `p` (`sum(1 for x in s if p(x))`). */
  function Count<T>(s: seq<T>, p: T -> bool): (n: nat)
    ensures n <= |s|
  {
    if s == [] then 0 else (if p(s[0]) then 1 else 0) + Count(s[1..], p)
  }

  lemma {:induction false} CountAppend<T>(a: seq<T>, b: seq<T>, p: T -> bool)
    ensures Count(a + b, p) == Count(a, p) + Count(b, p)
  {
    if a == [] {
      assert a + b == b;
    } else {
      assert (a + b)[1..] == a[1..] + b;
      CountAppend(a[1..], b, p);
    }
  }

  lemma {:induction false} CountNone<T>(s: seq<T>, p: T -> bool)
    requires forall i :: 0 <= i < |s| ==> !p(s[i])
    ensures Count(s, p) == 0
  {
    if s != [] {
      CountNone(s[1..], p);
    }
  }

  /** Removing the element at `k` removes its contribution to the count. */
  lemma CountRemove<T>(t: seq<T>, k: int, p: T -> bool)
    requires 0 <= k < |t|
    ensures Count(t, p) == (if p(t[k]) then 1 else 0) + Count(t[..k] + t[k + 1..], p)
  {
    var front, back := t[..k], t[k..];
    assert t == front + back;
    CountAppend(front, back, p);
    assert back[1..] == t[k + 1..];
    CountAppend(front, t[k + 1..], p);
  }

  lemma MultisetRemove<T>(t: seq<T>, k: int)
    requires 0 <= k < |t|
    ensures multiset(t[..k] + t[k + 1..]) == multiset(t) - multiset{t[k]}
  {
    assert t == t[..k] + [t[k]] + t[k + 1..];
  }

  /** A count does not depend on the order of the elements. */
  lemma {:induction false} CountPermutation<T>(s: seq<T>, t: seq<T>, p: T -> bool)
    requires multiset(s) == multiset(t)
    ensures Count(s, p) == Count(t, p)
    decreases |s|
  {
    if s == [] {
      assert |t| == |multiset(t)| == 0;
    } else {
      assert s[0] in multiset(t);
      var k :| 0 <= k < |t| && t[k] == s[0];
      MultisetRemove(t, k);
      assert s == [s[0]] + s[1..];
      assert multiset(s[1..]) == multiset(s) - multiset{s[0]};
      CountPermutation(s[1..], t[..k] + t[k + 1..], p);
      CountRemove(t, k, p);
    }
  }

  function Sum(s: seq<int>): int
  {
    if s == [] then 0 else s[0] + Sum(s[1..])
  }

  function Min(s: seq<int>): (m: int)
    requires |s| > 0
    ensures m in s
    ensures forall x :: x in s ==> m <= x
  {
    if |s| == 1 then s[0]
    else
      var r := Min(s[1..]);
      assert forall x :: x in s ==> x == s[0] || x in s[1..];
      if s[0] <= r then s[0] else r
  }

  function Max(s: seq<int>): (m: int)
    requires |s| > 0
    ensures m in s
    ensures forall x :: x in s ==> x <= m
  {
    if |s| == 1 then s[0]
    else
      var r := Max(s[1..]);
      assert forall x :: x in s ==> x == s[0] || x in s[1..];
      if s[0] >= r then s[0] else r
  }

  lemma {:induction false} SumAtLeast(s: seq<int>, lo: int)
    requires forall x :: x in s ==> lo <= x
    ensures |s| * lo <= Sum(s)
  {
    if s != [] {
      assert s[0] in s;
      assert forall x :: x in s[1..] ==> x in s;
      SumAtLeast(s[1..], lo);
      assert |s| * lo == (|s| - 1) * lo + lo;
    }
  }

  lemma {:induction false} SumAtMost(s: seq<int>, hi: int)
    requires forall x :: x in s ==> x <= hi
    ensures Sum(s) <= |s| * hi
  {
    if s != [] {
      assert s[0] in s;
      assert forall x :: x in s[1..] ==> x in s;
      SumAtMost(s[1..], hi);
      assert |s| * hi == (|s| - 1) * hi + hi;
    }
  }

  lemma QuotientAtLeast(total: int, n: int, lo: int)
    requires n > 0 && n * lo <= total
    ensures lo as real <= total as real / n as real
  {
    assert (n * lo) as real == n as real * lo as real;
  }

  lemma QuotientAtMost(total: int, n: int, hi: int)
    requires n > 0 && total <= n * hi
    ensures total as real / n as real <= hi as real
  {
    assert (n * hi) as real == n as real * hi as real;
  }

  lemma QuotientTimesDivisor(total: int, n: int)
    requires n > 0
    ensures (total as real / n as real) * n as real == total as real
  {
  }

  /** `m` is the arithmetic mean of `s`: it times the number of values is their sum. */
  predicate IsMeanOf(m: real, s: seq<int>)
  {
    m * |s| as real == Sum(s) as real
  }

  /** Arithmetic mean (`statistics.mean`) of a non-empty list, exactly. */
  function Mean(s: seq<int>): (m: real)
    requires |s| > 0
    ensures IsMeanOf(m, s)
    ensures Min(s) as real <= m <= Max(s) as real
  {
    MeanFacts(s);
    Sum(s) as real / |s| as real
  }

  lemma MeanFacts(s: seq<int>)
    requires |s| > 0
    ensures IsMeanOf(Sum(s) as real / |s| as real, s)
    ensures Min(s) as real <= Sum(s) as real / |s| as real <= Max(s) as real
  {
    QuotientTimesDivisor(Sum(s), |s|);
    SumAtLeast(s, Min(s));
    SumAtMost(s, Max(s));
    QuotientAtLeast(Sum(s), |s|, Min(s));
    QuotientAtMost(Sum(s), |s|, Max(s));
  }

  /**
   * A proportion guarded against an empty denominator, as the analytics writes it:
   * `part / whole if whole else 0`.
   */
  function Rate(part: nat, whole: nat): (r: real)
    requires part <= whole
    ensures 0.0 <= r <= 1.0
    ensures whole == 0 ==> r == 0.0
    ensures whole > 0 ==> r * whole as real == part as real
  {
    if whole > 0 then
      QuotientAtLeast(part, whole, 0);
      QuotientAtMost(part, whole, 1);
      part as real / whole as real
    else 0.0
  }

  /** A larger part of the same whole is a larger proportion. */
  lemma RateMonotone(a: nat, b: nat, n: nat)
    requires a <= b <= n
    ensures Rate(a, n) <= Rate(b, n)
  {
    if n > 0 {
      QuotientAtLeast(b - a, n, 0);
      assert b as real / n as real - a as real / n as real == (b - a) as real / n as real;
    }
  }

  predicate Sorted(s: seq<int>)
  {
    forall i, j :: 0 <= i < j < |s| ==> s[i] <= s[j]
  }

  function Insert(x: int, s: seq<int>): (r: seq<int>)
    requires Sorted(s)
    ensures Sorted(r)
    ensures multiset(r) == multiset(s) + multiset{x}
  {
    if s == [] then [x]
    else if x <= s[0] then [x] + s
    else
      var tail := Insert(x, s[1..]);
      assert s == [s[0]] + s[1..];
      assert forall k :: 0 <= k < |tail| ==> s[0] <= tail[k] by {
        forall k | 0 <= k < |tail| ensures s[0] <= tail[k] {
          assert tail[k] in multiset(tail);
          assert tail[k] == x || tail[k] in multiset(s[1..]);
        }
      }
      [s[0]] + tail
  }

  /** `sorted(s)`: the ascending permutation of `s`. */
  function SortAscending(s: seq<int>): (r: seq<int>)
    ensures Sorted(r)
    ensures multiset(r) == multiset(s)
    ensures |r| == |s|
  {
    if s == [] then []
    else
      assert s == [s[0]] + s[1..];
      var r := Insert(s[0], SortAscending(s[1..]));
      assert |r| == |multiset(r)| == |multiset(s)| == |s|;
      r
  }

  /** Every element of a sorted permutation of `s` lies between the extremes of `s`. */
  lemma SortedElementBounds(s: seq<int>, t: seq<int>, k: int)
    requires |s| > 0 && multiset(t) == multiset(s) && 0 <= k < |t|
    ensures t[k] in s
    ensures Min(s) <= t[k] <= Max(s)
  {
    assert t[k] in multiset(t);
  }

  /** The value lies strictly below `v`. */
  function Below(v: real): int -> bool
  {
    x => x as real < v
  }

  /** The value lies strictly above `v`. */
  function Above(v: real): int -> bool
  {
    x => x as real > v
  }

  /** In a sorted list, the elements strictly below `v` all stand before index `h`. */
  lemma BelowSortedIndex(t: seq<int>, h: int, v: real)
    requires 0 <= h <= |t|
    requires forall i :: h <= i < |t| ==> v <= t[i] as real
    ensures Count(t, Below(v)) <= h
  {
    assert t == t[..h] + t[h..];
    CountAppend(t[..h], t[h..], Below(v));
    CountNone(t[h..], Below(v));
  }

  /** In a sorted list, the elements strictly above `v` all stand at or after index `h`. */
  lemma AboveSortedIndex(t: seq<int>, h: int, v: real)
    requires 0 <= h <= |t|
    requires forall i :: 0 <= i < h ==> t[i] as real <= v
    ensures Count(t, Above(v)) <= |t| - h
  {
    assert t == t[..h] + t[h..];
    CountAppend(t[..h], t[h..], Above(v));
    CountNone(t[..h], Above(v));
  }

  /** The first element of a non-empty sorted list is the least of its elements. */
  lemma SortedHeadIsLeast(a: seq<int>, x: int)
    requires Sorted(a) && x in multiset(a)
    ensures |a| > 0 && a[0] <= x
  {
    var k :| 0 <= k < |a| && a[k] == x;
    assert a[0] <= a[k];
  }

  lemma DropHead(a: seq<int>)
    requires |a| > 0 && Sorted(a)
    ensures multiset(a[1..]) == multiset(a) - multiset{a[0]}
    ensures Sorted(a[1..])
  {
    assert a == [a[0]] + a[1..];
  }

  /** Two non-empty sorted permutations start alike and continue with sorted permutations. */
  lemma SortedHeadsEqual(a: seq<int>, b: seq<int>)
    requires |a| > 0 && Sorted(a) && Sorted(b) && multiset(a) == multiset(b)
    ensures |b| > 0 && a[0] == b[0]
    ensures Sorted(a[1..]) && Sorted(b[1..]) && multiset(a[1..]) == multiset(b[1..])
  {
    SortedHeadIsLeast(b, a[0]);
    SortedHeadIsLeast(a, b[0]);
    DropHead(a);
    DropHead(b);
  }

  lemma SameHeadSameTail(a: seq<int>, b: seq<int>)
    requires |a| > 0 && |b| > 0 && a[0] == b[0] && a[1..] == b[1..]
    ensures a == b
  {
    assert a == [a[0]] + a[1..];
    assert b == [b[0]] + b[1..];
  }

  /** A sorted list is determined by its elements: two sorted permutations are equal. */
  lemma {:induction false} SortedPermutationUnique(a: seq<int>, b: seq<int>)
    requires Sorted(a) && Sorted(b) && multiset(a) == multiset(b)
    ensures a == b
    decreases |a|
  {
    if a == [] {
      assert |b| == |multiset(b)| == 0;
    } else {
      SortedHeadsEqual(a, b);
      SortedPermutationUnique(a[1..], b[1..]);
      SameHeadSameTail(a, b);
    }
  }

  function MedianOfSorted(t: seq<int>): real
    requires |t| > 0
  {
    var h := |t| / 2;
    if |t| % 2 == 1 then t[h] as real else (t[h - 1] + t[h]) as real / 2.0
  }

  /** Every sorted permutation of `s` is the sorted list `t`. */
  lemma SortingDetermined(s: seq<int>, t: seq<int>)
    requires Sorted(t) && multiset(t) == multiset(s)
    ensures forall u :: Sorted(u) && multiset(u) == multiset(s) ==> u == t
  {
    forall u | Sorted(u) && multiset(u) == multiset(s)
      ensures u == t
    {
      SortedPermutationUnique(u, t);
    }
  }

  lemma MedianOfSortedFacts(t: seq<int>)
    requires |t| > 0 && Sorted(t)
    ensures t[0] as real <= MedianOfSorted(t) <= t[|t| - 1] as real
    ensures Count(t, Below(MedianOfSorted(t))) <= |t| / 2
    ensures Count(t, Above(MedianOfSorted(t))) <= |t| / 2
  {
    if |t| % 2 == 1 {
      OddMedianFacts(t);
    } else {
      EvenMedianFacts(t);
    }
  }

  lemma OddMedianFacts(t: seq<int>)
    requires |t| % 2 == 1 && Sorted(t)
    ensures t[0] as real <= MedianOfSorted(t) <= t[|t| - 1] as real
    ensures Count(t, Below(MedianOfSorted(t))) <= |t| / 2
    ensures Count(t, Above(MedianOfSorted(t))) <= |t| / 2
  {
    var h := |t| / 2;
    var m := MedianOfSorted(t);
    assert m == t[h] as real;
    forall i | h <= i < |t| ensures m <= t[i] as real {
      assert t[h] <= t[i];
    }
    forall i | 0 <= i < h + 1 ensures t[i] as real <= m {
      assert t[i] <= t[h];
    }
    assert t[0] <= t[h] <= t[|t| - 1];
    BelowSortedIndex(t, h, m);
    AboveSortedIndex(t, h + 1, m);
  }

  lemma EvenMedianFacts(t: seq<int>)
    requires |t| > 0 && |t| % 2 == 0 && Sorted(t)
    ensures t[0] as real <= MedianOfSorted(t) <= t[|t| - 1] as real
    ensures Count(t, Below(MedianOfSorted(t))) <= |t| / 2
    ensures Count(t, Above(MedianOfSorted(t))) <= |t| / 2
  {
    var h := |t| / 2;
    var m := MedianOfSorted(t);
    assert m == (t[h - 1] + t[h]) as real / 2.0;
    assert t[h - 1] <= t[h];
    forall i | h <= i < |t| ensures m <= t[i] as real {
      assert t[h] <= t[i];
    }
    forall i | 0 <= i < h ensures t[i] as real <= m {
      assert t[i] <= t[h - 1];
    }
    assert t[0] <= t[h - 1] && t[h] <= t[|t| - 1];
    BelowSortedIndex(t, h, m);
    AboveSortedIndex(t, h, m);
  }

  /**
   * `statistics.median`: the middle element of the sorted list, or the mean of the
   * two middle elements when the length is even. It lies between the extremes and
   * at most half of the values lie strictly on either side of it.
   */
  function Median(s: seq<int>): (m: real)
    requires |s| > 0
    ensures forall t :: Sorted(t) && multiset(t) == multiset(s) ==> |t| > 0 && m == MedianOfSorted(t)
    ensures Min(s) as real <= m <= Max(s) as real
    ensures Count(s, Below(m)) <= |s| / 2
    ensures Count(s, Above(m)) <= |s| / 2
  {
    var t := SortAscending(s);
    SortingDetermined(s, t);
    MedianOfSortedFacts(t);
    SortedElementBounds(s, t, 0);
    SortedElementBounds(s, t, |t| - 1);
    CountPermutation(s, t, Below(MedianOfSorted(t)));
    CountPermutation(s, t, Above(MedianOfSorted(t)));
    MedianOfSorted(t)
  }

  lemma UpperMiddleFacts(t: seq<int>)
    requires |t| > 0 && Sorted(t)
    ensures Count(t, Below(t[|t| / 2] as real)) <= |t| / 2
    ensures Count(t, Above(t[|t| / 2] as real)) <= |t| - 1 - |t| / 2
  {
    var h := |t| / 2;
    forall i | h <= i < |t| ensures t[h] as real <= t[i] as real {
      assert t[h] <= t[i];
    }
    forall i | 0 <= i < h + 1 ensures t[i] as real <= t[h] as real {
      assert t[i] <= t[h];
    }
    BelowSortedIndex(t, h, t[h] as real);
    AboveSortedIndex(t, h + 1, t[h] as real);
  }

  /**
   * `sorted(s)[len(s) // 2]`: the upper-middle element. It is one of the values,
   * at most half of the values lie strictly below it and fewer than half strictly above.
   */
  function UpperMiddle(s: seq<int>): (m: int)
    requires |s| > 0
    ensures forall t :: Sorted(t) && multiset(t) == multiset(s) ==> |t| == |s| && m == t[|s| / 2]
    ensures m in s
    ensures Count(s, Below(m as real)) <= |s| / 2
    ensures Count(s, Above(m as real)) <= |s| - 1 - |s| / 2
  {
    var t := SortAscending(s);
    SortingDetermined(s, t);
    UpperMiddleFacts(t);
    SortedElementBounds(s, t, |t| / 2);
    CountPermutation(s, t, Below(t[|t| / 2] as real));
    CountPermutation(s, t, Above(t[|t| / 2] as real));
    t[|t| / 2]
  }
}
