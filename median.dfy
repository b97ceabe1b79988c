/** The selection-based median the fusion uses to reduce the x, y and z
    samples of one fused point (internal::Median in src/mvs/fusion.cc).
    Samples are single-precision floats in the source; here they are reals. */
module Median {

  /** `s` is in non-decreasing order. */
  ghost predicate SortedAsc(s: seq<real>) {
    forall i, j :: 0 <= i < j < |s| ==> s[i] <= s[j]
  }

  /** Inserts `x` into the sorted sequence `s`. */
  function Insert(x: real, s: seq<real>): (r: seq<real>)
    requires SortedAsc(s)
    ensures |r| == |s| + 1
    ensures SortedAsc(r)
    ensures multiset(r) == multiset(s) + multiset{x}
  {
    if s == [] then [x]
    else if x <= s[0] then
      ConsSorted(x, s);
      [x] + s
    else
      var rest := Insert(x, s[1..]);
      assert s == [s[0]] + s[1..];
      LowerBoundOfInsert(s[0], x, s[1..], rest);
      ConsSorted(s[0], rest);
      [s[0]] + rest
  }

  /** A sorted sequence stays sorted under a head that is at most its first
      element. */
  lemma ConsSorted(h: real, t: seq<real>)
    requires SortedAsc(t) && (|t| > 0 ==> h <= t[0])
    ensures SortedAsc([h] + t)
  {
    var r := [h] + t;
    forall i, j | 0 <= i < j < |r| ensures r[i] <= r[j] {
      if i > 0 {
        assert r[i] == t[i - 1] && r[j] == t[j - 1];
      } else {
        assert r[j] == t[j - 1];
      }
    }
  }

  /** A lower bound of a sorted `t` and of `x` bounds `rest`, which holds
      the elements of `t` and `x`. */
  lemma LowerBoundOfInsert(h: real, x: real, t: seq<real>, rest: seq<real>)
    requires SortedAsc([h] + t) && h <= x && multiset(rest) == multiset(t) + multiset{x}
    ensures |rest| > 0 ==> h <= rest[0]
  {
    if |rest| > 0 {
      assert rest[0] in multiset(rest);
      if rest[0] != x {
        assert rest[0] in multiset(t);
        var j :| 0 <= j < |t| && t[j] == rest[0];
        assert ([h] + t)[0] == h && ([h] + t)[j + 1] == t[j];
      }
    }
  }

  /** The samples in ascending order: the reference the median is defined by. */
  function Sort(s: seq<real>): (r: seq<real>)
    ensures |r| == |s|
    ensures SortedAsc(r)
    ensures multiset(r) == multiset(s)
  {
    if s == [] then []
    else
      assert s == [s[0]] + s[1..];
      Insert(s[0], Sort(s[1..]))
  }

  /** The head of a sorted sequence with the same elements as `u` is at most
      every element of `u`. */
  lemma SortedHeadIsLeast(t: seq<real>, u: seq<real>, j: nat)
    requires SortedAsc(t) && |t| > 0 && multiset(t) == multiset(u) && j < |u|
    ensures t[0] <= u[j]
  {
    assert u[j] in multiset(t);
    var i :| 0 <= i < |t| && t[i] == u[j];
  }

  /** Two sorted arrangements of the same samples are the same sequence. */
  lemma {:induction false} SortedUnique(t: seq<real>, u: seq<real>)
    requires SortedAsc(t) && SortedAsc(u)
    requires multiset(t) == multiset(u)
    ensures t == u
    decreases |t|
  {
    assert |t| == |multiset(t)| == |multiset(u)| == |u|;
    if |t| > 0 {
      assert t[0] == u[0] by {
        SortedHeadIsLeast(t, u, 0);
        SortedHeadIsLeast(u, t, 0);
      }
      assert SortedAsc(t[1..]) && SortedAsc(u[1..]) && multiset(t[1..]) == multiset(u[1..]) by {
        TailOfSorted(t);
        TailOfSorted(u);
      }
      SortedUnique(t[1..], u[1..]);
      SameHeadSameTail(t, u);
    }
  }

  lemma SameHeadSameTail(t: seq<real>, u: seq<real>)
    requires |t| > 0 && |u| > 0 && t[0] == u[0] && t[1..] == u[1..]
    ensures t == u
  {
    assert t == [t[0]] + t[1..] && u == [u[0]] + u[1..];
  }

  /** Removing the head of a sorted sequence leaves a sorted sequence of the
      remaining elements. */
  lemma TailOfSorted(t: seq<real>)
    requires SortedAsc(t) && |t| > 0
    ensures SortedAsc(t[1..]) && multiset(t[1..]) == multiset(t) - multiset{t[0]}
  {
    assert t == [t[0]] + t[1..];
  }

  /** The value internal::Median returns: the middle order statistic for an
      odd number of samples, and for an even number the mean of the two middle
      order statistics (the element at n/2 and the largest element below it). */
  function MedianOf(s: seq<real>): real
    requires |s| > 0
  {
    var t := Sort(s);
    var mid := |s| / 2;
    if |s| % 2 == 0 then (t[mid] + t[mid - 1]) / 2.0 else t[mid]
  }

  /** The median depends only on the multiset of samples, so reordering the
      vector in place does not change it. */
  lemma MedianPermutation(s: seq<real>, t: seq<real>)
    requires |s| > 0
    requires multiset(s) == multiset(t)
    ensures |t| > 0 && MedianOf(s) == MedianOf(t)
  {
    assert |t| == |multiset(t)| == |multiset(s)| == |s|;
    assert Sort(s) == Sort(t) by {
      SortedUnique(Sort(s), Sort(t));
    }
  }

  /** On samples that are already sorted, the median reads the middle cells. */
  lemma MedianOfSorted(s: seq<real>)
    requires |s| > 0 && SortedAsc(s)
    ensures |s| % 2 == 1 ==> MedianOf(s) == s[|s| / 2]
    ensures |s| % 2 == 0 ==> MedianOf(s) == (s[|s| / 2] + s[|s| / 2 - 1]) / 2.0
  {
    SortedUnique(Sort(s), s);
  }

  /** The median lies between the smallest and the largest sample. */
  lemma MedianWithinRange(s: seq<real>)
    requires |s| > 0
    ensures exists i :: 0 <= i < |s| && s[i] <= MedianOf(s)
    ensures exists j :: 0 <= j < |s| && MedianOf(s) <= s[j]
  {
    var t := Sort(s);
    var mid := |s| / 2;
    assert |t| == |multiset(t)| == |s|;
    var lo := if |s| % 2 == 0 then mid - 1 else mid;
    assert t[lo] <= MedianOf(s) <= t[mid];
    assert t[lo] in multiset(s);
    assert t[mid] in multiset(s);
    var i :| 0 <= i < |s| && s[i] == t[lo];
    var j :| 0 <= j < |s| && s[j] == t[mid];
  }

  /** Small cases: one sample is its own median, two sorted samples give
      their mean, and the middle cells of sorted triples and quadruples give
      the median. */
  lemma MedianOfOne(a: real)
    ensures MedianOf([a]) == a
  {
    MedianOfSorted([a]);
  }

  lemma MedianOfTwo(s: seq<real>)
    requires |s| == 2 && s[0] <= s[1]
    ensures MedianOf(s) == (s[0] + s[1]) / 2.0
  {
    MedianOfSorted(s);
  }

  lemma MedianOfThree(s: seq<real>)
    requires |s| == 3 && s[0] <= s[1] <= s[2]
    ensures MedianOf(s) == s[1]
  {
    MedianOfSorted(s);
  }

  lemma MedianOfFour(s: seq<real>)
    requires |s| == 4 && s[0] <= s[1] <= s[2] <= s[3]
    ensures MedianOf(s) == (s[1] + s[2]) / 2.0
  {
    MedianOfSorted(s);
  }

  /** The last element of a sorted arrangement of `q` is the maximum of `q`. */
  lemma SortedLastIsMax(l: seq<real>, q: seq<real>, m: real)
    requires SortedAsc(l) && multiset(l) == multiset(q) && |q| > 0
    requires m in q && forall x :: x in q ==> x <= m
    ensures |l| == |q| && l[|l| - 1] == m
  {
    assert |l| == |multiset(l)| == |q|;
    var last := l[|l| - 1];
    assert last in multiset(q);
    assert last in q;
    assert last <= m;
    assert m in multiset(q);
    assert m in multiset(l);
    var j :| 0 <= j < |l| && l[j] == m;
    assert m <= last;
  }

  /** Joining two sorted runs around a pivot that separates them. */
  lemma SortedJoin(lo: seq<real>, x: real, hi: seq<real>)
    requires SortedAsc(lo) && SortedAsc(hi)
    requires forall i :: 0 <= i < |lo| ==> lo[i] <= x
    requires forall j :: 0 <= j < |hi| ==> x <= hi[j]
    ensures SortedAsc(lo + [x] + hi)
  {
    var t := lo + [x] + hi;
    forall i, j | 0 <= i < j < |t| ensures t[i] <= t[j] {
      if j < |lo| {
        assert t[i] == lo[i] && t[j] == lo[j];
      } else if i < |lo| {
        assert t[i] == lo[i] && lo[i] <= x;
        if j > |lo| {
          assert t[j] == hi[j - |lo| - 1];
        }
      } else if i == |lo| {
        assert t[j] == hi[j - |lo| - 1];
      } else {
        assert t[i] == hi[i - |lo| - 1] && t[j] == hi[j - |lo| - 1];
      }
    }
  }

  /** Every element of a sorted arrangement of `q` satisfies a bound every
      element of `q` satisfies. */
  lemma SortedBoundedAbove(l: seq<real>, q: seq<real>, x: real)
    requires multiset(l) == multiset(q)
    requires forall i :: 0 <= i < |q| ==> q[i] <= x
    ensures forall i :: 0 <= i < |l| ==> l[i] <= x
  {
    forall i | 0 <= i < |l| ensures l[i] <= x {
      assert l[i] in multiset(q);
      var j :| 0 <= j < |q| && q[j] == l[i];
    }
  }

  lemma SortedBoundedBelow(l: seq<real>, q: seq<real>, x: real)
    requires multiset(l) == multiset(q)
    requires forall i :: 0 <= i < |q| ==> x <= q[i]
    ensures forall i :: 0 <= i < |l| ==> x <= l[i]
  {
    forall i | 0 <= i < |l| ensures x <= l[i] {
      assert l[i] in multiset(q);
      var j :| 0 <= j < |q| && q[j] == l[i];
    }
  }

  /** A sorted arrangement `q` of a sequence partitioned around `k` is a
      sorted arrangement `lo` of the part below `k`, then `p[k]`, then a
      sorted arrangement `hi` of the part above. */
  lemma SortedAroundPivot(p: seq<real>, k: nat, lo: seq<real>, hi: seq<real>, q: seq<real>)
    requires k < |p|
    requires forall i :: 0 <= i < k ==> p[i] <= p[k]
    requires forall j :: k < j < |p| ==> p[k] <= p[j]
    requires SortedAsc(lo) && multiset(lo) == multiset(p[..k])
    requires SortedAsc(hi) && multiset(hi) == multiset(p[k + 1..])
    requires SortedAsc(q) && multiset(q) == multiset(p)
    ensures q == lo + [p[k]] + hi
  {
    var below, above := p[..k], p[k + 1..];
    assert forall i :: 0 <= i < |below| ==> below[i] <= p[k] by {
      assert forall i :: 0 <= i < |below| ==> below[i] == p[i];
    }
    assert forall j :: 0 <= j < |above| ==> p[k] <= above[j] by {
      assert forall j :: 0 <= j < |above| ==> above[j] == p[k + 1 + j];
    }
    SortedBoundedAbove(lo, below, p[k]);
    SortedBoundedBelow(hi, above, p[k]);
    SortedJoin(lo, p[k], hi);
    assert multiset(lo + [p[k]] + hi) == multiset(q) by {
      MultisetAroundPivot(p, k);
    }
    SortedUnique(lo + [p[k]] + hi, q);
  }

  lemma MultisetAroundPivot(p: seq<real>, k: nat)
    requires k < |p|
    ensures multiset(p) == multiset(p[..k]) + multiset{p[k]} + multiset(p[k + 1..])
  {
    assert p == p[..k] + [p[k]] + p[k + 1..];
  }

  /** After a selection around `k` (what std::nth_element guarantees), cell
      `k` holds the k-th order statistic. */
  lemma PivotIsOrderStatistic(p: seq<real>, k: nat)
    requires k < |p|
    requires forall i :: 0 <= i < k ==> p[i] <= p[k]
    requires forall j :: k < j < |p| ==> p[k] <= p[j]
    ensures Sort(p)[k] == p[k]
  {
    var lo, hi, q := Sort(p[..k]), Sort(p[k + 1..]), Sort(p);
    assert q == lo + [p[k]] + hi by {
      SortedAroundPivot(p, k, lo, hi, q);
    }
    assert |lo| == k;
    assert q[k] == (lo + [p[k]] + hi)[k];
  }

  /** After the same selection, the largest element below `k` is the
      (k-1)-th order statistic. */
  lemma LowerMaxIsOrderStatistic(p: seq<real>, k: nat, m: real)
    requires 0 < k < |p|
    requires forall i :: 0 <= i < k ==> p[i] <= p[k]
    requires forall j :: k < j < |p| ==> p[k] <= p[j]
    requires m in p[..k] && forall x :: x in p[..k] ==> x <= m
    ensures Sort(p)[k - 1] == m
  {
    var lo, hi, q := Sort(p[..k]), Sort(p[k + 1..]), Sort(p);
    assert q == lo + [p[k]] + hi by {
      SortedAroundPivot(p, k, lo, hi, q);
    }
    assert |lo| == k && lo[k - 1] == m by {
      SortedLastIsMax(lo, p[..k], m);
    }
    assert q[k - 1] == lo[k - 1];
  }

  method Swap(a: array<real>, i: nat, j: nat)
    requires i < a.Length && j < a.Length
    modifies a
    ensures a[i] == old(a[j]) && a[j] == old(a[i])
    ensures forall m :: 0 <= m < a.Length && m != i && m != j ==> a[m] == old(a[m])
    ensures multiset(a[..]) == multiset(old(a[..]))
  {
    a[i], a[j] := a[j], a[i];
  }

  /** std::nth_element around `k`: a permutation of the array in which every
      element before `k` is at most `a[k]` and every element after it at
      least `a[k]`. The selection is done by repeated minimum extraction. */
  method NthElement(a: array<real>, k: nat)
    requires k < a.Length
    modifies a
    ensures multiset(a[..]) == multiset(old(a[..]))
    ensures forall i :: 0 <= i < k ==> a[i] <= a[k]
    ensures forall j :: k < j < a.Length ==> a[k] <= a[j]
  {
    var i := 0;
    while i <= k
      invariant 0 <= i <= k + 1
      invariant multiset(a[..]) == multiset(old(a[..]))
      invariant forall p, q :: 0 <= p < i && p < q < a.Length ==> a[p] <= a[q]
    {
      var m, j := i, i + 1;
      while j < a.Length
        invariant i <= m < a.Length && i + 1 <= j <= a.Length
        invariant forall q :: i <= q < j ==> a[m] <= a[q]
      {
        if a[j] < a[m] {
          m := j;
        }
        j := j + 1;
      }
      Swap(a, i, m);
      i := i + 1;
    }
  }

  /** std::max_element over the first `k` cells, returning the element. */
  method MaxElement(a: array<real>, k: nat) returns (m: real)
    requires 0 < k <= a.Length
    ensures m in a[..k]
    ensures forall x :: x in a[..k] ==> x <= m
  {
    m := a[0];
    var i := 1;
    while i < k
      invariant 1 <= i <= k
      invariant m in a[..i]
      invariant forall j :: 0 <= j < i ==> a[j] <= m
    {
      if m < a[i] {
        m := a[i];
      }
      i := i + 1;
    }
    assert forall x :: x in a[..k] ==> exists j :: 0 <= j < k && a[j] == x;
  }

  /** internal::Median: selects the middle element in place and, for an even
      count, averages it with the largest element of the lower half. The
      array ends as a permutation of its old contents. */
  method Median(a: array<real>) returns (m: real)
    requires a.Length > 0
    modifies a
    ensures multiset(a[..]) == multiset(old(a[..]))
    ensures m == MedianOf(old(a[..]))
  {
    var mid := a.Length / 2;
    NthElement(a, mid);
    ghost var p := a[..];
    if a.Length % 2 == 0 {
      var element1 := a[mid];
      var element2 := MaxElement(a, mid);
      m := (element1 + element2) / 2.0;
      MedianOfEvenSelection(p, mid, element2);
    } else {
      m := a[mid];
      MedianOfOddSelection(p, mid);
    }
    MedianPermutation(p, old(a[..]));
  }

  /** The median of a selection around the middle cell of an odd count. */
  lemma MedianOfOddSelection(p: seq<real>, k: nat)
    requires |p| % 2 == 1 && k == |p| / 2
    requires forall i :: 0 <= i < k ==> p[i] <= p[k]
    requires forall j :: k < j < |p| ==> p[k] <= p[j]
    ensures MedianOf(p) == p[k]
  {
    PivotIsOrderStatistic(p, k);
  }

  /** The median of a selection around the middle cell of an even count,
      given the largest element `m` below it. */
  lemma MedianOfEvenSelection(p: seq<real>, k: nat, m: real)
    requires |p| > 0 && |p| % 2 == 0 && k == |p| / 2
    requires forall i :: 0 <= i < k ==> p[i] <= p[k]
    requires forall j :: k < j < |p| ==> p[k] <= p[j]
    requires m in p[..k] && forall x :: x in p[..k] ==> x <= m
    ensures MedianOf(p) == (p[k] + m) / 2.0
  {
    var t := Sort(p);
    assert t[k] == p[k] by {
      PivotIsOrderStatistic(p, k);
    }
    assert t[k - 1] == m by {
      LowerMaxIsOrderStatistic(p, k, m);
    }
    assert MedianOf(p) == (t[k] + t[k - 1]) / 2.0;
  }
}
