/** Sorted column lists and the statistics the lane-base locator takes over
    them: boolean-index filtering, sum, maximum and median. */
module Sequences {

  /** Strictly increasing: a sorted list of distinct indices. */
  predicate Increasing(s: seq<int>)
  {
    forall i, j :: 0 <= i < j < |s| ==> s[i] < s[j]
  }

  /** The indices 0, 1, ..., n-1 (`np.arange(n)`). */
  function Range(n: nat): (r: seq<int>)
    ensures |r| == n
    ensures forall i :: 0 <= i < n ==> r[i] == i
    ensures Increasing(r)
    ensures forall x :: x in r <==> 0 <= x < n
  {
    if n == 0 then [] else Range(n - 1) + [n - 1]
  }

  /** The elements of `s` that satisfy `p`, kept in order (numpy boolean indexing `s[p(s)]`). */
  function Filter(s: seq<int>, p: int -> bool): (r: seq<int>)
    ensures |r| <= |s|
    ensures forall x :: x in r <==> x in s && p(x)
  {
    if |s| == 0 then []
    else
      var init := s[..|s| - 1];
      assert s == init + [s[|s| - 1]];
      Filter(init, p) + (if p(s[|s| - 1]) then [s[|s| - 1]] else [])
  }

  /** Filtering a sorted list leaves it sorted. */
  lemma {:induction false} FilterIncreasing(s: seq<int>, p: int -> bool)
    ensures Increasing(s) ==> Increasing(Filter(s, p))
    decreases |s|
  {
    if |s| > 0 && Increasing(s) {
      var init, last := s[..|s| - 1], s[|s| - 1];
      var kept := Filter(init, p);
      assert forall i :: 0 <= i < |init| ==> init[i] == s[i];
      FilterIncreasing(init, p);
      forall i | 0 <= i < |kept|
        ensures kept[i] < last
      {
        assert kept[i] in init;
      }
    }
  }

  /** If `p` holds of exactly the first `k` elements, filtering keeps `k` of them. */
  lemma {:induction false} FilterPrefixLength(s: seq<int>, p: int -> bool, k: nat)
    requires k <= |s|
    requires forall i :: 0 <= i < |s| ==> (p(s[i]) <==> i < k)
    ensures |Filter(s, p)| == k
    decreases |s|
  {
    if |s| > 0 {
      var init := s[..|s| - 1];
      var k' := if k == |s| then k - 1 else k;
      assert forall i :: 0 <= i < |init| ==> init[i] == s[i];
      FilterPrefixLength(init, p, k');
    }
  }

  /** Sum of the elements. */
  function Sum(s: seq<int>): int
  {
    if |s| == 0 then 0 else Sum(s[..|s| - 1]) + s[|s| - 1]
  }

  /** Elements bounded by `lo` and `hi` sum to between lo*|s| and hi*|s|. */
  lemma {:induction false} SumBounds(s: seq<int>, lo: int, hi: int)
    requires forall i :: 0 <= i < |s| ==> lo <= s[i] <= hi
    ensures lo * |s| <= Sum(s) <= hi * |s|
    decreases |s|
  {
    if |s| > 0 {
      var init := s[..|s| - 1];
      assert forall i :: 0 <= i < |init| ==> init[i] == s[i];
      SumBounds(init, lo, hi);
      assert lo * |s| == lo * |init| + lo;
      assert hi * |s| == hi * |init| + hi;
    }
  }

  /** With two or more distinct sorted elements the mean lies strictly between
      the first and the last one: s[0] < Sum(s)/|s| < s[|s|-1]. */
  lemma MeanStrictlyInside(s: seq<int>)
    requires Increasing(s) && |s| >= 2
    ensures s[0] * |s| < Sum(s) < s[|s| - 1] * |s|
  {
    var n := |s|;
    var init := s[..n - 1];
    var first, penult, last := s[0], s[n - 2], s[n - 1];
    assert forall i :: 0 <= i < |init| ==> init[i] == s[i];
    assert forall i :: 0 <= i < |init| ==> first <= init[i] <= penult;
    SumBounds(init, first, penult);
    assert Sum(s) == Sum(init) + last;
    MulStep(first, n - 1);
    MulStep(last, n - 1);
    MulMonotone(penult, last, n - 1);
  }

  /** x*(m+1) == x*m + x. */
  lemma MulStep(x: int, m: nat)
    ensures x * (m + 1) == x * m + x
  {
  }

  /** Multiplying by a non-negative factor keeps order. */
  lemma MulMonotone(x: int, y: int, m: nat)
    ensures x <= y ==> x * m <= y * m
  {
  }

  /** Largest element (`np.max`). */
  function MaxOf(s: seq<nat>): (r: nat)
    requires |s| > 0
    ensures r in s
    ensures forall i :: 0 <= i < |s| ==> s[i] <= r
  {
    if |s| == 1 then s[0]
    else
      var m := MaxOf(s[..|s| - 1]);
      assert forall i :: 0 <= i < |s| - 1 ==> s[..|s| - 1][i] == s[i];
      if s[|s| - 1] > m then s[|s| - 1] else m
  }

  /** `int(np.median(s))` for a sorted `s`: the middle element, or the mean of the
      two middle elements, rounded down. Dafny's `/` floors, which agrees with
      Python's truncation only on non-negative lists, such as the column indices
      it is used for; on [-3, -2] it gives -3 where `int` gives -2. */
  function Median(s: seq<int>): (r: int)
    requires |s| > 0
    ensures Increasing(s) ==> s[0] <= r <= s[|s| - 1]
  {
    (s[(|s| - 1) / 2] + s[|s| / 2]) / 2
  }

  /** The predicate `x <= m`. */
  function AtMost(m: int): int -> bool
  {
    x => x <= m
  }

  /** The predicate `x > m`. */
  function Above(m: int): int -> bool
  {
    x => x > m
  }

  /** The median of distinct sorted values splits them evenly: ceil(n/2) of them
      are at most the median and floor(n/2) are above it. */
  lemma MedianSplitsEvenly(s: seq<int>)
    requires Increasing(s) && |s| > 0
    ensures |Filter(s, AtMost(Median(s)))| == (|s| + 1) / 2
    ensures |Filter(s, Above(Median(s)))| == |s| / 2
  {
    var n := |s|;
    var m := Median(s);
    var k := (n + 1) / 2;
    // s[(n-1)/2] <= m, and m < s[n/2] whenever n is even; so exactly the
    // indices below (n+1)/2 hold values at most m.
    assert s[(n - 1) / 2] <= m;
    assert n % 2 == 0 ==> m < s[n / 2];
    assert forall i :: 0 <= i < n ==> (AtMost(m)(s[i]) <==> i < k) by {
      forall i | 0 <= i < n
        ensures AtMost(m)(s[i]) <==> i < k
      {
        if i < k {
          assert i <= (n - 1) / 2;
          assert s[i] <= s[(n - 1) / 2];
        } else {
          assert n % 2 == 0 ==> n / 2 <= i;
          assert n % 2 == 1 ==> (n - 1) / 2 < i;
        }
      }
    }
    FilterPrefixLength(s, AtMost(m), k);
    assert forall i :: 0 <= i < n ==> (Above(m)(s[i]) <==> i >= k);
    AboveCount(s, m, k);
  }

  /** If the elements above `m` are exactly those from index `k` on, `n - k` of them are. */
  lemma {:induction false} AboveCount(s: seq<int>, m: int, k: nat)
    requires k <= |s|
    requires forall i :: 0 <= i < |s| ==> (Above(m)(s[i]) <==> i >= k)
    ensures |Filter(s, Above(m))| == |s| - k
    decreases |s|
  {
    if |s| > 0 {
      var init := s[..|s| - 1];
      assert forall i :: 0 <= i < |init| ==> init[i] == s[i];
      if k == |s| {
        AboveCount(init, m, k - 1);
      } else {
        AboveCount(init, m, k);
      }
    }
  }

}
