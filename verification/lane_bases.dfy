/** The lane-base locator (`get_lane_beginnings`): a column histogram of the
    bottom band of the mask, its "strong" columns, and the median of each side
    of their mean as the left and right lane bases. */
module LaneBases {

  import opened Raster
  import opened Sequences
  import opened Results

  /** `EmptyHistogram`: a width-0 mask, where `np.max` of the empty histogram raises.
      `NoLaneDetected`: the strong columns do not lie on both sides of their mean,
      so a median of an empty selection is taken and converting it raises. */
  datatype LaneError = EmptyHistogram | NoLaneDetected

  /** First row of the bottom band, `int(0.95 * height)`. */
  function BandStart(height: nat): (r: nat)
    ensures r <= height
    ensures 100 * r <= 95 * height < 100 * (r + 1)
  {
    (95 * height) / 100
  }

  /** The rows the histogram is taken over (`mask[int(0.95*height):]`). */
  function Band(mask: Mask): (band: Mask)
    ensures |band| == |mask| - BandStart(|mask|)
    ensures forall i :: 0 <= i < |band| ==> band[i] == mask[BandStart(|mask|) + i]
  {
    mask[BandStart(|mask|)..]
  }

  /** Number of rows whose cell in column `c` is true. */
  function ColumnCount(rows: Mask, c: int): (r: nat)
    ensures r <= |rows|
  {
    if |rows| == 0 then 0
    else ColumnCount(rows[..|rows| - 1], c) + (if Cell(rows, |rows| - 1, c) then 1 else 0)
  }

  /** A column count is zero exactly when no row has a true cell in that column. */
  lemma {:induction false} ColumnCountZero(rows: Mask, c: int)
    ensures ColumnCount(rows, c) == 0 <==> forall i :: 0 <= i < |rows| ==> !Cell(rows, i, c)
    decreases |rows|
  {
    if |rows| > 0 {
      var init := rows[..|rows| - 1];
      assert forall i :: 0 <= i < |init| ==> init[i] == rows[i];
      assert forall i :: 0 <= i < |init| ==> Cell(init, i, c) == Cell(rows, i, c);
      ColumnCountZero(init, c);
    }
  }

  /** `np.sum(bottom_mask, axis=0)`: per column, the true cells in the bottom band. */
  function Histogram(mask: Mask, w: nat): (h: seq<nat>)
    ensures |h| == w
    ensures forall c :: 0 <= c < w ==> h[c] <= |mask| - BandStart(|mask|)
  {
    seq(w, c => ColumnCount(Band(mask), c))
  }

  /** Column `c` is strong: `histogram[c] > max / 3`, i.e. 3*histogram[c] > max. */
  function IsStrong(hist: seq<nat>, top: nat): int -> bool
  {
    c => 0 <= c < |hist| && 3 * hist[c] > top
  }

  /** Column `c` of the mask's bottom band is strong. */
  predicate StrongColumn(mask: Mask, w: nat, c: int)
  {
    && 0 <= c < w
    && 3 * Histogram(mask, w)[c] > MaxOf(Histogram(mask, w))
  }

  /** `np.argwhere(histogram > np.max(histogram) / 3)`, flattened: the strong
      columns in increasing order. */
  function Strong(mask: Mask, w: nat): (s: seq<int>)
    ensures Increasing(s)
    ensures forall c :: c in s ==> 0 <= c < w
  {
    if w == 0 then []
    else
      var hist := Histogram(mask, w);
      FilterIncreasing(Range(w), IsStrong(hist, MaxOf(hist)));
      Filter(Range(w), IsStrong(hist, MaxOf(hist)))
  }

  /** The strong columns are exactly the columns whose count exceeds a third of
      the highest count. */
  lemma StrongColumnsExactly(mask: Mask, w: nat)
    ensures forall c :: c in Strong(mask, w) <==> StrongColumn(mask, w, c)
  {
    if w > 0 {
      var hist := Histogram(mask, w);
      var top := MaxOf(hist);
      var s := Strong(mask, w);
      assert s == Filter(Range(w), IsStrong(hist, top));
      forall c
        ensures c in s <==> StrongColumn(mask, w, c)
      {
        assert c in s <==> c in Range(w) && IsStrong(hist, top)(c);
      }
    }
  }

  /** Column `c` lies strictly below the mean of `s` (c < Sum(s)/|s|). */
  function BelowMean(s: seq<int>): int -> bool
  {
    c => c * |s| < Sum(s)
  }

  /** Column `c` lies strictly above the mean of `s`. */
  function AboveMean(s: seq<int>): int -> bool
  {
    c => c * |s| > Sum(s)
  }

  /** The strong columns strictly below their mean, in order. */
  function LowCluster(s: seq<int>): (r: seq<int>)
    ensures forall c :: c in r <==> c in s && c * |s| < Sum(s)
    ensures Increasing(s) ==> Increasing(r)
  {
    FilterIncreasing(s, BelowMean(s));
    Filter(s, BelowMean(s))
  }

  /** The strong columns strictly above their mean, in order. */
  function HighCluster(s: seq<int>): (r: seq<int>)
    ensures forall c :: c in r <==> c in s && c * |s| > Sum(s)
    ensures Increasing(s) ==> Increasing(r)
  {
    FilterIncreasing(s, AboveMean(s));
    Filter(s, AboveMean(s))
  }

  /** A column exactly at the mean belongs to neither cluster. */
  lemma MeanColumnInNeither(s: seq<int>, c: int)
    requires c in s && c * |s| == Sum(s)
    ensures c !in LowCluster(s) && c !in HighCluster(s)
  {
  }

  /** Both clusters are non-empty exactly when there are two or more strong columns. */
  lemma ClustersNonEmptyIff(s: seq<int>)
    requires Increasing(s)
    ensures (|LowCluster(s)| > 0 && |HighCluster(s)| > 0) <==> |s| >= 2
  {
    if |s| >= 2 {
      MeanStrictlyInside(s);
      assert s[0] in LowCluster(s);
      assert s[|s| - 1] in HighCluster(s);
    } else if |s| == 1 {
      assert Sum(s) == s[0];
    }
  }

  /** A column below the mean lies left of a column above it, so every
      low-cluster column lies left of every high-cluster column. */
  lemma ClustersSeparated(s: seq<int>)
    ensures forall x, y :: x in LowCluster(s) && y in HighCluster(s) ==> x < y
  {
    forall x, y | x in LowCluster(s) && y in HighCluster(s)
      ensures x < y
    {
      MulMonotone(y, x, |s|);
    }
  }

  /** In a sorted list, any member lies between the first and the last element. */
  lemma MemberBetweenEnds(s: seq<int>, x: int)
    requires Increasing(s) && x in s
    ensures s[0] <= x <= s[|s| - 1]
  {
  }

  /** For two or more sorted strong columns, the two cluster medians are ordered
      and lie within the span of the strong columns. */
  lemma ClusterMediansOrdered(s: seq<int>)
    requires Increasing(s) && |s| >= 2
    ensures |LowCluster(s)| > 0 && |HighCluster(s)| > 0
    ensures s[0] <= Median(LowCluster(s)) < Median(HighCluster(s)) <= s[|s| - 1]
  {
    var low, high := LowCluster(s), HighCluster(s);
    ClustersNonEmptyIff(s);
    MemberBetweenEnds(s, low[0]);
    MemberBetweenEnds(s, high[|high| - 1]);
    assert low[|low| - 1] in low && high[0] in high;
    ClustersSeparated(s);
  }

  /** The last step of `get_lane_beginnings`: split the sorted strong columns at
      their mean and take the truncated median of each side. */
  function SplitAtMean(s: seq<int>): (r: Result<(int, int), LaneError>)
    requires Increasing(s)
    ensures r.Ok? <==> |s| >= 2
    ensures r.Err? ==> r.error == NoLaneDetected
    ensures r.Ok? ==>
              && |LowCluster(s)| > 0 && |HighCluster(s)| > 0
              && s[0] <= r.value.0 < r.value.1 <= s[|s| - 1]
              && r.value.0 == Median(LowCluster(s))
              && r.value.1 == Median(HighCluster(s))
  {
    ClustersNonEmptyIff(s);
    if |s| < 2 then Err(NoLaneDetected)
    else
      ClusterMediansOrdered(s);
      Ok((Median(LowCluster(s)), Median(HighCluster(s))))
  }

  /** `get_lane_beginnings`: the left and right lane bases, or the error the
      original raises. */
  function LaneBeginnings(mask: Mask, w: nat): (r: Result<(int, int), LaneError>)
    requires Rect(mask, w)
    ensures w == 0 ==> r == Err(EmptyHistogram)
    ensures w > 0 ==> (r.Ok? <==> |Strong(mask, w)| >= 2)
    ensures w > 0 && r.Err? ==> r.error == NoLaneDetected
    ensures r.Ok? ==> var s := Strong(mask, w);
              && |s| >= 2 && |LowCluster(s)| > 0 && |HighCluster(s)| > 0
              && s[0] <= r.value.0 < r.value.1 <= s[|s| - 1] < w
              && r.value.0 == Median(LowCluster(s))
              && r.value.1 == Median(HighCluster(s))
  {
    if w == 0 then Err(EmptyHistogram)
    else
      var s := Strong(mask, w);
      var r := SplitAtMean(s);
      assert r.Ok? ==> s[|s| - 1] in s;
      r
  }

  /** The result depends only on the bottom band: masks that agree on rows
      from `BandStart` down give the same lane bases. */
  lemma BasesDependOnlyOnBand(m1: Mask, m2: Mask, w: nat)
    requires Rect(m1, w) && Rect(m2, w) && |m1| == |m2|
    requires forall i, j :: BandStart(|m1|) <= i < |m1| && 0 <= j < w ==> m1[i][j] == m2[i][j]
    ensures LaneBeginnings(m1, w) == LaneBeginnings(m2, w)
  {
    var start := BandStart(|m1|);
    forall i | start <= i < |m1|
      ensures m1[i] == m2[i]
    {
      assert forall j :: 0 <= j < w ==> m1[i][j] == m2[i][j];
    }
    assert Band(m1) == Band(m2);
    assert Histogram(m1, w) == Histogram(m2, w);
  }

  /** A bottom band with no true cell gives no strong column, hence no lane. */
  lemma BlankBandFails(mask: Mask, w: nat)
    requires Rect(mask, w)
    requires forall i, j :: BandStart(|mask|) <= i < |mask| && 0 <= j < w ==> !mask[i][j]
    ensures LaneBeginnings(mask, w).Err?
  {
    if w > 0 {
      var band := Band(mask);
      var hist := Histogram(mask, w);
      forall c | 0 <= c < w
        ensures hist[c] == 0
      {
        assert forall i :: 0 <= i < |band| ==> !Cell(band, i, c) by {
          forall i | 0 <= i < |band|
            ensures !Cell(band, i, c)
          {
            assert band[i] == mask[BandStart(|mask|) + i];
          }
        }
        ColumnCountZero(band, c);
      }
      assert MaxOf(hist) == 0;
    }
  }

}
