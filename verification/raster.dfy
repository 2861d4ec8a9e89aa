/** Row-major rasters: an image or a mask is a sequence of rows. */
module Raster {

  /** A boolean mask of shape height x width (numpy `bool` array of shape (H, W)). */
  type Mask = seq<seq<bool>>

  /** Every row of `g` has exactly `w` cells, so `g` has shape |g| x w. */
  predicate Rect<T>(g: seq<seq<T>>, w: nat)
  {
    forall i :: 0 <= i < |g| ==> |g[i]| == w
  }

  /** `a` and `b` have the same number of rows, and matching rows have equal length. */
  predicate SameShape<A, B>(a: seq<seq<A>>, b: seq<seq<B>>)
  {
    && |a| == |b|
    && forall i :: 0 <= i < |a| ==> |a[i]| == |b[i]|
  }

  /** The all-false mask of shape h x w (`np.full((h, w), False)`). */
  function Blank(h: nat, w: nat): (r: Mask)
    ensures |r| == h && Rect(r, w)
    ensures forall i, j :: 0 <= i < h && 0 <= j < w ==> !r[i][j]
  {
    seq(h, _ => seq(w, _ => false))
  }

  /** The cell (i, j) of `m`, read as false outside the grid. */
  function Cell(m: Mask, i: int, j: int): bool
  {
    0 <= i < |m| && 0 <= j < |m[i]| && m[i][j]
  }

}
