/** Two-dimensional integer grids, the shape of every mask and label image
    in the segmentation code: `h` rows of `w` cells each, indexed `g[row][col]`. */
module Grids {
  type Grid = seq<seq<int>>

  /** `g` has exactly `h` rows and every row has exactly `w` cells. */
  predicate IsGrid(g: Grid, h: nat, w: nat) {
    |g| == h && forall r :: 0 <= r < h ==> |g[r]| == w
  }

  /** The number of columns, numpy's `shape[1]`; a grid without rows reports 0. */
  function Width(g: Grid): nat {
    if |g| == 0 then 0 else |g[0]|
  }

  /** Every grid of `gs` is `h` by `w`, as a stacked 3-D mask array requires. */
  predicate Uniform(gs: seq<Grid>, h: nat, w: nat) {
    forall i :: 0 <= i < |gs| ==> IsGrid(gs[i], h, w)
  }
}
