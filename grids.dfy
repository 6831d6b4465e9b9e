/**
 * Two-dimensional NumPy arrays as values, and the slice arithmetic that
 * Python and NumPy apply to `a[y0:y1, x0:x1]`.
 */
module Grids {

  /** An 8-bit unsigned sample (`uint8`). */
  type Byte = x: int | 0 <= x < 256

  /** A 2-D array: its shape and its rows. */
  datatype Grid<T> = Grid(rows: nat, cols: nat, px: seq<seq<T>>)
  {
    /** NumPy arrays are rectangular: `rows` rows of `cols` samples each. */
    ghost predicate Rectangular() {
      |px| == rows && forall i :: 0 <= i < |px| ==> |px[i]| == cols
    }
  }

  /** A well-formed 2-D array. */
  type Raster<T> = g: Grid<T> | g.Rectangular() witness Grid(0, 0, [])

  /** `g[y][x]`, for an index inside the shape. */
  function At<T>(g: Raster<T>, y: int, x: int): T
    requires 0 <= y < g.rows && 0 <= x < g.cols
  {
    g.px[y][x]
  }

  /** True when `(y, x)` lies inside the shape of `g`. */
  predicate Inside<T>(g: Raster<T>, y: int, x: int) {
    0 <= y < g.rows && 0 <= x < g.cols
  }

  /**
   * Python's adjustment of one slice bound (step 1) against an axis of
   * length `n`: a negative bound counts from the end, and the result is
   * clipped into `[0, n]`.
   */
  function Bound(n: nat, i: int): (b: nat)
    ensures b <= n
    ensures 0 <= i <= n ==> b == i
    ensures i < 0 && 0 <= i + n ==> b == n + i
    ensures i + n < 0 ==> b == 0
    ensures i > n ==> b == n
  {
    if i < 0 then (if i + n < 0 then 0 else i + n)
    else if i > n then n
    else i
  }

  /** The length of the slice `[s:e]` of an axis of length `n`. */
  function SliceLen(n: nat, s: int, e: int): (len: nat)
    ensures len <= n
    ensures Bound(n, s) + len <= n
    ensures 0 <= s <= e <= n ==> len == e - s
  {
    if Bound(n, e) > Bound(n, s) then Bound(n, e) - Bound(n, s) else 0
  }

  /** The NumPy slice `g[y0:y1, x0:x1]`: never raises, clips off-edge windows. */
  function Slice<T>(g: Raster<T>, y0: int, y1: int, x0: int, x1: int): (s: Raster<T>)
    ensures s.rows == SliceLen(g.rows, y0, y1) && s.cols == SliceLen(g.cols, x0, x1)
  {
    var r0, c0 := Bound(g.rows, y0), Bound(g.cols, x0);
    var h, w := SliceLen(g.rows, y0, y1), SliceLen(g.cols, x0, x1);
    Grid(h, w, seq(h, i requires 0 <= i < h => seq(w, j requires 0 <= j < w => g.px[r0 + i][c0 + j])))
  }

  /** Sample `(i, j)` of a slice is the sample at the adjusted start bounds plus `(i, j)`. */
  lemma SliceAt<T>(g: Raster<T>, y0: int, y1: int, x0: int, x1: int, i: int, j: int)
    requires 0 <= i < SliceLen(g.rows, y0, y1) && 0 <= j < SliceLen(g.cols, x0, x1)
    ensures Slice(g, y0, y1, x0, x1).px[i][j] == g.px[Bound(g.rows, y0) + i][Bound(g.cols, x0) + j]
  {
  }

  /**
   * A window that lies inside the array is cut exactly: it has the
   * requested size and holds the samples at the requested offsets.
   */
  lemma SliceInside<T>(g: Raster<T>, y0: int, y1: int, x0: int, x1: int)
    requires 0 <= y0 <= y1 <= g.rows && 0 <= x0 <= x1 <= g.cols
    ensures Slice(g, y0, y1, x0, x1).rows == y1 - y0
    ensures Slice(g, y0, y1, x0, x1).cols == x1 - x0
    ensures forall i, j :: 0 <= i < y1 - y0 && 0 <= j < x1 - x0 ==>
      Slice(g, y0, y1, x0, x1).px[i][j] == g.px[y0 + i][x0 + j]
  {
  }
}
