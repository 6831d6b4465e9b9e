/**
 * Merging a grid of tiles back into one single-channel image
 * (`resmerger.py`, `merge_tiles`). The tiles are an input sequence:
 * entry `k` is tile `{k}per.png` as read in colour mode, or `None` when it
 * cannot be read. The canvas is a two-dimensional array that the loops fill
 * in place, block by block.
 */
module ResMerger {
  import opened Wrappers
  import opened Grids

  /** A pixel of a tile read in colour mode; OpenCV orders the channels blue, green, red. */
  datatype Bgr = Bgr(b: Byte, g: Byte, r: Byte)

  datatype MergeError =
    | NegativeDimensions      // `np.zeros` refuses a negative canvas dimension
    | MissingTile(k: nat)     // tile `{k}per.png` could not be read
    | ShapeMismatch(k: nat)   // channel 0 of tile `k` does not broadcast onto its block
    | EmptyCanvas             // `cv2.imwrite` refuses the merged image: it has no pixel

  /**
   * NumPy accepts `block[...] = tile[:, :, 0]` for a `ts × ts` block when each
   * axis of the tile either has length `ts` or length 1 (and is repeated).
   */
  predicate Broadcasts(tile: Raster<Bgr>, ts: int) {
    (tile.rows == ts || tile.rows == 1) && (tile.cols == ts || tile.cols == 1)
  }

  /** The value that broadcasting writes at offset `(y, x)` of the block: channel 0. */
  function TileSample(tile: Raster<Bgr>, ts: int, y: int, x: int): Byte
    requires Broadcasts(tile, ts) && 0 <= y < ts && 0 <= x < ts
  {
    var ty := if tile.rows == 1 then 0 else y;
    var tx := if tile.cols == 1 then 0 else x;
    tile.px[ty][tx].b
  }

  /** What goes wrong, if anything, when the loops reach tile `k`. */
  function Problem(tiles: seq<Option<Raster<Bgr>>>, ts: int, k: nat): Option<MergeError> {
    if k >= |tiles| || tiles[k].None? then Some(MissingTile(k))
    else if !Broadcasts(tiles[k].value, ts) then Some(ShapeMismatch(k))
    else None
  }

  /** The error raised while visiting tiles `0 .. n-1` in order: the first problem met. */
  function FirstProblem(tiles: seq<Option<Raster<Bgr>>>, ts: int, n: nat): (e: Option<MergeError>)
    ensures e.None? <==> forall k :: 0 <= k < n ==> Problem(tiles, ts, k).None?
    ensures e.Some? ==> exists k :: 0 <= k < n && e == Problem(tiles, ts, k) &&
                                    forall m :: 0 <= m < k ==> Problem(tiles, ts, m).None?
  {
    if n == 0 then None
    else if FirstProblem(tiles, ts, n - 1).Some? then FirstProblem(tiles, ts, n - 1)
    else Problem(tiles, ts, n - 1)
  }

  /** How many tiles `for i in range(rows): for j in range(cols)` visits. */
  function TileCount(rows: int, cols: int): nat {
    if rows > 0 && cols > 0 then rows * cols else 0
  }

  /**
   * The error `merge_tiles` raises, or `None` when it writes the merged
   * image: the canvas is allocated first, the tiles are visited next, and
   * the write comes last.
   */
  function Outcome(tiles: seq<Option<Raster<Bgr>>>, rows: int, cols: int, ts: int): Option<MergeError> {
    if rows * ts < 0 || cols * ts < 0 then Some(NegativeDimensions)
    else if FirstProblem(tiles, ts, TileCount(rows, cols)).Some? then FirstProblem(tiles, ts, TileCount(rows, cols))
    else if rows * ts == 0 || cols * ts == 0 then Some(EmptyCanvas)
    else None
  }

  /**
   * Pixel `(r, c)` of the merged image: pixel `(r % ts, c % ts)` of channel 0
   * of tile `(r / ts) * cols + c / ts`. Where no tile is placed it keeps the
   * canvas's initial 0.
   */
  function MergedPixel(tiles: seq<Option<Raster<Bgr>>>, cols: int, ts: int, r: int, c: int): Byte {
    if ts <= 0 || r < 0 || c < 0 then 0
    else
      var k := (r / ts) * cols + c / ts;
      if 0 <= k < |tiles| && tiles[k].Some? && Broadcasts(tiles[k].value, ts)
      then TileSample(tiles[k].value, ts, r % ts, c % ts)
      else 0
  }

  /** Pixels already merged once blocks `(0,0) .. (i,j-1)` in row-major order are placed. */
  predicate Done(ts: int, i: int, j: int, r: int, c: int) {
    r < i * ts || (r < i * ts + ts && c < j * ts)
  }

  /** Placing block `(i, j)` extends the merged region by exactly that block. */
  lemma DoneStep(ts: int, i: int, j: int, r: int, c: int)
    requires 0 <= ts && 0 <= r && 0 <= c
    ensures Done(ts, i, j + 1, r, c) <==>
      Done(ts, i, j, r, c) || (i * ts <= r < i * ts + ts && j * ts <= c < j * ts + ts)
  {
    assert (j + 1) * ts == j * ts + ts;
  }

  /** The canvas holds the merged pixels where `Done` holds and its initial 0 elsewhere. */
  ghost predicate Placed(merged: array2<Byte>, tiles: seq<Option<Raster<Bgr>>>, cols: int, ts: int, i: int, j: int)
    reads merged
  {
    forall r, c :: 0 <= r < merged.Length0 && 0 <= c < merged.Length1 ==>
      merged[r, c] == if Done(ts, i, j, r, c) then MergedPixel(tiles, cols, ts, r, c) else 0
  }

  /** Signs of a product. */
  lemma MulSigns(a: int, b: int)
    ensures a >= 0 && b >= 0 ==> a * b >= 0
    ensures a <= 0 && b <= 0 ==> a * b >= 0
    ensures a <= 0 && b >= 0 ==> a * b <= 0
    ensures a >= 0 && b <= 0 ==> a * b <= 0
  {
  }

  /** Multiplying by a non-negative factor keeps the order. */
  lemma MulMono(a: int, b: int, t: int)
    ensures a <= b && t >= 0 ==> a * t <= b * t
  {
    MulSigns(b - a, t);
    assert b * t - a * t == (b - a) * t;
  }

  /** Division recovers the block and the offset of a coordinate inside block `q`. */
  lemma DivUnique(r: int, ts: int, q: int)
    requires q * ts <= r < q * ts + ts
    ensures ts > 0 && r / ts == q && r % ts == r - q * ts
  {
    var q0 := r / ts;
    assert q0 * ts <= r < q0 * ts + ts;
    MulMono(q0 + 1, q, ts);
    MulMono(q + 1, q0, ts);
    assert (q0 + 1) * ts == q0 * ts + ts;
    assert (q + 1) * ts == q * ts + ts;
  }

  /**
   * Placement: the pixel at offset `(y, x)` of block `(i, j)` of the merged
   * image comes from tile `i * cols + j`.
   */
  lemma BlockPixel(tiles: seq<Option<Raster<Bgr>>>, cols: int, ts: int, i: int, j: int, y: int, x: int)
    requires 0 <= i && 0 <= j < cols && 0 <= y < ts && 0 <= x < ts
    requires Problem(tiles, ts, i * cols + j).None?
    ensures MergedPixel(tiles, cols, ts, i * ts + y, j * ts + x) == TileSample(tiles[i * cols + j].value, ts, y, x)
  {
    DivUnique(i * ts + y, ts, i);
    DivUnique(j * ts + x, ts, j);
  }

  /** A tile of exactly `ts × ts` pixels is copied as it is: its channel 0. */
  lemma ExactTile(tile: Raster<Bgr>, ts: int, y: int, x: int)
    requires tile.rows == ts && tile.cols == ts && 0 <= y < ts && 0 <= x < ts
    ensures Broadcasts(tile, ts) && TileSample(tile, ts, y, x) == tile.px[y][x].b
  {
  }

  /**
   * Blocks are disjoint: inside a canvas of `rows*ts × cols*ts` pixels each
   * pixel lies in exactly one block, the one at `(r / ts, c / ts)`, so each
   * pixel is written once.
   */
  lemma BlocksPartition(rows: int, cols: int, ts: int, r: int, c: int, i: int, j: int)
    requires rows > 0 && cols > 0
    requires 0 <= r < rows * ts && 0 <= c < cols * ts
    ensures ts > 0 && 0 <= r / ts < rows && 0 <= c / ts < cols
    ensures (i * ts <= r < i * ts + ts && j * ts <= c < j * ts + ts) <==> (i == r / ts && j == c / ts)
  {
    BlockIndex(rows, ts, r, i);
    BlockIndex(cols, ts, c, j);
  }

  /** Along one axis of `n` blocks of `ts` pixels, coordinate `r` lies in block `r / ts` and in no other. */
  lemma BlockIndex(n: int, ts: int, r: int, q: int)
    requires n > 0 && 0 <= r < n * ts
    ensures ts > 0 && 0 <= r / ts < n
    ensures q * ts <= r < q * ts + ts <==> q == r / ts
  {
    MulSigns(n, ts);
    assert ts > 0;
    MulMono(n, r / ts, ts);
    if q * ts <= r < q * ts + ts {
      DivUnique(r, ts, q);
    }
  }

  /**
   * When no tile is visited and the canvas has a pixel, `rows`, `cols` and
   * `ts` are all negative, and the written image is the initial all-zero
   * canvas.
   */
  lemma NoTilesBlank(tiles: seq<Option<Raster<Bgr>>>, rows: int, cols: int, ts: int, r: int, c: int)
    requires TileCount(rows, cols) == 0
    requires 0 <= r < rows * ts && 0 <= c < cols * ts
    ensures rows < 0 && cols < 0 && ts < 0
    ensures MergedPixel(tiles, cols, ts, r, c) == 0
  {
    MulSigns(rows, ts);
    MulSigns(cols, ts);
  }

  /** On a tile-by-tile error, the error names the first bad tile in row-major order. */
  lemma FirstBadTile(tiles: seq<Option<Raster<Bgr>>>, rows: int, cols: int, ts: int, k: nat)
    requires rows * ts >= 0 && cols * ts >= 0
    requires k < TileCount(rows, cols) && Problem(tiles, ts, k).Some?
    requires forall m :: 0 <= m < k ==> Problem(tiles, ts, m).None?
    ensures Outcome(tiles, rows, cols, ts) == Problem(tiles, ts, k)
  {
    var e := FirstProblem(tiles, ts, TileCount(rows, cols));
    assert e.Some?;
    var k' :| 0 <= k' < TileCount(rows, cols) && e == Problem(tiles, ts, k') &&
              forall m :: 0 <= m < k' ==> Problem(tiles, ts, m).None?;
    if k' < k {
    } else if k < k' {
    }
  }

  /**
   * The merged image is written exactly when the canvas has pixels in both
   * dimensions and no visited tile has a problem; a valid grid with a zero
   * dimension fails at the write.
   */
  lemma WrittenIff(tiles: seq<Option<Raster<Bgr>>>, rows: int, cols: int, ts: int)
    ensures Outcome(tiles, rows, cols, ts).None? <==>
      rows * ts > 0 && cols * ts > 0 && forall k :: 0 <= k < TileCount(rows, cols) ==> Problem(tiles, ts, k).None?
    ensures rows * ts >= 0 && cols * ts >= 0 && (rows * ts == 0 || cols * ts == 0)
      && (forall k :: 0 <= k < TileCount(rows, cols) ==> Problem(tiles, ts, k).None?)
      ==> Outcome(tiles, rows, cols, ts) == Some(EmptyCanvas)
  {
  }

  /**
   * `merged[i*ts:(i+1)*ts, j*ts:(j+1)*ts, 0] = tile[:, :, 0]` for tile
   * `k = i*cols + j`: the blocks before `(i, j)` stay merged, block `(i, j)`
   * becomes merged, and the rest of the canvas stays 0.
   */
  method PlaceBlock(tiles: seq<Option<Raster<Bgr>>>, merged: array2<Byte>, rows: int, cols: int, ts: int, i: int, j: int)
    requires 0 <= i < rows && 0 <= j < cols && 0 <= ts
    requires merged.Length0 == rows * ts && merged.Length1 == cols * ts
    requires Problem(tiles, ts, i * cols + j).None?
    requires Placed(merged, tiles, cols, ts, i, j)
    modifies merged
    ensures Placed(merged, tiles, cols, ts, i, j + 1)
  {
    var tile := tiles[i * cols + j].value;
    var y0, x0 := i * ts, j * ts;
    MulMono(i + 1, rows, ts);
    MulMono(j + 1, cols, ts);
    assert (i + 1) * ts == y0 + ts && (j + 1) * ts == x0 + ts;
    WriteBlock(tile, merged, ts, y0, x0);
    forall r, c | 0 <= r < merged.Length0 && 0 <= c < merged.Length1
      ensures merged[r, c] == if Done(ts, i, j + 1, r, c) then MergedPixel(tiles, cols, ts, r, c) else 0
    {
      PlacedPixel(tiles, cols, ts, i, j, r, c, old(merged[r, c]), merged[r, c]);
    }
  }

  /** One pixel of `PlaceBlock`: merged before and written from the tile, or untouched, it is merged after. */
  lemma PlacedPixel(tiles: seq<Option<Raster<Bgr>>>, cols: int, ts: int, i: int, j: int, r: int, c: int,
                    before: Byte, after: Byte)
    requires 0 <= i && 0 <= j < cols && 0 <= ts && 0 <= r && 0 <= c
    requires Problem(tiles, ts, i * cols + j).None?
    requires before == if Done(ts, i, j, r, c) then MergedPixel(tiles, cols, ts, r, c) else 0
    requires after == if i * ts <= r < i * ts + ts && j * ts <= c < j * ts + ts
                      then TileSample(tiles[i * cols + j].value, ts, r - i * ts, c - j * ts) else before
    ensures after == if Done(ts, i, j + 1, r, c) then MergedPixel(tiles, cols, ts, r, c) else 0
  {
    DoneStep(ts, i, j, r, c);
    if i * ts <= r < i * ts + ts && j * ts <= c < j * ts + ts {
      BlockPixel(tiles, cols, ts, i, j, r - i * ts, c - j * ts);
    }
  }

  /** The slice assignment itself: the `ts × ts` block at `(y0, x0)` receives the tile's blue channel, nothing else changes. */
  method WriteBlock(tile: Raster<Bgr>, merged: array2<Byte>, ts: int, y0: int, x0: int)
    requires Broadcasts(tile, ts) && 0 <= y0 && 0 <= x0
    requires y0 + ts <= merged.Length0 && x0 + ts <= merged.Length1
    modifies merged
    ensures forall r, c :: 0 <= r < merged.Length0 && 0 <= c < merged.Length1 ==>
      merged[r, c] == if y0 <= r < y0 + ts && x0 <= c < x0 + ts then TileSample(tile, ts, r - y0, c - x0) else old(merged[r, c])
  {
    forall r, c | y0 <= r < y0 + ts && x0 <= c < x0 + ts {
      merged[r, c] := TileSample(tile, ts, r - y0, c - x0);
    }
  }

  /** The inner `for j in range(cols)` loop for tile row `i`. */
  method MergeRow(tiles: seq<Option<Raster<Bgr>>>, merged: array2<Byte>, rows: int, cols: int, ts: int, i: int, count: nat)
    returns (err: Option<MergeError>, count': nat)
    requires 0 <= i < rows && 0 <= ts
    requires merged.Length0 == rows * ts && merged.Length1 == cols * ts
    requires count == i * TileCount(1, cols)
    requires FirstProblem(tiles, ts, count).None?
    requires Placed(merged, tiles, cols, ts, i, 0)
    modifies merged
    ensures count' == count + TileCount(1, cols)
    ensures err == FirstProblem(tiles, ts, count')
    ensures err.None? ==> Placed(merged, tiles, cols, ts, i + 1, 0)
  {
    count' := count;
    var j := 0;
    while j < cols
      invariant if cols >= 0 then 0 <= j <= cols else j == 0
      invariant count' == i * TileCount(1, cols) + j
      invariant FirstProblem(tiles, ts, count').None?
      invariant Placed(merged, tiles, cols, ts, i, j)
    {
      assert count' == i * cols + j;
      err := Problem(tiles, ts, count');
      if err.Some? {
        count' := count + TileCount(1, cols);
        assert FirstProblem(tiles, ts, i * cols + j + 1) == err;
        FirstProblemGrows(tiles, ts, i * cols + j + 1, count');
        return;
      }
      PlaceBlock(tiles, merged, rows, cols, ts, i, j);
      count' := count' + 1;
      j := j + 1;
    }
    err := None;
  }

  /** Once some tile has a problem, so does every longer prefix, with the same first problem. */
  lemma {:induction false} FirstProblemGrows(tiles: seq<Option<Raster<Bgr>>>, ts: int, n: nat, m: nat)
    requires n <= m && FirstProblem(tiles, ts, n).Some?
    ensures FirstProblem(tiles, ts, m) == FirstProblem(tiles, ts, n)
    decreases m - n
  {
    if n < m {
      FirstProblemGrows(tiles, ts, n, m - 1);
    }
  }

  /**
   * `merge_tiles`: allocate the zero canvas, then place tile `count` at
   * block `(i, j)` for every `i`, `j` in row-major order, then write the
   * canvas, which `cv2.imwrite` refuses when it has no pixel. On error no
   * image is produced; otherwise the canvas and the final count are the
   * result.
   */
  method MergeTiles(tiles: seq<Option<Raster<Bgr>>>, rows: int, cols: int, ts: int)
    returns (out: Result<array2<Byte>, MergeError>, count: nat)
    ensures out.Failure? <==> Outcome(tiles, rows, cols, ts).Some?
    ensures out.Failure? ==> out.error == Outcome(tiles, rows, cols, ts).value
    ensures out.Success? ==> fresh(out.value)
    ensures out.Success? ==> out.value.Length0 == rows * ts && out.value.Length1 == cols * ts
    ensures out.Success? ==> count == TileCount(rows, cols)
    ensures out.Success? ==> forall r, c :: 0 <= r < out.value.Length0 && 0 <= c < out.value.Length1 ==>
      out.value[r, c] == MergedPixel(tiles, cols, ts, r, c)
  {
    var bigH, bigW := rows * ts, cols * ts;
    if bigH < 0 || bigW < 0 {
      return Failure(NegativeDimensions), 0;
    }
    var merged := new Byte[bigH, bigW]((_, _) => 0);
    count := 0;
    var i := 0;
    while i < rows
      invariant if rows >= 0 then 0 <= i <= rows else i == 0
      invariant count == i * TileCount(1, cols)
      invariant FirstProblem(tiles, ts, count).None?
      invariant Placed(merged, tiles, cols, ts, i, 0)
    {
      MulSigns(rows, ts);
      MulMono(i + 1, rows, TileCount(1, cols));
      var err;
      err, count := MergeRow(tiles, merged, rows, cols, ts, i, count);
      if err.Some? {
        FirstProblemGrows(tiles, ts, count, TileCount(rows, cols));
        return Failure(err.value), count;
      }
      i := i + 1;
    }
    MergeDone(tiles, merged, rows, cols, ts, i, count);
    if bigH == 0 || bigW == 0 {
      return Failure(EmptyCanvas), count;
    }
    out := Success(merged);
  }

  /** After the outer loop every pixel is merged and every tile was visited. */
  lemma MergeDone(tiles: seq<Option<Raster<Bgr>>>, merged: array2<Byte>, rows: int, cols: int, ts: int, i: int, count: nat)
    requires merged.Length0 == rows * ts >= 0 && merged.Length1 == cols * ts >= 0
    requires if rows >= 0 then i == rows else i == 0
    requires count == i * TileCount(1, cols)
    requires FirstProblem(tiles, ts, count).None?
    requires Placed(merged, tiles, cols, ts, i, 0)
    ensures count == TileCount(rows, cols)
    ensures FirstProblem(tiles, ts, TileCount(rows, cols)).None?
    ensures forall r, c :: 0 <= r < merged.Length0 && 0 <= c < merged.Length1 ==>
      merged[r, c] == MergedPixel(tiles, cols, ts, r, c)
  {
    forall r, c | 0 <= r < merged.Length0 && 0 <= c < merged.Length1
      ensures merged[r, c] == MergedPixel(tiles, cols, ts, r, c)
    {
      if rows > 0 {
        assert Done(ts, i, 0, r, c);
      } else {
        NoTilesBlank(tiles, rows, cols, ts, r, c);
      }
    }
  }
}
