/**
 * Cutting a before/after/label image triple into square tiles
 * (`split.py`, `split_images`). Reading the images and writing the tiles
 * are outside the model: the images are inputs (`None` when unreadable)
 * and the saved tiles are the result, in the order they are written.
 */
module Split {
  import opened Wrappers
  import opened Grids
  import Names

  /** Python's `//` on integers: the quotient rounded toward minus infinity. */
  function FloorDiv(a: int, b: int): (q: int)
    requires b != 0
    ensures b > 0 ==> q * b <= a < q * b + b
    ensures b < 0 ==> q * b >= a > q * b + b
  {
    if b > 0 then a / b else (-a) / (-b)
  }

  /** The tiling parameters: the shape of `before`, `patch_size` and `shift`. */
  datatype Layout = Layout(h: nat, w: nat, ps: int, shift: int)

  /** `hr = h // patch_size`. */
  function Hr(g: Layout): int
    requires g.ps != 0
  {
    FloorDiv(g.h, g.ps)
  }

  /** `wr = w // patch_size`. */
  function Wr(g: Layout): int
    requires g.ps != 0
  {
    FloorDiv(g.w, g.ps)
  }

  /** A grid position `(i, j)`: tile row `i`, tile column `j`. */
  datatype Cell = Cell(i: int, j: int)

  /** The window `[y0:y1, x0:x1]` of a position, `x0` moved right by `shift`. */
  datatype Cut = Cut(y0: int, y1: int, x0: int, x1: int)

  function CutOf(g: Layout, c: Cell): Cut {
    var x0, y0 := c.j * g.ps + g.shift, c.i * g.ps;
    Cut(y0, y0 + g.ps, x0, x0 + g.ps)
  }

  /** The skip rule: a window reaching past the right or bottom edge is not saved. */
  predicate Fits(g: Layout, c: Cell) {
    var k := CutOf(g, c);
    !(k.x1 > g.w || k.y1 > g.h)
  }

  /** The saved positions of row `i` among the columns `0 .. j - 1`. */
  function RowCells(g: Layout, i: int, j: int): seq<Cell>
    decreases j
  {
    if j <= 0 then [] else RowCells(g, i, j - 1) + (if Fits(g, Cell(i, j - 1)) then [Cell(i, j - 1)] else [])
  }

  /** The saved positions of the rows `0 .. n - 1`, every column of `wr`. */
  function Cells(g: Layout, n: int): seq<Cell>
    requires g.ps != 0
    decreases n
  {
    if n <= 0 then [] else Cells(g, n - 1) + RowCells(g, n - 1, Wr(g))
  }

  /** Every position the loops save, in the order they save them. */
  function Saved(g: Layout): seq<Cell>
    requires g.ps != 0
  {
    Cells(g, Hr(g))
  }

  /** One saved tile: its file name `w{count}.png` and its patch in each of the folders `A`, `B` and `label`. */
  datatype Tile<P, Q, L> = Tile(name: string, inA: Raster<P>, inB: Raster<Q>, inLabel: Raster<L>)

  /** The three images `split_images` reads. */
  datatype Images<P, Q, L> = Images(before: Raster<P>, after: Raster<Q>, mask: Raster<L>)

  /** The file name of the tile saved as number `n`. */
  function TileName(n: nat): string {
    "w" + Names.NatToString(n) + ".png"
  }

  /** The slice `img[y0:y1, x0:x1]` of a window. */
  function Cutout<T>(img: Raster<T>, k: Cut): Raster<T> {
    Slice(img, k.y0, k.y1, k.x0, k.x1)
  }

  /** The tile saved as number `n` for position `c`: one window cut from all three images. */
  function TileAt<P, Q, L>(im: Images<P, Q, L>, g: Layout, c: Cell, n: nat): Tile<P, Q, L> {
    var k := CutOf(g, c);
    Tile(TileName(n), Cutout(im.before, k), Cutout(im.after, k), Cutout(im.mask, k))
  }

  /** The tiles of the positions `cs`, numbered from `n0`. */
  function TilesFrom<P, Q, L>(im: Images<P, Q, L>, g: Layout, cs: seq<Cell>, n0: nat): (ts: seq<Tile<P, Q, L>>)
    ensures |ts| == |cs|
  {
    seq(|cs|, k requires 0 <= k < |cs| => TileAt(im, g, cs[k], n0 + k))
  }

  /** The tiles of the positions `cs`, numbered from 0. */
  function Tiles<P, Q, L>(im: Images<P, Q, L>, g: Layout, cs: seq<Cell>): (ts: seq<Tile<P, Q, L>>)
    ensures |ts| == |cs|
  {
    TilesFrom(im, g, cs, 0)
  }

  /** A patch with no samples: `cv2.imwrite` refuses it and raises `cv2.error`. */
  predicate Empty<T>(img: Raster<T>) {
    img.rows == 0 || img.cols == 0
  }

  /** The window `k` cuts no sample out of `img`: the slice `img[y0:y1, x0:x1]` is empty. */
  predicate EmptyCut<T>(img: Raster<T>, k: Cut) {
    SliceLen(img.rows, k.y0, k.y1) == 0 || SliceLen(img.cols, k.x0, k.x1) == 0
  }

  /** The window of position `c` cuts an empty patch out of one of the three images, so writing its tile raises. */
  predicate Blank<P, Q, L>(im: Images<P, Q, L>, g: Layout, c: Cell) {
    var k := CutOf(g, c);
    EmptyCut(im.before, k) || EmptyCut(im.after, k) || EmptyCut(im.mask, k)
  }

  /**
   * How many of the three files of position `c` are written before
   * `cv2.imwrite` raises: none when the `A` patch is empty, the `A` file
   * when the `B` patch is, and the `A` and `B` files when only the label
   * patch is.
   */
  function Written<P, Q, L>(im: Images<P, Q, L>, g: Layout, c: Cell): nat {
    var k := CutOf(g, c);
    if EmptyCut(im.before, k) then 0 else if EmptyCut(im.after, k) then 1 else 2
  }

  /** `Blank` as a predicate on positions. */
  function BlankAt<P, Q, L>(im: Images<P, Q, L>, g: Layout): Cell -> bool {
    c => Blank(im, g, c)
  }

  /** The index of the first element of `xs` from index `i` on that satisfies `p`, or `|xs|` when there is none. */
  function FirstFrom<T>(p: T -> bool, xs: seq<T>, i: nat): (k: nat)
    ensures k <= |xs|
    decreases |xs| - i
  {
    if i >= |xs| then |xs| else if p(xs[i]) then i else FirstFrom(p, xs, i + 1)
  }

  /** The index of the first element of `xs` that satisfies `p`, or `|xs|` when there is none. */
  function FirstWhere<T>(p: T -> bool, xs: seq<T>): (k: nat)
    ensures k <= |xs|
  {
    FirstFrom(p, xs, 0)
  }

  /** The index of the first blank position of `cs`, or `|cs|` when there is none. */
  function FirstBlank<P, Q, L>(im: Images<P, Q, L>, g: Layout, cs: seq<Cell>): nat {
    FirstWhere(BlankAt(im, g), cs)
  }

  /** `FirstFrom` is the first match from `i` on: nothing between them satisfies `p`, and it does unless it is `|xs|`. */
  lemma {:induction false} FirstFromFacts<T>(p: T -> bool, xs: seq<T>, i: nat)
    requires i <= |xs|
    ensures i <= FirstFrom(p, xs, i)
    ensures forall m :: i <= m < FirstFrom(p, xs, i) ==> !p(xs[m])
    ensures FirstFrom(p, xs, i) < |xs| ==> p(xs[FirstFrom(p, xs, i)])
    decreases |xs| - i
  {
    if i < |xs| && !p(xs[i]) {
      FirstFromFacts(p, xs, i + 1);
    }
  }

  /** `FirstWhere` is the first match: nothing before it satisfies `p`, and it does unless it is `|xs|`. */
  lemma FirstWhereFacts<T>(p: T -> bool, xs: seq<T>)
    ensures forall m :: 0 <= m < FirstWhere(p, xs) ==> !p(xs[m])
    ensures FirstWhere(p, xs) < |xs| ==> p(xs[FirstWhere(p, xs)])
  {
    FirstFromFacts(p, xs, 0);
  }

  /** No element of `xs` satisfies `p`. */
  predicate NoneOf<T>(p: T -> bool, xs: seq<T>) {
    forall m :: 0 <= m < |xs| ==> !p(xs[m])
  }

  /** The first match is at `k` when nothing before `k` matches and `xs[k]` does (or `k` is the end). */
  lemma FirstWhereIs<T>(p: T -> bool, xs: seq<T>, k: nat)
    requires k <= |xs| && NoneOf(p, xs[..k]) && (k < |xs| ==> p(xs[k]))
    ensures FirstWhere(p, xs) == k
  {
    FirstWhereFacts(p, xs);
  }

  /** Two runs with no match make one. */
  lemma NoneOfAppend<T>(p: T -> bool, xs: seq<T>, ys: seq<T>)
    requires NoneOf(p, xs) && NoneOf(p, ys)
    ensures NoneOf(p, xs + ys)
  {
    forall m | 0 <= m < |xs + ys|
      ensures !p((xs + ys)[m])
    {
      if m >= |xs| {
        assert (xs + ys)[m] == ys[m - |xs|];
      }
    }
  }

  /** The head of `all` up to `|pre| + k`, when `pre + row` begins `all`. */
  lemma SliceJoin<T>(pre: seq<T>, row: seq<T>, all: seq<T>, k: nat)
    requires k < |row| && pre + row <= all
    ensures all[..|pre| + k] == pre + row[..k] && all[|pre| + k] == row[k]
  {
    assert all[..|pre| + k] == (pre + row)[..|pre| + k];
    assert (pre + row)[..|pre| + k] == pre + row[..k];
    assert all[|pre| + k] == (pre + row)[|pre| + k];
  }

  /** The first match in `all`, which begins with `pre + row`, is match `k` of `row` when `pre` and `row[..k]` hold none. */
  lemma FirstWhereJoin<T>(p: T -> bool, pre: seq<T>, row: seq<T>, all: seq<T>, k: nat)
    requires k < |row| && pre + row <= all
    requires NoneOf(p, pre) && NoneOf(p, row[..k]) && p(row[k])
    ensures FirstWhere(p, all) == |pre| + k
    ensures all[..|pre| + k] == pre + row[..k] && all[|pre| + k] == row[k]
  {
    SliceJoin(pre, row, all, k);
    NoneOfAppend(p, pre, row[..k]);
    FirstWhereIs(p, all, |pre| + k);
  }

  /**
   * `FileNotFoundError`, `ZeroDivisionError`, or the `cv2.error` of
   * writing an empty patch, with the tiles already written in full and the
   * number of files of the failing tile written before it.
   */
  datatype SplitError<P, Q, L> = FileNotFound | ZeroDivision | EmptyPatch(saved: seq<Tile<P, Q, L>>, partial: nat)

  /**
   * What the loops of `split_images` leave behind: the tiles of every saved
   * position, or, when a saved window cuts an empty patch, the tiles before
   * it and the `cv2.error` raised while writing it.
   */
  function SplitOutcome<P, Q, L>(im: Images<P, Q, L>, g: Layout): Result<seq<Tile<P, Q, L>>, SplitError<P, Q, L>>
    requires g.ps != 0
  {
    var cs := Saved(g);
    var k := FirstBlank(im, g, cs);
    if k == |cs| then Success(Tiles(im, g, cs)) else Failure(EmptyPatch(Tiles(im, g, cs[..k]), Written(im, g, cs[k])))
  }

  /** The layout `split_images` uses: the height and width of `before`. */
  function LayoutOf<P>(before: Raster<P>, patchSize: int, shift: int): Layout {
    Layout(before.rows, before.cols, patchSize, shift)
  }

  lemma TilesFromSnoc<P, Q, L>(im: Images<P, Q, L>, g: Layout, cs: seq<Cell>, c: Cell, n0: nat)
    ensures TilesFrom(im, g, cs + [c], n0) == TilesFrom(im, g, cs, n0) + [TileAt(im, g, c, n0 + |cs|)]
  {
  }

  lemma TilesAppend<P, Q, L>(im: Images<P, Q, L>, g: Layout, xs: seq<Cell>, ys: seq<Cell>)
    ensures Tiles(im, g, xs + ys) == Tiles(im, g, xs) + TilesFrom(im, g, ys, |xs|)
  {
  }

  /** The tiles of a prefix of the positions are a prefix of the tiles. */
  lemma TilesFromPrefix<P, Q, L>(im: Images<P, Q, L>, g: Layout, cs: seq<Cell>, ds: seq<Cell>, n0: nat)
    requires cs <= ds
    ensures TilesFrom(im, g, cs, n0) <= TilesFrom(im, g, ds, n0)
  {
    assert TilesFrom(im, g, ds, n0)[..|cs|] == TilesFrom(im, g, cs, n0);
  }

  /** A row's saved positions among fewer columns are a prefix of those among more. */
  lemma {:induction false} RowCellsPrefix(g: Layout, i: int, j: int, m: int)
    requires j <= m
    ensures RowCells(g, i, j) <= RowCells(g, i, m)
    decreases m
  {
    if m > j && m > 0 {
      RowCellsPrefix(g, i, j, m - 1);
    }
  }

  /** The saved positions of fewer rows are a prefix of those of more rows. */
  lemma {:induction false} CellsPrefix(g: Layout, n: int, m: int)
    requires g.ps != 0 && n <= m
    ensures Cells(g, n) <= Cells(g, m)
    decreases m
  {
    if m > n && m > 0 {
      CellsPrefix(g, n, m - 1);
    }
  }

  /** One step of the inner loop, on the positions. */
  lemma RowStep(g: Layout, i: int, j: int)
    requires j >= 0
    ensures RowCells(g, i, j + 1) == RowCells(g, i, j) + (if Fits(g, Cell(i, j)) then [Cell(i, j)] else [])
  {
  }

  /**
   * The three slices the loop body cuts for position `(i, j)`: the window
   * is blank exactly when one of them is empty, and `Written` counts the
   * non-empty ones before the first empty one.
   */
  lemma CutEmpty<P, Q, L>(im: Images<P, Q, L>, g: Layout, c: Cell, y0: int, y1: int, x0: int, x1: int)
    requires CutOf(g, c) == Cut(y0, y1, x0, x1)
    ensures var n1, n2, n3 := Slice(im.before, y0, y1, x0, x1), Slice(im.after, y0, y1, x0, x1), Slice(im.mask, y0, y1, x0, x1);
      (Blank(im, g, c) <==> Empty(n1) || Empty(n2) || Empty(n3))
      && Written(im, g, c) == if Empty(n1) then 0 else if Empty(n2) then 1 else 2
  {
  }

  /** The saved positions of a row up to a fitting column `j`, then `(i, j)`, begin the row. */
  lemma RowPrefixAt(g: Layout, i: int, j: int, wr: int)
    requires 0 <= j < wr && Fits(g, Cell(i, j))
    ensures var row, n := RowCells(g, i, wr), |RowCells(g, i, j)|;
      n < |row| && row[..n] == RowCells(g, i, j) && row[n] == Cell(i, j)
  {
    RowStep(g, i, j);
    RowCellsPrefix(g, i, j + 1, wr);
    SliceJoin(RowCells(g, i, j), [Cell(i, j)], RowCells(g, i, wr), 0);
  }

  /** What one inner loop over row `i` leaves behind: the tiles of the windows before the first blank one, and that window's outcome. */
  ghost predicate RowSaved<P, Q, L>(im: Images<P, Q, L>, g: Layout, wr: int, i: int, tiles: seq<Tile<P, Q, L>>, count: nat,
                              tiles': seq<Tile<P, Q, L>>, count': nat, failed: Option<nat>)
  {
    var cs := RowCells(g, i, wr);
    count <= count' <= count + |cs|
    && var k := count' - count;
    NoneOf(BlankAt(im, g), cs[..k]) && tiles' == tiles + TilesFrom(im, g, cs[..k], count)
    && if k == |cs| then failed == None else Blank(im, g, cs[k]) && failed == Some(Written(im, g, cs[k]))
  }

  /** The inner loop's invariant at column `j`: every saved window before `j` is written and none of them is blank. */
  ghost predicate RowSoFar<P, Q, L>(im: Images<P, Q, L>, g: Layout, i: int, j: int, tiles: seq<Tile<P, Q, L>>, count: nat,
                              tiles': seq<Tile<P, Q, L>>, count': nat)
  {
    tiles' == tiles + TilesFrom(im, g, RowCells(g, i, j), count)
    && count' == count + |RowCells(g, i, j)|
    && NoneOf(BlankAt(im, g), RowCells(g, i, j))
  }

  /** A window that does not fit is skipped. */
  lemma RowSkips<P, Q, L>(im: Images<P, Q, L>, g: Layout, i: int, j: int, tiles: seq<Tile<P, Q, L>>, count: nat,
                         tiles': seq<Tile<P, Q, L>>, count': nat)
    requires j >= 0 && !Fits(g, Cell(i, j)) && RowSoFar(im, g, i, j, tiles, count, tiles', count')
    ensures RowSoFar(im, g, i, j + 1, tiles, count, tiles', count')
  {
    RowStep(g, i, j);
  }

  /** A fitting window that is not blank adds its tile, numbered `count'`. */
  lemma RowWrites<P, Q, L>(im: Images<P, Q, L>, g: Layout, i: int, j: int, tiles: seq<Tile<P, Q, L>>, count: nat,
                          tiles': seq<Tile<P, Q, L>>, count': nat)
    requires j >= 0 && Fits(g, Cell(i, j)) && !Blank(im, g, Cell(i, j)) && RowSoFar(im, g, i, j, tiles, count, tiles', count')
    ensures RowSoFar(im, g, i, j + 1, tiles, count, tiles' + [TileAt(im, g, Cell(i, j), count')], count' + 1)
  {
    RowStep(g, i, j);
    TilesFromSnoc(im, g, RowCells(g, i, j), Cell(i, j), count);
    NoneOfAppend(BlankAt(im, g), RowCells(g, i, j), [Cell(i, j)]);
  }

  /** A fitting blank window ends the row: `cv2.imwrite` raises for it. */
  lemma RowStops<P, Q, L>(im: Images<P, Q, L>, g: Layout, wr: int, i: int, j: int, tiles: seq<Tile<P, Q, L>>, count: nat,
                         tiles': seq<Tile<P, Q, L>>, count': nat)
    requires 0 <= j < wr && Fits(g, Cell(i, j)) && Blank(im, g, Cell(i, j)) && RowSoFar(im, g, i, j, tiles, count, tiles', count')
    ensures RowSaved(im, g, wr, i, tiles, count, tiles', count', Some(Written(im, g, Cell(i, j))))
  {
    RowPrefixAt(g, i, j, wr);
  }

  /** A row walked to its end with no blank window: every saved tile of the row is written. */
  lemma RowEnds<P, Q, L>(im: Images<P, Q, L>, g: Layout, wr: int, i: int, j: int, tiles: seq<Tile<P, Q, L>>, count: nat,
                        tiles': seq<Tile<P, Q, L>>, count': nat)
    requires (if wr >= 0 then j == wr else j == 0) && RowSoFar(im, g, i, j, tiles, count, tiles', count')
    ensures RowSaved(im, g, wr, i, tiles, count, tiles', count', None)
  {
    assert RowCells(g, i, j) == RowCells(g, i, wr);
    assert RowCells(g, i, wr)[..|RowCells(g, i, wr)|] == RowCells(g, i, wr);
  }

  /**
   * The inner loop of `split_images` for tile row `i`: every column `j` of
   * `range(wr)`, skipping windows past the edge and numbering the saved
   * tiles on from `count`. It stops at the first window with an empty
   * patch, where `cv2.imwrite` raises, reporting how many of that tile's
   * files were written before; `count' - count` tiles were written in full.
   */
  method SaveRow<P, Q, L>(im: Images<P, Q, L>, g: Layout, wr: int, i: int, tiles: seq<Tile<P, Q, L>>, count: nat)
    returns (tiles': seq<Tile<P, Q, L>>, count': nat, failed: Option<nat>)
    ensures RowSaved(im, g, wr, i, tiles, count, tiles', count', failed)
  {
    tiles', count', failed := tiles, count, None;
    var j := 0;
    while j < wr
      invariant if wr >= 0 then 0 <= j <= wr else j == 0
      invariant RowSoFar(im, g, i, j, tiles, count, tiles', count')
    {
      var x0, y0 := j * g.ps + g.shift, i * g.ps;
      var x1, y1 := x0 + g.ps, y0 + g.ps;
      if x1 > g.w || y1 > g.h {
        RowSkips(im, g, i, j, tiles, count, tiles', count');
        j := j + 1;
        continue;
      }
      var n1, n2, n3 := Slice(im.before, y0, y1, x0, x1), Slice(im.after, y0, y1, x0, x1), Slice(im.mask, y0, y1, x0, x1);
      CutEmpty(im, g, Cell(i, j), y0, y1, x0, x1);
      if Empty(n1) || Empty(n2) || Empty(n3) {
        RowStops(im, g, wr, i, j, tiles, count, tiles', count');
        failed := Some(if Empty(n1) then 0 else if Empty(n2) then 1 else 2);
        return;
      }
      RowWrites(im, g, i, j, tiles, count, tiles', count');
      tiles' := tiles' + [Tile(TileName(count'), n1, n2, n3)];
      count' := count' + 1;
      j := j + 1;
    }
    RowEnds(im, g, wr, i, j, tiles, count, tiles', count');
  }

  /** The saved positions of rows `0 .. i - 1`, then those of row `i`, begin the saved positions. */
  lemma RowsBeginSaved(g: Layout, i: int)
    requires g.ps != 0 && 0 <= i < Hr(g)
    ensures Cells(g, i) + RowCells(g, i, Wr(g)) <= Saved(g)
  {
    assert Cells(g, i + 1) == Cells(g, i) + RowCells(g, i, Wr(g));
    CellsPrefix(g, i + 1, Hr(g));
  }

  /** The outcome when the first blank saved window is number `k`. */
  lemma OutcomeStopsAt<P, Q, L>(im: Images<P, Q, L>, g: Layout, k: nat, saved: seq<Tile<P, Q, L>>, partial: nat)
    requires g.ps != 0 && k < |Saved(g)| && FirstBlank(im, g, Saved(g)) == k
    requires saved == Tiles(im, g, Saved(g)[..k]) && partial == Written(im, g, Saved(g)[k])
    ensures SplitOutcome(im, g) == Failure(EmptyPatch(saved, partial))
  {
  }

  /**
   * The loops stop at the blank window `k` of row `i` when no window of the
   * earlier rows and none before `k` in row `i` is blank: the tiles of all
   * those windows are on disk, and the `cv2.error` is that of window `k`.
   */
  lemma GridStopsAt<P, Q, L>(im: Images<P, Q, L>, g: Layout, i: int, k: nat)
    requires g.ps != 0 && 0 <= i < Hr(g) && k < |RowCells(g, i, Wr(g))|
    requires NoneOf(BlankAt(im, g), Cells(g, i)) && NoneOf(BlankAt(im, g), RowCells(g, i, Wr(g))[..k])
    requires Blank(im, g, RowCells(g, i, Wr(g))[k])
    ensures var row := RowCells(g, i, Wr(g));
      SplitOutcome(im, g)
        == Failure(EmptyPatch(Tiles(im, g, Cells(g, i)) + TilesFrom(im, g, row[..k], |Cells(g, i)|), Written(im, g, row[k])))
  {
    var pre, row, all := Cells(g, i), RowCells(g, i, Wr(g)), Saved(g);
    RowsBeginSaved(g, i);
    FirstWhereJoin(BlankAt(im, g), pre, row, all, k);
    TilesAppend(im, g, pre, row[..k]);
    OutcomeStopsAt(im, g, |pre| + k, Tiles(im, g, pre) + TilesFrom(im, g, row[..k], |pre|), Written(im, g, row[k]));
  }

  /** With no blank saved window the loops write every saved tile. */
  lemma GridCompletes<P, Q, L>(im: Images<P, Q, L>, g: Layout)
    requires g.ps != 0 && NoneOf(BlankAt(im, g), Saved(g))
    ensures SplitOutcome(im, g) == Success(Tiles(im, g, Saved(g)))
  {
    assert Saved(g)[..|Saved(g)|] == Saved(g);
    FirstWhereIs(BlankAt(im, g), Saved(g), |Saved(g)|);
  }

  /** The outer loop's invariant before row `i`: the tiles of rows `0 .. i - 1` are written and none of their windows is blank. */
  ghost predicate GridSoFar<P, Q, L>(im: Images<P, Q, L>, g: Layout, i: int, tiles: seq<Tile<P, Q, L>>, count: nat)
    requires g.ps != 0
  {
    tiles == Tiles(im, g, Cells(g, i)) && count == |tiles| && NoneOf(BlankAt(im, g), Cells(g, i))
  }

  /** A row finished without a blank window extends the outer loop's invariant to the next row. */
  lemma GridRowDone<P, Q, L>(im: Images<P, Q, L>, g: Layout, i: int, tiles: seq<Tile<P, Q, L>>, count: nat,
                            tiles': seq<Tile<P, Q, L>>, count': nat)
    requires g.ps != 0 && 0 <= i && GridSoFar(im, g, i, tiles, count)
    requires RowSaved(im, g, Wr(g), i, tiles, count, tiles', count', None)
    ensures GridSoFar(im, g, i + 1, tiles', count')
  {
    var row := RowCells(g, i, Wr(g));
    assert row[..|row|] == row;
    TilesAppend(im, g, Cells(g, i), row);
    NoneOfAppend(BlankAt(im, g), Cells(g, i), row);
  }

  /** A row that stopped at a blank window ends `split_images` with the `cv2.error`. */
  lemma GridRowFails<P, Q, L>(im: Images<P, Q, L>, g: Layout, i: int, tiles: seq<Tile<P, Q, L>>, count: nat,
                             tiles': seq<Tile<P, Q, L>>, count': nat, failed: Option<nat>)
    requires g.ps != 0 && 0 <= i < Hr(g) && GridSoFar(im, g, i, tiles, count)
    requires RowSaved(im, g, Wr(g), i, tiles, count, tiles', count', failed) && failed.Some?
    ensures SplitOutcome(im, g) == Failure(EmptyPatch(tiles', failed.value))
  {
    GridStopsAt(im, g, i, count' - count);
  }

  /** All rows done: every saved tile is written. */
  lemma GridDone<P, Q, L>(im: Images<P, Q, L>, g: Layout, i: int, tiles: seq<Tile<P, Q, L>>, count: nat)
    requires g.ps != 0 && (if Hr(g) >= 0 then i == Hr(g) else i == 0) && GridSoFar(im, g, i, tiles, count)
    ensures SplitOutcome(im, g) == Success(tiles)
  {
    assert Cells(g, i) == Saved(g);
    GridCompletes(im, g);
  }

  /**
   * `split_images(before, after, label, output_dir, patch_size, shift)`:
   * `FileNotFoundError` unless all three images were read,
   * `ZeroDivisionError` for a zero patch size, else the tiles it saves, in
   * order, up to the first window `cv2.imwrite` refuses.
   */
  method SplitImages<P, Q, L>(before: Option<Raster<P>>, after: Option<Raster<Q>>, mask: Option<Raster<L>>,
                              patchSize: int, shift: int)
    returns (r: Result<seq<Tile<P, Q, L>>, SplitError<P, Q, L>>)
    ensures (before.None? || after.None? || mask.None?) <==> r == Failure(FileNotFound)
    ensures before.Some? && after.Some? && mask.Some? && patchSize == 0 ==> r == Failure(ZeroDivision)
    ensures before.Some? && after.Some? && mask.Some? && patchSize != 0 ==>
      r == SplitOutcome(Images(before.value, after.value, mask.value), LayoutOf(before.value, patchSize, shift))
  {
    if before.None? || after.None? || mask.None? {
      return Failure(FileNotFound);
    }
    var im := Images(before.value, after.value, mask.value);
    var h, w := im.before.rows, im.before.cols;
    if patchSize == 0 {
      return Failure(ZeroDivision);
    }
    var g := Layout(h, w, patchSize, shift);
    var hr, wr := FloorDiv(h, patchSize), FloorDiv(w, patchSize);
    var tiles: seq<Tile<P, Q, L>> := [];
    var count := 0;
    var i := 0;
    while i < hr
      invariant if hr >= 0 then 0 <= i <= hr else i == 0
      invariant GridSoFar(im, g, i, tiles, count)
    {
      var tiles', count', failed := SaveRow(im, g, wr, i, tiles, count);
      if failed.Some? {
        GridRowFails(im, g, i, tiles, count, tiles', count', failed);
        return Failure(EmptyPatch(tiles', failed.value));
      }
      GridRowDone(im, g, i, tiles, count, tiles', count');
      tiles, count := tiles', count';
      i := i + 1;
    }
    GridDone(im, g, i, tiles, count);
    r := Success(tiles);
  }

  // ----- properties of the saved positions --------------------------------

  /** Row-major order of grid positions. */
  predicate RowMajor(a: Cell, b: Cell) {
    a.i < b.i || (a.i == b.i && a.j < b.j)
  }

  function Max0(n: int): nat {
    if n > 0 then n else 0
  }

  /** At most `j` positions of a row are saved. */
  lemma {:induction false} RowCellsCount(g: Layout, i: int, j: int)
    ensures |RowCells(g, i, j)| <= Max0(j)
    decreases j
  {
    if j > 0 {
      RowCellsCount(g, i, j - 1);
    }
  }

  /** The saved positions of a row are columns `0 .. j - 1` of that row that pass the skip rule. */
  lemma {:induction false} RowCellsElems(g: Layout, i: int, j: int)
    ensures forall k :: 0 <= k < |RowCells(g, i, j)| ==>
      RowCells(g, i, j)[k].i == i && 0 <= RowCells(g, i, j)[k].j < j && Fits(g, RowCells(g, i, j)[k])
    decreases j
  {
    if j > 0 {
      RowCellsElems(g, i, j - 1);
    }
  }

  /** Every column `0 .. j - 1` of the row that passes the skip rule is saved. */
  lemma {:induction false} RowCellsComplete(g: Layout, i: int, j: int)
    ensures forall c: Cell :: c.i == i && 0 <= c.j < j && Fits(g, c) ==> c in RowCells(g, i, j)
    decreases j
  {
    if j > 0 {
      RowCellsComplete(g, i, j - 1);
    }
  }

  /** The saved positions of a row go left to right. */
  lemma {:induction false} RowCellsOrdered(g: Layout, i: int, j: int)
    ensures forall a, b :: 0 <= a < b < |RowCells(g, i, j)| ==> RowCells(g, i, j)[a].j < RowCells(g, i, j)[b].j
    decreases j
  {
    if j > 0 {
      RowCellsOrdered(g, i, j - 1);
      RowCellsElems(g, i, j - 1);
    }
  }

  /** A row where every window fits saves all `j` of its columns. */
  lemma {:induction false} RowCellsAll(g: Layout, i: int, j: int)
    requires forall c :: 0 <= c < j ==> Fits(g, Cell(i, c))
    ensures |RowCells(g, i, j)| == Max0(j)
    decreases j
  {
    if j > 0 {
      RowCellsAll(g, i, j - 1);
    }
  }

  /** At most `wr` positions per row are saved. */
  lemma {:induction false} CellsCount(g: Layout, n: int)
    requires g.ps != 0
    ensures |Cells(g, n)| <= Max0(n) * Max0(Wr(g))
    decreases n
  {
    if n > 0 {
      CellsCount(g, n - 1);
      RowCellsCount(g, n - 1, Wr(g));
      assert Max0(n) == Max0(n - 1) + 1;
      MulSucc(Max0(n - 1), Max0(Wr(g)));
    }
  }

  /** Every saved position of rows `0 .. n - 1` lies in the grid and passes the skip rule. */
  lemma {:induction false} CellsElems(g: Layout, n: int)
    requires g.ps != 0
    ensures forall k :: 0 <= k < |Cells(g, n)| ==>
      0 <= Cells(g, n)[k].i < n && 0 <= Cells(g, n)[k].j < Wr(g) && Fits(g, Cells(g, n)[k])
    decreases n
  {
    if n > 0 {
      CellsElems(g, n - 1);
      RowCellsElems(g, n - 1, Wr(g));
      var before, row := Cells(g, n - 1), RowCells(g, n - 1, Wr(g));
      assert Cells(g, n) == before + row;
      forall k | 0 <= k < |Cells(g, n)|
        ensures 0 <= Cells(g, n)[k].i < n && 0 <= Cells(g, n)[k].j < Wr(g) && Fits(g, Cells(g, n)[k])
      {
        if k >= |before| {
          assert Cells(g, n)[k] == row[k - |before|];
        } else {
          assert Cells(g, n)[k] == before[k];
        }
      }
    }
  }

  /** Every cell of rows `0 .. n - 1` that passes the skip rule is saved. */
  lemma {:induction false} CellsMembers(g: Layout, n: int)
    requires g.ps != 0
    ensures forall c: Cell :: 0 <= c.i < n && 0 <= c.j < Wr(g) && Fits(g, c) ==> c in Cells(g, n)
    decreases n
  {
    if n > 0 {
      CellsMembers(g, n - 1);
      RowCellsComplete(g, n - 1, Wr(g));
      var before, row := Cells(g, n - 1), RowCells(g, n - 1, Wr(g));
      assert Cells(g, n) == before + row;
      forall c: Cell | 0 <= c.i < n && 0 <= c.j < Wr(g) && Fits(g, c)
        ensures c in Cells(g, n)
      {
        if c.i == n - 1 {
          assert c in row;
        } else {
          assert c in before;
        }
      }
    }
  }

  /** The saved positions come in row-major order. */
  lemma {:induction false} CellsSorted(g: Layout, n: int)
    requires g.ps != 0
    ensures forall a, b :: 0 <= a < b < |Cells(g, n)| ==> RowMajor(Cells(g, n)[a], Cells(g, n)[b])
    decreases n
  {
    if n > 0 {
      CellsSorted(g, n - 1);
      CellsElems(g, n - 1);
      RowCellsElems(g, n - 1, Wr(g));
      RowCellsOrdered(g, n - 1, Wr(g));
      var before, row := Cells(g, n - 1), RowCells(g, n - 1, Wr(g));
      assert Cells(g, n) == before + row;
      forall a, b | 0 <= a < b < |Cells(g, n)|
        ensures RowMajor(Cells(g, n)[a], Cells(g, n)[b])
      {
        if b < |before| {
          assert Cells(g, n)[a] == before[a] && Cells(g, n)[b] == before[b];
        } else if a < |before| {
          assert Cells(g, n)[a] == before[a] && Cells(g, n)[b] == row[b - |before|];
        } else {
          assert Cells(g, n)[a] == row[a - |before|] && Cells(g, n)[b] == row[b - |before|];
        }
      }
    }
  }

  /**
   * The saved positions are exactly the cells `(i, j)` of the `hr × wr`
   * grid whose window passes the skip rule, in row-major order; so at
   * most `hr * wr` tiles are saved.
   */
  lemma SavedCells(g: Layout)
    requires g.ps != 0
    ensures |Saved(g)| <= Max0(Hr(g)) * Max0(Wr(g))
    ensures forall c: Cell :: c in Saved(g) <==> 0 <= c.i < Hr(g) && 0 <= c.j < Wr(g) && Fits(g, c)
    ensures forall a, b :: 0 <= a < b < |Saved(g)| ==> RowMajor(Saved(g)[a], Saved(g)[b])
  {
    CellsCount(g, Hr(g));
    CellsElems(g, Hr(g));
    CellsMembers(g, Hr(g));
    CellsSorted(g, Hr(g));
    forall c: Cell | c in Saved(g)
      ensures 0 <= c.i < Hr(g) && 0 <= c.j < Wr(g) && Fits(g, c)
    {
      var k :| 0 <= k < |Saved(g)| && Saved(g)[k] == c;
    }
  }

  /** `a * w + w == (a + 1) * w`. */
  lemma MulSucc(a: nat, w: nat)
    ensures a * w + w == (a + 1) * w
  {
  }

  /** `j + 1 <= q` gives `(j + 1) * ps <= q * ps` for a positive patch size. */
  lemma MulMono(a: int, b: int, ps: int)
    requires a <= b && ps > 0
    ensures a * ps <= b * ps
  {
  }

  /**
   * The row condition `y1 > h` never skips a tile: inside the grid
   * `y1 = (i + 1) * patch_size <= hr * patch_size <= h`, so only the
   * column condition decides.
   */
  lemma RowConditionNeverSkips(g: Layout, c: Cell)
    requires g.ps > 0 && 0 <= c.i < Hr(g)
    ensures CutOf(g, c).y1 <= g.h
    ensures Fits(g, c) <==> (c.j + 1) * g.ps + g.shift <= g.w
  {
    MulMono(c.i + 1, Hr(g), g.ps);
  }

  /** With `shift = 0` and a positive patch size every window fits: exactly `hr * wr` tiles. */
  lemma ShiftZeroSavesAll(g: Layout)
    requires g.ps > 0 && g.shift == 0
    ensures |Saved(g)| == Hr(g) * Wr(g)
  {
    forall i | 0 <= i < Hr(g)
      ensures |RowCells(g, i, Wr(g))| == Wr(g)
    {
      ShiftZeroRowFull(g, i);
    }
    CellsFull(g, Hr(g));
  }

  /** With `shift = 0` every window of tile row `i` fits, so the whole row is saved. */
  lemma ShiftZeroRowFull(g: Layout, i: int)
    requires g.ps > 0 && g.shift == 0 && 0 <= i < Hr(g)
    ensures |RowCells(g, i, Wr(g))| == Wr(g)
  {
    forall j | 0 <= j < Wr(g)
      ensures Fits(g, Cell(i, j))
    {
      ShiftZeroFits(g, Cell(i, j));
    }
    RowCellsAll(g, i, Wr(g));
  }

  /** With `shift = 0` the window of a grid cell ends inside the image. */
  lemma ShiftZeroFits(g: Layout, c: Cell)
    requires g.ps > 0 && g.shift == 0 && 0 <= c.i < Hr(g) && 0 <= c.j < Wr(g)
    ensures Fits(g, c)
  {
    RowConditionNeverSkips(g, c);
    MulMono(c.j + 1, Wr(g), g.ps);
  }

  lemma {:induction false} CellsFull(g: Layout, n: int)
    requires g.ps > 0 && 0 <= n <= Hr(g)
    requires forall i :: 0 <= i < Hr(g) ==> |RowCells(g, i, Wr(g))| == Wr(g)
    ensures |Cells(g, n)| == n * Wr(g)
    decreases n
  {
    if n > 0 {
      CellsFull(g, n - 1);
      assert (n - 1) * Wr(g) + Wr(g) == n * Wr(g);
    }
  }

  /**
   * For `shift >= 0` and a positive patch size every saved window lies
   * inside the image, so every saved patch of an image of the layout's
   * shape is a full `patch_size × patch_size` block at that window.
   */
  lemma SavedWindowsInside(g: Layout, c: Cell)
    requires g.ps > 0 && g.shift >= 0 && c in Saved(g)
    ensures 0 <= CutOf(g, c).y0 < CutOf(g, c).y1 <= g.h
    ensures 0 <= CutOf(g, c).x0 < CutOf(g, c).x1 <= g.w
  {
    SavedCells(g);
    RowConditionNeverSkips(g, c);
  }

  /**
   * A saved window of an image of shape `h × w` (with `shift >= 0`) is a
   * full `ps × ps` block; `SliceInside` gives its samples.
   */
  lemma FullTile<T>(img: Raster<T>, g: Layout, c: Cell)
    requires g.ps > 0 && g.shift >= 0 && c in Saved(g) && img.rows == g.h && img.cols == g.w
    ensures Cutout(img, CutOf(g, c)).rows == g.ps && Cutout(img, CutOf(g, c)).cols == g.ps
  {
    SavedWindowsInside(g, c);
  }

  /**
   * Tile number `k` is named `w{k}.png`, and its three patches are cut
   * from the three images with the same window, that of the `k`-th saved
   * position.
   */
  lemma TileContents<P, Q, L>(im: Images<P, Q, L>, g: Layout, k: int)
    requires g.ps != 0 && 0 <= k < |Saved(g)|
    ensures Tiles(im, g, Saved(g))[k].name == TileName(k)
    ensures Tiles(im, g, Saved(g))[k].inA == Cutout(im.before, CutOf(g, Saved(g)[k]))
    ensures Tiles(im, g, Saved(g))[k].inB == Cutout(im.after, CutOf(g, Saved(g)[k]))
    ensures Tiles(im, g, Saved(g))[k].inLabel == Cutout(im.mask, CutOf(g, Saved(g)[k]))
  {
  }

  /** The names `w0.png … w{count-1}.png` are pairwise different. */
  lemma TileNamesDistinct(m: nat, n: nat)
    ensures TileName(m) == TileName(n) <==> m == n
  {
    if TileName(m) == TileName(n) {
      var sm, sn := Names.NatToString(m), Names.NatToString(n);
      assert "w" + sm + ".png" == "w" + sn + ".png";
      assert |sm| == |sn|;
      assert sm == ("w" + sm + ".png")[1..1 + |sm|];
      assert sn == ("w" + sn + ".png")[1..1 + |sn|];
      Names.NatToStringInjective(m, n);
    }
  }

  /** Position `c` is blank exactly when one of the three patches of its tile is empty, whatever its number. */
  lemma BlankTile<P, Q, L>(im: Images<P, Q, L>, g: Layout, c: Cell, n: nat)
    ensures var t := TileAt(im, g, c, n);
      (Blank(im, g, c) <==> Empty(t.inA) || Empty(t.inB) || Empty(t.inLabel))
      && Written(im, g, c) == (if Empty(t.inA) then 0 else if Empty(t.inB) then 1 else 2)
  {
  }

  /** The loops finish exactly when no saved window cuts an empty patch, and then every saved tile is written. */
  lemma SplitCompletes<P, Q, L>(im: Images<P, Q, L>, g: Layout)
    requires g.ps != 0
    ensures SplitOutcome(im, g).Success? <==> forall k :: 0 <= k < |Saved(g)| ==> !Blank(im, g, Saved(g)[k])
    ensures SplitOutcome(im, g).Success? ==> SplitOutcome(im, g).value == Tiles(im, g, Saved(g))
  {
    FirstWhereFacts(BlankAt(im, g), Saved(g));
  }

  /**
   * When the loops stop at a `cv2.error`, the tiles written in full are a
   * proper prefix of the saved tiles, none of their windows is blank, the
   * next window is, and at most two of its three files were written.
   */
  lemma SplitStops<P, Q, L>(im: Images<P, Q, L>, g: Layout)
    requires g.ps != 0 && SplitOutcome(im, g).Failure?
    ensures SplitOutcome(im, g).error.EmptyPatch?
    ensures var w, cs := SplitOutcome(im, g).error.saved, Saved(g);
      w < Tiles(im, g, cs) && (forall m :: 0 <= m < |w| ==> !Blank(im, g, cs[m])) && Blank(im, g, cs[|w|])
      && SplitOutcome(im, g).error.partial == Written(im, g, cs[|w|]) <= 2
  {
    var cs := Saved(g);
    var k := FirstBlank(im, g, cs);
    FirstWhereFacts(BlankAt(im, g), cs);
    TilesFromPrefix(im, g, cs[..k], cs, 0);
  }

  /**
   * For `shift >= 0`, a positive patch size and an after and label image
   * of the before image's shape, every saved window lies inside all three
   * images, so no write raises and every saved tile is written.
   */
  lemma SplitSucceeds<P, Q, L>(im: Images<P, Q, L>, g: Layout)
    requires g.ps > 0 && g.shift >= 0
    requires im.before.rows == im.after.rows == im.mask.rows == g.h
    requires im.before.cols == im.after.cols == im.mask.cols == g.w
    ensures SplitOutcome(im, g) == Success(Tiles(im, g, Saved(g)))
  {
    forall k | 0 <= k < |Saved(g)|
      ensures !Blank(im, g, Saved(g)[k])
    {
      assert Saved(g)[k] in Saved(g);
      SavedWindowsInside(g, Saved(g)[k]);
    }
    SplitCompletes(im, g);
  }

  /** The first saved position is `(0, 0)` whenever that position is saved. */
  lemma SavedFirst(g: Layout)
    requires g.ps != 0 && Cell(0, 0) in Saved(g)
    ensures Saved(g)[0] == Cell(0, 0)
  {
    SavedCells(g);
    var k :| 0 <= k < |Saved(g)| && Saved(g)[k] == Cell(0, 0);
  }

  /**
   * For a shift in `[-patch_size, 0)` and a before image of at least one
   * full tile, the first window `before[0:ps, shift:shift + ps]` has a
   * start counted from the end but a non-negative stop, so it is empty:
   * `cv2.imwrite` raises before any file is written.
   */
  lemma NegativeShiftFails<P, Q, L>(im: Images<P, Q, L>, g: Layout)
    requires g.ps > 0 && -g.ps <= g.shift < 0 && g.ps <= g.h && g.ps <= g.w
    requires im.before.rows == g.h && im.before.cols == g.w
    ensures SplitOutcome(im, g) == Failure(EmptyPatch([], 0))
  {
    assert Hr(g) >= 1 && Wr(g) >= 1 by {
      MulMono(1, Hr(g) + 1, g.ps);
      MulMono(1, Wr(g) + 1, g.ps);
    }
    RowConditionNeverSkips(g, Cell(0, 0));
    SavedCells(g);
    SavedFirst(g);
    assert EmptyCut(im.before, CutOf(g, Cell(0, 0)));
    assert Saved(g)[..0] == [];
  }
}
