# Imagery scripts: a verified model

This project models the computational core of a set of imagery scripts for
change detection and mapping. It covers:

- **Registration** (`image_reg_msecalc.py`): registers two grayscale images
  by an exhaustive pixel-shift search under a mean-squared-error metric, then
  translates the target by the best shift.
- **Tiling** (`split.py`): cuts a before/after/label triple into numbered
  square tiles.
- **Merging** (`resmerger.py`): merges numbered tiles back into one canvas.
- **Cropping** (`georefCrop.py`): chooses the crop window of a GeoTIFF.
- **Conversion** (`pngconv.py`): binarises masks, passes 8-bit images
  through, and derives the default output path.
- **Area filtering** (`maskfilter.py`, `reversegeocode.py`):
  - polygons are filtered by area;
  - the kept ones are accumulated into a `uint8` mask;
  - the masks are validated;
  - the polygons are geocoded by their first vertex;
  - the records are written as CSV.
- **Histogram matching** (`histogramMatch.py`): pairs the unsharp-mask
  parameters and names the output files.

One Dafny module models each script:

| script | module |
|---|---|
| `image_reg_msecalc.py` | `ImageReg` |
| `split.py` | `Split` |
| `resmerger.py` | `ResMerger` |
| `georefCrop.py` | `GeorefCrop` |
| `pngconv.py` | `PngConv` |
| `maskfilter.py` | `MaskFilter` |
| `reversegeocode.py` | `ReverseGeocode` |
| `histogramMatch.py` | `HistogramMatch` |

Shared modules:

- `Wrappers`: `Option` and `Result`.
- `Grids`:
  - `uint8` samples;
  - rectangular 2-D arrays;
  - Python/NumPy slice-bound arithmetic.
- `Names`: decimal rendering of counters.
- `Masks`: what the two polygon scripts share:
  - the `int64` cast;
  - the binary check;
  - the pixel area;
  - the area filter;
  - the `uint8` accumulation.
- `Listing`: `sorted()` on strings and `endswith`.

Loops that update state in the scripts are written as Dafny methods with
loop invariants. Each is proved against a specification function:

- `ImageReg.FindBestShift` with `ImageReg.ScanColumn`, against the left fold
  `BestShift`;
- `Split.SaveRow` and `Split.SplitImages`, against `SplitOutcome`, which is built
  from `Saved`/`Tiles` and the first blank window;
- `ResMerger.MergeTiles`, `ResMerger.MergeRow` and `ResMerger.PlaceBlock`,
  which fill a two-dimensional array in place, against `MergedPixel`;
- `PngConv.BinariseMask`, which rewrites the samples in place;
- `MaskFilter.FilterByArea`, which accumulates into an array in place;
- `MaskFilter.ProcessDataset`;
- `ReverseGeocode.ExtractPolygons` and `ReverseGeocode.GeocodePolygons`.

The pure parts are functions, and lemmas record their properties. Library
algorithms, meaning contour finding, rasterisation and the geocoder, are
inputs or function-typed parameters. Unreadable files are `None` inputs.

Two numeric conventions of the scripts are written out explicitly:

- **`uint8` wrap-around**, in `mse`, in `maskr +=` and in `astype('uint8')`.
- **Python's `//` and NumPy slice clipping.** An off-edge window comes back
  smaller; it does not raise.

The means compared by `find_best_shift` are modelled as integer sums. All
compared patches have the reference patch's pixel count, so the order of the
sums is the order of the means. The sentinel `float("inf")` is `Infinite`, and
the NaN mean of an empty patch is `NotANumber`. No candidate compares below
`NotANumber`.

## Model

| member | source | states |
|---|---|---|
| Grids.Bound | src/image_reg_msecalc.py:26 | A slice bound is clipped into `[0, n]`: an in-range bound is kept, a negative one counts from the end, and one beyond either end becomes 0 or `n`. |
| Grids.SliceLen | src/image_reg_msecalc.py:33-34 | The slice length never exceeds the axis; a window inside the axis has its requested length. |
| Grids.Slice | src/image_reg_msecalc.py:33-34 | The slice never raises and has the clipped shape in both axes. |
| Grids.SliceAt | src/image_reg_msecalc.py:33-34 | Sample `(i, j)` of a slice is the array's sample at the adjusted start bounds plus `(i, j)`. |
| Grids.SliceInside | src/split.py:46-48 | A window inside the array is cut exactly: its size and every sample are those requested. |
| Names.NatToString | src/split.py:50-52 | `str(n)` is a non-empty string of decimal digits with no leading zero. |
| Names.ParseNatToString | src/split.py:50-52 | Reading a rendered counter back gives the counter. |
| Names.NatToStringInjective | src/split.py:50-52 | Two counters render to the same string exactly when they are equal. |
| ImageReg.SqErrSymmetric | src/image_reg_msecalc.py:9 | The squared difference is symmetric, also under `uint8` wrap-around. |
| ImageReg.RowErrorSymmetric | src/image_reg_msecalc.py:9 | The summed error of two rows is symmetric. |
| ImageReg.RowsErrorSymmetric | src/image_reg_msecalc.py:9 | The summed error of two blocks of rows is symmetric. |
| ImageReg.RowErrorSelf | src/image_reg_msecalc.py:9 | A row has error 0 against itself. |
| ImageReg.RowsErrorSelf | src/image_reg_msecalc.py:9 | A block of rows has error 0 against itself. |
| ImageReg.MseSymmetric | src/image_reg_msecalc.py:7-9 | `mse(a, b) == mse(b, a)`, with or without wrap-around. |
| ImageReg.MseSelf | src/image_reg_msecalc.py:7-9 | `mse(a, a)` is 0, or NaN for an empty patch. |
| ImageReg.RowErrorZero | src/image_reg_msecalc.py:9 | Without wrap-around, two rows have error 0 exactly when they are equal. |
| ImageReg.RowsErrorZero | src/image_reg_msecalc.py:9 | Without wrap-around, two blocks have error 0 exactly when they are equal. |
| ImageReg.MseWidenedZero | src/image_reg_msecalc.py:7-9 | Without wrap-around, two non-empty patches of one shape have error 0 exactly when they are equal. |
| ImageReg.Uint8WrapHidesDifference | src/image_reg_msecalc.py:9 | With `uint8` arithmetic, the different 1×1 patches 16 and 0 have error 0; widened, the error is 256. |
| ImageReg.Trials | src/image_reg_msecalc.py:30-37 | There is one trial per candidate. |
| ImageReg.TrialsAt | src/image_reg_msecalc.py:33-37 | Trial `k` is candidate `k` with its score, or `None` when its patch shape differs from the reference patch. |
| ImageReg.FoldSnoc | src/image_reg_msecalc.py:38-40 | The search state after one more trial is one more update. |
| ImageReg.TrialsSnoc | src/image_reg_msecalc.py:30-37 | One more candidate adds its trial at the end. |
| ImageReg.UpdateFacts | src/image_reg_msecalc.py:35-40 | A trial replaces the best exactly when it was compared and its error is strictly below the current error. |
| ImageReg.FoldInfinite | src/image_reg_msecalc.py:27-38 | The error is never NaN. It is infinite exactly when no trial counts, and then the shift is `(0, 0)`. |
| ImageReg.FoldMinimal | src/image_reg_msecalc.py:38-40 | The final error is at most the error of every trial that counts. |
| ImageReg.FoldFirst | src/image_reg_msecalc.py:38-40 | A finite error is the score of the returned shift's trial, and every earlier counting trial has a strictly larger error. |
| ImageReg.BeforeFacts | src/image_reg_msecalc.py:30-31 | The candidates before column `dx` number `(dx + r)(2r + 1)`. They are exactly the in-range shifts with a smaller `dx`, in loop order. |
| ImageReg.CandidatesMembers | src/image_reg_msecalc.py:30-31 | The candidates are exactly the shifts of the square `[-r, r]²`. |
| ImageReg.CandidatesCount | src/image_reg_msecalc.py:30-31 | There are `(2r + 1)²` candidates, and none for a negative range. |
| ImageReg.CandidatesSorted | src/image_reg_msecalc.py:30-31 | The candidates come in strictly increasing order, `dx` outer and `dy` inner. |
| ImageReg.CandidatesZeroRange | src/image_reg_msecalc.py:30-31 | With `shift_range = 0`, only `(0, 0)` is examined. |
| ImageReg.CandidatesOrder | src/image_reg_msecalc.py:30-31 | A candidate earlier in loop order sits at an earlier position of the sequence. |
| ImageReg.CandidateIndex | src/image_reg_msecalc.py:30-31 | Every shift of the square sits at some position of the candidate sequence. |
| ImageReg.BestShiftBounds | src/image_reg_msecalc.py:28-40 | The returned shift satisfies `-shift_range <= dx, dy <= shift_range`. |
| ImageReg.BestShiftNoCandidate | src/image_reg_msecalc.py:27-45 | The error is infinite exactly when no candidate qualifies, and the result is then `((0, 0), inf)`. It is never NaN, and a finite error is the returned shift's score. |
| ImageReg.BestShiftMinimal | src/image_reg_msecalc.py:35-40 | The returned error is at most the error of every qualifying candidate. |
| ImageReg.BestShiftTieBreak | src/image_reg_msecalc.py:30-38 | Every qualifying candidate before the returned one in loop order has a strictly larger error: the first of equal errors wins. |
| ImageReg.BestShiftZeroRange | src/image_reg_msecalc.py:28-31 | With range 0, the returned shift is `(0, 0)`. |
| ImageReg.IdenticalImagesZeroError | src/image_reg_msecalc.py:7-37 | Two identical images with a non-empty reference window give error 0. |
| ImageReg.FoldThenRun | src/image_reg_msecalc.py:30-40 | Folding a concatenation continues from the fold of its first part. |
| ImageReg.TrialsAppend | src/image_reg_msecalc.py:30-37 | The trials of a concatenation are the concatenation of the trials. |
| ImageReg.InnerStep | src/image_reg_msecalc.py:31-40 | One more inner iteration folds in the trial of `(dx, dy)`. |
| ImageReg.ColumnsStep | src/image_reg_msecalc.py:30-31 | One more outer iteration runs the inner loop's trials from the state the earlier columns left. |
| ImageReg.ColumnsFold | src/image_reg_msecalc.py:30-40 | Column by column, the loops compute the fold over all earlier candidates. |
| ImageReg.OuterDone | src/image_reg_msecalc.py:30-45 | When the outer loop ends, its state is the result of the search. |
| ImageReg.Consider | src/image_reg_msecalc.py:33-40 | The inner loop body cuts the target patch, skips a shape mismatch, and keeps a strictly lower error. Its result is one `Update`. |
| ImageReg.ScanColumn | src/image_reg_msecalc.py:31-40 | The inner loop over every `dy` takes the state from column `dx` to column `dx + 1`. |
| ImageReg.FindBestShift | src/image_reg_msecalc.py:12-45 | The nested loops return exactly `BestShift`, the fold over the candidates in loop order from `((0, 0), inf)`. |
| ImageReg.ShiftedRow | src/image_reg_msecalc.py:52 | A translated row has the width of the input. |
| ImageReg.ApplyShift | src/image_reg_msecalc.py:48-53 | The output has the input's rows × cols. |
| ImageReg.ApplyShiftAt | src/image_reg_msecalc.py:51-52 | Output pixel `(y, x)` is input pixel `(y - dy, x - dx)`, or 0 when that lies outside. |
| ImageReg.ApplyShiftZero | src/image_reg_msecalc.py:48-53 | Shift `(0, 0)` returns the image unchanged. |
| ImageReg.ApplyShiftCompose | src/image_reg_msecalc.py:48-53 | Two translations are one translation by the sum, wherever the intermediate source stays inside. |
| ImageReg.ApplyShiftRoundTrip | src/image_reg_msecalc.py:48-53 | Shifting by `(dx, dy)` and back by `(-dx, -dy)` restores every pixel whose shifted position stays inside. |
| ImageReg.Register | src/image_reg_msecalc.py:68-88 | It returns `FileNotFoundError` exactly when an image is missing. Otherwise it returns the `uint8` search result, and the target translated by that same `(dx, dy)`. |
| ImageReg.TranslatedPatch | src/image_reg_msecalc.py:26-34 | For a target moved by `(a, b)` with both windows inside, the target patch of `(a, b)` equals the reference patch. |
| ImageReg.TranslationScoresZero | src/image_reg_msecalc.py:33-40 | For a target moved by `(a, b)` within range, candidate `(a, b)` scores 0 and the search returns error 0. |
| ImageReg.AlignAsWrittenDoubles | src/image_reg_msecalc.py:86 | For a target moved by `(a, b)`, the aligned output at `(y, x)` shows the reference at `(y - 2b, x - 2a)`. |
| ImageReg.AlignCorrected | src/image_reg_msecalc.py:86 | The corrected alignment keeps the input's shape. |
| ImageReg.AlignCorrectedRestores | src/image_reg_msecalc.py:86 | Translating by `(-dx, -dy)` maps a target moved by `(a, b)` back onto the reference wherever the source exists. |
| ImageReg.FirstZeroWins | src/image_reg_msecalc.py:30-40 | The search returns a zero-error candidate whenever no qualifying candidate comes before it in loop order. |
| ImageReg.ExampleSearch | src/image_reg_msecalc.py:26-45 | For reference `[0, 5, 0]`, target `[5, 0, 0]`, a 1×1 window at column 1 and shift range 1, the search returns `(-1, 0)` with error 0. |
| ImageReg.ExampleOutput | src/image_reg_msecalc.py:48-53 | The target `[5, 0, 0]` is the reference `[0, 5, 0]` moved by `(-1, 0)`. Translating it by `(-1, 0)` again gives `[0, 0, 0]`, not the reference. Translating by `(1, 0)` gives the reference back. |
| ImageReg.AlignAsWrittenExample | src/image_reg_msecalc.py:77-86 | For reference `[0, 5, 0]` and target `[5, 0, 0]`, the search measures `(-1, 0)` with error 0. Then `apply_shift(img2, dx, dy)` outputs `[0, 0, 0]`, while the correction gives back the reference. |
| ImageReg.ConstantImageFirstShift | src/image_reg_msecalc.py:30-40 | A constant row is its own translation by `(0, 0)`, yet the search returns `(-1, 0)`, the first zero-error candidate. So a zero error does not identify the translation. |
| Split.FloorDiv | src/split.py:33 | Python's `//` rounds toward minus infinity: `q*b <= a < q*b + b` for `b > 0`, and the mirror for `b < 0`. |
| Split.TilesFrom | src/split.py:37-53 | One tile per saved position. |
| Split.Tiles | src/split.py:37-53 | One tile per saved position, numbered from 0. |
| Split.TilesFromSnoc | src/split.py:50-53 | One more position adds the tile numbered next. |
| Split.TilesAppend | src/split.py:50-53 | The tiles of two runs of positions are the first run's, then the second's, numbered on. |
| Split.RowStep | src/split.py:39-44 | One more column adds its cell exactly when its window fits. |
| Split.BlankTile | src/split.py:46-52 | A position is blank exactly when one of its tile's three patches is empty. `Written` is the number of that tile's files written before the first empty patch. |
| Split.CutEmpty | src/split.py:46-52 | The same fact for the three slices the loop body cuts at `(i, j)`. |
| Split.FirstFrom | src/split.py:50-52 | The index it returns is at most the length. |
| Split.FirstFromFacts | src/split.py:50-52 | Nothing between the start and the returned index matches, and the returned index matches unless it is the end. |
| Split.FirstWhereFacts | src/split.py:50-52 | Nothing before the first match matches, and the match itself does unless it is the end. |
| Split.FirstWhereIs | src/split.py:50-52 | The first match is at `k` when nothing before `k` matches and `xs[k]` does, or `k` is the end. |
| Split.FirstWhereJoin | src/split.py:38-52 | When `pre + row` begins `all` and neither `pre` nor `row[..k]` holds a match, the first match of `all` is `row[k]`, at `|pre| + k`. |
| Split.NoneOfAppend | src/split.py:38-53 | Two runs without a blank window join into one. |
| Split.SliceJoin | src/split.py:38-39 | When `pre + row` begins `all`, the head of `all` up to `|pre| + k` is `pre + row[..k]`. |
| Split.TilesFromPrefix | src/split.py:50-53 | The tiles of a prefix of the positions are a prefix of the tiles. |
| Split.RowCellsPrefix | src/split.py:39 | A row's saved positions among fewer columns are a prefix of those among more. |
| Split.CellsPrefix | src/split.py:38 | The saved positions of fewer rows are a prefix of those of more rows. |
| Split.RowPrefixAt | src/split.py:39-44 | Up to a fitting column `j`, a row's saved positions followed by `(i, j)` begin the row. |
| Split.RowSkips | src/split.py:43-44 | A window that does not fit keeps the inner loop's invariant: nothing is written. |
| Split.RowWrites | src/split.py:46-53 | A fitting window with no empty patch adds the tile numbered `count`, and `count` is incremented. |
| Split.RowStops | src/split.py:46-52 | A fitting window with an empty patch ends the row with the `cv2.error`. The tiles before it are kept, and so is the number of its files already written. |
| Split.RowEnds | src/split.py:39 | A row walked to the end without a blank window has written every saved tile of the row. |
| Split.SaveRow | src/split.py:39-53 | The inner loop writes the tiles of the row's saved positions in order, numbered on from `count`, up to its first blank window. If there is one, it reports how many of that tile's files were written. |
| Split.GridStopsAt | src/split.py:38-53 | When the loops reach blank window `k` of row `i` with nothing blank before it, the result is the `cv2.error` with every earlier tile written. |
| Split.GridCompletes | src/split.py:38-53 | With no blank saved window, every saved tile is written. |
| Split.RowsBeginSaved | src/split.py:38-39 | The positions of rows `0 .. i - 1` followed by those of row `i` begin the saved positions. |
| Split.OutcomeStopsAt | src/split.py:46-52 | When the first blank saved window is number `k`, the result is the `cv2.error` with the tiles of the `k` windows before it. |
| Split.GridRowDone | src/split.py:38-53 | A row finished without a blank window extends the outer loop's invariant to the next row. |
| Split.GridRowFails | src/split.py:38-53 | A row that stopped at a blank window gives the result of `split_images`: the `cv2.error` with the tiles written so far. |
| Split.GridDone | src/split.py:38-53 | After the last row, the tiles written are the result. |
| Split.SplitImages | src/split.py:6-53 | `FileNotFoundError` exactly when an image is missing. `ZeroDivisionError` for patch size 0. Otherwise `SplitOutcome`: all the saved tiles in the order written, or the `cv2.error` at the first blank window, with the tiles written before it. |
| Split.SplitCompletes | src/split.py:38-53 | The loops finish exactly when no saved window is blank, and then every saved tile is written. |
| Split.SplitStops | src/split.py:46-52 | On a `cv2.error`:<br>- the fully written tiles are a proper prefix of the saved tiles;<br>- none of their windows is blank;<br>- the next window is blank;<br>- at most two of its files were written. |
| Split.SplitSucceeds | src/split.py:40-53 | With `shift >= 0`, a positive patch size and three images of the same shape, no write raises. |
| Split.SavedFirst | src/split.py:38-39 | Position `(0, 0)` comes first whenever it is saved. |
| Split.NegativeShiftFails | src/split.py:40-50 | A shift in `[-patch_size, 0)` makes the first window `before[0:ps, shift:shift+ps]` empty, so writing `A/w0.png` raises before any file is written. |
| Split.RowCellsCount | src/split.py:39 | At most `j` positions of a row are saved. |
| Split.RowCellsElems | src/split.py:39-44 | A row's saved positions are fitting columns `0 .. j - 1` of that row. |
| Split.RowCellsComplete | src/split.py:39-44 | Every fitting column of the row is saved. |
| Split.RowCellsOrdered | src/split.py:39 | A row's saved positions go left to right. |
| Split.RowCellsAll | src/split.py:39-44 | A row where every window fits saves all of its columns. |
| Split.CellsCount | src/split.py:38-39 | At most `wr` positions are saved per row. |
| Split.CellsElems | src/split.py:38-44 | Every saved position lies in the grid and passes the skip rule. |
| Split.CellsMembers | src/split.py:38-44 | Every grid cell that passes the skip rule is saved. |
| Split.CellsSorted | src/split.py:38-39 | Saved positions come in row-major order. |
| Split.SavedCells | src/split.py:33-53 | Saved positions are exactly the fitting cells of the `hr × wr` grid, in row-major order, and there are at most `hr * wr` of them. |
| Split.RowConditionNeverSkips | src/split.py:40-44 | Inside the grid, `y1 <= h`, so only the column condition `(j+1)*patch_size + shift > w` can skip a tile. |
| Split.ShiftZeroSavesAll | src/split.py:38-44 | With `shift = 0`, exactly `hr * wr` tiles are saved. |
| Split.ShiftZeroRowFull | src/split.py:39-44 | With `shift = 0`, every tile row saves all `wr` of its columns. |
| Split.ShiftZeroFits | src/split.py:40-44 | With `shift = 0`, every grid window fits. |
| Split.CellsFull | src/split.py:38-53 | When every row is full, `n` rows save `n * wr` positions. |
| Split.SavedWindowsInside | src/split.py:40-48 | For `shift >= 0`, every saved window lies inside the image. |
| Split.FullTile | src/split.py:46-48 | For `shift >= 0`, every saved patch is a full `patch_size × patch_size` block. |
| Split.TileContents | src/split.py:46-52 | Tile `k` is named `w{k}.png`, and its before, after and label patches are cut with the window of the `k`-th saved position. |
| Split.TileNamesDistinct | src/split.py:50-53 | Tile names `w{m}.png` and `w{n}.png` are equal exactly when `m == n`. |
| ResMerger.FirstProblem | src/resmerger.py:24-33 | No error exactly when no visited tile has a problem. Otherwise the error is the problem of the first bad tile. |
| ResMerger.DoneStep | src/resmerger.py:32-33 | Placing block `(i, j)` extends the merged region by exactly that block. |
| ResMerger.BlockPixel | src/resmerger.py:32-33 | The pixel at offset `(y, x)` of block `(i, j)` comes from tile `i*cols + j`. |
| ResMerger.ExactTile | src/resmerger.py:33 | A `ts × ts` tile is copied as it is, channel 0. |
| ResMerger.BlocksPartition | src/resmerger.py:32-33 | Every canvas pixel lies in exactly one block, `(r / ts, c / ts)`, so each pixel is written once. |
| ResMerger.BlockIndex | src/resmerger.py:32-33 | Along one axis, coordinate `r` lies in block `r / ts` and in no other. |
| ResMerger.NoTilesBlank | src/resmerger.py:20-24 | With no tile visited and a canvas that has a pixel, `rows`, `cols` and `ts` are all negative and the image written is the initial zero canvas. |
| ResMerger.WrittenIff | src/resmerger.py:20-36 | The merged image is written exactly when both canvas dimensions are positive and no visited tile has a problem. A valid grid with a zero canvas dimension fails at `cv2.imwrite`. |
| ResMerger.FirstBadTile | src/resmerger.py:27-31 | The error names the first bad tile in row-major order. |
| ResMerger.PlaceBlock | src/resmerger.py:32-33 | The slice assignment of tile `i*cols + j` makes block `(i, j)` merged. Earlier blocks stay merged and the rest stays 0. |
| ResMerger.PlacedPixel | src/resmerger.py:32-33 | An untouched merged pixel, or one written from its block's tile, is merged after the step. |
| ResMerger.WriteBlock | src/resmerger.py:32-33 | The `ts × ts` block gets channel 0 of the tile, broadcast, and nothing else changes. |
| ResMerger.MergeRow | src/resmerger.py:27-34 | The inner loop visits `cols` tiles, numbered on from `count`. It stops with the first problem; otherwise the rows up to `i` are merged. |
| ResMerger.FirstProblemGrows | src/resmerger.py:24-31 | Once a tile fails, every longer visit reports the same first failure. |
| ResMerger.MergeTiles | src/resmerger.py:7-37 | `np.zeros` refuses a negative dimension. A missing or mismatched tile raises before anything is written. After the loops, `cv2.imwrite` refuses a canvas with a zero dimension. Otherwise the result is: <br>• a fresh `rows*ts × cols*ts` canvas; <br>• every pixel equal to channel 0 of tile `(r/ts)*cols + c/ts` at `(r%ts, c%ts)`; <br>• a final count of `rows*cols`. |
| ResMerger.MergeDone | src/resmerger.py:24-34 | After the outer loop, every tile was visited without a problem, the count is `rows*cols`, and every pixel is merged. |
| GeorefCrop.Clamp | src/georefCrop.py:19-20 | `min(max(lo, v), hi)` lies in `[lo, hi]` when that is non-empty, keeps in-range values, and moves others to the nearer end. It gives `hi` when the range is empty. |
| GeorefCrop.ClampIdempotent | src/georefCrop.py:19-20 | Clamping twice gives what clamping once gives. |
| GeorefCrop.ClampNearest | src/georefCrop.py:19-20 | The clamped offset is the point of `[lo, hi]` nearest the requested one. |
| GeorefCrop.Offset | src/georefCrop.py:19-20 | A missing offset is 0; a given one is clamped into `[lo, hi]` and kept when already inside. |
| GeorefCrop.RandInt | src/georefCrop.py:14-16 | `randint(lo, hi)` raises `ValueError` exactly when `hi < lo`; otherwise it returns a value of `[lo, hi]`. |
| GeorefCrop.RandIntCovers | src/georefCrop.py:14-16 | Every value of `[lo, hi]`, both ends included, can be drawn. |
| GeorefCrop.CropWindow | src/georefCrop.py:11-30 | The window has width `xsize` and height `ysize`. Without `randomize` it always succeeds. With it, it raises exactly when the crop is wider or taller than the source, naming the x range first. |
| GeorefCrop.CropFits | src/georefCrop.py:11-22 | When the crop fits, the chosen window lies inside the source, randomised or not. |
| GeorefCrop.InRangeOffsetsKept | src/georefCrop.py:19-20 | Offsets already in `[0, xmax] × [0, ymax]` are kept. |
| GeorefCrop.DefaultTopLeft | src/georefCrop.py:18-20 | Without offsets, the window is the top-left corner. |
| GeorefCrop.RandomCovers | src/georefCrop.py:14-16 | Every window inside the source can be a random crop. |
| PngConv.ToUint8 | src/pngconv.py:19 | `astype('uint8')` keeps `0..255` and otherwise wraps modulo 256. |
| PngConv.MaskValueTable | src/pngconv.py:17-18 | 0 stays 0; `1..253` becomes 255; 254 and above become 0; negative values pass unchanged. The second assignment sees the first's result. |
| PngConv.MaskBinary | src/pngconv.py:15-19 | For non-negative samples, the written mask is 0 or 255, and 255 exactly for `1..253`. |
| PngConv.SignedMaskNotBinary | src/pngconv.py:17-19 | A sample of -5 is written as 251. |
| PngConv.MaskValueCorrected | src/pngconv.py:17-19 | The intended mask value is 0 or 255, and 255 exactly for `1..253`. |
| PngConv.MaskValueCorrectedAgrees | src/pngconv.py:17-19 | For non-negative samples, the correction agrees with the program. |
| PngConv.DropHighInPlace | src/pngconv.py:17 | `img[img > 253] = 0` rewrites every sample in place. |
| PngConv.RaisePositiveInPlace | src/pngconv.py:18 | `img[img > 0] = 255` rewrites every sample in place. |
| PngConv.AsUint8 | src/pngconv.py:19 | A fresh array of the same length, each sample wrapped to `uint8`. |
| PngConv.BinariseMask | src/pngconv.py:15-19 | `img` ends holding both rewrites. The result has the same length, and each sample is the wrapped rewritten value. |
| PngConv.ImageOutput | src/pngconv.py:20-25 | The written image is `uint8`, or the input as read. |
| PngConv.PassThrough | src/pngconv.py:22 | A `uint8` image, or any image when scaling is off, is written unchanged. |
| PngConv.ConvertTifToPng | src/pngconv.py:6-27 | A missing input raises `FileNotFoundError`. A mask is written as `uint8` with one binarised sample per input sample; an image goes through `ImageOutput`. |
| PngConv.RFind | src/pngconv.py:40 | `rfind` returns -1 or an index that holds the character. |
| PngConv.RFindLast | src/pngconv.py:40 | No occurrence of the character lies after the index `rfind` reports. |
| PngConv.Splitext | src/pngconv.py:40 | Root and extension concatenate to the path. |
| PngConv.SplitextExtension | src/pngconv.py:40 | The extension is empty, or one dot followed by neither a dot nor a `/`. |
| PngConv.RFindAt | src/pngconv.py:40 | When `s[i]` is the character and no later one is, `rfind` returns `i`. |
| PngConv.RFindNone | src/pngconv.py:40 | Without the character, `rfind` returns -1. |
| PngConv.DefaultOutput | src/pngconv.py:39-40 | The default output is the input's `splitext` root followed by `.png`. |
| PngConv.OutputPath | src/pngconv.py:39-40 | A non-empty `--output` is used as given; a missing or empty one gives the default. |
| PngConv.RFindAppend | src/pngconv.py:40 | Appending characters other than the searched one does not move `rfind`. |
| PngConv.DefaultOutputSplits | src/pngconv.py:39-40 | The default output splits into the input's root and `.png`: its last extension was replaced. |
| PngConv.PngSplits | src/pngconv.py:40 | `splitext(root + ".png") == (root, ".png")` when the root's file name is not all dots. |
| PngConv.ExtSplits | src/pngconv.py:40 | Appending any one-dot extension to such a root splits back into root and extension. |
| PngConv.ExtSlash | src/pngconv.py:40 | The last `/` of `root + ext` is the root's. |
| PngConv.ExtDot | src/pngconv.py:40 | The last dot of `root + ext` is the extension's first character. |
| PngConv.SameName | src/pngconv.py:40 | Extending a path leaves the characters of its file name unchanged. |
| PngConv.SplitextAt | src/pngconv.py:40 | With the last `/` and the last dot known, and a non-dot between them, the split is at that dot. |
| PngConv.SplitextLastDot | src/pngconv.py:40 | Only the last extension is split off: `a/b.tar.gz` gives `.gz`. |
| PngConv.SplitextHidden | src/pngconv.py:40 | `.hidden` has no extension. |
| PngConv.SplitextDirectoryDot | src/pngconv.py:40 | A dot in a directory name is not an extension. |
| Masks.Trunc | src/maskfilter.py:15-18 | `astype(np.int64)` truncates toward zero. |
| Masks.TruncWhole | src/maskfilter.py:15-18 | Whole numbers are unchanged by the cast. |
| Masks.TruncBinary | src/maskfilter.py:20 | A sample passes the `{0, 1}` check exactly when it lies strictly between -1 and 2. |
| Masks.AsBool | src/maskfilter.py:52 | `astype(bool)` maps non-zero samples to 1 and zero to 0. |
| Masks.AsBoolBinary | src/maskfilter.py:52-53 | A boolean mask always passes the binary check. |
| Masks.Area | src/maskfilter.py:43 | `count_nonzero` is at most the pixel count, and 0 exactly for an empty mask. |
| Masks.Kept | src/maskfilter.py:43 | The filter keeps at most all contours. |
| Masks.KeptMembers | src/maskfilter.py:43 | Every kept contour is one of the contours, and its area reaches the threshold. |
| Masks.KeptSingle | src/maskfilter.py:43 | A single contour is kept exactly when its area reaches the threshold. |
| Masks.KeptAppend | src/maskfilter.py:37-45 | The filter distributes over concatenation, so contour order is kept. |
| Masks.KeptComplete | src/maskfilter.py:43 | Every contour whose area reaches the threshold is kept. |
| Masks.AccumulatedFormula | src/maskfilter.py:34-65 | Each pixel equals 255 × (number of kept masks covering it) mod 256. |
| Masks.AccumulatedBinary | src/maskfilter.py:45 | Where at most one kept mask covers a pixel, it is 255 or 0. |
| Masks.AccumulatedOverlap | src/maskfilter.py:45 | Two overlapping masks give 254, and 256 give 0. |
| MaskFilter.Mask2Poly | src/maskfilter.py:10-26 | It raises exactly for a non-array or a non-binary mask after the `int64` cast; otherwise it returns the polygons found. |
| MaskFilter.Mask2PolyRejects | src/maskfilter.py:15-21 | An array is rejected as non-binary exactly when some sample is `<= -1` or `>= 2`. |
| MaskFilter.RowCol | src/maskfilter.py:38 | Each cv2 point `(x, y)` becomes `(row, col) = (y, x)`. |
| MaskFilter.Rasterise | src/maskfilter.py:58-60 | One rasterised contour per polygon. |
| MaskFilter.RasteriseAt | src/maskfilter.py:58-60 | Entry `i` is polygon `i` with its mask. |
| MaskFilter.Cv2Contours | src/maskfilter.py:37-40 | One contour per cv2 contour. |
| MaskFilter.Cv2Swaps | src/maskfilter.py:38 | The cv2 path rasterises the swapped polygon. |
| MaskFilter.AddMask | src/maskfilter.py:45 | `maskr += mask * 255` in place, per pixel modulo 256. |
| MaskFilter.KeptStep | src/maskfilter.py:42-45 | One more contour extends the kept list by that contour exactly when it is large enough. |
| MaskFilter.AccumulatedStep | src/maskfilter.py:45 | Adding one mask adds 255 where it covers, modulo 256. |
| MaskFilter.AddKept | src/maskfilter.py:45 | Adding a kept mask moves `maskr` from one accumulation to the next. |
| MaskFilter.FilterByArea | src/maskfilter.py:34-47 | `maskr` is fresh and zero-based, `total` is the number of contours, and `kept` the number kept. Every pixel is the accumulation over the kept masks. |
| MaskFilter.KeptAtMostTotal | src/maskfilter.py:42-44 | `kept <= total`, and a threshold of at most 0 keeps everything. |
| MaskFilter.KeptAll | src/maskfilter.py:43 | With a threshold of at most 0, every contour is kept. |
| MaskFilter.KeptSnocLarge | src/maskfilter.py:43-45 | A large enough contour is appended to the kept list. |
| MaskFilter.FilterPolygonsCv2 | src/maskfilter.py:29-47 | The cv2 filter runs over the swapped and rasterised contours: counts and the accumulated mask. |
| MaskFilter.FilterPolygonsSkimage | src/maskfilter.py:50-67 | The skimage filter runs over the rasterised polygons: counts and the accumulated mask. |
| MaskFilter.SkimageNeverRejects | src/maskfilter.py:52-53 | After the bool cast, `mask2poly` cannot raise. |
| MaskFilter.Rectified | src/maskfilter.py:94-95 | The written mask has one pixel per image pixel. |
| MaskFilter.ProcessDataset | src/maskfilter.py:70-97 | Over `sorted(listdir)`, the outputs are those of the processed names, in order, and the totals are the sums of the per-file counts. |
| MaskFilter.ProcessStep | src/maskfilter.py:75-95 | One more name adds its output and its counts exactly when it ends in `ext` and can be read. |
| MaskFilter.DroppedNonNegative | src/maskfilter.py:91-97 | `dropped = total_all - kept_all >= 0`. |
| MaskFilter.OutputsSnoc | src/maskfilter.py:75-95 | The outputs of a listing are those of all but its last name, then that name's output if it is processed. |
| MaskFilter.OutputsSelect | src/maskfilter.py:75-95 | A name is written exactly when it is in the listing, ends in `ext`, and can be read. |
| MaskFilter.OutputsFrom | src/maskfilter.py:75-84 | Every output name comes from the listing and is processed. |
| MaskFilter.OutputsInOrder | src/maskfilter.py:75 | With a sorted listing, outputs are written in ascending name order. |
| Listing.LexLeTotal | src/maskfilter.py:75 | Any two names are ordered one way or the other. |
| Listing.LexLeTrans | src/maskfilter.py:75 | The string order is transitive. |
| Listing.LexLeAntisymmetric | src/maskfilter.py:75 | Names ordered both ways are equal. |
| Listing.Insert | src/maskfilter.py:75 | Insertion adds one entry. |
| Listing.InsertPermutes | src/maskfilter.py:75 | Insertion adds exactly the new name. |
| Listing.InsertSorted | src/maskfilter.py:75 | Insertion into a sorted list keeps it sorted. |
| Listing.Sort | src/maskfilter.py:75 | `sorted()` is ascending and a permutation of its input. |
| ReverseGeocode.Mask2Poly | src/reversegeocode.py:15-36 | It succeeds exactly when it returns polygons. It returns `(None, False)` exactly for a non-array, an unsupported dtype, or a non-binary mask after the `int64` cast; otherwise it returns `(polygons, True)`. |
| ReverseGeocode.Mask2PolyRejects | src/reversegeocode.py:28-30 | A numeric mask is rejected exactly when some sample is `<= -1` or `>= 2`. |
| ReverseGeocode.Mask2PolyAgrees | src/reversegeocode.py:20-30 | The two scripts' `mask2poly` accept the same numeric masks; only this one refuses unsupported dtypes. |
| ReverseGeocode.XY | src/reversegeocode.py:46 | Vertices stay in `(x, y)` order. |
| ReverseGeocode.NoSwap | src/reversegeocode.py:46 | Each vertex mirrors the cv2 filter's swapped vertex, so the two differ for any point off the diagonal. |
| ReverseGeocode.XYs | src/reversegeocode.py:45-46 | Every contour is in `(x, y)` order. |
| ReverseGeocode.XYContours | src/reversegeocode.py:45-48 | One rasterised contour per contour. |
| ReverseGeocode.XYContoursAt | src/reversegeocode.py:46-48 | Entry `i` is contour `i` in `(x, y)` order with its mask. |
| ReverseGeocode.Polygons | src/reversegeocode.py:50 | The polygons of the contours, in order. |
| ReverseGeocode.PolygonsSnoc | src/reversegeocode.py:50 | One more contour appends its polygon. |
| ReverseGeocode.ExtractedKept | src/reversegeocode.py:44-51 | After `n` contours, the loop holds the polygons of the kept contours among them, in order. |
| ReverseGeocode.ExtractPolygons | src/reversegeocode.py:39-51 | The result is the `(x, y)` polygons of exactly the contours whose area reaches the threshold, in contour order. |
| ReverseGeocode.ExtractStep | src/reversegeocode.py:49-50 | One more contour adds its polygon exactly when its area reaches the threshold. |
| ReverseGeocode.ExtractKeepsLarge | src/reversegeocode.py:49-50 | Every large enough contour is returned. |
| ReverseGeocode.ExtractOnlyLarge | src/reversegeocode.py:49-50 | Every returned polygon is that of a contour whose area reaches the threshold. |
| ReverseGeocode.GeocodePolygons | src/reversegeocode.py:54-66 | It raises `IndexError` exactly when some polygon is empty, naming the first. Otherwise it keeps the found records in polygon order. |
| ReverseGeocode.GeocodedAtMostOne | src/reversegeocode.py:64-65 | At most one record per polygon. |
| ReverseGeocode.GeocodedAppend | src/reversegeocode.py:58-65 | Geocoding works polygon by polygon, in order. |
| ReverseGeocode.NotFoundDropped | src/reversegeocode.py:64 | An empty lookup adds no record. |
| ReverseGeocode.GeocodedAllFound | src/reversegeocode.py:58-65 | When every lookup succeeds, record `i` belongs to polygon `i`. |
| ReverseGeocode.ExtractedProbe | src/reversegeocode.py:46-61 | The lookup of an extracted polygon is at `(row, col) = (y, x)` of the contour's first point. |
| ReverseGeocode.ExtractedNeverEmpty | src/reversegeocode.py:50-60 | Contours that all have a point give polygons whose geocoding never raises. |
| ReverseGeocode.Keys | src/reversegeocode.py:74 | `keys()` lists the record's keys in order. |
| ReverseGeocode.Cell | src/reversegeocode.py:78-79 | A value is written under a header key exactly when the record has that key; otherwise the cell is the empty `restval`. |
| ReverseGeocode.Row | src/reversegeocode.py:78-79 | A written row holds one cell per header key. |
| ReverseGeocode.WriteRows | src/reversegeocode.py:78-79 | The records are written in order, one row each, filled from the header keys. Writing stops at the first record with a key outside the header. The model reports that record's index; the `ValueError` message itself lists the extra keys. |
| ReverseGeocode.WriteRowsRaises | src/reversegeocode.py:78-79 | `writerow` raises exactly when some record has a key outside the header. |
| ReverseGeocode.SaveToCsv | src/reversegeocode.py:69-80 | An empty list writes no file. Otherwise the header is the first record's keys, and every record is written as a row. If a record does not fit, `writerow` raises `ValueError`. The model reports the record's index; the message lists its extra keys. The file keeps the header and the rows of every record before it. |
| ReverseGeocode.FirstRecordFits | src/reversegeocode.py:74-79 | The first record fits the header made from its own keys. |
| ReverseGeocode.SaveFailsOnExtraKey | src/reversegeocode.py:74-79 | Only a later record with a key outside the first record's keys makes it fail. |
| ReverseGeocode.CellOwnKey | src/reversegeocode.py:78-79 | A record with distinct keys comes out as its own values. |
| ReverseGeocode.FirstRowIsFirstRecord | src/reversegeocode.py:74-79 | The first row is the first record, value by value. |
| ReverseGeocode.MissingKeyBlank | src/reversegeocode.py:74-79 | A header key a record lacks is written empty. |
| HistogramMatch.PairUp | src/histogramMatch.py:48-51 | An odd count raises `ValueError`; otherwise there are `n/2` pairs. |
| HistogramMatch.PairUpAt | src/histogramMatch.py:51 | Pair `i` is `(v[2i], v[2i+1])`. |
| HistogramMatch.Flatten | src/histogramMatch.py:51 | The flat list has two values per pair. |
| HistogramMatch.FlattenAt | src/histogramMatch.py:51 | Value `2i` is the radius of pair `i`, and `2i + 1` its amount. |
| HistogramMatch.FlattenPairUp | src/histogramMatch.py:48-51 | Pairing an even list and flattening the pairs gives the list back. |
| HistogramMatch.PairUpFlatten | src/histogramMatch.py:51 | Flattening pairs and pairing them again gives the pairs back. |
| HistogramMatch.DefaultParams | src/histogramMatch.py:43-51 | The default list gives `(1, 1), (5, 2), (20, 1)`. |
| HistogramMatch.UnsharpNames | src/histogramMatch.py:27-32 | One name per parameter pair. |
| HistogramMatch.ProcessImage | src/histogramMatch.py:7-34 | It raises exactly when an image cannot be loaded. Otherwise it writes one file for `save_hist` plus one per pair, and none for `None` or an empty list. |
| HistogramMatch.UnsharpNamesDistinct | src/histogramMatch.py:28-32 | `{prefix}_um{a}.png` and `{prefix}_um{b}.png` are equal exactly when `a == b`. |
| HistogramMatch.HistNotUnsharp | src/histogramMatch.py:22-32 | No unsharp name is the histogram-matched name. |
| HistogramMatch.HistWrittenIff | src/histogramMatch.py:21-54 | `{prefix}_histmatched.png` is written exactly when `save_hist` is true. |
| HistogramMatch.UnsharpOrder | src/histogramMatch.py:27-33 | Pair `i+1` is written as `{prefix}_um{i+1}.png`, after the histogram-matched file. |
| HistogramMatch.OutputsDistinct | src/histogramMatch.py:21-33 | Every written file has a name of its own. |

## Left out

- **Reads and writes.** `cv2.imread`, `cv2.imwrite`, `rasterio.open`, `os.makedirs`, CSV file output and every `print` or `logging` message are left out. A read image is an input, or `None` when unreadable. A written file is part of the result, and so are the files already written when a write raises (`split.py`, `save_to_csv`).
- **Argument parsing.** `argparse` is not modelled; its defaults appear only where a lemma states them (`--unsharp`).
- **`time.sleep(delay)`** (`resmerger.py:25-26`) has no effect on any result.
- **Library algorithms are inputs.**
  - `cv2.findContours` and `cv2.threshold` are given `seq<seq<Point>>` contours.
  - `skimage.measure.find_contours` and `approximate_polygon` are the `found` polygons.
  - `polygon2mask` is a function parameter.
  - `cv2.warpAffine` with an integer translation is modelled by its pixel formula, without interpolation.
- **Floating point.** `cv2.normalize` min-max scaling (`pngconv.py:23-25`) is the input `normalised`. The unsharp float-to-`uint8` scaling (`histogramMatch.py:29-31`) is left out, and so are `match_histograms` and `unsharp_mask`. The float mean of `mse` is an integer sum.
- **`random.randint`** is a `seed` that chooses one value of the inclusive range.
- **Geometry and geocoding.** `map_layer.xy`, the pyproj transform, Nominatim and the rate limiter are one `locate` oracle applied to `(row, col)`.
- **The choice between back ends** in `process_dataset` (`mode`) is not modelled. The `scan` oracle yields the chosen back end's rasterised contours, and `MaskFilter.FilterPolygonsCv2` and `MaskFilter.FilterPolygonsSkimage` model each back end on its own.
- **CSV values.** How `csv` renders a value as text is not modelled; a cell is the record's value or the empty `restval`.
- **Other missing structure.**
  - NaN and infinite samples in the `int64` cast of `mask2poly` are not modelled.
  - Arrays are flat sequences in C order wherever only per-pixel values matter: masks, and `pngconv.py` samples.
  - A `dtype` is the small enumeration each script distinguishes.
- **Other files.** `qttut.py` (a PyQt/QGIS interface), `png2georef.py` and `histoeq.py` (library wrappers) are not part of this model.
- ImageReg.Register: models `main` of `image_reg_msecalc.py` from the two images it reads on. It returns the aligned image and does not create the output directory or write the image. So it does not capture that an `--output` with no directory part (a bare file name) crashes: `os.path.dirname` gives `""`, and `os.makedirs("")` raises `FileNotFoundError` (`image_reg_msecalc.py:87`), after the search has run.
- ImageReg.TranslationScoresZero: states the error 0 but not the returned shift. The search returns the first zero-error candidate in loop order, which need not be `(a, b)` (`ImageReg.ConstantImageFirstShift`). `ImageReg.IdenticalImagesZeroError` is stated the same way for the same reason.
- PngConv.ImageOutput: the min-max normalisation itself is not modelled; the contract says only that the result is `uint8` or the input unchanged.
- PngConv.DType: samples are integers; a floating-point TIFF is not modelled. On such a mask, `img > 0` also catches fractional values, so a sample of 0.3 becomes 255 (`pngconv.py:17-19`); the model has no sample like that.

## Findings

| source | as written | input that shows it | evidently intended | confidence | as-written member | corrected member |
|---|---|---|---|---|---|---|
| src/image_reg_msecalc.py:9 | `(a - b) ** 2` on `uint8` images wraps modulo 256 | 1×1 patches 16 and 0: difference 16, square 256, error 0 | a squared difference in a wider type, so that error 0 means equal patches | medium, not executed | ImageReg.Uint8WrapHidesDifference | ImageReg.MseWidenedZero |
| src/image_reg_msecalc.py:86 | `apply_shift(img2, dx, dy)` moves the target by the shift the search measured, a second time the same way | reference row `[0, 5, 0]`, target row `[5, 0, 0]`: the search finds `(-1, 0)` and the output is `[0, 0, 0]` | `apply_shift(img2, -dx, -dy)`, which maps the target back onto the reference | medium, not executed | ImageReg.AlignAsWrittenExample | ImageReg.AlignCorrectedRestores |
| src/pngconv.py:17-19 | a negative sample of a signed mask passes both assignments and `astype('uint8')` wraps it | the sample -5 is written as 251, so the mask is not binary | 0 for every value outside `1..253` | low, not executed | PngConv.SignedMaskNotBinary | PngConv.MaskValueCorrected |

The search and its lemmas are stated for both kinds of arithmetic (`Arith`).
The registration as a whole (`ImageReg.Register`) keeps the program's `uint8`
arithmetic and its `+dx, +dy` translation, because these are what the script
computes. The corrected alignment is `ImageReg.AlignCorrected`, and
`ImageReg.AlignCorrectedRestores` is proved about it. The corrected mask
value `PngConv.MaskValueCorrected` agrees with the program on every unsigned
sample (`PngConv.MaskValueCorrectedAgrees`).
