/**
 * The crop window of a GeoTIFF (`georefCrop.py`, `crop_tiff`): how the
 * offsets are chosen, clamped or drawn at random, and the size of the
 * output. Reading and writing the rasters and the georeferencing transform
 * are outside the model; a random draw is a `seed` choosing one value of the
 * inclusive range.
 */
module GeorefCrop {
  import opened Wrappers

  /** The size of the opened source raster. */
  datatype Source = Source(width: nat, height: nat)

  /** The crop window `Window(xoff, yoff, xsize, ysize)`; the output profile gets its width and height. */
  datatype Crop = Crop(xoff: int, yoff: int, width: int, height: int)

  /** `random.randint(lo, hi)` raises `ValueError` when `hi < lo`. */
  datatype CropError = EmptyRange(lo: int, hi: int)

  /** `min(max(lo, v), hi)`. */
  function Clamp(lo: int, hi: int, v: int): (c: int)
    ensures lo <= hi ==> lo <= c <= hi
    ensures lo <= v <= hi ==> c == v
    ensures v < lo <= hi ==> c == lo
    ensures lo <= hi < v ==> c == hi
    ensures hi < lo ==> c == hi
  {
    var m := if lo >= v then lo else v;
    if m <= hi then m else hi
  }

  /** Clamping twice gives the same offset as clamping once. */
  lemma ClampIdempotent(lo: int, hi: int, v: int)
    ensures Clamp(lo, hi, Clamp(lo, hi, v)) == Clamp(lo, hi, v)
  {
  }

  /** The clamped offset is the point of `[lo, hi]` nearest to the requested one. */
  lemma ClampNearest(lo: int, hi: int, v: int, w: int)
    requires lo <= w <= hi
    ensures var c := Clamp(lo, hi, v); (if c >= v then c - v else v - c) <= (if w >= v then w - v else v - w)
  {
  }

  /** A requested offset: `0` when none is given, otherwise it is clamped into `[lo, hi]`. */
  function Offset(lo: int, hi: int, off: Option<int>): (o: int)
    ensures off.None? ==> o == 0
    ensures off.Some? && lo <= hi ==> lo <= o <= hi
    ensures off.Some? && lo <= off.value <= hi ==> o == off.value
  {
    if off.None? then 0 else Clamp(lo, hi, off.value)
  }

  /** `random.randint(lo, hi)`, the value being chosen by `seed`. */
  function RandInt(lo: int, hi: int, seed: nat): (r: Result<int, CropError>)
    ensures r.Failure? <==> hi < lo
    ensures r.Failure? ==> r.error == EmptyRange(lo, hi)
    ensures r.Success? ==> lo <= r.value <= hi
  {
    if hi < lo then Failure(EmptyRange(lo, hi)) else Success(lo + seed % (hi - lo + 1))
  }

  /** The draw is inclusive: every value of `[lo, hi]`, both ends included, can come out. */
  lemma RandIntCovers(lo: int, hi: int, v: int)
    requires lo <= v <= hi
    ensures RandInt(lo, hi, v - lo) == Success(v)
  {
    assert (v - lo) % (hi - lo + 1) == v - lo;
  }

  /** `xmax = width - xsize`: the largest x offset that keeps the crop inside. */
  function XMax(src: Source, xsize: int): int {
    src.width - xsize
  }

  /** `ymax = height - ysize`. */
  function YMax(src: Source, ysize: int): int {
    src.height - ysize
  }

  /**
   * The window `crop_tiff` reads. With `randomize` the offsets are drawn
   * (x first, then y) from `[0, xmax]` and `[0, ymax]`; otherwise the given
   * offsets are clamped, and a missing one is 0.
   */
  function CropWindow(src: Source, xsize: int, ysize: int, xoff: Option<int>, yoff: Option<int>,
                      randomize: bool, xseed: nat, yseed: nat): (r: Result<Crop, CropError>)
    ensures r.Success? ==> r.value.width == xsize && r.value.height == ysize
    ensures !randomize ==> r.Success?
    ensures randomize ==> (r.Failure? <==> src.width < xsize || src.height < ysize)
    ensures randomize && src.width < xsize ==> r == Failure(EmptyRange(0, XMax(src, xsize)))
    ensures randomize && src.width >= xsize && src.height < ysize ==> r == Failure(EmptyRange(0, YMax(src, ysize)))
  {
    if randomize then
      var x := RandInt(0, XMax(src, xsize), xseed);
      if x.Failure? then Failure(x.error)
      else
        var y := RandInt(0, YMax(src, ysize), yseed);
        if y.Failure? then Failure(y.error)
        else Success(Crop(x.value, y.value, xsize, ysize))
    else
      Success(Crop(Offset(0, XMax(src, xsize), xoff), Offset(0, YMax(src, ysize), yoff), xsize, ysize))
  }

  /** The window lies entirely inside the source raster. */
  ghost predicate InsideSource(src: Source, c: Crop) {
    0 <= c.xoff && c.xoff + c.width <= src.width && 0 <= c.yoff && c.yoff + c.height <= src.height
  }

  /** When the crop fits, every chosen window lies inside the source. */
  lemma CropFits(src: Source, xsize: int, ysize: int, xoff: Option<int>, yoff: Option<int>,
                 randomize: bool, xseed: nat, yseed: nat)
    requires xsize <= src.width && ysize <= src.height
    ensures CropWindow(src, xsize, ysize, xoff, yoff, randomize, xseed, yseed).Success?
    ensures InsideSource(src, CropWindow(src, xsize, ysize, xoff, yoff, randomize, xseed, yseed).value)
  {
  }

  /** Given offsets already inside `[0, xmax] × [0, ymax]` are kept as they are. */
  lemma InRangeOffsetsKept(src: Source, xsize: int, ysize: int, xoff: int, yoff: int, xseed: nat, yseed: nat)
    requires 0 <= xoff <= XMax(src, xsize) && 0 <= yoff <= YMax(src, ysize)
    ensures CropWindow(src, xsize, ysize, Some(xoff), Some(yoff), false, xseed, yseed) == Success(Crop(xoff, yoff, xsize, ysize))
  {
  }

  /** Without offsets the window is the top-left corner, even when the crop is wider than the source. */
  lemma DefaultTopLeft(src: Source, xsize: int, ysize: int, xseed: nat, yseed: nat)
    ensures CropWindow(src, xsize, ysize, None, None, false, xseed, yseed) == Success(Crop(0, 0, xsize, ysize))
  {
  }

  /** Every window inside the source can be the result of a random crop. */
  lemma RandomCovers(src: Source, xsize: int, ysize: int, xoff: Option<int>, yoff: Option<int>, x: int, y: int)
    requires 0 <= x <= XMax(src, xsize) && 0 <= y <= YMax(src, ysize)
    ensures CropWindow(src, xsize, ysize, xoff, yoff, true, x, y) == Success(Crop(x, y, xsize, ysize))
  {
    RandIntCovers(0, XMax(src, xsize), x);
    RandIntCovers(0, YMax(src, ysize), y);
  }
}
