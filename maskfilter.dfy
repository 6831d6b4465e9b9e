/**
 * Polygon detection and rectification with an area threshold
 * (`maskfilter.py`): `mask2poly`'s validation, the two filters (`cv2` and
 * `skimage` back ends) that count the contours, keep those whose area
 * reaches the threshold and add them into a `uint8` mask in place, and
 * `process_dataset`, which runs a filter over a sorted directory listing.
 */
module MaskFilter {
  import opened Wrappers
  import opened Grids
  import opened Masks
  import Listing

  datatype MaskError =
    | NotAnArray   // `ValueError("mask must be numpy.ndarray")`
    | NotBinary    // `ValueError("Mask must be binary (0/1 only)")`

  /**
   * `mask2poly`: every dtype is cast to `int64` and the samples must then
   * be 0 or 1. `found` stands for the polygons `find_contours` and
   * `approximate_polygon` compute from a valid mask.
   */
  function Mask2Poly<P>(mask: MaskInput, found: seq<P>): (r: Result<seq<P>, MaskError>)
    ensures r.Failure? <==> mask.NotArray? || !Binary(mask.values)
    ensures r.Failure? ==> (r.error == NotAnArray <==> mask.NotArray?)
    ensures r.Success? ==> r.value == found
  {
    if mask.NotArray? then Failure(NotAnArray)
    else if !Binary(mask.values) then Failure(NotBinary)
    else Success(found)
  }

  /** A mask is rejected as non-binary exactly when some sample is `<= -1` or `>= 2`. */
  lemma Mask2PolyRejects<P>(dtype: DType, values: seq<real>, found: seq<P>)
    ensures Mask2Poly(Array(dtype, values), found) == Failure(NotBinary) <==>
      exists i :: 0 <= i < |values| && (values[i] <= -1.0 || values[i] >= 2.0)
  {
    if Binary(values) {
      forall i | 0 <= i < |values| ensures -1.0 < values[i] < 2.0 {
        TruncBinary(values[i]);
      }
    } else {
      var i :| 0 <= i < |values| && !(Trunc(values[i]) == 0 || Trunc(values[i]) == 1);
      TruncBinary(values[i]);
    }
  }

  /** `[[p[0][1], p[0][0]] for p in cnt]`: each point becomes `(row, col)`. */
  function RowCol(cnt: seq<Point>): (poly: seq<(int, int)>)
    ensures |poly| == |cnt|
    ensures forall i :: 0 <= i < |cnt| ==> poly[i] == (cnt[i].y, cnt[i].x)
  {
    seq(|cnt|, i requires 0 <= i < |cnt| => (cnt[i].y, cnt[i].x))
  }

  /** The polygons with the masks `polygon2mask(img.shape, polygon)` gives them, in order. */
  function Rasterise<P>(polys: seq<P>, polygon2mask: P -> seq<bool>): (cs: seq<Contour<P>>)
    ensures |cs| == |polys|
  {
    seq(|polys|, i requires 0 <= i < |polys| => Contour(polys[i], polygon2mask(polys[i])))
  }

  /** Entry `i` of `Rasterise` is polygon `i` with its mask. */
  lemma RasteriseAt<P>(polys: seq<P>, polygon2mask: P -> seq<bool>, i: int)
    requires 0 <= i < |polys|
    ensures Rasterise(polys, polygon2mask)[i] == Contour(polys[i], polygon2mask(polys[i]))
  {
  }

  /** The contours of the `cv2` back end, each swapped to `(row, col)` before it is rasterised. */
  function Cv2Contours(contours: seq<seq<Point>>, polygon2mask: seq<(int, int)> -> seq<bool>): (cs: seq<Contour<seq<(int, int)>>>)
    ensures |cs| == |contours|
  {
    Rasterise(seq(|contours|, i requires 0 <= i < |contours| => RowCol(contours[i])), polygon2mask)
  }

  /** The `cv2` path rasterises the swapped polygon: vertex `j` of contour `i` is `(y, x)`. */
  lemma Cv2Swaps(contours: seq<seq<Point>>, polygon2mask: seq<(int, int)> -> seq<bool>, i: int, j: int)
    requires 0 <= i < |contours| && 0 <= j < |contours[i]|
    ensures var c := Cv2Contours(contours, polygon2mask)[i];
      |c.polygon| == |contours[i]| && c.polygon[j] == (contours[i][j].y, contours[i][j].x) &&
      c.mask == polygon2mask(c.polygon)
  {
    RasteriseAt(seq(|contours|, k requires 0 <= k < |contours| => RowCol(contours[k])), polygon2mask, i);
  }

  /** `maskr += mask.astype(np.uint8) * 255`, in place, with `uint8` wrap-around. */
  method AddMask<P>(maskr: array<Byte>, c: Contour<P>)
    modifies maskr
    ensures forall p :: 0 <= p < maskr.Length ==>
      maskr[p] == (old(maskr[p]) as int + (if p < |c.mask| && c.mask[p] then 255 else 0)) % 256
  {
    forall p | 0 <= p < maskr.Length {
      maskr[p] := (maskr[p] as int + (if p < |c.mask| && c.mask[p] then 255 else 0)) % 256;
    }
  }

  /** One more contour extends the kept list by that contour exactly when it is large enough. */
  lemma KeptStep<P>(cs: seq<Contour<P>>, i: int, th: int)
    requires 0 <= i < |cs|
    ensures Kept(cs[..i + 1], th) == Kept(cs[..i], th) + (if Area(cs[i].mask) >= th then [cs[i]] else [])
  {
    assert cs[..i + 1][..i] == cs[..i];
  }

  /** Accumulating one more mask adds it to every pixel, modulo 256. */
  lemma AccumulatedStep<P>(ms: seq<Contour<P>>, c: Contour<P>, p: nat)
    ensures Accumulated(ms + [c], p) == (Accumulated(ms, p) as int + (if p < |c.mask| && c.mask[p] then 255 else 0)) % 256
  {
    assert (ms + [c])[..|ms|] == ms;
  }

  /** `maskr` holds, pixel by pixel, the accumulation of `ms`. */
  ghost predicate Holds<P>(maskr: array<Byte>, ms: seq<Contour<P>>)
    reads maskr
  {
    forall p :: 0 <= p < maskr.Length ==> maskr[p] == Accumulated(ms, p)
  }

  /** Adding a kept contour's mask moves `maskr` from the accumulation of `ms` to that of `ms + [c]`. */
  method AddKept<P>(maskr: array<Byte>, ghost ms: seq<Contour<P>>, c: Contour<P>)
    requires Holds(maskr, ms)
    modifies maskr
    ensures Holds(maskr, ms + [c])
  {
    AddMask(maskr, c);
    forall p | 0 <= p < maskr.Length
      ensures maskr[p] == Accumulated(ms + [c], p)
    {
      AccumulatedStep(ms, c, p);
    }
  }

  /**
   * The loop shared by `filter_polygons_cv2` and `filter_polygons_skimage`:
   * count every contour, keep those whose area reaches `th`, and add each
   * kept mask into the zero-initialised `maskr`.
   */
  method FilterByArea<P>(pixels: nat, cs: seq<Contour<P>>, th: int) returns (maskr: array<Byte>, total: nat, kept: nat)
    ensures fresh(maskr) && maskr.Length == pixels
    ensures total == |cs| && kept == |Kept(cs, th)|
    ensures forall p :: 0 <= p < pixels ==> maskr[p] == Accumulated(Kept(cs, th), p)
  {
    maskr := new Byte[pixels](_ => 0);
    total, kept := 0, 0;
    var i := 0;
    while i < |cs|
      invariant 0 <= i <= |cs| && maskr.Length == pixels
      invariant total == i && kept == |Kept(cs[..i], th)|
      invariant Holds(maskr, Kept(cs[..i], th))
    {
      var c := cs[i];
      ghost var ks := Kept(cs[..i], th);
      KeptStep(cs, i, th);
      total := total + 1;
      if Area(c.mask) >= th {
        kept := kept + 1;
        AddKept(maskr, ks, c);
        assert Kept(cs[..i + 1], th) == ks + [c];
      } else {
        assert Kept(cs[..i + 1], th) == ks;
      }
      i := i + 1;
    }
    assert cs[..|cs|] == cs;
  }

  /** At most all contours are kept: `kept <= total`, and nothing is kept when no contour is found. */
  lemma KeptAtMostTotal<P>(cs: seq<Contour<P>>, th: int)
    ensures |Kept(cs, th)| <= |cs|
    ensures th <= 0 ==> Kept(cs, th) == cs
  {
    if th <= 0 {
      KeptAll(cs, th);
    }
  }

  /** With a threshold of at most 0 every contour is kept. */
  lemma {:induction false} KeptAll<P>(cs: seq<Contour<P>>, th: int)
    requires th <= 0
    ensures Kept(cs, th) == cs
    decreases |cs|
  {
    if |cs| > 0 {
      var init, last := cs[..|cs| - 1], cs[|cs| - 1];
      assert init + [last] == cs;
      KeptAll(init, th);
      KeptSnocLarge(init, last, th);
    }
  }

  /** A contour whose area reaches the threshold is appended to the kept list. */
  lemma KeptSnocLarge<P>(cs: seq<Contour<P>>, c: Contour<P>, th: int)
    requires Area(c.mask) >= th
    ensures Kept(cs + [c], th) == Kept(cs, th) + [c]
  {
    assert (cs + [c])[..|cs|] == cs;
  }

  /**
   * `filter_polygons_cv2`: the contours `cv2.findContours` found on the
   * thresholded image, swapped to `(row, col)` and rasterised, go through the
   * area filter.
   */
  method FilterPolygonsCv2(pixels: nat, contours: seq<seq<Point>>, polygon2mask: seq<(int, int)> -> seq<bool>, th: int)
    returns (maskr: array<Byte>, total: nat, kept: nat)
    ensures fresh(maskr) && maskr.Length == pixels
    ensures total == |contours| && kept == |Kept(Cv2Contours(contours, polygon2mask), th)|
    ensures forall p :: 0 <= p < pixels ==> maskr[p] == Accumulated(Kept(Cv2Contours(contours, polygon2mask), th), p)
  {
    maskr, total, kept := FilterByArea(pixels, Cv2Contours(contours, polygon2mask), th);
  }

  /**
   * `filter_polygons_skimage`: the image is cast to `bool`, so `mask2poly`
   * cannot reject it; its polygons, rasterised, go through the area filter.
   */
  method FilterPolygonsSkimage<P>(img: seq<Byte>, found: seq<P>, polygon2mask: P -> seq<bool>, th: int)
    returns (maskr: array<Byte>, total: nat, kept: nat)
    ensures fresh(maskr) && maskr.Length == |img|
    ensures total == |found| && kept == |Kept(Rasterise(found, polygon2mask), th)|
    ensures forall p :: 0 <= p < |img| ==> maskr[p] == Accumulated(Kept(Rasterise(found, polygon2mask), th), p)
  {
    var polygons := Mask2Poly(Array(Bool, AsBool(img)), found);
    AsBoolBinary(img);
    maskr, total, kept := FilterByArea(|img|, Rasterise(polygons.value, polygon2mask), th);
  }

  /** The skimage path never raises: the boolean cast makes every mask binary. */
  lemma SkimageNeverRejects<P>(img: seq<int>, found: seq<P>)
    ensures Mask2Poly(Array(Bool, AsBool(img)), found) == Success(found)
  {
    AsBoolBinary(img);
  }

  /**
   * A readable image as the chosen back end sees it: its number of pixels
   * and its rasterised contours.
   */
  datatype Scan<P> = Scan(pixels: nat, contours: seq<Contour<P>>)

  /** A written output: the file name and the rectified mask. */
  datatype Saved = Saved(name: string, mask: seq<Byte>)

  /** The mask written for a scan: every pixel accumulated over the kept contours. */
  function Rectified<P>(s: Scan<P>, th: int): (m: seq<Byte>)
    ensures |m| == s.pixels
  {
    seq(s.pixels, p requires 0 <= p < s.pixels => Accumulated(Kept(s.contours, th), p))
  }

  /** The names `process_dataset` processes: those ending in `ext` that can be read. */
  predicate Processed<P>(name: string, ext: string, scan: string -> Option<Scan<P>>) {
    Listing.EndsWith(name, ext) && scan(name).Some?
  }

  /** The outputs for `names`, in order; a skipped name writes nothing. */
  function Outputs<P>(names: seq<string>, ext: string, th: int, scan: string -> Option<Scan<P>>): seq<Saved> {
    if |names| == 0 then []
    else
      var n := names[|names| - 1];
      Outputs(names[..|names| - 1], ext, th, scan) +
        (if Processed(n, ext, scan) then [Saved(n, Rectified(scan(n).value, th))] else [])
  }

  /** `total_all`: the sum of the contour counts of the processed files. */
  function TotalAll<P>(names: seq<string>, ext: string, scan: string -> Option<Scan<P>>): nat {
    if |names| == 0 then 0
    else
      var n := names[|names| - 1];
      TotalAll(names[..|names| - 1], ext, scan) + (if Processed(n, ext, scan) then |scan(n).value.contours| else 0)
  }

  /** `kept_all`: the sum of the kept counts of the processed files. */
  function KeptAllFiles<P>(names: seq<string>, ext: string, th: int, scan: string -> Option<Scan<P>>): nat {
    if |names| == 0 then 0
    else
      var n := names[|names| - 1];
      KeptAllFiles(names[..|names| - 1], ext, th, scan) + (if Processed(n, ext, scan) then |Kept(scan(n).value.contours, th)| else 0)
  }

  /**
   * `process_dataset`: walk `sorted(os.listdir(input_dir))`, skip names not
   * ending in `ext` and unreadable files, filter each remaining image and
   * add its counts to the totals. `scan` stands for reading a file and
   * running the chosen back end's contour finder on it.
   */
  method ProcessDataset<P>(listing: seq<string>, th: int, ext: string, scan: string -> Option<Scan<P>>)
    returns (saved: seq<Saved>, totalAll: nat, keptAll: nat)
    ensures saved == Outputs(Listing.Sort(listing), ext, th, scan)
    ensures totalAll == TotalAll(Listing.Sort(listing), ext, scan)
    ensures keptAll == KeptAllFiles(Listing.Sort(listing), ext, th, scan)
  {
    var names := Listing.Sort(listing);
    saved, totalAll, keptAll := [], 0, 0;
    var i := 0;
    while i < |names|
      invariant 0 <= i <= |names|
      invariant saved == Outputs(names[..i], ext, th, scan)
      invariant totalAll == TotalAll(names[..i], ext, scan)
      invariant keptAll == KeptAllFiles(names[..i], ext, th, scan)
    {
      var fname := names[i];
      ProcessStep(names, i, ext, th, scan);
      if !Listing.EndsWith(fname, ext) {
        i := i + 1;
        continue;
      }
      var img := scan(fname);
      if img.None? {
        i := i + 1;
        continue;
      }
      var maskr, total, kept := FilterByArea(img.value.pixels, img.value.contours, th);
      assert maskr[..] == Rectified(img.value, th);
      totalAll := totalAll + total;
      keptAll := keptAll + kept;
      saved := saved + [Saved(fname, maskr[..])];
      i := i + 1;
    }
    assert names[..|names|] == names;
  }

  /** One more name of the listing adds its output and its counts, if it is processed. */
  lemma ProcessStep<P>(names: seq<string>, i: int, ext: string, th: int, scan: string -> Option<Scan<P>>)
    requires 0 <= i < |names|
    ensures var n, pre := names[i], names[..i];
      Outputs(names[..i + 1], ext, th, scan) ==
        Outputs(pre, ext, th, scan) + (if Processed(n, ext, scan) then [Saved(n, Rectified(scan(n).value, th))] else []) &&
      TotalAll(names[..i + 1], ext, scan) ==
        TotalAll(pre, ext, scan) + (if Processed(n, ext, scan) then |scan(n).value.contours| else 0) &&
      KeptAllFiles(names[..i + 1], ext, th, scan) ==
        KeptAllFiles(pre, ext, th, scan) + (if Processed(n, ext, scan) then |Kept(scan(n).value.contours, th)| else 0)
  {
    assert names[..i + 1][..i] == names[..i];
  }

  /** `dropped = total_all - kept_all` is never negative. */
  lemma {:induction false} DroppedNonNegative<P>(names: seq<string>, ext: string, th: int, scan: string -> Option<Scan<P>>)
    ensures KeptAllFiles(names, ext, th, scan) <= TotalAll(names, ext, scan)
    decreases |names|
  {
    if |names| > 0 {
      DroppedNonNegative(names[..|names| - 1], ext, th, scan);
    }
  }

  /** The outputs of a listing are those of all but its last name, then that name's output if it is processed. */
  lemma OutputsSnoc<P>(names: seq<string>, ext: string, th: int, scan: string -> Option<Scan<P>>)
    requires |names| > 0
    ensures var last := names[|names| - 1];
      Outputs(names, ext, th, scan) == Outputs(names[..|names| - 1], ext, th, scan) +
        (if Processed(last, ext, scan) then [Saved(last, Rectified(scan(last).value, th))] else [])
  {
  }

  /** Exactly the names ending in `ext` that can be read are written. */
  lemma {:induction false} OutputsSelect<P>(names: seq<string>, ext: string, th: int, scan: string -> Option<Scan<P>>, n: string)
    ensures (exists k :: 0 <= k < |Outputs(names, ext, th, scan)| && Outputs(names, ext, th, scan)[k].name == n) <==>
      (n in names && Processed(n, ext, scan))
    decreases |names|
  {
    if |names| > 0 {
      var init, last := names[..|names| - 1], names[|names| - 1];
      OutputsSelect(init, ext, th, scan, n);
      OutputsSnoc(names, ext, th, scan);
      var o := Outputs(init, ext, th, scan);
      var all := Outputs(names, ext, th, scan);
      assert names == init + [last];
      if n in names && Processed(n, ext, scan) {
        if n in init {
          var k :| 0 <= k < |o| && o[k].name == n;
          assert all[k] == o[k];
        } else {
          assert n == last;
          assert all[|o|].name == n;
        }
      }
      if exists k :: 0 <= k < |all| && all[k].name == n {
        var k :| 0 <= k < |all| && all[k].name == n;
        if k < |o| {
          assert all[k] == o[k];
          assert n in init;
        } else {
          assert Processed(last, ext, scan) && all[k].name == last;
        }
      }
    }
  }

  /** Every output name comes from the listing, and is one `process_dataset` processes. */
  lemma {:induction false} OutputsFrom<P>(names: seq<string>, ext: string, th: int, scan: string -> Option<Scan<P>>)
    ensures forall k :: 0 <= k < |Outputs(names, ext, th, scan)| ==>
      Outputs(names, ext, th, scan)[k].name in names && Processed(Outputs(names, ext, th, scan)[k].name, ext, scan)
    decreases |names|
  {
    if |names| > 0 {
      var init, last := names[..|names| - 1], names[|names| - 1];
      OutputsFrom(init, ext, th, scan);
      var o := Outputs(init, ext, th, scan);
      var all := Outputs(names, ext, th, scan);
      assert names == init + [last];
      assert all == o + (if Processed(last, ext, scan) then [Saved(last, Rectified(scan(last).value, th))] else []);
      forall k | 0 <= k < |all|
        ensures all[k].name in names && Processed(all[k].name, ext, scan)
      {
        if k < |o| {
          assert all[k] == o[k];
          assert o[k].name in init;
        }
      }
    }
  }

  /** With a sorted listing the outputs are written in ascending name order. */
  lemma {:induction false} OutputsInOrder<P>(names: seq<string>, ext: string, th: int, scan: string -> Option<Scan<P>>)
    requires Listing.Sorted(names)
    ensures forall a, b :: 0 <= a < b < |Outputs(names, ext, th, scan)| ==>
      Listing.LexLe(Outputs(names, ext, th, scan)[a].name, Outputs(names, ext, th, scan)[b].name)
    decreases |names|
  {
    if |names| > 0 {
      var init, last := names[..|names| - 1], names[|names| - 1];
      OutputsInOrder(init, ext, th, scan);
      OutputsFrom(init, ext, th, scan);
      var o := Outputs(init, ext, th, scan);
      var all := Outputs(names, ext, th, scan);
      assert all == o + (if Processed(last, ext, scan) then [Saved(last, Rectified(scan(last).value, th))] else []);
      forall a, b | 0 <= a < b < |all|
        ensures Listing.LexLe(all[a].name, all[b].name)
      {
        assert all[a] == o[a];
        if b < |o| {
          assert all[b] == o[b];
        } else {
          assert o[a].name in init;
          var j :| 0 <= j < |init| && init[j] == o[a].name;
          assert names[j] == o[a].name && all[b].name == names[|names| - 1];
        }
      }
    }
  }
}
