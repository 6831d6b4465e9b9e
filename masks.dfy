/**
 * What the two polygon scripts (`maskfilter.py`, `reversegeocode.py`) share:
 * the binary check of `mask2poly` after the cast to `int64`, the area of a
 * rasterised polygon (`torch.count_nonzero`), the area filter over the
 * contours in the order the contour finder lists them, and the `uint8`
 * accumulation of the kept polygons into one mask.
 *
 * Contour finding (`cv2.findContours`, `skimage.measure.find_contours`) and
 * rasterisation (`skimage.draw.polygon2mask`) are library code: their results
 * are inputs. A rasterised polygon is a sequence of booleans, one per pixel
 * of the image in C order.
 */
module Masks {
  import opened Grids

  /** The dtype of the array given to `mask2poly`. */
  datatype DType = Bool | Integer | Floating | Other

  /**
   * The argument of `mask2poly`: something that is not a NumPy array, or an
   * array with its dtype and its samples (booleans as 0 and 1, integers as
   * whole numbers).
   */
  datatype MaskInput = NotArray | Array(dtype: DType, values: seq<real>)

  /** `astype(np.int64)` on a finite sample: truncation toward zero. */
  function Trunc(v: real): (t: int)
    ensures v >= 0.0 ==> t as real <= v < t as real + 1.0
    ensures v <= 0.0 ==> t as real - 1.0 < v <= t as real
  {
    if v >= 0.0 then v.Floor else -((-v).Floor)
  }

  /** The cast leaves whole numbers (booleans, integers) unchanged. */
  lemma TruncWhole(n: int)
    ensures Trunc(n as real) == n
  {
  }

  /** A sample passes the `{0, 1}` check after truncation exactly when it lies strictly between -1 and 2. */
  lemma TruncBinary(v: real)
    ensures (Trunc(v) == 0 || Trunc(v) == 1) <==> -1.0 < v < 2.0
  {
  }

  /** `set(np.unique(arr)).issubset({0, 1})` for `arr = values.astype(np.int64)`. */
  predicate Binary(values: seq<real>) {
    forall i :: 0 <= i < |values| ==> Trunc(values[i]) == 0 || Trunc(values[i]) == 1
  }

  /** `img.astype(bool)`: non-zero samples become `True`, written as 1. */
  function AsBool(img: seq<int>): (m: seq<real>)
    ensures |m| == |img|
    ensures forall i :: 0 <= i < |img| ==> m[i] == if img[i] != 0 then 1.0 else 0.0
  {
    seq(|img|, i requires 0 <= i < |img| => if img[i] != 0 then 1.0 else 0.0)
  }

  /** A boolean mask always passes the binary check. */
  lemma AsBoolBinary(img: seq<int>)
    ensures Binary(AsBool(img))
  {
  }

  /** `torch.count_nonzero(mask)`: the number of pixels a rasterised polygon covers. */
  function Area(mask: seq<bool>): (a: nat)
    ensures a <= |mask|
    ensures a == 0 <==> forall i :: 0 <= i < |mask| ==> !mask[i]
  {
    if |mask| == 0 then 0 else Area(mask[..|mask| - 1]) + (if mask[|mask| - 1] then 1 else 0)
  }

  /** A contour point as `cv2.findContours` reports it: column `x`, row `y`. */
  datatype Point = Point(x: int, y: int)

  /** A contour as the filters see it: the polygon and its rasterised mask. */
  datatype Contour<P> = Contour(polygon: P, mask: seq<bool>)

  /** The contours the area filter keeps, `count_nonzero(mask) >= th`, in their original order. */
  function Kept<P>(cs: seq<Contour<P>>, th: int): (ks: seq<Contour<P>>)
    ensures |ks| <= |cs|
  {
    if |cs| == 0 then []
    else
      var last := cs[|cs| - 1];
      Kept(cs[..|cs| - 1], th) + (if Area(last.mask) >= th then [last] else [])
  }

  /** Every kept contour is one of the contours, and its area reaches the threshold. */
  lemma {:induction false} KeptMembers<P>(cs: seq<Contour<P>>, th: int)
    ensures forall k :: 0 <= k < |Kept(cs, th)| ==> Kept(cs, th)[k] in cs && Area(Kept(cs, th)[k].mask) >= th
    decreases |cs|
  {
    if |cs| > 0 {
      var init := cs[..|cs| - 1];
      KeptMembers(init, th);
      var ks := Kept(cs, th);
      forall k | 0 <= k < |ks|
        ensures ks[k] in cs && Area(ks[k].mask) >= th
      {
        if k < |Kept(init, th)| {
          assert ks[k] == Kept(init, th)[k];
          assert ks[k] in init;
        }
      }
    }
  }

  /** A single contour is kept exactly when its area reaches the threshold. */
  lemma KeptSingle<P>(c: Contour<P>, th: int)
    ensures Kept([c], th) == if Area(c.mask) >= th then [c] else []
  {
    assert [c][..0] == [];
  }

  /** The filter works contour by contour: it distributes over concatenation, so the order is kept. */
  lemma {:induction false} KeptAppend<P>(cs: seq<Contour<P>>, ds: seq<Contour<P>>, th: int)
    ensures Kept(cs + ds, th) == Kept(cs, th) + Kept(ds, th)
    decreases |ds|
  {
    if |ds| == 0 {
      assert cs + ds == cs;
    } else {
      var ds' := ds[..|ds| - 1];
      assert (cs + ds)[..|cs + ds| - 1] == cs + ds';
      KeptAppend(cs, ds', th);
    }
  }

  /** Every contour whose area reaches the threshold is kept. */
  lemma {:induction false} KeptComplete<P>(cs: seq<Contour<P>>, th: int, i: int)
    requires 0 <= i < |cs| && Area(cs[i].mask) >= th
    ensures cs[i] in Kept(cs, th)
    decreases |cs|
  {
    if i < |cs| - 1 {
      KeptComplete(cs[..|cs| - 1], th, i);
    }
  }

  /** How many of the contours cover pixel `p`. */
  function Covering<P>(ms: seq<Contour<P>>, p: nat): nat {
    if |ms| == 0 then 0
    else
      var last := ms[|ms| - 1];
      Covering(ms[..|ms| - 1], p) + (if p < |last.mask| && last.mask[p] then 1 else 0)
  }

  /** Pixel `p` of `maskr` after `maskr += mask.astype(np.uint8) * 255` for each contour: `uint8` addition wraps. */
  function Accumulated<P>(ms: seq<Contour<P>>, p: nat): Byte {
    if |ms| == 0 then 0
    else
      var last := ms[|ms| - 1];
      (Accumulated(ms[..|ms| - 1], p) as int + (if p < |last.mask| && last.mask[p] then 255 else 0)) % 256
  }

  /** The accumulated pixel is `255 × (number of covering masks) mod 256`. */
  lemma {:induction false} AccumulatedFormula<P>(ms: seq<Contour<P>>, p: nat)
    ensures Accumulated(ms, p) == (255 * Covering(ms, p)) % 256
  {
    if |ms| > 0 {
      var init := ms[..|ms| - 1];
      AccumulatedFormula(init, p);
      var c := Covering(init, p);
      var a := Accumulated(init, p);
      assert a == (255 * c) % 256;
      var last := ms[|ms| - 1];
      if p < |last.mask| && last.mask[p] {
        assert 255 * (c + 1) == 255 * c + 255;
        ModAdd(255 * c, 255);
      }
    }
  }

  /** `(x mod 256 + d) mod 256 == (x + d) mod 256`. */
  lemma ModAdd(x: int, d: int)
    ensures (x % 256 + d) % 256 == (x + d) % 256
  {
    var q := x / 256;
    assert x == 256 * q + x % 256;
    assert x + d == 256 * q + (x % 256 + d);
  }

  /** Where at most one kept mask covers a pixel, the result is a clean 0/255 mask. */
  lemma AccumulatedBinary<P>(ms: seq<Contour<P>>, p: nat)
    requires Covering(ms, p) <= 1
    ensures Accumulated(ms, p) == (if Covering(ms, p) == 1 then 255 else 0)
  {
    AccumulatedFormula(ms, p);
  }

  /** Where two kept masks overlap, the wrap-around gives 254; 256 overlapping masks give 0. */
  lemma AccumulatedOverlap<P>(ms: seq<Contour<P>>, p: nat)
    ensures Covering(ms, p) == 2 ==> Accumulated(ms, p) == 254
    ensures Covering(ms, p) == 256 ==> Accumulated(ms, p) == 0
  {
    AccumulatedFormula(ms, p);
  }
}
