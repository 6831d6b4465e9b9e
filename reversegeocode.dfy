/**
 * Polygon extraction and reverse geocoding (`reversegeocode.py`):
 * `mask2poly`'s validation, which reports failure as `(None, False)`
 * instead of raising; `extract_polygons`, the area filter over the
 * contours of the thresholded image with the vertices left in `(x, y)`
 * order; `geocode_polygons`, which looks up the first vertex of each
 * polygon; and the table `save_to_csv` writes.
 *
 * The georeferencing (`map_layer.xy`, the `pyproj` transform) and the
 * rate-limited Nominatim lookup together are one oracle `locate`, taking
 * the `(row, col)` the script passes to `map_layer.xy` and answering with
 * the raw record of the place found, if any.
 */
module ReverseGeocode {
  import opened Wrappers
  import opened Masks
  import MaskFilter

  /**
   * `mask2poly`: `(None, False)` for a non-array, for a dtype that is
   * neither boolean, integer nor floating, and for samples that are not 0/1
   * after the cast to `int64`; otherwise `(polygons, True)`, `found`
   * standing for the polygons `find_contours` and `approximate_polygon`
   * compute.
   */
  function Mask2Poly<P>(mask: MaskInput, found: seq<P>): (r: (Option<seq<P>>, bool))
    ensures r.1 <==> r.0.Some?
    ensures !r.1 <==> mask.NotArray? || mask.dtype == Other || !Binary(mask.values)
    ensures r.1 ==> r.0 == Some(found)
  {
    if mask.NotArray? then (None, false)
    else if mask.dtype == Other then (None, false)
    else if !Binary(mask.values) then (None, false)
    else (Some(found), true)
  }

  /** A numeric mask is rejected exactly when some sample is `<= -1` or `>= 2`. */
  lemma Mask2PolyRejects<P>(dtype: DType, values: seq<real>, found: seq<P>)
    requires dtype != Other
    ensures Mask2Poly(Array(dtype, values), found) == (None, false) <==>
      exists i :: 0 <= i < |values| && (values[i] <= -1.0 || values[i] >= 2.0)
  {
    MaskFilter.Mask2PolyRejects(dtype, values, found);
  }

  /**
   * The two scripts' `mask2poly` accept the same numeric masks; only this
   * one turns away an unsupported dtype, which the other casts anyway.
   */
  lemma Mask2PolyAgrees<P>(mask: MaskInput, found: seq<P>)
    ensures mask.Array? && mask.dtype == Other ==>
      Mask2Poly(mask, found) == (None, false) && (MaskFilter.Mask2Poly(mask, found).Success? <==> Binary(mask.values))
    ensures !(mask.Array? && mask.dtype == Other) ==>
      (Mask2Poly(mask, found).1 <==> MaskFilter.Mask2Poly(mask, found).Success?)
  {
  }

  /** `[[pt[0][0], pt[0][1]] for pt in contour]`: the vertices stay `(x, y)`. */
  function XY(cnt: seq<Point>): (poly: seq<(int, int)>)
    ensures |poly| == |cnt|
    ensures forall i :: 0 <= i < |cnt| ==> poly[i] == (cnt[i].x, cnt[i].y)
  {
    seq(|cnt|, i requires 0 <= i < |cnt| => (cnt[i].x, cnt[i].y))
  }

  /** Unlike the `cv2` filter of `maskfilter.py`, no vertex is swapped: each is the other's mirror. */
  lemma NoSwap(cnt: seq<Point>, i: int)
    requires 0 <= i < |cnt|
    ensures XY(cnt)[i].0 == MaskFilter.RowCol(cnt)[i].1 && XY(cnt)[i].1 == MaskFilter.RowCol(cnt)[i].0
    ensures |cnt| > 0 && cnt[i].x != cnt[i].y ==> XY(cnt) != MaskFilter.RowCol(cnt)
  {
  }

  /** Every contour in `(x, y)` order. */
  function XYs(contours: seq<seq<Point>>): (polys: seq<seq<(int, int)>>)
    ensures |polys| == |contours|
    ensures forall i :: 0 <= i < |contours| ==> polys[i] == XY(contours[i])
  {
    seq(|contours|, i requires 0 <= i < |contours| => XY(contours[i]))
  }

  /** The contours with their `(x, y)` polygons and the masks `polygon2mask` gives them. */
  function XYContours(contours: seq<seq<Point>>, polygon2mask: seq<(int, int)> -> seq<bool>): (cs: seq<Contour<seq<(int, int)>>>)
    ensures |cs| == |contours|
  {
    MaskFilter.Rasterise(XYs(contours), polygon2mask)
  }

  /** Entry `i` of `XYContours` is contour `i` in `(x, y)` order with its mask. */
  lemma XYContoursAt(contours: seq<seq<Point>>, polygon2mask: seq<(int, int)> -> seq<bool>, i: int)
    requires 0 <= i < |contours|
    ensures XYContours(contours, polygon2mask)[i] == Contour(XY(contours[i]), polygon2mask(XY(contours[i])))
  {
    MaskFilter.RasteriseAt(XYs(contours), polygon2mask, i);
  }

  /** The polygons of a list of contours, in order. */
  function Polygons<P>(cs: seq<Contour<P>>): (ps: seq<P>)
    ensures |ps| == |cs|
    ensures forall i :: 0 <= i < |cs| ==> ps[i] == cs[i].polygon
  {
    seq(|cs|, i requires 0 <= i < |cs| => cs[i].polygon)
  }

  /** `Polygons` distributes over appending one contour. */
  lemma PolygonsSnoc<P>(cs: seq<Contour<P>>, c: Contour<P>)
    ensures Polygons(cs + [c]) == Polygons(cs) + [c.polygon]
  {
    assert Polygons(cs + [c]) == Polygons(cs) + [c.polygon];
  }

  /** The polygons the loop of `extract_polygons` has collected after the first `n` contours. */
  function Extracted(contours: seq<seq<Point>>, polygon2mask: seq<(int, int)> -> seq<bool>, areaThreshold: int, n: nat): seq<seq<(int, int)>>
    requires n <= |contours|
  {
    if n == 0 then []
    else
      var p := XY(contours[n - 1]);
      Extracted(contours, polygon2mask, areaThreshold, n - 1) + (if Area(polygon2mask(p)) >= areaThreshold then [p] else [])
  }

  /** The loop collects the polygons of the kept contours of the first `n`, in order. */
  lemma {:induction false} ExtractedKept(contours: seq<seq<Point>>, polygon2mask: seq<(int, int)> -> seq<bool>, areaThreshold: int, n: nat)
    requires n <= |contours|
    ensures Extracted(contours, polygon2mask, areaThreshold, n) == Polygons(Kept(XYContours(contours, polygon2mask)[..n], areaThreshold))
  {
    if n > 0 {
      ExtractedKept(contours, polygon2mask, areaThreshold, n - 1);
      ExtractStep(contours, polygon2mask, areaThreshold, n - 1);
    }
  }

  /**
   * `extract_polygons`: the `(x, y)` polygon of every contour whose
   * rasterised area reaches `area_threshold`, in contour order.
   */
  method ExtractPolygons(contours: seq<seq<Point>>, polygon2mask: seq<(int, int)> -> seq<bool>, areaThreshold: int)
    returns (polygons: seq<seq<(int, int)>>)
    ensures polygons == Polygons(Kept(XYContours(contours, polygon2mask), areaThreshold))
  {
    polygons := [];
    var i := 0;
    while i < |contours|
      invariant 0 <= i <= |contours|
      invariant polygons == Extracted(contours, polygon2mask, areaThreshold, i)
    {
      var coords := XY(contours[i]);
      var mask := polygon2mask(coords);
      if Area(mask) >= areaThreshold {
        polygons := polygons + [coords];
      }
      i := i + 1;
    }
    ExtractedKept(contours, polygon2mask, areaThreshold, |contours|);
    assert XYContours(contours, polygon2mask)[..|contours|] == XYContours(contours, polygon2mask);
  }

  /** One more contour adds its `(x, y)` polygon exactly when its area reaches the threshold. */
  lemma ExtractStep(contours: seq<seq<Point>>, polygon2mask: seq<(int, int)> -> seq<bool>, areaThreshold: int, i: int)
    requires 0 <= i < |contours|
    ensures var cs, p := XYContours(contours, polygon2mask), XY(contours[i]);
      Polygons(Kept(cs[..i + 1], areaThreshold)) ==
        Polygons(Kept(cs[..i], areaThreshold)) + (if Area(polygon2mask(p)) >= areaThreshold then [p] else [])
  {
    var cs := XYContours(contours, polygon2mask);
    var ks := Kept(cs[..i], areaThreshold);
    XYContoursAt(contours, polygon2mask, i);
    MaskFilter.KeptStep(cs, i, areaThreshold);
    if Area(cs[i].mask) >= areaThreshold {
      PolygonsSnoc(ks, cs[i]);
    }
  }

  /** Every contour large enough is returned, in `(x, y)` order. */
  lemma ExtractKeepsLarge(contours: seq<seq<Point>>, polygon2mask: seq<(int, int)> -> seq<bool>, areaThreshold: int, i: int)
    requires 0 <= i < |contours| && Area(polygon2mask(XY(contours[i]))) >= areaThreshold
    ensures XY(contours[i]) in Polygons(Kept(XYContours(contours, polygon2mask), areaThreshold))
  {
    var cs := XYContours(contours, polygon2mask);
    XYContoursAt(contours, polygon2mask, i);
    KeptComplete(cs, areaThreshold, i);
    var ks := Kept(cs, areaThreshold);
    var k :| 0 <= k < |ks| && ks[k] == cs[i];
    assert Polygons(ks)[k] == XY(contours[i]);
  }

  /** Every returned polygon is the `(x, y)` polygon of a contour whose area reaches the threshold. */
  lemma ExtractOnlyLarge(contours: seq<seq<Point>>, polygon2mask: seq<(int, int)> -> seq<bool>, areaThreshold: int, k: int)
    requires 0 <= k < |Kept(XYContours(contours, polygon2mask), areaThreshold)|
    ensures var p := Polygons(Kept(XYContours(contours, polygon2mask), areaThreshold))[k];
      Area(polygon2mask(p)) >= areaThreshold && exists i :: 0 <= i < |contours| && p == XY(contours[i])
  {
    var cs := XYContours(contours, polygon2mask);
    var ks := Kept(cs, areaThreshold);
    KeptMembers(cs, areaThreshold);
    assert ks[k] in cs;
    var i :| 0 <= i < |cs| && cs[i] == ks[k];
    XYContoursAt(contours, polygon2mask, i);
    assert Polygons(ks)[k] == XY(contours[i]);
  }

  /** What went wrong in `geocode_polygons`: `poly[0]` of an empty polygon raises `IndexError`. */
  datatype GeocodeError = EmptyPolygon(index: nat)

  /** The point looked up for a polygon: its first vertex `(px, py)`, passed as `(row=py, col=px)`. */
  function Probe(poly: seq<(int, int)>): (rc: (int, int))
    requires |poly| > 0
  {
    (poly[0].1, poly[0].0)
  }

  /** The records `geocode_polygons` collects: one per polygon whose lookup finds a place, in polygon order. */
  function Geocoded<R>(polys: seq<seq<(int, int)>>, locate: ((int, int)) -> Option<R>): seq<R> {
    if |polys| == 0 then []
    else
      var last := polys[|polys| - 1];
      Geocoded(polys[..|polys| - 1], locate) +
        (if |last| > 0 && locate(Probe(last)).Some? then [locate(Probe(last)).value] else [])
  }

  /** `geocode_polygons`: look up each polygon's first vertex and keep every place found. */
  method GeocodePolygons<R>(polygons: seq<seq<(int, int)>>, locate: ((int, int)) -> Option<R>)
    returns (results: Result<seq<R>, GeocodeError>)
    ensures results.Failure? <==> exists k :: 0 <= k < |polygons| && |polygons[k]| == 0
    ensures results.Failure? ==> var e := results.error.index;
      e < |polygons| && |polygons[e]| == 0 && forall k :: 0 <= k < e ==> |polygons[k]| > 0
    ensures results.Success? ==> results.value == Geocoded(polygons, locate)
  {
    var found: seq<R> := [];
    var i := 0;
    while i < |polygons|
      invariant 0 <= i <= |polygons|
      invariant forall k :: 0 <= k < i ==> |polygons[k]| > 0
      invariant found == Geocoded(polygons[..i], locate)
    {
      var poly := polygons[i];
      if |poly| == 0 {
        return Failure(EmptyPolygon(i));
      }
      var (px, py) := poly[0];
      var location := locate((py, px));
      assert polygons[..i + 1][..i] == polygons[..i];
      if location.Some? {
        found := found + [location.value];
      }
      i := i + 1;
    }
    assert polygons[..|polygons|] == polygons;
    return Success(found);
  }

  /** At most one record per polygon. */
  lemma {:induction false} GeocodedAtMostOne<R>(polys: seq<seq<(int, int)>>, locate: ((int, int)) -> Option<R>)
    ensures |Geocoded(polys, locate)| <= |polys|
    decreases |polys|
  {
    if |polys| > 0 {
      GeocodedAtMostOne(polys[..|polys| - 1], locate);
    }
  }

  /** Geocoding works polygon by polygon: the records of two lists are those of each, in order. */
  lemma {:induction false} GeocodedAppend<R>(ps: seq<seq<(int, int)>>, qs: seq<seq<(int, int)>>, locate: ((int, int)) -> Option<R>)
    ensures Geocoded(ps + qs, locate) == Geocoded(ps, locate) + Geocoded(qs, locate)
    decreases |qs|
  {
    if |qs| == 0 {
      assert ps + qs == ps;
    } else {
      assert (ps + qs)[..|ps + qs| - 1] == ps + qs[..|qs| - 1];
      GeocodedAppend(ps, qs[..|qs| - 1], locate);
    }
  }

  /** A polygon whose lookup finds nothing adds no record. */
  lemma NotFoundDropped<R>(ps: seq<seq<(int, int)>>, poly: seq<(int, int)>, locate: ((int, int)) -> Option<R>)
    requires |poly| > 0 && locate(Probe(poly)).None?
    ensures Geocoded(ps + [poly], locate) == Geocoded(ps, locate)
  {
    assert (ps + [poly])[..|ps|] == ps;
  }

  /** When every lookup finds a place, record `i` belongs to polygon `i`. */
  lemma {:induction false} GeocodedAllFound<R>(polys: seq<seq<(int, int)>>, locate: ((int, int)) -> Option<R>, i: int)
    requires forall k :: 0 <= k < |polys| ==> |polys[k]| > 0 && locate(Probe(polys[k])).Some?
    requires 0 <= i < |polys|
    ensures |Geocoded(polys, locate)| == |polys|
    ensures Geocoded(polys, locate)[i] == locate(Probe(polys[i])).value
    decreases |polys|
  {
    var init := polys[..|polys| - 1];
    if i < |polys| - 1 {
      GeocodedAllFound(init, locate, i);
    } else if |init| > 0 {
      GeocodedAllFound(init, locate, 0);
    }
  }

  /**
   * For an extracted polygon the point looked up is `(row, col) = (y, x)` of
   * the contour's first point: the order `map_layer.xy` expects.
   */
  lemma ExtractedProbe(cnt: seq<Point>)
    requires |cnt| > 0
    ensures Probe(XY(cnt)) == (cnt[0].y, cnt[0].x)
  {
  }

  /** Contours that all have a point give polygons whose geocoding never raises. */
  lemma ExtractedNeverEmpty(contours: seq<seq<Point>>, polygon2mask: seq<(int, int)> -> seq<bool>, areaThreshold: int)
    requires forall i :: 0 <= i < |contours| ==> |contours[i]| > 0
    ensures var ps := Polygons(Kept(XYContours(contours, polygon2mask), areaThreshold));
      forall k :: 0 <= k < |ps| ==> |ps[k]| > 0
  {
    var ps := Polygons(Kept(XYContours(contours, polygon2mask), areaThreshold));
    forall k | 0 <= k < |ps|
      ensures |ps[k]| > 0
    {
      ExtractOnlyLarge(contours, polygon2mask, areaThreshold, k);
    }
  }

  /** One key of a raw record and its value; a record keeps its keys in order. */
  datatype Field<V> = Field(key: string, value: V)

  /** The keys of a record, in order: `record.keys()`. */
  function Keys<V>(r: seq<Field<V>>): (ks: seq<string>)
    ensures |ks| == |r|
    ensures forall i :: 0 <= i < |r| ==> ks[i] == r[i].key
  {
    seq(|r|, i requires 0 <= i < |r| => r[i].key)
  }

  /** The value `csv.DictWriter` writes under `key`: the record's, or the empty `restval` (`None`) when it has none. */
  function Cell<V>(r: seq<Field<V>>, key: string): (c: Option<V>)
    ensures c.None? <==> forall i :: 0 <= i < |r| ==> r[i].key != key
    ensures c.Some? ==> exists i :: 0 <= i < |r| && r[i] == Field(key, c.value)
  {
    if |r| == 0 then None
    else if r[0].key == key then Some(r[0].value)
    else
      var c := Cell(r[1..], key);
      assert c.Some? ==> exists i :: 0 <= i < |r[1..]| && r[1..][i] == Field(key, c.value);
      assert forall i :: 0 < i < |r| ==> r[i] == r[1..][i - 1];
      c
  }

  /** `writerow` raises `ValueError` unless every key of the record is in the header. */
  predicate Fits<V>(r: seq<Field<V>>, header: seq<string>) {
    forall i :: 0 <= i < |r| ==> r[i].key in header
  }

  /** The row written for a record: its value under each header key. */
  function Row<V>(header: seq<string>, r: seq<Field<V>>): (row: seq<Option<V>>)
    ensures |row| == |header|
    ensures forall j :: 0 <= j < |header| ==> row[j] == Cell(r, header[j])
  {
    seq(|header|, j requires 0 <= j < |header| => Cell(r, header[j]))
  }

  /** The file `save_to_csv` writes: the header row and one row per record. */
  datatype Table<V> = Table(header: seq<string>, rows: seq<seq<Option<V>>>)

  /**
   * `writerow` raised `ValueError` (whose message lists the extra keys) on
   * a record whose keys are not all in the header; `row` is that record's
   * index, counted from the first record, which the model records itself;
   * `written` is what the file holds by then: the header and the rows of
   * the records before it.
   */
  datatype CsvError<V> = ExtraFields(row: nat, written: Table<V>)

  /** The rows `writerow` has written, and the number of the record it raised on, if any. */
  datatype Rows<V> = Rows(rows: seq<seq<Option<V>>>, stop: Option<nat>)

  /** The rows `DictWriter` writes for `data`, numbered from `start`, up to the first record that does not fit. */
  function WriteRows<V>(header: seq<string>, data: seq<seq<Field<V>>>, start: nat): (w: Rows<V>)
    ensures |w.rows| <= |data|
    ensures forall i :: 0 <= i < |w.rows| ==> Fits(data[i], header) && w.rows[i] == Row(header, data[i])
    ensures w.stop.None? ==> |w.rows| == |data|
    ensures w.stop.Some? ==> w.stop.value == start + |w.rows| && |w.rows| < |data| && !Fits(data[|w.rows|], header)
    decreases |data|
  {
    if |data| == 0 then Rows([], None)
    else if !Fits(data[0], header) then Rows([], Some(start))
    else
      var rest := WriteRows(header, data[1..], start + 1);
      assert forall i :: 0 < i < |data| ==> data[i] == data[1..][i - 1];
      Rows([Row(header, data[0])] + rest.rows, rest.stop)
  }

  /** `writerow` raises exactly when some record has a key outside the header. */
  lemma WriteRowsRaises<V>(header: seq<string>, data: seq<seq<Field<V>>>, start: nat)
    ensures WriteRows(header, data, start).stop.Some? <==> exists i :: 0 <= i < |data| && !Fits(data[i], header)
  {
    var w := WriteRows(header, data, start);
    if w.stop.Some? {
      assert !Fits(data[|w.rows|], header);
    }
  }

  /**
   * `save_to_csv`: nothing is written for an empty list (`None`); otherwise
   * the header is the first record's keys and the records become rows in
   * order, up to the first one `writerow` refuses, when the file keeps the
   * header and the rows before it.
   */
  function SaveToCsv<V>(data: seq<seq<Field<V>>>): (r: Result<Option<Table<V>>, CsvError<V>>)
    ensures |data| == 0 <==> r == Success(None)
    ensures r.Success? && r.value.Some? ==>
      |data| > 0 && r.value.value.header == Keys(data[0]) && |r.value.value.rows| == |data|
      && forall i :: 0 <= i < |data| ==> r.value.value.rows[i] == Row(Keys(data[0]), data[i])
    ensures r.Failure? ==>
      var t, n := r.error.written, r.error.row;
      0 < |data| && t.header == Keys(data[0]) && n == |t.rows| < |data| && !Fits(data[n], Keys(data[0]))
      && forall i :: 0 <= i < n ==> Fits(data[i], Keys(data[0])) && t.rows[i] == Row(Keys(data[0]), data[i])
  {
    if |data| == 0 then Success(None)
    else
      var header := Keys(data[0]);
      var w := WriteRows(header, data, 0);
      if w.stop.Some? then Failure(ExtraFields(w.stop.value, Table(header, w.rows)))
      else Success(Some(Table(header, w.rows)))
  }

  /** The first record always fits the header made from its own keys. */
  lemma FirstRecordFits<V>(r: seq<Field<V>>)
    ensures Fits(r, Keys(r))
  {
    forall i | 0 <= i < |r| ensures r[i].key in Keys(r) {
      assert Keys(r)[i] == r[i].key;
    }
  }

  /** Record `i` whose keys are missing from the header, or lie outside it, decides the outcome. */
  lemma SaveFailsOnExtraKey<V>(data: seq<seq<Field<V>>>)
    requires |data| > 0
    ensures SaveToCsv(data).Failure? <==> exists i :: 0 < i < |data| && !Fits(data[i], Keys(data[0]))
    ensures SaveToCsv(data).Failure? ==> SaveToCsv(data).error.row > 0
  {
    FirstRecordFits(data[0]);
    WriteRowsRaises(Keys(data[0]), data, 0);
  }

  /** A record with distinct keys comes out as its own values under its own keys. */
  lemma {:induction false} CellOwnKey<V>(r: seq<Field<V>>, j: int)
    requires 0 <= j < |r|
    requires forall a, b :: 0 <= a < b < |r| ==> r[a].key != r[b].key
    ensures Cell(r, r[j].key) == Some(r[j].value)
    decreases |r|
  {
    if j > 0 {
      assert r[0].key != r[j].key;
      assert r[1..][j - 1] == r[j];
      CellOwnKey(r[1..], j - 1);
    }
  }

  /** The first row of the table is the first record itself, value by value. */
  lemma FirstRowIsFirstRecord<V>(data: seq<seq<Field<V>>>, j: int)
    requires |data| > 0 && 0 <= j < |data[0]|
    requires forall a, b :: 0 <= a < b < |data[0]| ==> data[0][a].key != data[0][b].key
    requires SaveToCsv(data).Success?
    ensures SaveToCsv(data).value.Some?
    ensures SaveToCsv(data).value.value.rows[0][j] == Some(data[0][j].value)
  {
    CellOwnKey(data[0], j);
  }

  /** A key the header has and the record lacks is written as the empty `restval`. */
  lemma MissingKeyBlank<V>(data: seq<seq<Field<V>>>, i: int, j: int)
    requires |data| > 0 && SaveToCsv(data).Success? && 0 <= i < |data| && 0 <= j < |data[0]|
    requires forall k :: 0 <= k < |data[i]| ==> data[i][k].key != data[0][j].key
    ensures SaveToCsv(data).value.value.rows[i][j] == None
  {
  }
}
