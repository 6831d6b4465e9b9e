/**
 * Histogram matching with unsharp masking (`histogramMatch.py`): how
 * `main` pairs the flat `--unsharp` list into `(radius, amount)` pairs, and
 * which files `process_image` writes, in order. The image operations
 * (`match_histograms`, `unsharp_mask`, the float scaling back to `uint8`)
 * are library code and do not decide any file name.
 */
module HistogramMatch {
  import opened Wrappers
  import Names

  /** `ValueError("Unsharp parameters must be in pairs: radius amount ...")`. */
  datatype PairError = OddCount

  /** `[(v[i], v[i + 1]) for i in range(0, len(v), 2)]`, refused for an odd count. */
  function PairUp<T>(v: seq<T>): (r: Result<seq<(T, T)>, PairError>)
    ensures r.Failure? <==> |v| % 2 != 0
    ensures r.Success? ==> |r.value| == |v| / 2
  {
    if |v| % 2 != 0 then Failure(OddCount)
    else Success(seq(|v| / 2, i requires 0 <= i < |v| / 2 => (v[2 * i], v[2 * i + 1])))
  }

  /** Pair `i` is made of the values at `2i` and `2i + 1`. */
  lemma PairUpAt<T>(v: seq<T>, i: int)
    requires |v| % 2 == 0 && 0 <= i < |v| / 2
    ensures PairUp(v).value[i] == (v[2 * i], v[2 * i + 1])
  {
  }

  /** The flat list of a list of pairs: `radius, amount, radius, amount, ...`. */
  function Flatten<T>(ps: seq<(T, T)>): (v: seq<T>)
    ensures |v| == 2 * |ps|
  {
    if |ps| == 0 then [] else [ps[0].0, ps[0].1] + Flatten(ps[1..])
  }

  /** Value `2i` of the flat list is the radius of pair `i`, value `2i + 1` its amount. */
  lemma {:induction false} FlattenAt<T>(ps: seq<(T, T)>, i: int)
    requires 0 <= i < |ps|
    ensures Flatten(ps)[2 * i] == ps[i].0 && Flatten(ps)[2 * i + 1] == ps[i].1
    decreases |ps|
  {
    if i > 0 {
      FlattenAt(ps[1..], i - 1);
      assert Flatten(ps) == [ps[0].0, ps[0].1] + Flatten(ps[1..]);
    }
  }

  /** Pairing an even list and flattening the pairs gives the list back. */
  lemma FlattenPairUp<T>(v: seq<T>)
    requires |v| % 2 == 0
    ensures PairUp(v).Success? && Flatten(PairUp(v).value) == v
  {
    var ps := PairUp(v).value;
    forall k | 0 <= k < |v|
      ensures Flatten(ps)[k] == v[k]
    {
      var i := k / 2;
      FlattenAt(ps, i);
      if k % 2 == 0 {
        assert k == 2 * i;
      } else {
        assert k == 2 * i + 1;
      }
    }
  }

  /** Flattening a list of pairs and pairing it again gives the pairs back. */
  lemma PairUpFlatten<T>(ps: seq<(T, T)>)
    ensures PairUp(Flatten(ps)) == Success(ps)
  {
    var v := Flatten(ps);
    assert |v| % 2 == 0 && |v| / 2 == |ps|;
    forall i | 0 <= i < |ps|
      ensures PairUp(v).value[i] == ps[i]
    {
      FlattenAt(ps, i);
    }
    assert PairUp(v).value == ps;
  }

  /** The default `--unsharp 1 1 5 2 20 1` gives the pairs `(1, 1), (5, 2), (20, 1)`. */
  lemma DefaultParams()
    ensures PairUp([1.0, 1.0, 5.0, 2.0, 20.0, 1.0]) == Success([(1.0, 1.0), (5.0, 2.0), (20.0, 1.0)])
  {
    var r := PairUp([1.0, 1.0, 5.0, 2.0, 20.0, 1.0]);
    assert |r.value| == 3;
    assert r.value[0] == (1.0, 1.0) && r.value[1] == (5.0, 2.0) && r.value[2] == (20.0, 1.0);
    assert r.value == [(1.0, 1.0), (5.0, 2.0), (20.0, 1.0)];
  }

  /** `FileNotFoundError`: the input or the reference image could not be read. */
  datatype LoadError = CouldNotLoad

  /** `f"{output_prefix}_histmatched.png"`. */
  function HistName(prefix: string): string {
    prefix + "_histmatched.png"
  }

  /** `f"{output_prefix}_um{idx}.png"`. */
  function UnsharpName(prefix: string, idx: nat): string {
    prefix + "_um" + Names.NatToString(idx) + ".png"
  }

  /** The unsharp outputs, numbered from 1 by `enumerate(..., start=1)`; none when `unsharp_params` is empty. */
  function UnsharpNames(prefix: string, count: nat): (names: seq<string>)
    ensures |names| == count
  {
    seq(count, i requires 0 <= i < count => UnsharpName(prefix, i + 1))
  }

  /**
   * `process_image`: the files written, in order. Both images must load;
   * then the histogram matched image when `save_hist`, then one unsharp
   * result per parameter pair (`None` and the empty list write none).
   */
  function ProcessImage<T>(imageLoaded: bool, referenceLoaded: bool, prefix: string, saveHist: bool,
                           params: Option<seq<(T, T)>>): (r: Result<seq<string>, LoadError>)
    ensures r.Failure? <==> !imageLoaded || !referenceLoaded
    ensures r.Success? ==> |r.value| == (if saveHist then 1 else 0) + (if params.Some? then |params.value| else 0)
  {
    if !imageLoaded || !referenceLoaded then Failure(CouldNotLoad)
    else
      Success((if saveHist then [HistName(prefix)] else []) +
              UnsharpNames(prefix, if params.Some? then |params.value| else 0))
  }

  /** Two different pair numbers give two different file names. */
  lemma UnsharpNamesDistinct(prefix: string, a: nat, b: nat)
    ensures UnsharpName(prefix, a) == UnsharpName(prefix, b) <==> a == b
  {
    var sa, sb := Names.NatToString(a), Names.NatToString(b);
    if UnsharpName(prefix, a) == UnsharpName(prefix, b) {
      var n := |prefix| + 3;
      assert |sa| == |sb|;
      assert UnsharpName(prefix, a)[n..n + |sa|] == sa;
      assert UnsharpName(prefix, b)[n..n + |sb|] == sb;
      Names.NatToStringInjective(a, b);
    }
  }

  /** No unsharp file name is the histogram matched file's name. */
  lemma HistNotUnsharp(prefix: string, idx: nat)
    ensures HistName(prefix) != UnsharpName(prefix, idx)
  {
    var n := |prefix| + 1;
    assert HistName(prefix)[n] == 'h';
    assert UnsharpName(prefix, idx)[n] == 'u';
  }

  /** `{prefix}_histmatched.png` is written exactly when `save_hist` is set. */
  lemma HistWrittenIff<T>(prefix: string, saveHist: bool, params: Option<seq<(T, T)>>)
    ensures var r := ProcessImage(true, true, prefix, saveHist, params);
      HistName(prefix) in r.value <==> saveHist
  {
    var r := ProcessImage(true, true, prefix, saveHist, params);
    var count := if params.Some? then |params.value| else 0;
    var um := UnsharpNames(prefix, count);
    if !saveHist && HistName(prefix) in r.value {
      assert r.value == um;
      var i :| 0 <= i < count && um[i] == HistName(prefix);
      HistNotUnsharp(prefix, i + 1);
    }
  }

  /** The pair numbered `i + 1` is written as `{prefix}_um{i+1}.png`, after the histogram matched file. */
  lemma UnsharpOrder<T>(prefix: string, saveHist: bool, ps: seq<(T, T)>, i: int)
    requires 0 <= i < |ps|
    ensures var r := ProcessImage(true, true, prefix, saveHist, Some(ps));
      r.value[(if saveHist then 1 else 0) + i] == UnsharpName(prefix, i + 1)
  {
  }

  /** Every file `process_image` writes has a name of its own. */
  lemma OutputsDistinct<T>(prefix: string, saveHist: bool, params: Option<seq<(T, T)>>, a: int, b: int)
    requires var r := ProcessImage(true, true, prefix, saveHist, params); 0 <= a < b < |r.value|
    ensures var r := ProcessImage(true, true, prefix, saveHist, params); r.value[a] != r.value[b]
  {
    var h := if saveHist then 1 else 0;
    if a >= h {
      UnsharpNamesDistinct(prefix, a - h + 1, b - h + 1);
    } else {
      HistNotUnsharp(prefix, b - h + 1);
    }
  }
}
