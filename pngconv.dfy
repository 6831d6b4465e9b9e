/**
 * TIFF to PNG conversion (`pngconv.py`): the mask branch that rewrites the
 * samples in place and casts them to `uint8`, the pass-through of images
 * that are already 8-bit, and the default output path built with
 * `os.path.splitext`. Samples are integers, in C order; the array's shape
 * is not touched by any of the operations.
 */
module PngConv {
  import opened Wrappers
  import opened Grids

  /** The sample types `cv2.imread(..., IMREAD_UNCHANGED)` can yield, as far as the model distinguishes them. */
  datatype DType = UInt8 | OtherInteger

  /** What `cv2.imwrite` receives: the dtype and the samples. */
  datatype Written = Written(dtype: DType, data: seq<int>)

  datatype ConvertError = FileNotFound   // `cv2.imread` returned `None`

  /** `astype('uint8')` on an integer sample: wrap-around modulo 256. */
  function ToUint8(v: int): (b: Byte)
    ensures 0 <= v < 256 ==> b == v
    ensures (b - v) % 256 == 0
  {
    v % 256
  }

  /** The effect of `img[img > 253] = 0` on one sample. */
  function DropHigh(v: int): int {
    if v > 253 then 0 else v
  }

  /** The effect of `img[img > 0] = 255` on one sample. */
  function RaisePositive(v: int): int {
    if v > 0 then 255 else v
  }

  /** One sample after both assignments: the second one sees the result of the first. */
  function MaskValue(v: int): int {
    RaisePositive(DropHigh(v))
  }

  /** The value table of the mask rewrite: 0 stays 0, 1..253 becomes 255, 254 and above become 0. */
  lemma MaskValueTable(v: int)
    ensures v == 0 ==> MaskValue(v) == 0
    ensures 1 <= v <= 253 ==> MaskValue(v) == 255
    ensures v >= 254 ==> MaskValue(v) == 0
    ensures v < 0 ==> MaskValue(v) == v
  {
  }

  /** For non-negative samples (unsigned dtypes) the written mask is binary: 0 or 255. */
  lemma MaskBinary(v: int)
    requires v >= 0
    ensures ToUint8(MaskValue(v)) == 0 || ToUint8(MaskValue(v)) == 255
    ensures ToUint8(MaskValue(v)) == 255 <==> 1 <= v <= 253
  {
  }

  /** A negative sample of a signed mask passes both assignments and is wrapped by the cast. */
  lemma SignedMaskNotBinary()
    ensures ToUint8(MaskValue(-5)) == 251
  {
  }

  /** The evidently intended mask value: 255 for 1..253, 0 for everything else. */
  function MaskValueCorrected(v: int): (b: Byte)
    ensures b == 0 || b == 255
    ensures b == 255 <==> 1 <= v <= 253
  {
    if 1 <= v <= 253 then 255 else 0
  }

  /** The correction changes nothing for the unsigned samples the conversion is written for. */
  lemma MaskValueCorrectedAgrees(v: int)
    requires v >= 0
    ensures MaskValueCorrected(v) == ToUint8(MaskValue(v))
  {
  }

  /** `img[img > 253] = 0`, in place. */
  method DropHighInPlace(img: array<int>)
    modifies img
    ensures forall k :: 0 <= k < img.Length ==> img[k] == DropHigh(old(img[k]))
  {
    forall k | 0 <= k < img.Length && img[k] > 253 {
      img[k] := 0;
    }
  }

  /** `img[img > 0] = 255`, in place. */
  method RaisePositiveInPlace(img: array<int>)
    modifies img
    ensures forall k :: 0 <= k < img.Length ==> img[k] == RaisePositive(old(img[k]))
  {
    forall k | 0 <= k < img.Length && img[k] > 0 {
      img[k] := 255;
    }
  }

  /** `img.astype('uint8')`: a new array of the same length with every sample wrapped. */
  method AsUint8(img: array<int>) returns (out: array<Byte>)
    ensures fresh(out) && out.Length == img.Length
    ensures forall k :: 0 <= k < img.Length ==> out[k] == ToUint8(img[k])
  {
    out := new Byte[img.Length](k requires 0 <= k < img.Length reads img => ToUint8(img[k]));
  }

  /**
   * The mask branch: the two in-place rewrites, then the cast. `img` is left
   * holding the rewritten samples and the result has one byte per sample.
   */
  method BinariseMask(img: array<int>) returns (out: array<Byte>)
    modifies img
    ensures forall k :: 0 <= k < img.Length ==> img[k] == MaskValue(old(img[k]))
    ensures fresh(out) && out.Length == img.Length
    ensures forall k :: 0 <= k < out.Length ==> out[k] == ToUint8(MaskValue(old(img[k])))
  {
    DropHighInPlace(img);
    RaisePositiveInPlace(img);
    out := AsUint8(img);
  }

  /**
   * The image branch: with `scale_to_8bit` a non-8-bit image is min-max
   * normalised into `normalised` (a floating-point step outside the model);
   * anything else is written as read.
   */
  function ImageOutput(dtype: DType, data: seq<int>, scaleTo8bit: bool, normalised: seq<Byte>): (w: Written)
    ensures w.dtype == UInt8 || w == Written(dtype, data)
  {
    if scaleTo8bit && dtype != UInt8 then Written(UInt8, normalised) else Written(dtype, data)
  }

  /** An 8-bit image, or any image when scaling is off, is written unchanged. */
  lemma PassThrough(dtype: DType, data: seq<int>, scaleTo8bit: bool, normalised: seq<Byte>)
    requires dtype == UInt8 || !scaleTo8bit
    ensures ImageOutput(dtype, data, scaleTo8bit, normalised) == Written(dtype, data)
  {
  }

  /**
   * `convert_tif_to_png`: a missing input raises; a mask is binarised in
   * place; an image goes through `ImageOutput`. The result is what is written.
   */
  method ConvertTifToPng(img: Option<array<int>>, dtype: DType, isMask: bool, scaleTo8bit: bool, normalised: seq<Byte>)
    returns (r: Result<Written, ConvertError>)
    modifies if img.Some? then {img.value} else {}
    ensures img.None? <==> r == Failure(FileNotFound)
    ensures img.Some? && isMask ==>
      (r.Success? && r.value.dtype == UInt8 && |r.value.data| == img.value.Length &&
       forall k :: 0 <= k < img.value.Length ==> r.value.data[k] == ToUint8(MaskValue(old(img.value[k]))))
    ensures img.Some? && !isMask ==> r == Success(ImageOutput(dtype, old(img.value[..]), scaleTo8bit, normalised))
  {
    if img.None? {
      return Failure(FileNotFound);
    }
    var a := img.value;
    if isMask {
      var out := BinariseMask(a);
      r := Success(Written(UInt8, out[..]));
    } else {
      r := Success(ImageOutput(dtype, a[..], scaleTo8bit, normalised));
    }
  }

  /** The last index of `ch` in `s`, or -1 (`str.rfind`). */
  function RFind(s: string, ch: char): (i: int)
    ensures -1 <= i < |s|
    ensures i >= 0 ==> s[i] == ch
  {
    if |s| == 0 then -1
    else if s[|s| - 1] == ch then |s| - 1
    else RFind(s[..|s| - 1], ch)
  }

  /** No occurrence of `ch` lies after the one `RFind` reports. */
  lemma {:induction false} RFindLast(s: string, ch: char)
    ensures forall k :: RFind(s, ch) < k < |s| ==> s[k] != ch
    decreases |s|
  {
    if |s| > 0 && s[|s| - 1] != ch {
      RFindLast(s[..|s| - 1], ch);
    }
  }

  /** True when every character of `s` is a dot (also for the empty string). */
  predicate AllDots(s: string) {
    forall k :: 0 <= k < |s| ==> s[k] == '.'
  }

  /**
   * `os.path.splitext` on POSIX paths: the extension starts at the last dot
   * after the last `/`, unless the file name before it consists of dots only
   * (so `.bashrc` has no extension).
   */
  function Splitext(p: string): (r: (string, string))
    ensures r.0 + r.1 == p
  {
    var sep := RFind(p, '/');
    var dot := RFind(p, '.');
    if dot > sep && !AllDots(p[sep + 1..dot]) then (p[..dot], p[dot..]) else (p, [])
  }

  /** The extension is empty, or one dot followed by neither a dot nor a `/`. */
  lemma SplitextExtension(p: string)
    ensures var e := Splitext(p).1; e == [] || (e[0] == '.' && forall k :: 0 <= k < |e| ==> e[k] != '/' && (k > 0 ==> e[k] != '.'))
  {
    var sep := RFind(p, '/');
    var dot := RFind(p, '.');
    RFindLast(p, '/');
    RFindLast(p, '.');
    if dot > sep && !AllDots(p[sep + 1..dot]) {
      var e := p[dot..];
      assert Splitext(p).1 == e;
      assert e[0] == p[dot] == '.';
      forall k | 0 <= k < |e|
        ensures e[k] != '/' && (k > 0 ==> e[k] != '.')
      {
        assert e[k] == p[dot + k];
        assert sep < dot + k < |p|;
        assert k > 0 ==> dot < dot + k;
      }
    } else {
      assert Splitext(p).1 == [];
    }
  }

  /** The last occurrence of `ch` is at `i` when `s[i]` is `ch` and no later character is. */
  lemma RFindAt(s: string, ch: char, i: int)
    requires 0 <= i < |s| && s[i] == ch
    requires forall k :: i < k < |s| ==> s[k] != ch
    ensures RFind(s, ch) == i
  {
  }

  /** `ch` does not occur in `s`. */
  lemma RFindNone(s: string, ch: char)
    requires forall k :: 0 <= k < |s| ==> s[k] != ch
    ensures RFind(s, ch) == -1
  {
  }

  /** The output path used when `--output` is missing or empty: the root of the input plus `.png`. */
  function DefaultOutput(input: string): (out: string)
    ensures out == Splitext(input).0 + ".png"
    ensures |out| >= 4 && out[|out| - 4..] == ".png"
  {
    Splitext(input).0 + ".png"
  }

  /** `args.output` if it is a non-empty string, otherwise the default. */
  function OutputPath(input: string, output: Option<string>): (out: string)
    ensures output.Some? && output.value != [] ==> out == output.value
    ensures output.None? || output.value == [] ==> out == DefaultOutput(input)
  {
    if output.None? || output.value == [] then DefaultOutput(input) else output.value
  }

  /** Searching a string extended by characters other than `ch` finds the same index. */
  lemma {:induction false} RFindAppend(s: string, t: string, ch: char)
    requires ch !in t
    ensures RFind(s + t, ch) == RFind(s, ch)
    decreases |t|
  {
    if |t| > 0 {
      var u := s + t;
      assert u[..|u| - 1] == s + t[..|t| - 1];
      RFindAppend(s, t[..|t| - 1], ch);
    } else {
      assert s + t == s;
    }
  }

  /**
   * The default output path has the extension `.png` and the input's root,
   * as long as that root's file name is not made of dots only.
   */
  lemma DefaultOutputSplits(input: string)
    requires var root := Splitext(input).0; !AllDots(root[RFind(root, '/') + 1..])
    ensures Splitext(DefaultOutput(input)) == (Splitext(input).0, ".png")
  {
    PngSplits(Splitext(input).0);
  }

  /** Appending `.png` to a root whose file name is not all dots gives back that root and `.png`. */
  lemma PngSplits(root: string)
    requires !AllDots(root[RFind(root, '/') + 1..])
    ensures Splitext(root + ".png") == (root, ".png")
  {
    var png := ".png";
    assert png[0] == '.' && png[1] == 'p' && png[2] == 'n' && png[3] == 'g';
    ExtSplits(root, png);
  }

  /**
   * Appending an extension (one dot, then neither dots nor `/`) to a root
   * whose file name is not all dots splits back into that root and extension.
   */
  lemma ExtSplits(root: string, ext: string)
    requires !AllDots(root[RFind(root, '/') + 1..])
    requires |ext| > 0 && ext[0] == '.'
    requires forall k :: 0 <= k < |ext| ==> ext[k] != '/'
    requires forall k :: 0 < k < |ext| ==> ext[k] != '.'
    ensures Splitext(root + ext) == (root, ext)
  {
    var sep := RFind(root, '/');
    ExtSlash(root, ext);
    ExtDot(root, ext);
    SameName(root, ext, sep + 1);
    SplitextAt(root + ext, sep, |root|);
    PrefixSuffix(root, ext);
  }

  /** The last `/` of `root + ext` is the root's. */
  lemma ExtSlash(root: string, ext: string)
    requires forall k :: 0 <= k < |ext| ==> ext[k] != '/'
    ensures RFind(root + ext, '/') == RFind(root, '/')
  {
    RFindAppend(root, ext, '/');
  }

  /** The last dot of `root + ext` is the first character of `ext`. */
  lemma ExtDot(root: string, ext: string)
    requires |ext| > 0 && ext[0] == '.'
    requires forall k :: 0 < k < |ext| ==> ext[k] != '.'
    ensures RFind(root + ext, '.') == |root|
  {
    var out := root + ext;
    forall k | |root| < k < |out| ensures out[k] != '.' {
      assert out[k] == ext[k - |root|];
    }
    RFindAt(out, '.', |root|);
  }

  /** A concatenation splits back at the length of its first part. */
  lemma PrefixSuffix(root: string, t: string)
    ensures (root + t)[..|root|] == root && (root + t)[|root|..] == t
  {
  }

  /** Extending a path does not change the characters of its file name. */
  lemma SameName(root: string, t: string, i: int)
    requires 0 <= i <= |root|
    ensures (root + t)[i..|root|] == root[i..]
  {
  }

  /** Where the last `/` and the last dot are known, and a non-dot lies between them, the split is at that dot. */
  lemma SplitextAt(p: string, sep: int, dot: int)
    requires RFind(p, '/') == sep && RFind(p, '.') == dot && sep < dot
    requires !AllDots(p[sep + 1..dot])
    ensures Splitext(p) == (p[..dot], p[dot..])
  {
  }

  /** Only the last extension is split off. */
  lemma SplitextLastDot()
    ensures Splitext("a/b.tar.gz") == ("a/b.tar", ".gz")
  {
    var p := "a/b.tar.gz";
    RFindAt(p, '/', 1);
    RFindAt(p, '.', 7);
    assert p[2..7][0] == 'b';
    assert p[..7] == "a/b.tar" && p[7..] == ".gz";
  }

  /** A file name that starts with its only dot has no extension. */
  lemma SplitextHidden()
    ensures Splitext(".hidden") == (".hidden", "")
  {
    var p := ".hidden";
    RFindNone(p, '/');
    RFindAt(p, '.', 0);
  }

  /** A dot in a directory name is not an extension. */
  lemma SplitextDirectoryDot()
    ensures Splitext("dir.d/file") == ("dir.d/file", "")
  {
    var p := "dir.d/file";
    RFindAt(p, '/', 5);
    RFindAt(p, '.', 3);
  }
}
