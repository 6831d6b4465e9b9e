/**
 * Exhaustive pixel-shift registration of two grayscale images
 * (`image_reg_msecalc.py`): the error metric `mse`, the search
 * `find_best_shift`, the integer translation `apply_shift`, and `main`,
 * which feeds the best shift of the search into the translation.
 */
module ImageReg {
  import opened Wrappers
  import opened Grids

  /**
   * How `(a - b) ** 2` is evaluated on two samples. `cv2.imread(...,
   * IMREAD_GRAYSCALE)` yields `uint8` arrays, so the program computes in
   * `Uint8`: the difference and the square both wrap modulo 256. `Widened`
   * is the arithmetic without wrap-around.
   */
  datatype Arith = Uint8 | Widened

  /** The squared difference of two samples under `arith`. */
  function SqErr(arith: Arith, a: Byte, b: Byte): nat
  {
    match arith
    case Uint8 => var d := (a - b) % 256; (d * d) % 256
    case Widened => (a - b) * (a - b)
  }

  /** Sum of the squared differences of two rows of equal length. */
  function RowError(arith: Arith, x: seq<Byte>, y: seq<Byte>): nat
    requires |x| == |y|
    decreases |x|
  {
    if x == [] then 0 else SqErr(arith, x[0], y[0]) + RowError(arith, x[1..], y[1..])
  }

  /** Sum of the squared differences of two blocks of rows of equal shape. */
  function RowsError(arith: Arith, xs: seq<seq<Byte>>, ys: seq<seq<Byte>>): nat
    requires |xs| == |ys| && forall i :: 0 <= i < |xs| ==> |xs[i]| == |ys[i]|
    decreases |xs|
  {
    if xs == [] then 0 else RowError(arith, xs[0], ys[0]) + RowsError(arith, xs[1..], ys[1..])
  }

  /**
   * A value of the float `np.mean` as far as the search can tell them apart.
   * All patches the search compares have the reference patch's pixel count,
   * so `Finite(total)` holds the integer sum of squared differences, whose
   * order is the order of the means. The mean of an empty patch is NaN.
   */
  datatype Score = Finite(total: nat) | Infinite | NotANumber

  /** Python's float `<`: NaN is below nothing and nothing is below NaN. */
  predicate Below(a: Score, b: Score) {
    match (a, b)
    case (Finite(x), Finite(y)) => x < y
    case (Finite(_), Infinite) => true
    case _ => false
  }

  /** `mse(a, b)` on two patches of one shape. */
  function Mse(arith: Arith, a: Raster<Byte>, b: Raster<Byte>): Score
    requires a.rows == b.rows && a.cols == b.cols
  {
    if a.rows == 0 || a.cols == 0 then NotANumber else Finite(RowsError(arith, a.px, b.px))
  }

  lemma SquareOfComplement(d: int)
    ensures (256 - d) * (256 - d) == d * d + 256 * (256 - 2 * d)
  {
  }

  lemma ModMultiple(x: int, k: int)
    ensures (x + 256 * k) % 256 == x % 256
  {
  }

  lemma SqErrSymmetric(arith: Arith, a: Byte, b: Byte)
    ensures SqErr(arith, a, b) == SqErr(arith, b, a)
  {
    if arith == Uint8 {
      var d, e := (a - b) % 256, (b - a) % 256;
      if d != 0 {
        assert e == 256 - d;
        SquareOfComplement(d);
        ModMultiple(d * d, 256 - 2 * d);
      }
    } else {
      assert (a - b) * (a - b) == (b - a) * (b - a);
    }
  }

  lemma {:induction false} RowErrorSymmetric(arith: Arith, x: seq<Byte>, y: seq<Byte>)
    requires |x| == |y|
    ensures RowError(arith, x, y) == RowError(arith, y, x)
    decreases |x|
  {
    if x != [] {
      SqErrSymmetric(arith, x[0], y[0]);
      RowErrorSymmetric(arith, x[1..], y[1..]);
    }
  }

  lemma {:induction false} RowsErrorSymmetric(arith: Arith, xs: seq<seq<Byte>>, ys: seq<seq<Byte>>)
    requires |xs| == |ys| && forall i :: 0 <= i < |xs| ==> |xs[i]| == |ys[i]|
    ensures RowsError(arith, xs, ys) == RowsError(arith, ys, xs)
    decreases |xs|
  {
    if xs != [] {
      RowErrorSymmetric(arith, xs[0], ys[0]);
      RowsErrorSymmetric(arith, xs[1..], ys[1..]);
    }
  }

  lemma {:induction false} RowErrorSelf(arith: Arith, x: seq<Byte>)
    ensures RowError(arith, x, x) == 0
    decreases |x|
  {
    if x != [] {
      RowErrorSelf(arith, x[1..]);
    }
  }

  lemma {:induction false} RowsErrorSelf(arith: Arith, xs: seq<seq<Byte>>)
    ensures RowsError(arith, xs, xs) == 0
    decreases |xs|
  {
    if xs != [] {
      RowErrorSelf(arith, xs[0]);
      RowsErrorSelf(arith, xs[1..]);
    }
  }

  /** `mse` is symmetric, also with `uint8` wrap-around, since (-d)² ≡ d² (mod 256). */
  lemma MseSymmetric(arith: Arith, a: Raster<Byte>, b: Raster<Byte>)
    requires a.rows == b.rows && a.cols == b.cols
    ensures Mse(arith, a, b) == Mse(arith, b, a)
  {
    RowsErrorSymmetric(arith, a.px, b.px);
  }

  /** `mse(a, a)` is 0, and NaN for an empty patch. */
  lemma MseSelf(arith: Arith, a: Raster<Byte>)
    ensures Mse(arith, a, a) == if a.rows == 0 || a.cols == 0 then NotANumber else Finite(0)
  {
    RowsErrorSelf(arith, a.px);
  }

  /** Without wrap-around two rows have error 0 exactly when they are equal. */
  lemma {:induction false} RowErrorZero(x: seq<Byte>, y: seq<Byte>)
    requires |x| == |y|
    ensures RowError(Widened, x, y) == 0 <==> x == y
    decreases |x|
  {
    if x != [] {
      RowErrorZero(x[1..], y[1..]);
      assert x == [x[0]] + x[1..] && y == [y[0]] + y[1..];
      if x == y {
        assert x[1..] == y[1..];
      }
    }
  }

  lemma {:induction false} RowsErrorZero(xs: seq<seq<Byte>>, ys: seq<seq<Byte>>)
    requires |xs| == |ys| && forall i :: 0 <= i < |xs| ==> |xs[i]| == |ys[i]|
    ensures RowsError(Widened, xs, ys) == 0 <==> xs == ys
    decreases |xs|
  {
    if xs != [] {
      RowErrorZero(xs[0], ys[0]);
      RowsErrorZero(xs[1..], ys[1..]);
      assert xs == [xs[0]] + xs[1..] && ys == [ys[0]] + ys[1..];
      if xs == ys {
        assert xs[1..] == ys[1..];
      }
    }
  }

  /**
   * Without wrap-around the error of two non-empty patches of one shape is
   * 0 exactly when the patches are equal.
   */
  lemma MseWidenedZero(a: Raster<Byte>, b: Raster<Byte>)
    requires a.rows == b.rows && a.cols == b.cols && a.rows > 0 && a.cols > 0
    ensures Mse(Widened, a, b) == Finite(0) <==> a == b
  {
    RowsErrorZero(a.px, b.px);
  }

  /**
   * With the program's `uint8` arithmetic two different 1×1 patches, 16
   * and 0, have error 0: the square 256 wraps to 0.
   */
  lemma Uint8WrapHidesDifference()
    ensures Grid(1, 1, [[16]]) != Grid(1, 1, [[0]])
    ensures Mse(Uint8, Grid(1, 1, [[16]]), Grid(1, 1, [[0]])) == Finite(0)
    ensures Mse(Widened, Grid(1, 1, [[16]]), Grid(1, 1, [[0]])) == Finite(256)
  {
    var a, b: Raster<Byte> := Grid(1, 1, [[16]]), Grid(1, 1, [[0]]);
    assert a.px[0][1..] == [];
    assert a.px[1..] == [];
    assert RowError(Uint8, a.px[0], b.px[0]) == 0;
    assert RowError(Widened, a.px[0], b.px[0]) == 256;
  }

  // ----- the search -----------------------------------------------------

  /** A candidate displacement: column offset `dx`, row offset `dy`. */
  datatype Shift = Shift(dx: int, dy: int)

  /** The comparison window: origin `(startX, startY)`, side `wsize`. */
  datatype Window = Window(startX: int, startY: int, wsize: int)

  /** Everything `find_best_shift` reads besides the shift range. */
  datatype Search = Search(arith: Arith, reference: Raster<Byte>, target: Raster<Byte>, win: Window)

  /** `img1[start_y:start_y+wsize, start_x:start_x+wsize]`. */
  function RefPatch(p: Search): Raster<Byte> {
    Slice(p.reference, p.win.startY, p.win.startY + p.win.wsize, p.win.startX, p.win.startX + p.win.wsize)
  }

  /** `img2[start_y+dy:start_y+dy+wsize, start_x+dx:start_x+dx+wsize]`. */
  function TargetPatch(p: Search, c: Shift): Raster<Byte> {
    Slice(p.target, p.win.startY + c.dy, p.win.startY + c.dy + p.win.wsize,
          p.win.startX + c.dx, p.win.startX + c.dx + p.win.wsize)
  }

  /** The score of one candidate, or `None` when its patch has the wrong shape and is skipped. */
  function CandScore(p: Search, c: Shift): Option<Score> {
    var ref, t := RefPatch(p), TargetPatch(p, c);
    if t.rows == ref.rows && t.cols == ref.cols then Some(Mse(p.arith, ref, t)) else None
  }

  /** A candidate that can become the best: matching shape and a finite error. */
  predicate Qualifies(p: Search, c: Shift) {
    CandScore(p, c).Some? && CandScore(p, c).value.Finite?
  }

  /** The error of a qualifying candidate. */
  function ErrorOf(p: Search, c: Shift): nat
    requires Qualifies(p, c)
  {
    CandScore(p, c).value.total
  }

  /** The pair `(best_shift, min_error)`. */
  datatype Best = Best(shift: Shift, error: Score)

  /** One examined candidate with its score (`None`: skipped, wrong shape). */
  datatype Trial = Trial(shift: Shift, score: Option<Score>)

  /** A trial that can become the best: it was compared and its error is finite. */
  predicate Counts(t: Trial) {
    t.score.Some? && t.score.value.Finite?
  }

  /** One iteration of the inner loop: replace the best only on a strictly lower error. */
  function Update(b: Best, t: Trial): Best {
    if t.score.Some? && Below(t.score.value, b.error) then Best(t.shift, t.score.value) else b
  }

  /** The search state after the trials `ts`, in order, from `((0, 0), inf)`. */
  function Fold(ts: seq<Trial>): Best
    decreases |ts|
  {
    if ts == [] then Best(Shift(0, 0), Infinite) else Update(Fold(ts[..|ts| - 1]), ts[|ts| - 1])
  }

  /** The trials of the candidates `cs`. */
  function Trials(p: Search, cs: seq<Shift>): (ts: seq<Trial>)
    ensures |ts| == |cs|
  {
    seq(|cs|, k requires 0 <= k < |cs| => Trial(cs[k], CandScore(p, cs[k])))
  }

  /** The trial at position `k` is the `k`-th candidate with its score. */
  lemma TrialsAt(p: Search, cs: seq<Shift>, k: int)
    requires 0 <= k < |cs|
    ensures Trials(p, cs)[k] == Trial(cs[k], CandScore(p, cs[k]))
  {
  }

  /** The inner loop's candidates for one `dx`: `dy` in `range(-r, r + 1)`. */
  function Row(r: int, dx: int): seq<Shift> {
    seq(if r >= 0 then 2 * r + 1 else 0, j => Shift(dx, j - r))
  }

  /** All candidates whose `dx` comes before `dx` in `range(-r, r + 1)`, in loop order. */
  function Before(r: int, dx: int): seq<Shift>
    decreases dx + r
  {
    if dx <= -r then [] else Before(r, dx - 1) + Row(r, dx - 1)
  }

  /** Every candidate of the nested loops, dx outer, dy inner, ascending. */
  function Candidates(r: int): seq<Shift> {
    Before(r, r + 1)
  }

  /** The result of `find_best_shift` with shift range `r`. */
  function BestShift(p: Search, r: int): Best {
    Fold(Trials(p, Candidates(r)))
  }

  predicate InRange(c: Shift, r: int) {
    -r <= c.dx <= r && -r <= c.dy <= r
  }

  /** Loop order: lexicographic on `(dx, dy)`. */
  predicate Lex(a: Shift, b: Shift) {
    a.dx < b.dx || (a.dx == b.dx && a.dy < b.dy)
  }

  lemma FoldSnoc(ts: seq<Trial>, t: Trial)
    ensures Fold(ts + [t]) == Update(Fold(ts), t)
  {
    assert (ts + [t])[..|ts|] == ts;
  }

  lemma TrialsSnoc(p: Search, cs: seq<Shift>, c: Shift)
    ensures Trials(p, cs + [c]) == Trials(p, cs) + [Trial(c, CandScore(p, c))]
  {
  }

  /** A trial replaces the current best exactly when it counts with a lower error. */
  lemma UpdateFacts(b: Best, t: Trial)
    requires b.error != NotANumber
    ensures Update(b, t) == if Counts(t) && (b.error == Infinite || t.score.value.total < b.error.total)
                            then Best(t.shift, t.score.value) else b
  {
  }

  /** The error is never NaN, and it is infinite exactly when no trial counts. */
  lemma {:induction false} FoldInfinite(ts: seq<Trial>)
    ensures Fold(ts).error != NotANumber
    ensures Fold(ts).error == Infinite <==> forall k :: 0 <= k < |ts| ==> !Counts(ts[k])
    ensures Fold(ts).error == Infinite ==> Fold(ts).shift == Shift(0, 0)
    decreases |ts|
  {
    if ts != [] {
      var s, t := ts[..|ts| - 1], ts[|ts| - 1];
      assert ts == s + [t];
      FoldInfinite(s);
      UpdateFacts(Fold(s), t);
    }
  }

  /** The error is at most the error of every trial that counts. */
  lemma {:induction false} FoldMinimal(ts: seq<Trial>)
    ensures forall k :: 0 <= k < |ts| && Counts(ts[k]) ==>
      Fold(ts).error.Finite? && Fold(ts).error.total <= ts[k].score.value.total
    decreases |ts|
  {
    if ts != [] {
      var s, t := ts[..|ts| - 1], ts[|ts| - 1];
      assert ts == s + [t];
      FoldMinimal(s);
      FoldInfinite(s);
      UpdateFacts(Fold(s), t);
      forall k | 0 <= k < |ts| && Counts(ts[k])
        ensures Fold(ts).error.Finite? && Fold(ts).error.total <= ts[k].score.value.total
      {
        if k < |s| {
          assert ts[k] == s[k];
        }
      }
    }
  }

  /**
   * A finite error comes from the trial of the returned shift, and no trial
   * before it reaches that error: the FIRST trial with the least error wins.
   */
  lemma {:induction false} FoldFirst(ts: seq<Trial>) returns (i: nat)
    requires Fold(ts).error.Finite?
    ensures i < |ts| && ts[i].shift == Fold(ts).shift && ts[i].score == Some(Fold(ts).error)
    ensures forall j :: 0 <= j < i && Counts(ts[j]) ==> Fold(ts).error.total < ts[j].score.value.total
    decreases |ts|
  {
    var s, t := ts[..|ts| - 1], ts[|ts| - 1];
    assert ts == s + [t];
    var b0 := Fold(s);
    FoldInfinite(s);
    UpdateFacts(b0, t);
    if Fold(ts) == b0 && b0.error.Finite? {
      i := FoldFirst(s);
      assert ts[i] == s[i];
    } else {
      FoldMinimal(s);
      i := |s|;
      forall j | 0 <= j < i && Counts(ts[j])
        ensures Fold(ts).error.total < ts[j].score.value.total
      {
        assert ts[j] == s[j];
      }
    }
  }

  /** The shape of the prefix of the candidate sequence before column `dx`. */
  lemma {:induction false} BeforeFacts(r: int, dx: int)
    requires r >= 0 && -r <= dx <= r + 1
    ensures |Before(r, dx)| == (dx + r) * (2 * r + 1)
    ensures forall k :: 0 <= k < |Before(r, dx)| ==> InRange(Before(r, dx)[k], r) && Before(r, dx)[k].dx < dx
    ensures forall c :: InRange(c, r) && c.dx < dx ==> c in Before(r, dx)
    ensures forall i, j :: 0 <= i < j < |Before(r, dx)| ==> Lex(Before(r, dx)[i], Before(r, dx)[j])
    decreases dx + r
  {
    if dx > -r {
      BeforeFacts(r, dx - 1);
      var b, row := Before(r, dx - 1), Row(r, dx - 1);
      assert Before(r, dx) == b + row;
      forall c | InRange(c, r) && c.dx < dx
        ensures c in Before(r, dx)
      {
        if c.dx == dx - 1 {
          assert (b + row)[|b| + c.dy + r] == c;
        }
      }
    }
  }

  /** The candidate sequence holds every shift of the square `[-r, r]²` and nothing else. */
  lemma CandidatesMembers(r: int)
    ensures forall c :: c in Candidates(r) <==> InRange(c, r)
  {
    if r >= 0 {
      BeforeFacts(r, r + 1);
    }
  }

  /** There are `(2r + 1)²` candidates, and none for a negative range. */
  lemma CandidatesCount(r: int)
    ensures r >= 0 ==> |Candidates(r)| == (2 * r + 1) * (2 * r + 1)
    ensures r < 0 ==> Candidates(r) == []
  {
    if r >= 0 {
      BeforeFacts(r, r + 1);
    }
  }

  /** The candidates come in strictly increasing order: dx outer, dy inner. */
  lemma CandidatesSorted(r: int)
    ensures forall i, j :: 0 <= i < j < |Candidates(r)| ==> Lex(Candidates(r)[i], Candidates(r)[j])
  {
    if r >= 0 {
      BeforeFacts(r, r + 1);
    }
  }

  /** With shift range 0 only `(0, 0)` is examined. */
  lemma CandidatesZeroRange()
    ensures Candidates(0) == [Shift(0, 0)]
  {
    assert Before(0, 0) == [];
    assert Row(0, 0) == [Shift(0, 0)];
  }

  /** A candidate earlier in loop order sits at an earlier position. */
  lemma CandidatesOrder(r: int, k: int, i: int)
    requires 0 <= k < |Candidates(r)| && 0 <= i < |Candidates(r)|
    requires Lex(Candidates(r)[k], Candidates(r)[i])
    ensures k < i
  {
    CandidatesSorted(r);
  }

  /** Every shift of the square is examined, at some position of the loop order. */
  lemma CandidateIndex(r: int, c: Shift) returns (k: nat)
    requires InRange(c, r)
    ensures k < |Candidates(r)| && Candidates(r)[k] == c
  {
    CandidatesMembers(r);
    var cs := Candidates(r);
    assert c in cs;
    k :| 0 <= k < |cs| && cs[k] == c;
  }

  /** The returned shift lies in `[-r, r]²`. */
  lemma BestShiftBounds(p: Search, r: int)
    requires r >= 0
    ensures InRange(BestShift(p, r).shift, r)
  {
    var cs := Candidates(r);
    var ts := Trials(p, cs);
    FoldInfinite(ts);
    if Fold(ts).error.Finite? {
      var i := FoldFirst(ts);
      TrialsAt(p, cs, i);
      CandidatesMembers(r);
      assert cs[i] in cs;
    }
  }

  /**
   * The error is infinite exactly when no candidate in the square
   * qualifies; the result is then `((0, 0), inf)`. It is never NaN, and a
   * finite error is the score of the returned shift.
   */
  lemma BestShiftNoCandidate(p: Search, r: int)
    ensures BestShift(p, r).error != NotANumber
    ensures BestShift(p, r).error == Infinite <==> forall c :: InRange(c, r) ==> !Qualifies(p, c)
    ensures BestShift(p, r).error == Infinite ==> BestShift(p, r) == Best(Shift(0, 0), Infinite)
    ensures BestShift(p, r).error.Finite? ==> CandScore(p, BestShift(p, r).shift) == Some(BestShift(p, r).error)
  {
    var cs := Candidates(r);
    var ts := Trials(p, cs);
    FoldInfinite(ts);
    if Fold(ts).error == Infinite {
      forall c | InRange(c, r) ensures !Qualifies(p, c) {
        var k := CandidateIndex(r, c);
        TrialsAt(p, Candidates(r), k);
      }
    } else {
      var i := FoldFirst(ts);
      TrialsAt(p, cs, i);
      CandidatesMembers(r);
      assert cs[i] in cs;
    }
  }

  /** The returned error is at most the error of every qualifying candidate. */
  lemma BestShiftMinimal(p: Search, r: int, c: Shift)
    requires InRange(c, r) && Qualifies(p, c)
    ensures BestShift(p, r).error.Finite?
    ensures BestShift(p, r).error.total <= ErrorOf(p, c)
  {
    var ts := Trials(p, Candidates(r));
    var k := CandidateIndex(r, c);
    TrialsAt(p, Candidates(r), k);
    FoldMinimal(ts);
  }

  /**
   * Ties go to the first candidate in loop order: every qualifying
   * candidate that the loops reach before the returned one has a strictly
   * larger error.
   */
  lemma BestShiftTieBreak(p: Search, r: int, c: Shift)
    requires InRange(c, r) && Qualifies(p, c) && Lex(c, BestShift(p, r).shift)
    ensures BestShift(p, r).error.Finite?
    ensures BestShift(p, r).error.total < ErrorOf(p, c)
  {
    var cs := Candidates(r);
    var ts := Trials(p, cs);
    var k := CandidateIndex(r, c);
    TrialsAt(p, cs, k);
    assert Counts(ts[k]);
    FoldInfinite(ts);
    var i := FoldFirst(ts);
    TrialsAt(p, cs, i);
    CandidatesOrder(r, k, i);
  }

  /** With shift range 0 the result is the shift `(0, 0)`. */
  lemma BestShiftZeroRange(p: Search)
    ensures BestShift(p, 0).shift == Shift(0, 0)
  {
    BestShiftBounds(p, 0);
  }

  /**
   * Two identical images with a non-empty reference window give error 0
   * (the returned shift need not be `(0, 0)`: an earlier candidate may tie).
   */
  lemma IdenticalImagesZeroError(arith: Arith, img: Raster<Byte>, win: Window, r: int)
    requires r >= 0
    requires RefPatch(Search(arith, img, img, win)).rows > 0 && RefPatch(Search(arith, img, img, win)).cols > 0
    ensures BestShift(Search(arith, img, img, win), r).error == Finite(0)
  {
    var p := Search(arith, img, img, win);
    assert TargetPatch(p, Shift(0, 0)) == RefPatch(p);
    MseSelf(arith, RefPatch(p));
    BestShiftMinimal(p, r, Shift(0, 0));
  }

  /** The search state after the trials `ts`, continuing from the state `b`. */
  function Run(b: Best, ts: seq<Trial>): Best
    decreases |ts|
  {
    if ts == [] then b else Update(Run(b, ts[..|ts| - 1]), ts[|ts| - 1])
  }

  /** Folding a concatenation continues from the fold of its first part. */
  lemma {:induction false} FoldThenRun(s: seq<Trial>, ts: seq<Trial>)
    ensures Fold(s + ts) == Run(Fold(s), ts)
    decreases |ts|
  {
    if ts != [] {
      var init, t := ts[..|ts| - 1], ts[|ts| - 1];
      assert s + ts == (s + init) + [t];
      FoldThenRun(s, init);
      FoldSnoc(s + init, t);
    } else {
      assert s + ts == s;
    }
  }

  /** The trials of a concatenation are the concatenation of the trials. */
  lemma TrialsAppend(p: Search, a: seq<Shift>, b: seq<Shift>)
    ensures Trials(p, a + b) == Trials(p, a) + Trials(p, b)
  {
  }

  /** One more iteration of the inner loop folds in the trial of `(dx, dy)`. */
  lemma InnerStep(p: Search, b: Best, r: int, dx: int, dy: int)
    requires -r <= dy < r + 1
    ensures Run(b, Trials(p, Row(r, dx)[..dy + 1 + r]))
         == Update(Run(b, Trials(p, Row(r, dx)[..dy + r])), Trial(Shift(dx, dy), CandScore(p, Shift(dx, dy))))
  {
    var row, k := Row(r, dx), dy + r;
    assert row[..k + 1] == row[..k] + [Shift(dx, dy)];
    TrialsSnoc(p, row[..k], Shift(dx, dy));
    assert Trials(p, row[..k + 1])[..k] == Trials(p, row[..k]);
  }

  /** The state after the outer loop has run for every column before `dx`. */
  function Columns(p: Search, r: int, dx: int): Best
    decreases dx + r
  {
    if dx <= -r then Best(Shift(0, 0), Infinite) else Run(Columns(p, r, dx - 1), Trials(p, Row(r, dx - 1)))
  }

  /** One more column continues the search from where the earlier columns left it. */
  lemma ColumnsStep(p: Search, r: int, dx: int)
    requires dx >= -r
    ensures Columns(p, r, dx + 1) == Run(Columns(p, r, dx), Trials(p, Row(r, dx)))
  {
  }

  /** Column by column, the loops compute the fold over the earlier candidates. */
  lemma {:induction false} ColumnsFold(p: Search, r: int, dx: int)
    ensures Columns(p, r, dx) == Fold(Trials(p, Before(r, dx)))
    decreases dx + r
  {
    if dx > -r {
      ColumnsFold(p, r, dx - 1);
      TrialsAppend(p, Before(r, dx - 1), Row(r, dx - 1));
      FoldThenRun(Trials(p, Before(r, dx - 1)), Trials(p, Row(r, dx - 1)));
    } else {
      assert Trials(p, Before(r, dx)) == [];
    }
  }

  /** When the outer loop ends it has folded every candidate. */
  lemma OuterDone(p: Search, r: int, dx: int)
    requires r >= 0 ==> dx == r + 1
    requires r < 0 ==> dx == -r
    ensures Columns(p, r, dx) == BestShift(p, r)
  {
    ColumnsFold(p, r, dx);
    if r < 0 {
      assert Before(r, dx) == [] == Before(r, r + 1);
    }
  }

  /**
   * The body of the inner loop: cut the target patch, skip it when its
   * shape differs from the reference patch, and keep it when its error is
   * strictly below the best so far.
   */
  method Consider(p: Search, patchRef: Raster<Byte>, best: Shift, minError: Score, c: Shift)
    returns (best': Shift, minError': Score)
    requires patchRef == RefPatch(p)
    ensures Best(best', minError') == Update(Best(best, minError), Trial(c, CandScore(p, c)))
  {
    best', minError' := best, minError;
    var patchTarget := TargetPatch(p, c);
    if patchTarget.rows == patchRef.rows && patchTarget.cols == patchRef.cols {
      var error := Mse(p.arith, patchRef, patchTarget);
      if Below(error, minError) {
        minError' := error;
        best' := c;
      }
    }
  }

  /**
   * The inner loop of `find_best_shift` for one `dx`: every `dy` of the
   * range in ascending order, continuing from the state the columns before
   * `dx` left.
   */
  method ScanColumn(p: Search, patchRef: Raster<Byte>, shiftRange: int, dx: int, best: Shift, minError: Score)
    returns (best': Shift, minError': Score)
    requires patchRef == RefPatch(p)
    requires dx >= -shiftRange && Best(best, minError) == Columns(p, shiftRange, dx)
    ensures Best(best', minError') == Columns(p, shiftRange, dx + 1)
  {
    best', minError' := best, minError;
    var dy := -shiftRange;
    if shiftRange >= 0 {
      while dy < shiftRange + 1
        invariant -shiftRange <= dy <= shiftRange + 1
        invariant Best(best', minError') == Run(Best(best, minError), Trials(p, Row(shiftRange, dx)[..dy + shiftRange]))
        decreases shiftRange + 1 - dy
      {
        InnerStep(p, Best(best, minError), shiftRange, dx, dy);
        best', minError' := Consider(p, patchRef, best', minError', Shift(dx, dy));
        dy := dy + 1;
      }
      assert Row(shiftRange, dx)[..dy + shiftRange] == Row(shiftRange, dx);
    }
    ColumnsStep(p, shiftRange, dx);
  }

  /** `find_best_shift(img1, img2, start_x, start_y, wsize, shift_range)`. */
  method FindBestShift(arith: Arith, img1: Raster<Byte>, img2: Raster<Byte>,
                       startX: int, startY: int, wsize: int, shiftRange: int)
    returns (best: Shift, minError: Score)
    ensures Best(best, minError) == BestShift(Search(arith, img1, img2, Window(startX, startY, wsize)), shiftRange)
  {
    var p := Search(arith, img1, img2, Window(startX, startY, wsize));
    var patchRef := RefPatch(p);
    minError := Infinite;
    best := Shift(0, 0);
    var dx := -shiftRange;
    while dx < shiftRange + 1
      invariant shiftRange >= 0 ==> -shiftRange <= dx <= shiftRange + 1
      invariant shiftRange < 0 ==> dx == -shiftRange
      invariant Best(best, minError) == Columns(p, shiftRange, dx)
      decreases shiftRange + 1 - dx
    {
      best, minError := ScanColumn(p, patchRef, shiftRange, dx, best, minError);
      dx := dx + 1;
    }
    OuterDone(p, shiftRange, dx);
  }

  // ----- the translation and the driver ----------------------------------

  /** The sample at `(y, x)`, or the constant border value 0 outside the image. */
  function SampleOr0(img: Raster<Byte>, y: int, x: int): Byte {
    if Inside(img, y, x) then img.px[y][x] else 0
  }

  /** Row `y` of the translated image. */
  function ShiftedRow(img: Raster<Byte>, dx: int, dy: int, y: int): (row: seq<Byte>)
    ensures |row| == img.cols
  {
    seq<Byte>(img.cols, x requires 0 <= x < img.cols => SampleOr0(img, y - dy, x - dx))
  }

  /**
   * `apply_shift(img, dx, dy)`: `cv2.warpAffine` with the matrix
   * `[[1, 0, dx], [0, 1, dy]]` and the output size of the input fills
   * output pixel `(y, x)` from source pixel `(y - dy, x - dx)`, and with 0
   * where that lies outside. An integer translation needs no interpolation.
   */
  function ApplyShift(img: Raster<Byte>, dx: int, dy: int): (out: Raster<Byte>)
    ensures out.rows == img.rows && out.cols == img.cols
  {
    var px := seq(img.rows, y requires 0 <= y < img.rows => ShiftedRow(img, dx, dy, y));
    Grid(img.rows, img.cols, px)
  }

  /** Output pixel `(y, x)` holds the input pixel `(y - dy, x - dx)`, or 0 when that is outside. */
  lemma ApplyShiftAt(img: Raster<Byte>, dx: int, dy: int, y: int, x: int)
    requires Inside(img, y, x)
    ensures Inside(img, y - dy, x - dx) ==> ApplyShift(img, dx, dy).px[y][x] == img.px[y - dy][x - dx]
    ensures !Inside(img, y - dy, x - dx) ==> ApplyShift(img, dx, dy).px[y][x] == 0
  {
  }

  /** The shift `(0, 0)` returns the image unchanged. */
  lemma ApplyShiftZero(img: Raster<Byte>)
    ensures ApplyShift(img, 0, 0) == img
  {
    var out := ApplyShift(img, 0, 0);
    forall y | 0 <= y < img.rows
      ensures out.px[y] == img.px[y]
    {
      assert |out.px[y]| == |img.px[y]|;
    }
    assert out.px == img.px;
  }

  /**
   * Two translations in a row are one translation by the sum, at every
   * pixel whose intermediate source stays inside the image.
   */
  lemma ApplyShiftCompose(img: Raster<Byte>, a: Shift, b: Shift, y: int, x: int)
    requires Inside(img, y, x) && Inside(img, y - b.dy, x - b.dx)
    ensures ApplyShift(ApplyShift(img, a.dx, a.dy), b.dx, b.dy).px[y][x]
         == ApplyShift(img, a.dx + b.dx, a.dy + b.dy).px[y][x]
  {
    var mid := ApplyShift(img, a.dx, a.dy);
    assert ApplyShift(mid, b.dx, b.dy).px[y][x] == SampleOr0(mid, y - b.dy, x - b.dx);
    assert mid.px[y - b.dy][x - b.dx] == SampleOr0(img, y - b.dy - a.dy, x - b.dx - a.dx);
    assert y - b.dy - a.dy == y - (a.dy + b.dy) && x - b.dx - a.dx == x - (a.dx + b.dx);
    assert ApplyShift(img, a.dx + b.dx, a.dy + b.dy).px[y][x] == SampleOr0(img, y - (a.dy + b.dy), x - (a.dx + b.dx));
  }

  /**
   * Shifting back by `(-dx, -dy)` restores every pixel whose shifted
   * position stays inside the image.
   */
  lemma ApplyShiftRoundTrip(img: Raster<Byte>, dx: int, dy: int, y: int, x: int)
    requires Inside(img, y, x) && Inside(img, y + dy, x + dx)
    ensures ApplyShift(ApplyShift(img, dx, dy), -dx, -dy).px[y][x] == img.px[y][x]
  {
    ApplyShiftCompose(img, Shift(dx, dy), Shift(-dx, -dy), y, x);
    assert ApplyShift(img, 0, 0).px[y][x] == img.px[y][x];
  }

  /** What `main` computes from two readable images. */
  datatype Registration = Registration(shift: Shift, error: Score, aligned: Raster<Byte>)

  datatype RegisterError = FileNotFound

  /**
   * `main` after argument parsing: `FileNotFoundError` unless both images
   * were read, then the search in the program's `uint8` arithmetic, then
   * the translation of the target by the best shift. Writing the result is
   * left to the caller.
   */
  method Register(img1: Option<Raster<Byte>>, img2: Option<Raster<Byte>>,
                  startX: int, startY: int, wsize: int, shiftRange: int)
    returns (r: Result<Registration, RegisterError>)
    ensures r.Failure? <==> img1.None? || img2.None?
    ensures r.Success? ==>
      Best(r.value.shift, r.value.error)
        == BestShift(Search(Uint8, img1.value, img2.value, Window(startX, startY, wsize)), shiftRange)
    ensures r.Success? ==> r.value.aligned == ApplyShift(img2.value, r.value.shift.dx, r.value.shift.dy)
  {
    if img1.None? || img2.None? {
      return Failure(FileNotFound);
    }
    var best, error := FindBestShift(Uint8, img1.value, img2.value, startX, startY, wsize, shiftRange);
    var aligned := ApplyShift(img2.value, best.dx, best.dy);
    r := Success(Registration(best, error, aligned));
  }

  /** `img2` shows the content of `img1` moved: `img2[y + b][x + a] == img1[y][x]` wherever both exist. */
  ghost predicate Translated(img1: Raster<Byte>, img2: Raster<Byte>, a: int, b: int) {
    forall y, x :: Inside(img1, y, x) && Inside(img2, y + b, x + a) ==> img2.px[y + b][x + a] == img1.px[y][x]
  }

  /** Both windows inside their images: `(a, b)` and the reference window fit. */
  predicate WindowsInside(img1: Raster<Byte>, img2: Raster<Byte>, win: Window, a: int, b: int) {
    && 0 <= win.startY && win.startY + win.wsize <= img1.rows
    && 0 <= win.startX && win.startX + win.wsize <= img1.cols
    && 0 <= win.startY + b && win.startY + b + win.wsize <= img2.rows
    && 0 <= win.startX + a && win.startX + a + win.wsize <= img2.cols
  }

  /** For a target moved by `(a, b)` the target patch of `(a, b)` is the reference patch. */
  lemma TranslatedPatch(arith: Arith, img1: Raster<Byte>, img2: Raster<Byte>, win: Window, a: int, b: int)
    requires Translated(img1, img2, a, b) && win.wsize >= 0 && WindowsInside(img1, img2, win, a, b)
    ensures TargetPatch(Search(arith, img1, img2, win), Shift(a, b)) == RefPatch(Search(arith, img1, img2, win))
  {
    var p := Search(arith, img1, img2, win);
    var y0, x0, w := win.startY, win.startX, win.wsize;
    SliceInside(img1, y0, y0 + w, x0, x0 + w);
    SliceInside(img2, y0 + b, y0 + b + w, x0 + a, x0 + a + w);
    var ref, t := RefPatch(p), TargetPatch(p, Shift(a, b));
    forall i | 0 <= i < w
      ensures t.px[i] == ref.px[i]
    {
      forall j | 0 <= j < w
        ensures t.px[i][j] == ref.px[i][j]
      {
        assert Inside(img1, y0 + i, x0 + j) && Inside(img2, y0 + i + b, x0 + j + a);
      }
    }
    assert t.px == ref.px;
  }

  /**
   * For a target that is the reference moved by `(a, b)`, with both
   * windows inside their images, the candidate `(a, b)` scores 0, and so
   * the search returns error 0 (possibly at an earlier tying shift).
   */
  lemma TranslationScoresZero(arith: Arith, img1: Raster<Byte>, img2: Raster<Byte>, win: Window, r: int, a: int, b: int)
    requires Translated(img1, img2, a, b) && -r <= a <= r && -r <= b <= r
    requires win.wsize > 0 && WindowsInside(img1, img2, win, a, b)
    ensures CandScore(Search(arith, img1, img2, win), Shift(a, b)) == Some(Finite(0))
    ensures BestShift(Search(arith, img1, img2, win), r).error == Finite(0)
  {
    var p := Search(arith, img1, img2, win);
    TranslatedPatch(arith, img1, img2, win, a, b);
    SliceInside(img1, win.startY, win.startY + win.wsize, win.startX, win.startX + win.wsize);
    MseSelf(arith, RefPatch(p));
    BestShiftMinimal(p, r, Shift(a, b));
  }

  /**
   * `apply_shift` with the search's own `(dx, dy)`, as `main` calls it,
   * moves the content a second time the same way: for a target moved by
   * `(a, b)` the output at `(y, x)` shows the reference at `(y - 2b, x - 2a)`.
   */
  lemma AlignAsWrittenDoubles(img1: Raster<Byte>, img2: Raster<Byte>, a: int, b: int, y: int, x: int)
    requires Translated(img1, img2, a, b)
    requires Inside(img2, y, x) && Inside(img2, y - b, x - a) && Inside(img1, y - 2 * b, x - 2 * a)
    ensures ApplyShift(img2, a, b).px[y][x] == img1.px[y - 2 * b][x - 2 * a]
  {
    ApplyShiftAt(img2, a, b, y, x);
    assert (y - 2 * b) + b == y - b && (x - 2 * a) + a == x - a;
  }

  /** The alignment that undoes the shift the search measured: translate by `(-dx, -dy)`. */
  function AlignCorrected(img: Raster<Byte>, s: Shift): (out: Raster<Byte>)
    ensures out.rows == img.rows && out.cols == img.cols
  {
    ApplyShift(img, -s.dx, -s.dy)
  }

  /**
   * The corrected alignment maps a target moved by `(a, b)` back onto the
   * reference: every output pixel whose source exists equals the reference.
   */
  lemma AlignCorrectedRestores(img1: Raster<Byte>, img2: Raster<Byte>, a: int, b: int, y: int, x: int)
    requires Translated(img1, img2, a, b)
    requires Inside(img1, y, x) && Inside(img2, y, x) && Inside(img2, y + b, x + a)
    ensures AlignCorrected(img2, Shift(a, b)).px[y][x] == img1.px[y][x]
  {
    ApplyShiftAt(img2, -a, -b, y, x);
  }

  /**
   * A candidate with error 0 that no qualifying candidate precedes in loop
   * order is the result: nothing scores below 0, and every later
   * candidate loses the tie.
   */
  lemma FirstZeroWins(p: Search, r: int, c: Shift)
    requires InRange(c, r) && CandScore(p, c) == Some(Finite(0))
    requires forall d :: InRange(d, r) && Lex(d, c) ==> !Qualifies(p, d)
    ensures BestShift(p, r) == Best(c, Finite(0))
  {
    BestShiftMinimal(p, r, c);
    BestShiftNoCandidate(p, r);
    BestShiftBounds(p, r);
    var s := BestShift(p, r).shift;
    if Lex(c, s) {
      BestShiftTieBreak(p, r, c);
      assert false;
    } else if Lex(s, c) {
      assert false;
    }
  }

  /**
   * The search of the smallest case below: `(-1, 0)` scores 0 and the one
   * earlier candidate, `(-1, -1)`, has an empty target patch.
   */
  lemma ExampleSearch()
    ensures BestShift(Search(Uint8, Grid(1, 3, [[0, 5, 0]]), Grid(1, 3, [[5, 0, 0]]), Window(1, 0, 1)), 1)
         == Best(Shift(-1, 0), Finite(0))
  {
    var img1: Raster<Byte> := Grid(1, 3, [[0, 5, 0]]);
    var img2: Raster<Byte> := Grid(1, 3, [[5, 0, 0]]);
    var p := Search(Uint8, img1, img2, Window(1, 0, 1));
    TranslationScoresZero(Uint8, img1, img2, p.win, 1, -1, 0);
    assert RefPatch(p).rows == 1 && TargetPatch(p, Shift(-1, -1)).rows == 0;
    forall d | InRange(d, 1) && Lex(d, Shift(-1, 0))
      ensures !Qualifies(p, d)
    {
      assert d == Shift(-1, -1);
    }
    FirstZeroWins(p, 1, Shift(-1, 0));
  }

  /**
   * Why `TranslationScoresZero` does not name the returned shift: a
   * constant row is its own translation by `(0, 0)`, yet the search
   * returns the first zero-error candidate, `(-1, 0)`.
   */
  lemma ConstantImageFirstShift()
    ensures Translated(Grid(1, 3, [[7, 7, 7]]), Grid(1, 3, [[7, 7, 7]]), 0, 0)
    ensures BestShift(Search(Uint8, Grid(1, 3, [[7, 7, 7]]), Grid(1, 3, [[7, 7, 7]]), Window(1, 0, 1)), 1)
         == Best(Shift(-1, 0), Finite(0))
  {
    var img: Raster<Byte> := Grid(1, 3, [[7, 7, 7]]);
    var p := Search(Uint8, img, img, Window(1, 0, 1));
    TranslationScoresZero(Uint8, img, img, p.win, 1, -1, 0);
    assert RefPatch(p).rows == 1 && TargetPatch(p, Shift(-1, -1)).rows == 0;
    forall d | InRange(d, 1) && Lex(d, Shift(-1, 0))
      ensures !Qualifies(p, d)
    {
      assert d == Shift(-1, -1);
    }
    FirstZeroWins(p, 1, Shift(-1, 0));
  }


  /**
   * The output of the smallest case below: the target row `[5, 0, 0]` is
   * the reference row `[0, 5, 0]` moved one column left; `main` moves it
   * left again, to `[0, 0, 0]`, while the corrected alignment gives back the
   * reference.
   */
  lemma ExampleOutput()
    ensures Translated(Grid(1, 3, [[0, 5, 0]]), Grid(1, 3, [[5, 0, 0]]), -1, 0)
    ensures ApplyShift(Grid(1, 3, [[5, 0, 0]]), -1, 0) == Grid(1, 3, [[0, 0, 0]])
    ensures ApplyShift(Grid(1, 3, [[5, 0, 0]]), -1, 0) != Grid(1, 3, [[0, 5, 0]])
    ensures AlignCorrected(Grid(1, 3, [[5, 0, 0]]), Shift(-1, 0)) == Grid(1, 3, [[0, 5, 0]])
  {
    var img2: Raster<Byte> := Grid(1, 3, [[5, 0, 0]]);
    var out, fixed := ApplyShift(img2, -1, 0), AlignCorrected(img2, Shift(-1, 0));
    forall x | 0 <= x < 3
      ensures out.px[0][x] == [0, 0, 0][x] && fixed.px[0][x] == [0, 5, 0][x]
    {
      ApplyShiftAt(img2, -1, 0, 0, x);
      ApplyShiftAt(img2, 1, 0, 0, x);
    }
    assert out.px[0] == [0, 0, 0];
    assert fixed.px[0] == [0, 5, 0];
  }

  /**
   * The smallest case: the reference row `[0, 5, 0]` and the target row
   * `[5, 0, 0]`, the content moved one column left. For a 1×1 window at
   * column 1 and shift range 1 the search returns `(-1, 0)` with error 0;
   * `main` then outputs `[0, 0, 0]`, while the corrected alignment gives
   * back the reference.
   */
  lemma AlignAsWrittenExample()
    ensures Translated(Grid(1, 3, [[0, 5, 0]]), Grid(1, 3, [[5, 0, 0]]), -1, 0)
    ensures BestShift(Search(Uint8, Grid(1, 3, [[0, 5, 0]]), Grid(1, 3, [[5, 0, 0]]), Window(1, 0, 1)), 1)
         == Best(Shift(-1, 0), Finite(0))
    ensures ApplyShift(Grid(1, 3, [[5, 0, 0]]), -1, 0) == Grid(1, 3, [[0, 0, 0]])
    ensures ApplyShift(Grid(1, 3, [[5, 0, 0]]), -1, 0) != Grid(1, 3, [[0, 5, 0]])
    ensures AlignCorrected(Grid(1, 3, [[5, 0, 0]]), Shift(-1, 0)) == Grid(1, 3, [[0, 5, 0]])
  {
    ExampleSearch();
    ExampleOutput();
  }
}
