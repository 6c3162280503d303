/** Per-pixel colour unmixing: an observed colour is explained as a blend of
    the background with one or more foreground colours, giving one weight per
    foreground colour and an overall alpha. The least-squares solver
    (`nalgebra`'s pseudo-inverse) is a parameter of the model. */
module Unmix {
  import opened Wrappers
  import opened Numeric
  import opened ColorSpace

  /** Norm below which a blend direction `fg - bg` counts as degenerate. */
  const Epsilon: real := 1e-10

  /** Default closeness threshold for the non-strict pipeline (5% of the RGB range). */
  const DefaultColorClosenessThreshold: real := 0.05

  /** A candidate decomposition is accepted only if it reconstructs the pixel this closely. */
  const ReconstructionTolerance: real := 0.01

  /** The pair search runs only while the best alpha is below this. */
  const PairSearchCutoff: real := 0.99

  /** Weight per foreground colour and overall alpha. */
  datatype UnmixResult = UnmixResult(weights: seq<real>, alpha: real)

  /** What every result of the unmixer satisfies: one non-negative weight per
      foreground colour, alpha in [0, 1], and the weights summing to alpha. */
  predicate WellFormed(r: UnmixResult, n: nat) {
    && |r.weights| == n
    && AllNonNegative(r.weights)
    && 0.0 <= r.alpha <= 1.0
    && Sum(r.weights) == r.alpha
  }

  /** A dense matrix in column-major order (`DMatrix::from_column_slice`). */
  datatype Matrix = Matrix(rows: nat, cols: nat, data: seq<real>)

  /** The pseudo-inverse of a matrix, as its rows, or `None` when the
      decomposition fails. */
  type PseudoInverse = Matrix -> Option<seq<Vec3>>

  /** The pseudo-inverse of a 3 x n matrix has n rows. */
  ghost predicate ShapedPseudoInverse(pinv: PseudoInverse) {
    forall m :: pinv(m).Some? ==> |pinv(m).value| == m.cols
  }

  /** `pseudo_inverse(EPSILON)` followed by the product with `b`. */
  function Solve(pinv: PseudoInverse, m: Matrix, b: Vec3): (s: Option<seq<real>>)
    requires ShapedPseudoInverse(pinv)
    ensures s.None? <==> pinv(m).None?
    ensures s.Some? ==> |s.value| == m.cols
  {
    match pinv(m)
    case None => None
    case Some(rows) => Some(seq(|rows|, k requires 0 <= k < |rows| => Dot(rows[k], b)))
  }

  /** The column data `fg_i - bg`, three entries per foreground colour. */
  function ColumnData(fgs: seq<Vec3>, bg: Vec3): (d: seq<real>)
    ensures |d| == 3 * |fgs|
  {
    if fgs == [] then []
    else [fgs[0].x - bg.x, fgs[0].y - bg.y, fgs[0].z - bg.z] + ColumnData(fgs[1..], bg)
  }

  /** The data handed to `from_column_slice(3, 2, ..)` for a pair: the two
      colours' differences interleaved channel by channel, so the matrix's
      columns are not `fg_i - bg` and `fg_j - bg`. */
  function PairData(fi: Vec3, fj: Vec3, bg: Vec3): seq<real> {
    [fi.x - bg.x, fj.x - bg.x, fi.y - bg.y, fj.y - bg.y, fi.z - bg.z, fj.z - bg.z]
  }

  /** `w * fg + (1 - w) * bg`. */
  function Blend(w: real, fg: Vec3, bg: Vec3): Vec3 {
    Add(Scale(w, fg), Scale(1.0 - w, bg))
  }

  /** `(fg - bg).norm() > EPSILON`. */
  predicate NonDegenerate(fg: Vec3, bg: Vec3) {
    NormSq(Sub(fg, bg)) > Epsilon * Epsilon
  }

  /** The projection of `observed - bg` on `fg - bg`, clamped to [0, 1];
      0 when `fg - bg` is degenerate. */
  function ProjectedWeight(observed: Vec3, fg: Vec3, bg: Vec3): (w: real)
    ensures 0.0 <= w <= 1.0
    ensures !NonDegenerate(fg, bg) ==> w == 0.0
  {
    var d := Sub(fg, bg);
    if NonDegenerate(fg, bg) then Clamp(Dot(Sub(observed, bg), d) / NormSq(d), 0.0, 1.0) else 0.0
  }

  /** A pixel that is an exact blend of `fg` and `bg` with a weight in [0, 1]
      gets that weight back from the projection. */
  lemma ProjectionRecoversWeight(a: real, fg: Vec3, bg: Vec3)
    requires 0.0 <= a <= 1.0 && NonDegenerate(fg, bg)
    ensures ProjectedWeight(Blend(a, fg, bg), fg, bg) == a
  {
    var d := Sub(fg, bg);
    var n := NormSq(d);
    var q := Dot(Sub(Blend(a, fg, bg), bg), d);
    assert q == a * n by {
      OffsetOfBlend(a, fg, bg);
      DotOfScaled(a, d);
    }
    assert q / n == a by {
      QuotientOfScaled(a, n);
    }
  }

  /** A blend's offset from the background is the weighted offset of the foreground. */
  lemma OffsetOfBlend(a: real, fg: Vec3, bg: Vec3)
    ensures Sub(Blend(a, fg, bg), bg) == Scale(a, Sub(fg, bg))
  {
    var u, v := Sub(Blend(a, fg, bg), bg), Scale(a, Sub(fg, bg));
    assert u.x == v.x by { BlendOffset(a, fg.x, bg.x); }
    assert u.y == v.y by { BlendOffset(a, fg.y, bg.y); }
    assert u.z == v.z by { BlendOffset(a, fg.z, bg.z); }
  }

  lemma DotOfScaled(a: real, d: Vec3)
    ensures Dot(Scale(a, d), d) == a * NormSq(d)
  {
    assert (a * d.x) * d.x + (a * d.y) * d.y + (a * d.z) * d.z == a * (d.x * d.x + d.y * d.y + d.z * d.z);
  }

  /** `unmix_single_color`. */
  function UnmixSingle(observed: Vec3, fg: Vec3, bg: Vec3): (r: UnmixResult)
    ensures WellFormed(r, 1)
    ensures r.weights == [r.alpha]
    ensures !NonDegenerate(fg, bg) ==> r.alpha == 0.0
  {
    var w := ProjectedWeight(observed, fg, bg);
    assert Sum([w]) == w by { assert [w][1..] == []; }
    UnmixResult([w], w)
  }

  /** Each entry of `r` times `k` is the matching entry of `w`. */
  predicate ScaledDown(r: seq<real>, w: seq<real>, k: real) {
    |r| == |w| && forall i :: 0 <= i < |w| ==> r[i] * k == w[i]
  }

  /** Weights divided by their sum when the sum is above 1. */
  function Renormalize(w: seq<real>): (r: seq<real>)
    requires AllNonNegative(w)
    ensures |r| == |w| && AllNonNegative(r)
    ensures Sum(r) == Min(Sum(w), 1.0)
    ensures ScaledDown(r, w, Max(Sum(w), 1.0))
  {
    var s := Sum(w);
    if s > 1.0 then
      SumDivideAll(w, s);
      DividedDown(w, s);
      DivideAll(w, s)
    else w
  }

  /** Non-negative weights divided by a positive total stay non-negative
      and scale back up to the originals. */
  lemma DividedDown(w: seq<real>, s: real)
    requires AllNonNegative(w) && s > 0.0
    ensures AllNonNegative(DivideAll(w, s)) && ScaledDown(DivideAll(w, s), w, s)
  {
    var r := DivideAll(w, s);
    forall i | 0 <= i < |w| ensures r[i] >= 0.0 && r[i] * s == w[i] {
      DivideThenMultiply(w[i], s);
      NonNegativeQuotient(w[i], s);
    }
  }

  /** The least-squares solution over all foreground colours with negative
      weights clamped to 0, or `None` when the solver fails. */
  function ClampedSolution(observed: Vec3, fgs: seq<Vec3>, bg: Vec3, pinv: PseudoInverse): (s: Option<seq<real>>)
    requires ShapedPseudoInverse(pinv)
    ensures s.Some? ==> |s.value| == |fgs| && AllNonNegative(s.value)
  {
    match Solve(pinv, Matrix(3, |fgs|, ColumnData(fgs, bg)), Sub(observed, bg))
    case None => None
    case Some(sol) => Some(ClampNegatives(sol))
  }

  /** Full weight on the first foreground colour: the fallback when the solver fails. */
  function FirstColorOnly(n: nat): (w: seq<real>)
    requires n > 0
    ensures |w| == n && AllNonNegative(w) && Sum(w) == 1.0
    ensures w[0] == 1.0 && forall i :: 0 < i < n ==> w[i] == 0.0
  {
    SumZeros(n);
    SumUpdate(Zeros(n), 0, 1.0);
    Zeros(n)[0 := 1.0]
  }

  /** `unmix_multiple_colors_simple`: least squares, negatives clamped,
      renormalised when the weights sum above 1. */
  function UnmixSimple(observed: Vec3, fgs: seq<Vec3>, bg: Vec3, pinv: PseudoInverse): (r: UnmixResult)
    requires ShapedPseudoInverse(pinv)
    requires |fgs| > 0
    ensures WellFormed(r, |fgs|)
    ensures ClampedSolution(observed, fgs, bg, pinv).None? ==> r == UnmixResult(FirstColorOnly(|fgs|), 1.0)
    ensures ClampedSolution(observed, fgs, bg, pinv).Some? ==>
      var w := ClampedSolution(observed, fgs, bg, pinv).value;
      r.alpha == Min(Sum(w), 1.0) && ScaledDown(r.weights, w, Max(Sum(w), 1.0))
  {
    match ClampedSolution(observed, fgs, bg, pinv)
    case Some(w) =>
      SumNonNegative(w);
      UnmixResult(Renormalize(w), Min(Sum(w), 1.0))
    case None =>
      var w := FirstColorOnly(|fgs|);
      SumNonNegative(w);
      UnmixResult(Renormalize(w), Min(Sum(w), 1.0))
  }

  /** Approach 1 of the optimised unmixer: the clamped least-squares
      solution, renormalised, when its weights sum above 0. */
  function LeastSquaresCandidate(observed: Vec3, fgs: seq<Vec3>, bg: Vec3, pinv: PseudoInverse): (c: Option<UnmixResult>)
    requires ShapedPseudoInverse(pinv)
    ensures c.Some? ==> WellFormed(c.value, |fgs|) && c.value.alpha > 0.0
  {
    match ClampedSolution(observed, fgs, bg, pinv)
    case None => None
    case Some(w) =>
      if Sum(w) > 0.0 then Some(UnmixResult(Renormalize(w), Min(Sum(w), 1.0))) else None
  }

  /** `sqrt(DistSq(a, b)) < 0.01`. */
  predicate Reconstructs(a: Vec3, b: Vec3) {
    DistSq(a, b) < ReconstructionTolerance * ReconstructionTolerance
  }

  /** Approach 2 for colour `i`: the single-colour projection, kept only if it
      reconstructs the pixel; its weights are 0 except at `i`. */
  function SingleCandidate(observed: Vec3, fgs: seq<Vec3>, bg: Vec3, i: nat): (c: Option<UnmixResult>)
    requires i < |fgs|
    ensures c.Some? ==> WellFormed(c.value, |fgs|)
    ensures c.Some? ==> c.value.weights[i] == c.value.alpha
    ensures c.Some? ==> forall k :: 0 <= k < |fgs| && k != i ==> c.value.weights[k] == 0.0
    ensures c.Some? ==> NonDegenerate(fgs[i], bg) && Reconstructs(Blend(c.value.alpha, fgs[i], bg), observed)
  {
    var fg := fgs[i];
    if NonDegenerate(fg, bg) then
      var w := ProjectedWeight(observed, fg, bg);
      if Reconstructs(Blend(w, fg, bg), observed) then
        SumZeros(|fgs|);
        SumUpdate(Zeros(|fgs|), i, w);
        Some(UnmixResult(Zeros(|fgs|)[i := w], w))
      else None
    else None
  }

  /** `wi * fi + wj * fj + (1 - wi - wj) * bg`. */
  function Blend2(wi: real, fi: Vec3, wj: real, fj: Vec3, bg: Vec3): Vec3 {
    Add(Add(Scale(wi, fi), Scale(wj, fj)), Scale(1.0 - wi - wj, bg))
  }

  /** Weights `wi` at `i` and `wj` at `j`, 0 elsewhere. */
  function TwoHot(n: nat, i: nat, wi: real, j: nat, wj: real): (w: seq<real>)
    requires i < j < n
    ensures |w| == n && w[i] == wi && w[j] == wj
    ensures forall k :: 0 <= k < n && k != i && k != j ==> w[k] == 0.0
    ensures Sum(w) == wi + wj
  {
    SumZeros(n);
    SumUpdate(Zeros(n), i, wi);
    SumUpdate(Zeros(n)[i := wi], j, wj);
    Zeros(n)[i := wi][j := wj]
  }

  /** Approach 3 for the pair `i < j`: the least-squares solution of the
      (interleaved) pair matrix, clamped and renormalised, kept only if it
      reconstructs the pixel; its weights are 0 outside `i` and `j`. */
  function PairCandidate(observed: Vec3, fgs: seq<Vec3>, bg: Vec3, pinv: PseudoInverse, i: nat, j: nat): (c: Option<UnmixResult>)
    requires ShapedPseudoInverse(pinv)
    requires i < j < |fgs|
    ensures c.Some? ==> WellFormed(c.value, |fgs|) && c.value.alpha > 0.0
    ensures c.Some? ==> forall k :: 0 <= k < |fgs| && k != i && k != j ==> c.value.weights[k] == 0.0
    ensures c.Some? ==> Reconstructs(Blend2(c.value.weights[i], fgs[i], c.value.weights[j], fgs[j], bg), observed)
  {
    var fi, fj := fgs[i], fgs[j];
    match Solve(pinv, Matrix(3, 2, PairData(fi, fj, bg)), Sub(observed, bg))
    case None => None
    case Some(sol) =>
      var wi, wj := Max(sol[0], 0.0), Max(sol[1], 0.0);
      var sum := wi + wj;
      if sum > 0.0 then
        var ni := if sum > 1.0 then wi / sum else wi;
        var nj := if sum > 1.0 then wj / sum else wj;
        assert ni >= 0.0 && nj >= 0.0 && ni + nj == Min(sum, 1.0) by {
          if sum > 1.0 { SharesOfTotal(wi, wj); }
        }
        if Reconstructs(Blend2(ni, fi, nj, fj, bg), observed) then
          Some(UnmixResult(TwoHot(|fgs|, i, ni, j, nj), Min(sum, 1.0)))
        else None
      else None
  }

  /** The decomposition is one the optimised unmixer considers: the initial
      all-zero result or one of the three kinds of candidate. */
  ghost predicate IsCandidate(observed: Vec3, fgs: seq<Vec3>, bg: Vec3, pinv: PseudoInverse, r: UnmixResult)
    requires ShapedPseudoInverse(pinv)
  {
    || r == UnmixResult(Zeros(|fgs|), 0.0)
    || LeastSquaresCandidate(observed, fgs, bg, pinv) == Some(r)
    || (exists k :: 0 <= k < |fgs| && SingleCandidate(observed, fgs, bg, k) == Some(r))
    || (exists a, b :: 0 <= a < b < |fgs| && PairCandidate(observed, fgs, bg, pinv, a, b) == Some(r))
  }

  /** What `unmix_multiple_colors_optimized` promises: a well-formed result
      drawn from its candidates, at least as opaque as the least-squares
      candidate and every accepted single-colour candidate, and as every
      accepted pair candidate unless alpha had already reached the cutoff. */
  ghost predicate OptimizedOutcome(observed: Vec3, fgs: seq<Vec3>, bg: Vec3, pinv: PseudoInverse, r: UnmixResult)
    requires ShapedPseudoInverse(pinv)
  {
    && WellFormed(r, |fgs|)
    && IsCandidate(observed, fgs, bg, pinv, r)
    && (LeastSquaresCandidate(observed, fgs, bg, pinv).Some? ==>
          LeastSquaresCandidate(observed, fgs, bg, pinv).value.alpha <= r.alpha)
    && (forall k :: 0 <= k < |fgs| && SingleCandidate(observed, fgs, bg, k).Some? ==>
          SingleCandidate(observed, fgs, bg, k).value.alpha <= r.alpha)
    && (forall a, b :: 0 <= a < b < |fgs| && PairCandidate(observed, fgs, bg, pinv, a, b).Some? ==>
          PairCandidate(observed, fgs, bg, pinv, a, b).value.alpha <= r.alpha || PairSearchCutoff <= r.alpha)
  }

  /** Every accepted single-colour candidate among the first `m` is at most `alpha`. */
  ghost predicate SinglesAtMost(observed: Vec3, fgs: seq<Vec3>, bg: Vec3, m: nat, alpha: real) {
    forall k :: 0 <= k < m && k < |fgs| && SingleCandidate(observed, fgs, bg, k).Some? ==>
      SingleCandidate(observed, fgs, bg, k).value.alpha <= alpha
  }

  /** Every accepted pair candidate `(a, b)` before `(i, j)` in the loop order is at most `alpha`. */
  ghost predicate PairsAtMost(observed: Vec3, fgs: seq<Vec3>, bg: Vec3, pinv: PseudoInverse, i: nat, j: nat, alpha: real)
    requires ShapedPseudoInverse(pinv)
  {
    forall a, b :: 0 <= a < b < |fgs| && (a < i || (a == i && b < j)) && PairCandidate(observed, fgs, bg, pinv, a, b).Some? ==>
      PairCandidate(observed, fgs, bg, pinv, a, b).value.alpha <= alpha
  }

  /** The result of approach 1 against the all-zero start: the least-squares
      candidate when it exists and is more opaque than 0. */
  function LeastSquaresStage(observed: Vec3, fgs: seq<Vec3>, bg: Vec3, pinv: PseudoInverse): UnmixResult
    requires ShapedPseudoInverse(pinv)
  {
    var ls := LeastSquaresCandidate(observed, fgs, bg, pinv);
    if ls.Some? && ls.value.alpha > 0.0 then ls.value else UnmixResult(Zeros(|fgs|), 0.0)
  }

  /** The best result after offering the single-colour candidates `0 .. m - 1`,
      in order, to `start`: a candidate replaces the best only if strictly more
      opaque, so on a tie the earlier result stays. */
  function SinglesStage(observed: Vec3, fgs: seq<Vec3>, bg: Vec3, start: UnmixResult, m: nat): UnmixResult
    requires m <= |fgs|
  {
    if m == 0 then start
    else
      var best := SinglesStage(observed, fgs, bg, start, m - 1);
      var c := SingleCandidate(observed, fgs, bg, m - 1);
      if c.Some? && c.value.alpha > best.alpha then c.value else best
  }

  /** The best result after offering the pairs `(i, j)` for `i < j < m`, in
      order, to `start`, replacing only on a strict improvement. */
  function PairRowStage(observed: Vec3, fgs: seq<Vec3>, bg: Vec3, pinv: PseudoInverse, i: nat, start: UnmixResult, m: nat): UnmixResult
    requires ShapedPseudoInverse(pinv) && m <= |fgs|
  {
    if m <= i + 1 then start
    else
      var best := PairRowStage(observed, fgs, bg, pinv, i, start, m - 1);
      var c := PairCandidate(observed, fgs, bg, pinv, i, m - 1);
      if c.Some? && c.value.alpha > best.alpha then c.value else best
  }

  /** The best result after the pair rows `0 .. m - 1`, in loop order. */
  function PairsStage(observed: Vec3, fgs: seq<Vec3>, bg: Vec3, pinv: PseudoInverse, start: UnmixResult, m: nat): UnmixResult
    requires ShapedPseudoInverse(pinv) && m <= |fgs|
  {
    if m == 0 then start
    else PairRowStage(observed, fgs, bg, pinv, m - 1, PairsStage(observed, fgs, bg, pinv, start, m - 1), |fgs|)
  }

  /** The result of `unmix_multiple_colors_optimized`, stage by stage: least
      squares, then every single colour, then, only while alpha is below the
      cutoff and there are two colours or more, every pair. */
  function OptimizedResult(observed: Vec3, fgs: seq<Vec3>, bg: Vec3, pinv: PseudoInverse): UnmixResult
    requires ShapedPseudoInverse(pinv)
  {
    var s := SinglesStage(observed, fgs, bg, LeastSquaresStage(observed, fgs, bg, pinv), |fgs|);
    if |fgs| >= 2 && s.alpha < PairSearchCutoff then PairsStage(observed, fgs, bg, pinv, s, |fgs|) else s
  }

  /** The single-colour stage keeps `start` unless some accepted single
      colour is strictly more opaque; then it ends with the first accepted
      single colour of largest alpha. */
  lemma {:induction false} SinglesStageFirstMaximum(observed: Vec3, fgs: seq<Vec3>, bg: Vec3, start: UnmixResult, m: nat)
    requires m <= |fgs|
    ensures var r := SinglesStage(observed, fgs, bg, start, m);
      && start.alpha <= r.alpha
      && (forall k :: 0 <= k < m && SingleCandidate(observed, fgs, bg, k).Some? ==>
            SingleCandidate(observed, fgs, bg, k).value.alpha <= r.alpha)
      && (r == start ||
          exists k :: 0 <= k < m && SingleCandidate(observed, fgs, bg, k) == Some(r) && start.alpha < r.alpha &&
            forall j :: 0 <= j < k && SingleCandidate(observed, fgs, bg, j).Some? ==>
              SingleCandidate(observed, fgs, bg, j).value.alpha < r.alpha)
  {
    if m > 0 {
      SinglesStageFirstMaximum(observed, fgs, bg, start, m - 1);
      var p := SinglesStage(observed, fgs, bg, start, m - 1);
      var c := SingleCandidate(observed, fgs, bg, m - 1);
      if c.Some? && c.value.alpha > p.alpha {
        assert SingleCandidate(observed, fgs, bg, m - 1) == Some(c.value);
      }
    }
  }

  /** Approach 2 of the optimised unmixer: each colour alone replaces the
      best so far when strictly more opaque. */
  method BestSingle(observed: Vec3, fgs: seq<Vec3>, bg: Vec3, pinv: PseudoInverse, start: UnmixResult) returns (best: UnmixResult)
    requires ShapedPseudoInverse(pinv)
    requires WellFormed(start, |fgs|) && IsCandidate(observed, fgs, bg, pinv, start)
    ensures WellFormed(best, |fgs|) && IsCandidate(observed, fgs, bg, pinv, best)
    ensures start.alpha <= best.alpha
    ensures SinglesAtMost(observed, fgs, bg, |fgs|, best.alpha)
    ensures best == SinglesStage(observed, fgs, bg, start, |fgs|)
  {
    best := start;
    for i := 0 to |fgs|
      invariant best == SinglesStage(observed, fgs, bg, start, i)
      invariant WellFormed(best, |fgs|) && IsCandidate(observed, fgs, bg, pinv, best)
      invariant start.alpha <= best.alpha
      invariant SinglesAtMost(observed, fgs, bg, i, best.alpha)
    {
      var c := SingleCandidate(observed, fgs, bg, i);
      ghost var before := best;
      if c.Some? && c.value.alpha > best.alpha {
        SingleIsCandidate(observed, fgs, bg, pinv, i);
        best := c.value;
      }
      SinglesAtMostStep(observed, fgs, bg, i, before.alpha, best.alpha);
    }
  }

  /** An accepted single-colour result is one of the candidates. */
  lemma SingleIsCandidate(observed: Vec3, fgs: seq<Vec3>, bg: Vec3, pinv: PseudoInverse, i: nat)
    requires ShapedPseudoInverse(pinv)
    requires i < |fgs| && SingleCandidate(observed, fgs, bg, i).Some?
    ensures IsCandidate(observed, fgs, bg, pinv, SingleCandidate(observed, fgs, bg, i).value)
  {
  }

  /** Passing colour `i` with an alpha at least as large as its own extends
      the bound to the next colour. */
  lemma SinglesAtMostStep(observed: Vec3, fgs: seq<Vec3>, bg: Vec3, i: nat, alpha: real, alpha': real)
    requires i < |fgs|
    requires SinglesAtMost(observed, fgs, bg, i, alpha) && alpha <= alpha'
    requires SingleCandidate(observed, fgs, bg, i).Some? ==> SingleCandidate(observed, fgs, bg, i).value.alpha <= alpha'
    ensures SinglesAtMost(observed, fgs, bg, i + 1, alpha')
  {
  }

  /** An accepted pair result is one of the candidates. */
  lemma PairIsCandidate(observed: Vec3, fgs: seq<Vec3>, bg: Vec3, pinv: PseudoInverse, i: nat, j: nat)
    requires ShapedPseudoInverse(pinv)
    requires i < j < |fgs| && PairCandidate(observed, fgs, bg, pinv, i, j).Some?
    ensures IsCandidate(observed, fgs, bg, pinv, PairCandidate(observed, fgs, bg, pinv, i, j).value)
  {
  }

  /** The pairs `(i, j)` for every `j > i`, in order. */
  method BestPairRow(observed: Vec3, fgs: seq<Vec3>, bg: Vec3, pinv: PseudoInverse, i: nat, start: UnmixResult) returns (best: UnmixResult)
    requires ShapedPseudoInverse(pinv) && i < |fgs|
    requires WellFormed(start, |fgs|) && IsCandidate(observed, fgs, bg, pinv, start)
    requires PairsAtMost(observed, fgs, bg, pinv, i, 0, start.alpha)
    ensures WellFormed(best, |fgs|) && IsCandidate(observed, fgs, bg, pinv, best)
    ensures start.alpha <= best.alpha
    ensures PairsAtMost(observed, fgs, bg, pinv, i + 1, 0, best.alpha)
    ensures best == PairRowStage(observed, fgs, bg, pinv, i, start, |fgs|)
  {
    best := start;
    for j := i + 1 to |fgs|
      invariant best == PairRowStage(observed, fgs, bg, pinv, i, start, j)
      invariant WellFormed(best, |fgs|) && IsCandidate(observed, fgs, bg, pinv, best)
      invariant start.alpha <= best.alpha
      invariant PairsAtMost(observed, fgs, bg, pinv, i, j, best.alpha)
    {
      var c := PairCandidate(observed, fgs, bg, pinv, i, j);
      ghost var before := best;
      PairRowStageStep(observed, fgs, bg, pinv, i, start, j);
      if c.Some? && c.value.alpha > best.alpha {
        PairIsCandidate(observed, fgs, bg, pinv, i, j);
        best := c.value;
      }
      PairsAtMostStep(observed, fgs, bg, pinv, i, j, before.alpha, best.alpha);
    }
  }

  /** One more pair of row `i` in the pair stage. */
  lemma PairRowStageStep(observed: Vec3, fgs: seq<Vec3>, bg: Vec3, pinv: PseudoInverse, i: nat, start: UnmixResult, j: nat)
    requires ShapedPseudoInverse(pinv) && i < j < |fgs|
    ensures var best := PairRowStage(observed, fgs, bg, pinv, i, start, j);
      var c := PairCandidate(observed, fgs, bg, pinv, i, j);
      PairRowStage(observed, fgs, bg, pinv, i, start, j + 1) == if c.Some? && c.value.alpha > best.alpha then c.value else best
  {
  }

  /** Passing the pair `(i, j)` with an alpha at least as large as its own
      extends the bound to the next pair. */
  lemma PairsAtMostStep(observed: Vec3, fgs: seq<Vec3>, bg: Vec3, pinv: PseudoInverse, i: nat, j: nat, alpha: real, alpha': real)
    requires ShapedPseudoInverse(pinv) && i < j < |fgs|
    requires PairsAtMost(observed, fgs, bg, pinv, i, j, alpha) && alpha <= alpha'
    requires PairCandidate(observed, fgs, bg, pinv, i, j).Some? ==> PairCandidate(observed, fgs, bg, pinv, i, j).value.alpha <= alpha'
    ensures PairsAtMost(observed, fgs, bg, pinv, i, j + 1, alpha')
  {
  }

  /** Approach 3 of the optimised unmixer: each pair `i < j` replaces the best
      so far when strictly more opaque. */
  method BestPair(observed: Vec3, fgs: seq<Vec3>, bg: Vec3, pinv: PseudoInverse, start: UnmixResult) returns (best: UnmixResult)
    requires ShapedPseudoInverse(pinv)
    requires WellFormed(start, |fgs|) && IsCandidate(observed, fgs, bg, pinv, start)
    ensures WellFormed(best, |fgs|) && IsCandidate(observed, fgs, bg, pinv, best)
    ensures start.alpha <= best.alpha
    ensures PairsAtMost(observed, fgs, bg, pinv, |fgs|, 0, best.alpha)
    ensures best == PairsStage(observed, fgs, bg, pinv, start, |fgs|)
  {
    best := start;
    for i := 0 to |fgs|
      invariant best == PairsStage(observed, fgs, bg, pinv, start, i)
      invariant WellFormed(best, |fgs|) && IsCandidate(observed, fgs, bg, pinv, best)
      invariant start.alpha <= best.alpha
      invariant PairsAtMost(observed, fgs, bg, pinv, i, 0, best.alpha)
    {
      best := BestPairRow(observed, fgs, bg, pinv, i, best);
    }
  }

  /** `unmix_multiple_colors_optimized`: keeps the most opaque accepted
      candidate; a later candidate replaces the best only if strictly more
      opaque. */
  method UnmixOptimized(observed: Vec3, fgs: seq<Vec3>, bg: Vec3, pinv: PseudoInverse) returns (r: UnmixResult)
    requires ShapedPseudoInverse(pinv)
    ensures r == OptimizedResult(observed, fgs, bg, pinv)
    ensures OptimizedOutcome(observed, fgs, bg, pinv, r)
  {
    var n := |fgs|;
    SumZeros(n);
    var best := UnmixResult(Zeros(n), 0.0);

    // Approach 1: least squares over all colours.
    var ls := LeastSquaresCandidate(observed, fgs, bg, pinv);
    if ls.Some? && ls.value.alpha > best.alpha {
      best := ls.value;
    }

    // Approach 2: each colour alone.
    best := BestSingle(observed, fgs, bg, pinv, best);

    // Approach 3: pairs, only while not yet nearly opaque.
    if n >= 2 && best.alpha < PairSearchCutoff {
      var before := best;
      best := BestPair(observed, fgs, bg, pinv, best);
      assert SinglesAtMost(observed, fgs, bg, n, best.alpha);
    }
    r := best;
  }

  /** `unmix_colors_internal`: dispatch on the number of foreground colours. */
  method UnmixColorsInternal(observed: Color, fgs: seq<Vec3>, bg: Vec3, optimizeOpacity: bool, pinv: PseudoInverse)
    returns (r: UnmixResult)
    requires ShapedPseudoInverse(pinv)
    ensures WellFormed(r, |fgs|)
    ensures |fgs| == 0 ==> r == UnmixResult([], 0.0)
    ensures |fgs| == 1 ==> r == UnmixSingle(Normalize(observed), fgs[0], bg)
    ensures |fgs| >= 2 && !optimizeOpacity ==> r == UnmixSimple(Normalize(observed), fgs, bg, pinv)
    ensures |fgs| >= 2 && optimizeOpacity ==> OptimizedOutcome(Normalize(observed), fgs, bg, pinv, r)
    ensures |fgs| >= 2 && optimizeOpacity ==> r == OptimizedResult(Normalize(observed), fgs, bg, pinv)
  {
    var obs := Normalize(observed);
    if |fgs| == 0 {
      r := UnmixResult([], 0.0);
    } else if |fgs| == 1 {
      r := UnmixSingle(obs, fgs[0], bg);
    } else if optimizeOpacity {
      r := UnmixOptimized(obs, fgs, bg, pinv);
    } else {
      r := UnmixSimple(obs, fgs, bg, pinv);
    }
  }

  /** What `unmix_colors` promises for each number of foreground colours. */
  ghost predicate UnmixColorsOutcome(observed: Color, fgs: seq<Vec3>, bg: Vec3, pinv: PseudoInverse, r: UnmixResult)
    requires ShapedPseudoInverse(pinv)
  {
    && WellFormed(r, |fgs|)
    && (|fgs| == 0 ==> r == UnmixResult([], 0.0))
    && (|fgs| == 1 ==> r == UnmixSingle(Normalize(observed), fgs[0], bg))
    && (|fgs| >= 2 ==> OptimizedOutcome(Normalize(observed), fgs, bg, pinv, r))
    && (|fgs| >= 2 ==> r == OptimizedResult(Normalize(observed), fgs, bg, pinv))
  }

  /** `unmix_colors`: the optimised unmixer. */
  method UnmixColors(observed: Color, fgs: seq<Vec3>, bg: Vec3, pinv: PseudoInverse) returns (r: UnmixResult)
    requires ShapedPseudoInverse(pinv)
    ensures UnmixColorsOutcome(observed, fgs, bg, pinv, r)
  {
    r := UnmixColorsInternal(observed, fgs, bg, true, pinv);
  }

  /** `fg` alone, projected and clamped, reconstructs the pixel within `threshold`. */
  predicate CloseVia(observed: Vec3, fg: Vec3, bg: Vec3, threshold: real) {
    && NonDegenerate(fg, bg)
    && SqrtBelow(DistSq(Blend(ProjectedWeight(observed, fg, bg), fg, bg), observed), threshold)
  }

  /** `is_color_close_to_foreground`: some foreground colour, used alone,
      explains the pixel within the threshold. */
  method IsColorCloseToForeground(observed: Vec3, fgs: seq<Vec3>, bg: Vec3, threshold: real) returns (close: bool)
    ensures close <==> exists k :: 0 <= k < |fgs| && CloseVia(observed, fgs[k], bg, threshold)
  {
    for i := 0 to |fgs|
      invariant forall k :: 0 <= k < i ==> !CloseVia(observed, fgs[k], bg, threshold)
    {
      var fg := fgs[i];
      var d := Sub(fg, bg);
      if NormSq(d) > Epsilon * Epsilon {
        var weight := Clamp(Dot(Sub(observed, bg), d) / NormSq(d), 0.0, 1.0);
        var reconstructed := Add(Scale(weight, fg), Scale(1.0 - weight, bg));
        if SqrtBelow(DistSq(reconstructed, observed), threshold) {
          return true;
        }
      }
    }
    return false;
  }

  /** A pixel that is an exact blend of a non-degenerate foreground colour
      with the background is close to that foreground for any positive threshold. */
  lemma ExactBlendIsClose(a: real, fg: Vec3, bg: Vec3, threshold: real)
    requires 0.0 <= a <= 1.0 && NonDegenerate(fg, bg) && threshold > 0.0
    ensures CloseVia(Blend(a, fg, bg), fg, bg, threshold)
  {
    var obs := Blend(a, fg, bg);
    ProjectionRecoversWeight(a, fg, bg);
    var w := ProjectedWeight(obs, fg, bg);
    assert w == a;
    var dd := DistSq(Blend(w, fg, bg), obs);
    assert dd == DistSq(obs, obs);
    DistSqSelf(obs);
    ZeroBelowPositive(threshold);
  }

  /** Sum of `weights[i] * fgs[i]` over the first `k` weights that have a colour. */
  function WeightedSum(ws: seq<real>, fgs: seq<Vec3>, k: nat): Vec3
    requires k <= |ws|
  {
    if k == 0 then Zero3
    else if k - 1 < |fgs| then Add(WeightedSum(ws, fgs, k - 1), Scale(ws[k - 1], fgs[k - 1]))
    else WeightedSum(ws, fgs, k - 1)
  }

  /** Each channel divided by `s`. */
  function DivideVec(v: Vec3, s: real): Vec3
    requires s != 0.0
  {
    Vec3(v.x / s, v.y / s, v.z / s)
  }

  /** The weight-normalised blend of the foreground colours; black when the weights sum to 0 or less. */
  function ResultColor(ws: seq<real>, fgs: seq<Vec3>): Vec3 {
    var s := Sum(ws);
    if s > 0.0 then DivideVec(WeightedSum(ws, fgs, |ws|), s) else Zero3
  }

  /** `compute_result_color`. */
  method ComputeResultColor(r: UnmixResult, fgs: seq<Vec3>) returns (color: Vec3, alpha: real)
    ensures alpha == r.alpha
    ensures color == if r.alpha == 0.0 then Zero3 else ResultColor(r.weights, fgs)
  {
    if r.alpha == 0.0 {
      return Zero3, 0.0;
    }
    var result := Zero3;
    var sumWeights := Sum(r.weights);
    if sumWeights > 0.0 {
      for i := 0 to |r.weights|
        invariant result == WeightedSum(r.weights, fgs, i)
      {
        var weight := r.weights[i];
        if i < |fgs| {
          var fg := fgs[i];
          result := Vec3(result.x + weight * fg.x, result.y + weight * fg.y, result.z + weight * fg.z);
        }
      }
      result := Vec3(result.x / sumWeights, result.y / sumWeights, result.z / sumWeights);
    }
    color, alpha := result, r.alpha;
  }

  /** Every channel of `v` lies in [0, s]. */
  predicate ChannelsWithin(v: Vec3, s: real) {
    0.0 <= v.x <= s && 0.0 <= v.y <= s && 0.0 <= v.z <= s
  }

  /** Each channel of the weighted sum lies between 0 and the sum of the weights used. */
  lemma {:induction false} WeightedSumBounds(ws: seq<real>, fgs: seq<Vec3>, k: nat)
    requires k <= |ws| && AllNonNegative(ws)
    requires forall i :: 0 <= i < |fgs| ==> InUnitCube(fgs[i])
    ensures ChannelsWithin(WeightedSum(ws, fgs, k), Sum(ws[..k]))
  {
    if k == 0 {
      assert ws[..0] == [];
    } else {
      WeightedSumBounds(ws, fgs, k - 1);
      SumPrefixStep(ws, k - 1);
      var p, t := WeightedSum(ws, fgs, k - 1), Sum(ws[..k - 1]);
      var w := ws[k - 1];
      assert Sum(ws[..k]) == t + w && w >= 0.0;
      if k - 1 < |fgs| {
        AddScaledWithin(p, t, w, fgs[k - 1]);
        assert WeightedSum(ws, fgs, k) == Add(p, Scale(w, fgs[k - 1]));
      } else {
        assert WeightedSum(ws, fgs, k) == p;
      }
    }
  }

  /** With non-negative weights and foreground colours in the unit cube, the
      result colour is in the unit cube. */
  lemma ResultColorInUnitCube(ws: seq<real>, fgs: seq<Vec3>)
    requires AllNonNegative(ws)
    requires forall i :: 0 <= i < |fgs| ==> InUnitCube(fgs[i])
    ensures InUnitCube(ResultColor(ws, fgs))
  {
    var s := Sum(ws);
    if s > 0.0 {
      WeightedSumBounds(ws, fgs, |ws|);
      assert ws[..|ws|] == ws;
      var v := WeightedSum(ws, fgs, |ws|);
      FractionOfTotal(v.x, s);
      FractionOfTotal(v.y, s);
      FractionOfTotal(v.z, s);
    }
  }

  lemma AddScaledWithin(p: Vec3, t: real, w: real, fg: Vec3)
    requires ChannelsWithin(p, t) && w >= 0.0 && InUnitCube(fg)
    ensures ChannelsWithin(Add(p, Scale(w, fg)), t + w)
  {
    AddScaledChannel(p.x, t, w, fg.x);
    AddScaledChannel(p.y, t, w, fg.y);
    AddScaledChannel(p.z, t, w, fg.z);
  }

  lemma AddScaledChannel(p: real, t: real, w: real, f: real)
    requires 0.0 <= p <= t && w >= 0.0 && 0.0 <= f <= 1.0
    ensures 0.0 <= p + w * f <= t + w
  {
    ScaledFraction(w, f);
  }

  lemma FractionOfTotal(a: real, s: real)
    requires 0.0 <= a <= s && s > 0.0
    ensures 0.0 <= a / s <= 1.0
  {
    var q := a / s;
    assert q * s == a;
  }

  lemma RescaleQuotient(a: real, s: real, t: real)
    requires s > 0.0 && t > 0.0
    ensures a / t == (s / t) * (a / s)
  {
  }

  /** A weight that has no foreground colour still counts in the sum, so it
      scales the result colour towards black. */
  lemma {:induction false} ExtraWeightDarkens(ws: seq<real>, fgs: seq<Vec3>, extra: real)
    requires |ws| == |fgs| && AllNonNegative(ws) && Sum(ws) > 0.0 && extra > 0.0
    ensures ResultColor(ws + [extra], fgs) == Scale(Sum(ws) / (Sum(ws) + extra), ResultColor(ws, fgs))
  {
    var ws' := ws + [extra];
    SumAppend(ws, [extra]);
    assert Sum([extra]) == extra by { assert [extra][1..] == []; }
    assert ws'[..|ws|] == ws[..|ws|];
    WeightedSumOfPrefix(ws, ws', fgs, |ws|);
    assert WeightedSum(ws', fgs, |ws'|) == WeightedSum(ws', fgs, |ws|);
    var v := WeightedSum(ws, fgs, |ws|);
    var s, t := Sum(ws), Sum(ws) + extra;
    assert WeightedSum(ws', fgs, |ws'|) == v;
    RescaleQuotient(v.x, s, t);
    RescaleQuotient(v.y, s, t);
    RescaleQuotient(v.z, s, t);
  }

  /** The weighted sum over the first `k` weights depends only on those weights. */
  lemma {:induction false} WeightedSumOfPrefix(ws: seq<real>, ws': seq<real>, fgs: seq<Vec3>, k: nat)
    requires k <= |ws| && k <= |ws'| && ws[..k] == ws'[..k]
    ensures WeightedSum(ws', fgs, k) == WeightedSum(ws, fgs, k)
  {
    if k > 0 {
      assert ws[..k - 1] == ws'[..k - 1] && ws[k - 1] == ws[..k][k - 1];
      WeightedSumOfPrefix(ws, ws', fgs, k - 1);
    }
  }
}
