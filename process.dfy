/** Pixel processing: compositing translucent input over the background,
    the minimum-alpha search of the non-strict mode, the two non-strict
    pixel processors, and trimming an image to its visible content. */
module Process {
  import opened Wrappers
  import opened Numeric
  import opened ColorSpace
  import opened Unmix

  /** Per-channel distance under which a pixel counts as the background itself. */
  const BackgroundMatchTolerance: real := 1e-6

  /** Tolerance of the corner search in the minimum-alpha search. */
  const CornerTolerance: real := 1e-10

  /** The alpha scan tries `k / AlphaSteps` for `k` in 1..=AlphaSteps. */
  const AlphaSteps: nat := 1000

  // ---------------------------------------------------------------------
  // Compositing over the background

  /** One channel of `composite_pixel_over_background` for a translucent
      pixel: `p * alpha + b * (1 - alpha)` in byte units, rounded. */
  function CompositeChannel(p: Byte, b: Byte, a: Byte): (c: Byte)
    requires a < 255
    ensures p <= b ==> p <= c <= b
    ensures b <= p ==> b <= c <= p
    ensures a == 0 ==> c == b
  {
    var alpha := a as real / 255.0;
    var v := ((p as real / 255.0) * alpha + (b as real / 255.0) * (1.0 - alpha)) * 255.0;
    ConvexCombination(p as real, b as real, alpha, v);
    var lo, hi := if p <= b then p else b, if p <= b then b else p;
    RoundBetween(v, lo, hi);
    RoundOfInteger(b);
    RoundHalfAway(v)
  }

  /** A convex combination of two numbers lies between them. */
  lemma ConvexCombination(p: real, b: real, alpha: real, v: real)
    requires 0.0 <= alpha <= 1.0
    requires v == ((p / 255.0) * alpha + (b / 255.0) * (1.0 - alpha)) * 255.0
    ensures p <= b ==> p <= v <= b
    ensures b <= p ==> b <= v <= p
    ensures alpha == 0.0 ==> v == b
  {
    assert v == p + (b - p) * (1.0 - alpha) == b - (b - p) * alpha;
    if p <= b {
      ProductNonNegative(b - p, 1.0 - alpha);
      ProductNonNegative(b - p, alpha);
    } else {
      ProductNonNegative(p - b, 1.0 - alpha);
      ProductNonNegative(p - b, alpha);
    }
  }

  lemma ProductNonNegative(x: real, y: real)
    requires x >= 0.0 && y >= 0.0
    ensures x * y >= 0.0
  {
  }

  /** `composite_pixel_over_background`: an opaque pixel is kept; a
      translucent one is blended over the background channel by channel, so
      each channel ends between the pixel's and the background's, and a fully
      transparent pixel becomes the background. */
  function CompositePixelOverBackground(px: Pixel, bg: Color): (c: Color)
    ensures px.a == 255 ==> c == px.Rgb()
    ensures px.a == 0 ==> c == bg
    ensures (px.r <= bg.r ==> px.r <= c.r <= bg.r) && (bg.r <= px.r ==> bg.r <= c.r <= px.r)
    ensures (px.g <= bg.g ==> px.g <= c.g <= bg.g) && (bg.g <= px.g ==> bg.g <= c.g <= px.g)
    ensures (px.b <= bg.b ==> px.b <= c.b <= bg.b) && (bg.b <= px.b ==> bg.b <= c.b <= px.b)
  {
    if px.a as real / 255.0 >= 1.0 then px.Rgb()
    else RGB(CompositeChannel(px.r, bg.r, px.a), CompositeChannel(px.g, bg.g, px.a), CompositeChannel(px.b, bg.b, px.a))
  }

  // ---------------------------------------------------------------------
  // Minimum alpha search

  /** Corner `c` of the unit cube, numbered in the order of the search's
      three nested loops: red is bit 2, green bit 1, blue bit 0. */
  function Corner(c: nat): (v: Vec3)
    requires c < 8
    ensures IsCorner(v)
  {
    Vec3(if c / 4 == 1 then 1.0 else 0.0, if (c / 2) % 2 == 1 then 1.0 else 0.0, if c % 2 == 1 then 1.0 else 0.0)
  }

  /** Every channel is 0 or 1. */
  predicate IsCorner(v: Vec3) {
    (v.x == 0.0 || v.x == 1.0) && (v.y == 0.0 || v.y == 1.0) && (v.z == 0.0 || v.z == 1.0)
  }

  /** The alpha each channel from `i` on requires of foreground `fg`, given
      the one already fixed (`seen`); `None` when two channels disagree by more
      than the tolerance, when a channel with `fg ≈ bg` has `observed ≉ bg`,
      or when no channel fixes an alpha. */
  function CornerAlphaFrom(obs: Vec3, bg: Vec3, fg: Vec3, i: nat, seen: Option<real>): Option<real>
    requires i <= 3
    decreases 3 - i
  {
    if i == 3 then seen
    else
      var denom := fg.Get(i) - bg.Get(i);
      if Abs(denom) < CornerTolerance then
        if Abs(obs.Get(i) - bg.Get(i)) > CornerTolerance then None
        else CornerAlphaFrom(obs, bg, fg, i + 1, seen)
      else
        var ai := (obs.Get(i) - bg.Get(i)) / denom;
        if seen.None? then CornerAlphaFrom(obs, bg, fg, i + 1, Some(ai))
        else if Abs(ai - seen.value) > CornerTolerance then None
        else CornerAlphaFrom(obs, bg, fg, i + 1, seen)
  }

  /** The alpha the three channels agree on for foreground `fg`. */
  function CornerAlpha(obs: Vec3, bg: Vec3, fg: Vec3): Option<real> {
    CornerAlphaFrom(obs, bg, fg, 0, None)
  }

  /** `alpha * fg + (1 - alpha) * bg` matches the observed colour within the
      tolerance in every channel. */
  predicate ReconstructsWithin(obs: Vec3, bg: Vec3, fg: Vec3, alpha: real) {
    forall i :: 0 <= i < 3 ==> ReconstructionError(obs, bg, fg, alpha, i) <= CornerTolerance
  }

  /** `|alpha * fg[i] + (1 - alpha) * bg[i] - obs[i]|`. */
  function ReconstructionError(obs: Vec3, bg: Vec3, fg: Vec3, alpha: real, i: nat): real
    requires i < 3
  {
    Abs(alpha * fg.Get(i) + (1.0 - alpha) * bg.Get(i) - obs.Get(i))
  }

  /** Foreground `fg` is accepted by the corner search with alpha `a`. */
  predicate CornerFeasible(obs: Vec3, bg: Vec3, fg: Vec3, a: real) {
    CornerAlpha(obs, bg, fg) == Some(a) && 0.0 < a <= 1.0 && ReconstructsWithin(obs, bg, fg, a)
  }

  /** The `k`-th alpha of the scan. */
  function ScanAlpha(k: nat): real {
    k as real / AlphaSteps as real
  }

  /** The foreground colour that alpha `a` requires: `(obs - (1 - a) * bg) / a`. */
  function ScanForeground(obs: Vec3, bg: Vec3, a: real): Vec3
    requires a != 0.0
  {
    Vec3((obs.x - (1.0 - a) * bg.x) / a, (obs.y - (1.0 - a) * bg.y) / a, (obs.z - (1.0 - a) * bg.z) / a)
  }

  /** The scan's `k`-th alpha admits a foreground colour in the unit cube. */
  predicate ScanFeasible(obs: Vec3, bg: Vec3, k: nat)
    requires k >= 1
  {
    InUnitCube(ScanForeground(obs, bg, ScanAlpha(k)))
  }

  /** One step of the alpha scan: `alpha` is `k / 1000` for some `k` in
      1..=1000 and `fg` is the unit-cube foreground it requires. */
  ghost predicate ScanStep(obs: Vec3, bg: Vec3, fg: Vec3, alpha: real) {
    exists k :: 1 <= k <= AlphaSteps && alpha == ScanAlpha(k) && fg == ScanForeground(obs, bg, alpha) && InUnitCube(fg)
  }

  /** No accepted corner needs less alpha than `alpha`. */
  ghost predicate CornersMinimal(obs: Vec3, bg: Vec3, alpha: real) {
    forall c, a :: 0 <= c < 8 && CornerFeasible(obs, bg, Corner(c), a) ==> alpha <= a
  }

  /** No scan step below `alpha` admits a unit-cube foreground. */
  ghost predicate ScanMinimal(obs: Vec3, bg: Vec3, alpha: real) {
    forall k :: 1 <= k <= AlphaSteps && ScanAlpha(k) < alpha ==> !ScanFeasible(obs, bg, k)
  }

  /** Every accepted corner needs strictly more alpha than `alpha`. */
  ghost predicate CornersAbove(obs: Vec3, bg: Vec3, alpha: real) {
    forall c, a :: 0 <= c < 8 && CornerFeasible(obs, bg, Corner(c), a) ==> alpha < a
  }

  /** `fg` is the corner the corner phase keeps: accepted below alpha 1, and
      every earlier accepted corner needs strictly more alpha, so a later
      corner with the same alpha does not replace it. */
  ghost predicate FirstCornerChoice(obs: Vec3, bg: Vec3, fg: Vec3, alpha: real) {
    exists c ::
      && 0 <= c < 8 && fg == Corner(c) && CornerFeasible(obs, bg, fg, alpha) && alpha < 1.0
      && forall d, a :: 0 <= d < c && CornerFeasible(obs, bg, Corner(d), a) ==> alpha < a
  }

  /** What `find_minimum_alpha_for_color` returns: an alpha in (0, 1] that
      no accepted corner and no feasible lower scan step undercuts, with
      either the observed colour itself at alpha 1, the first accepted corner
      of least alpha (below 1), or a scan step strictly below every accepted
      corner and below 1. */
  ghost predicate MinimumAlphaOutcome(obs: Vec3, bg: Vec3, fg: Vec3, alpha: real) {
    && 0.0 < alpha <= 1.0
    && (|| (fg == obs && alpha == 1.0)
        || FirstCornerChoice(obs, bg, fg, alpha)
        || (ScanStep(obs, bg, fg, alpha) && alpha < 1.0 && CornersAbove(obs, bg, alpha)))
    && CornersMinimal(obs, bg, alpha)
    && ScanMinimal(obs, bg, alpha)
  }

  /** The per-channel loop of the corner search. */
  method RequiredAlpha(obs: Vec3, bg: Vec3, fg: Vec3) returns (valid: bool, firstSet: bool, alphaNeeded: real)
    ensures valid && firstSet <==> CornerAlpha(obs, bg, fg).Some?
    ensures valid && firstSet ==> alphaNeeded == CornerAlpha(obs, bg, fg).value
  {
    alphaNeeded := 0.0;
    valid := true;
    firstSet := false;
    var i := 0;
    while i < 3
      invariant 0 <= i <= 3
      invariant CornerAlpha(obs, bg, fg) == CornerAlphaFrom(obs, bg, fg, i, if firstSet then Some(alphaNeeded) else None)
    {
      var denom := fg.Get(i) - bg.Get(i);
      if Abs(denom) < CornerTolerance {
        if Abs(obs.Get(i) - bg.Get(i)) > CornerTolerance {
          valid := false;
          break;
        }
      } else {
        var alphaI := (obs.Get(i) - bg.Get(i)) / denom;
        if !firstSet {
          alphaNeeded := alphaI;
          firstSet := true;
        } else if Abs(alphaI - alphaNeeded) > CornerTolerance {
          valid := false;
          break;
        }
      }
      i := i + 1;
    }
  }

  /** The verification loop of the corner search. */
  method CheckReconstruction(obs: Vec3, bg: Vec3, fg: Vec3, alpha: real) returns (ok: bool)
    ensures ok <==> ReconstructsWithin(obs, bg, fg, alpha)
  {
    for i := 0 to 3
      invariant forall j :: 0 <= j < i ==> ReconstructionError(obs, bg, fg, alpha, j) <= CornerTolerance
    {
      assert ReconstructionError(obs, bg, fg, alpha, i) == Abs(alpha * fg.Get(i) + (1.0 - alpha) * bg.Get(i) - obs.Get(i));
      var reconstructed := alpha * fg.Get(i) + (1.0 - alpha) * bg.Get(i);
      if Abs(reconstructed - obs.Get(i)) > CornerTolerance {
        return false;
      }
    }
    return true;
  }

  /** The corner phase of `find_minimum_alpha_for_color`: the eight
      `{0, 1}` foregrounds in loop order, each replacing the best so far when
      accepted with a strictly smaller alpha. */
  method CornerSearch(obs: Vec3, bg: Vec3) returns (bestFg: Vec3, bestAlpha: real)
    ensures 0.0 < bestAlpha <= 1.0
    ensures (bestFg == obs && bestAlpha == 1.0) || FirstCornerChoice(obs, bg, bestFg, bestAlpha)
    ensures CornersMinimal(obs, bg, bestAlpha)
  {
    bestAlpha := 1.0;
    bestFg := obs;
    ghost var bc := 0;
    for c := 0 to 8
      invariant 0.0 < bestAlpha <= 1.0
      invariant (bestFg == obs && bestAlpha == 1.0) ||
        (0 <= bc < c && bestFg == Corner(bc) && CornerFeasible(obs, bg, bestFg, bestAlpha) && bestAlpha < 1.0
         && forall d, a :: 0 <= d < bc && CornerFeasible(obs, bg, Corner(d), a) ==> bestAlpha < a)
      invariant forall d, a :: 0 <= d < c && CornerFeasible(obs, bg, Corner(d), a) ==> bestAlpha <= a
    {
      var fg := Corner(c);
      var valid, firstSet, alphaNeeded := RequiredAlpha(obs, bg, fg);
      if valid && firstSet && alphaNeeded > 0.0 && alphaNeeded <= 1.0 && alphaNeeded < bestAlpha {
        var reconstructedValid := CheckReconstruction(obs, bg, fg, alphaNeeded);
        if reconstructedValid {
          bestAlpha := alphaNeeded;
          bestFg := fg;
          bc := c;
        }
      }
    }
  }

  /** The scan phase of `find_minimum_alpha_for_color`: alphas `k / 1000`
      upwards, stopping at the corner phase's alpha or at the first one whose
      required foreground lies in the unit cube. */
  method AlphaScan(obs: Vec3, bg: Vec3, cornerFg: Vec3, cornerAlpha: real) returns (bestFg: Vec3, bestAlpha: real)
    requires 0.0 < cornerAlpha <= 1.0
    ensures 0.0 < bestAlpha <= cornerAlpha
    ensures (bestFg == cornerFg && bestAlpha == cornerAlpha) || (ScanStep(obs, bg, bestFg, bestAlpha) && bestAlpha < cornerAlpha)
    ensures ScanMinimal(obs, bg, bestAlpha)
  {
    bestAlpha := cornerAlpha;
    bestFg := cornerFg;
    for k := 1 to AlphaSteps + 1
      invariant bestFg == cornerFg && bestAlpha == cornerAlpha
      invariant forall j :: 1 <= j < k ==> ScanAlpha(j) < cornerAlpha && !ScanFeasible(obs, bg, j)
    {
      var alpha := k as real / 1000.0;
      assert alpha == ScanAlpha(k);
      if alpha >= bestAlpha {
        ScanAlphaFrom(k, bestAlpha);
        return;
      }
      var fg := ScanForeground(obs, bg, alpha);
      if 0.0 <= fg.x <= 1.0 && 0.0 <= fg.y <= 1.0 && 0.0 <= fg.z <= 1.0 {
        ScanAlphaFrom(k + 1, alpha);
        bestAlpha := alpha;
        bestFg := fg;
        return;
      }
    }
  }

  /** `find_minimum_alpha_for_color`: the corner phase, then the scan below
      its alpha. It always returns a value; the foreground is in the unit
      cube whenever the observed colour is. */
  method FindMinimumAlphaForColor(obs: Vec3, bg: Vec3) returns (r: Option<(Vec3, real)>)
    ensures r.Some?
    ensures MinimumAlphaOutcome(obs, bg, r.value.0, r.value.1)
    ensures InUnitCube(obs) ==> InUnitCube(r.value.0)
  {
    var cornerFg, cornerAlpha := CornerSearch(obs, bg);
    var bestFg, bestAlpha := AlphaScan(obs, bg, cornerFg, cornerAlpha);
    r := Some((bestFg, bestAlpha));
  }

  /** Scan alphas increase with `k`. */
  lemma ScanAlphaFrom(k: nat, a: real)
    requires ScanAlpha(k) >= a
    ensures forall j :: j >= k ==> ScanAlpha(j) >= a
  {
  }

  /** Channel `i` of a blend. */
  lemma BlendGet(a: real, fg: Vec3, bg: Vec3, i: nat)
    requires i < 3
    ensures Blend(a, fg, bg).Get(i) == a * fg.Get(i) + (1.0 - a) * bg.Get(i)
  {
  }

  /** An exact blend reconstructs the observed colour within the tolerance. */
  lemma ExactBlendReconstructs(obs: Vec3, bg: Vec3, fg: Vec3, alpha: real)
    requires Blend(alpha, fg, bg) == obs
    ensures ReconstructsWithin(obs, bg, fg, alpha)
  {
    forall i | 0 <= i < 3
      ensures ReconstructionError(obs, bg, fg, alpha, i) <= CornerTolerance
    {
      BlendGet(alpha, fg, bg, i);
    }
  }

  /** The scan's foreground blended back over the background gives the observed colour exactly. */
  lemma ScanForegroundReconstructs(obs: Vec3, bg: Vec3, a: real)
    requires a != 0.0
    ensures Blend(a, ScanForeground(obs, bg, a), bg) == obs
  {
    UnblendChannel(obs.x, bg.x, a);
    UnblendChannel(obs.y, bg.y, a);
    UnblendChannel(obs.z, bg.z, a);
  }

  lemma UnblendChannel(o: real, b: real, a: real)
    requires a != 0.0
    ensures a * ((o - (1.0 - a) * b) / a) + (1.0 - a) * b == o
  {
  }

  /** Whatever the search returns reconstructs the observed colour: exactly
      for the observed colour at alpha 1 and for a scan step, within the
      tolerance for a corner. */
  lemma MinimumAlphaReconstructs(obs: Vec3, bg: Vec3, fg: Vec3, alpha: real)
    requires MinimumAlphaOutcome(obs, bg, fg, alpha)
    ensures ReconstructsWithin(obs, bg, fg, alpha)
  {
    if fg == obs && alpha == 1.0 {
      assert Blend(alpha, fg, bg) == obs;
      ExactBlendReconstructs(obs, bg, fg, alpha);
    } else if ScanStep(obs, bg, fg, alpha) {
      ScanForegroundReconstructs(obs, bg, alpha);
      ExactBlendReconstructs(obs, bg, fg, alpha);
    }
  }

  /** `(a * d) / d == a`. */
  lemma TinyScaled(a: real, d: real)
    requires 0.0 < a <= 1.0 && Abs(d) < CornerTolerance
    ensures Abs(a * d) <= CornerTolerance
  {
    if d >= 0.0 {
      assert a * d <= 1.0 * d;
    } else {
      assert a * d >= 1.0 * d;
    }
  }

  /** For an exact blend, walking the channels from `i` never fails, keeps
      `a` once fixed, and fixes `a` at a channel apart from the background. */
  lemma {:induction false} CornerAlphaOfExactBlend(obs: Vec3, bg: Vec3, fg: Vec3, a: real, i: nat, seen: Option<real>, i0: nat)
    requires i <= 3 && (seen.None? || seen == Some(a))
    requires forall j :: 0 <= j < 3 && Abs(fg.Get(j) - bg.Get(j)) < CornerTolerance ==> Abs(obs.Get(j) - bg.Get(j)) <= CornerTolerance
    requires forall j :: 0 <= j < 3 && Abs(fg.Get(j) - bg.Get(j)) >= CornerTolerance ==> (obs.Get(j) - bg.Get(j)) / (fg.Get(j) - bg.Get(j)) == a
    ensures seen == Some(a) || (i <= i0 < 3 && Abs(fg.Get(i0) - bg.Get(i0)) >= CornerTolerance) ==>
      CornerAlphaFrom(obs, bg, fg, i, seen) == Some(a)
    decreases 3 - i
  {
    if i < 3 {
      if Abs(fg.Get(i) - bg.Get(i)) < CornerTolerance {
        CornerAlphaOfExactBlend(obs, bg, fg, a, i + 1, seen, i0);
      } else {
        CornerAlphaOfExactBlend(obs, bg, fg, a, i + 1, Some(a), i0);
      }
    }
  }

  /** Channel `i` of an exact blend, seen by the corner search. */
  lemma ChannelOfExactBlend(a: real, fg: Vec3, bg: Vec3, i: nat)
    requires 0.0 < a <= 1.0 && i < 3
    ensures var d, e := fg.Get(i) - bg.Get(i), Blend(a, fg, bg).Get(i) - bg.Get(i);
      && (Abs(d) < CornerTolerance ==> Abs(e) <= CornerTolerance)
      && (Abs(d) >= CornerTolerance ==> e / d == a)
  {
    var d := fg.Get(i) - bg.Get(i);
    var e := Blend(a, fg, bg).Get(i) - bg.Get(i);
    BlendGet(a, fg, bg, i);
    BlendOffset(a, fg.Get(i), bg.Get(i));
    assert e == a * d;
    if Abs(d) < CornerTolerance {
      TinyScaled(a, d);
    } else {
      QuotientOfScaled(a, d);
    }
  }

  /** A colour that is an exact blend of `fg` over the background, with some
      channel of `fg` clearly apart from the background's, is accepted by the
      corner search with the blend's alpha. */
  lemma ExactBlendCornerFeasible(a: real, fg: Vec3, bg: Vec3, i0: nat)
    requires 0.0 < a <= 1.0
    requires i0 < 3 && Abs(fg.Get(i0) - bg.Get(i0)) >= CornerTolerance
    ensures CornerFeasible(Blend(a, fg, bg), bg, fg, a)
  {
    var obs := Blend(a, fg, bg);
    forall i | 0 <= i < 3
      ensures Abs(fg.Get(i) - bg.Get(i)) < CornerTolerance ==> Abs(obs.Get(i) - bg.Get(i)) <= CornerTolerance
      ensures Abs(fg.Get(i) - bg.Get(i)) >= CornerTolerance ==> (obs.Get(i) - bg.Get(i)) / (fg.Get(i) - bg.Get(i)) == a
    {
      ChannelOfExactBlend(a, fg, bg, i);
    }
    CornerAlphaOfExactBlend(obs, bg, fg, a, 0, None, i0);
    ExactBlendReconstructs(obs, bg, fg, a);
  }

  /** The search never needs more alpha than an exact blend over a corner of
      the unit cube. */
  lemma MinimumAlphaAtMostCornerBlend(obs: Vec3, bg: Vec3, fg: Vec3, alpha: real, a: real, c: nat, i0: nat)
    requires MinimumAlphaOutcome(obs, bg, fg, alpha)
    requires c < 8 && 0.0 < a <= 1.0 && obs == Blend(a, Corner(c), bg)
    requires i0 < 3 && Abs(Corner(c).Get(i0) - bg.Get(i0)) >= CornerTolerance
    ensures alpha <= a
  {
    ExactBlendCornerFeasible(a, Corner(c), bg, i0);
    assert CornerFeasible(obs, bg, Corner(c), a);
  }

  /** The search never needs more alpha than an exact blend of a unit-cube
      colour at one of the scan's alphas. */
  lemma MinimumAlphaAtMostScanBlend(obs: Vec3, bg: Vec3, fg: Vec3, alpha: real, k: nat, f: Vec3)
    requires MinimumAlphaOutcome(obs, bg, fg, alpha)
    requires 1 <= k <= AlphaSteps && InUnitCube(f) && obs == Blend(ScanAlpha(k), f, bg)
    ensures alpha <= ScanAlpha(k)
  {
    ScanForegroundOfBlend(ScanAlpha(k), f, bg);
    assert ScanFeasible(obs, bg, k);
  }

  /** The scan recovers the foreground of an exact blend at its alpha. */
  lemma ScanForegroundOfBlend(a: real, f: Vec3, bg: Vec3)
    requires a != 0.0
    ensures ScanForeground(Blend(a, f, bg), bg, a) == f
  {
    RecoverChannel(f.x, bg.x, a);
    RecoverChannel(f.y, bg.y, a);
    RecoverChannel(f.z, bg.z, a);
  }

  lemma RecoverChannel(f: real, b: real, a: real)
    requires a != 0.0
    ensures ((a * f + (1.0 - a) * b) - (1.0 - a) * b) / a == f
  {
  }

  // ---------------------------------------------------------------------
  // Non-strict pixel processing

  /** Every channel is within `1e-6` of the background. */
  predicate NearBackground(obs: Vec3, bg: Vec3) {
    && Abs(obs.x - bg.x) < BackgroundMatchTolerance
    && Abs(obs.y - bg.y) < BackgroundMatchTolerance
    && Abs(obs.z - bg.z) < BackgroundMatchTolerance
  }

  /** `(alpha * 255.0).round() as u8` for an alpha in [0, 1]. */
  function AlphaByte(alpha: real): (b: Byte)
    requires 0.0 <= alpha <= 1.0
    ensures alpha * 255.0 - 0.5 <= b as real <= alpha * 255.0 + 0.5
  {
    RoundBetween(alpha * 255.0, 0, 255);
    RoundHalfAway(alpha * 255.0)
  }

  /** The output pixel for a foreground colour and alpha. */
  function OutputPixel(fg: Vec3, alpha: real): Pixel
    requires 0.0 <= alpha <= 1.0
  {
    var c := Denormalize(fg);
    RGBA(c.r, c.g, c.b, AlphaByte(alpha))
  }

  /** `process_pixel_non_strict_no_fg`: transparent on the background,
      otherwise the minimum-alpha foreground colour. */
  method ProcessPixelNonStrictNoFg(observed: Color, bg: Vec3) returns (px: Pixel)
    ensures NearBackground(Normalize(observed), bg) ==> px == Transparent
    ensures !NearBackground(Normalize(observed), bg) ==>
      exists fg, alpha :: MinimumAlphaOutcome(Normalize(observed), bg, fg, alpha) && px == OutputPixel(fg, alpha)
  {
    var obs := Normalize(observed);
    if Abs(obs.x - bg.x) < 1e-6 && Abs(obs.y - bg.y) < 1e-6 && Abs(obs.z - bg.z) < 1e-6 {
      return Transparent;
    }
    px := MinimumAlphaPixel(obs, bg);
  }

  /** The minimum-alpha branch shared by both non-strict processors, with the
      `unwrap_or((obs, 1.0))` fallback. */
  method MinimumAlphaPixel(obs: Vec3, bg: Vec3) returns (px: Pixel)
    ensures exists fg, alpha :: MinimumAlphaOutcome(obs, bg, fg, alpha) && px == OutputPixel(fg, alpha)
  {
    var found := FindMinimumAlphaForColor(obs, bg);
    var (bestFg, bestAlpha) := match found
      case Some(v) => v
      case None => (obs, 1.0);
    px := OutputPixel(bestFg, bestAlpha);
  }

  /** The pixel of an unmixing result: the blended foreground colour, black when alpha is 0. */
  function UnmixedPixel(r: UnmixResult, fgs: seq<Vec3>): Pixel
    requires 0.0 <= r.alpha <= 1.0
  {
    OutputPixel(if r.alpha == 0.0 then Zero3 else ResultColor(r.weights, fgs), r.alpha)
  }

  /** `process_pixel_non_strict_with_fg`: transparent on the background;
      unmixed against the foreground colours when one of them alone explains
      the pixel within `threshold`; otherwise the minimum-alpha colour. */
  method ProcessPixelNonStrictWithFg(observed: Color, fgs: seq<Vec3>, bg: Vec3, threshold: real, pinv: PseudoInverse)
    returns (px: Pixel)
    requires ShapedPseudoInverse(pinv)
    ensures NearBackground(Normalize(observed), bg) ==> px == Transparent
    ensures !NearBackground(Normalize(observed), bg) && (exists k :: 0 <= k < |fgs| && CloseVia(Normalize(observed), fgs[k], bg, threshold)) ==>
      exists r :: UnmixColorsOutcome(observed, fgs, bg, pinv, r) && px == UnmixedPixel(r, fgs)
    ensures !NearBackground(Normalize(observed), bg) && !(exists k :: 0 <= k < |fgs| && CloseVia(Normalize(observed), fgs[k], bg, threshold)) ==>
      exists fg, alpha :: MinimumAlphaOutcome(Normalize(observed), bg, fg, alpha) && px == OutputPixel(fg, alpha)
  {
    var obs := Normalize(observed);
    if Abs(obs.x - bg.x) < 1e-6 && Abs(obs.y - bg.y) < 1e-6 && Abs(obs.z - bg.z) < 1e-6 {
      return Transparent;
    }
    var closeToFg := IsColorCloseToForeground(obs, fgs, bg, threshold);
    if closeToFg {
      var unmixed := UnmixColors(observed, fgs, bg, pinv);
      var resultColor, alpha := ComputeResultColor(unmixed, fgs);
      px := OutputPixel(resultColor, alpha);
      assert px == UnmixedPixel(unmixed, fgs);
    } else {
      px := MinimumAlphaPixel(obs, bg);
    }
  }

  // ---------------------------------------------------------------------
  // Trimming

  /** A pixel with alpha above 0. */
  predicate Visible(p: Pixel) {
    p.a > 0
  }

  /** Some pixel of the image is visible. */
  ghost predicate HasVisible(img: array2<Pixel>)
    reads img
  {
    exists y, x :: 0 <= y < img.Length0 && 0 <= x < img.Length1 && Visible(img[y, x])
  }

  /** Row `y` holds a visible pixel. */
  ghost predicate RowHasVisible(img: array2<Pixel>, y: int)
    reads img
  {
    0 <= y < img.Length0 && exists x :: 0 <= x < img.Length1 && Visible(img[y, x])
  }

  /** Column `x` holds a visible pixel. */
  ghost predicate ColumnHasVisible(img: array2<Pixel>, x: int)
    reads img
  {
    0 <= x < img.Length1 && exists y :: 0 <= y < img.Length0 && Visible(img[y, x])
  }

  /** `out` is the window of `img` at row `y0`, column `x0`; it holds every
      visible pixel of `img`, and each of its four borders holds one. */
  ghost predicate TrimmedTo(img: array2<Pixel>, out: array2<Pixel>, y0: nat, x0: nat)
    reads img, out
  {
    && 1 <= out.Length0 && y0 + out.Length0 <= img.Length0
    && 1 <= out.Length1 && x0 + out.Length1 <= img.Length1
    && (forall y, x :: 0 <= y < out.Length0 && 0 <= x < out.Length1 ==> out[y, x] == img[y0 + y, x0 + x])
    && (forall y, x :: 0 <= y < img.Length0 && 0 <= x < img.Length1 && Visible(img[y, x]) ==>
          y0 <= y < y0 + out.Length0 && x0 <= x < x0 + out.Length1)
    && RowHasVisible(out, 0) && RowHasVisible(out, out.Length0 - 1)
    && ColumnHasVisible(out, 0) && ColumnHasVisible(out, out.Length1 - 1)
  }

  /** Pixel `(y, x)` is visible and comes before `(py, px)` in row-major order. */
  ghost predicate VisibleBefore(img: array2<Pixel>, py: int, px: int, y: int, x: int)
    reads img
  {
    0 <= y < img.Length0 && 0 <= x < img.Length1 && (y < py || (y == py && x < px)) && Visible(img[y, x])
  }

  /** The state of the bounding-box loops after the pixels before `(py, px)`:
      the bounds cover every visible pixel seen, each bound is attained by one
      of them (at the ghost witnesses), and nothing has moved while none was seen. */
  ghost predicate Scanned(img: array2<Pixel>, py: int, px: int, minX: int, minY: int, maxX: int, maxY: int,
                          seen: bool, yMinX: int, yMaxX: int, xMinY: int, xMaxY: int)
    reads img
  {
    && (forall y, x :: VisibleBefore(img, py, px, y, x) ==> minX <= x <= maxX && minY <= y <= maxY)
    && (seen ==>
          && VisibleBefore(img, py, px, yMinX, minX) && VisibleBefore(img, py, px, yMaxX, maxX)
          && VisibleBefore(img, py, px, minY, xMinY) && VisibleBefore(img, py, px, maxY, xMaxY))
    && (!seen ==>
          && (forall y, x :: !VisibleBefore(img, py, px, y, x))
          && minX == img.Length1 && minY == img.Length0 && maxX == 0 && maxY == 0)
  }

  /** The bounding-box loops of `trim_to_content`. */
  method ScanBounds(img: array2<Pixel>) returns (minX: int, minY: int, maxX: int, maxY: int)
    requires img.Length0 > 0 && img.Length1 > 0
    ensures forall y, x :: 0 <= y < img.Length0 && 0 <= x < img.Length1 && Visible(img[y, x]) ==>
      minX <= x <= maxX && minY <= y <= maxY
    ensures HasVisible(img) ==>
      && ColumnHasVisible(img, minX) && ColumnHasVisible(img, maxX)
      && RowHasVisible(img, minY) && RowHasVisible(img, maxY)
    ensures !HasVisible(img) ==> minX == img.Length1 && minY == img.Length0 && maxX == 0 && maxY == 0
  {
    var width, height := img.Length1, img.Length0;
    minX, minY, maxX, maxY := width, height, 0, 0;
    ghost var seen := false;
    ghost var yMinX, yMaxX, xMinY, xMaxY := 0, 0, 0, 0;
    for y := 0 to height
      invariant Scanned(img, y, 0, minX, minY, maxX, maxY, seen, yMinX, yMaxX, xMinY, xMaxY)
    {
      for x := 0 to width
        invariant Scanned(img, y, x, minX, minY, maxX, maxY, seen, yMinX, yMaxX, xMinY, xMaxY)
      {
        if img[y, x].a > 0 {
          if !seen || x < minX { yMinX := y; }
          if !seen || x > maxX { yMaxX := y; }
          if !seen || y < minY { xMinY := x; }
          if !seen || y > maxY { xMaxY := x; }
          seen := true;
          if x < minX { minX := x; }
          if y < minY { minY := y; }
          if x > maxX { maxX := x; }
          if y > maxY { maxY := y; }
        }
        ghost var next := x + 1;
        forall yy, xx | VisibleBefore(img, y, next, yy, xx)
          ensures minX <= xx <= maxX && minY <= yy <= maxY
        {
          if yy != y || xx != x {
            assert VisibleBefore(img, y, x, yy, xx);
          }
        }
      }
      ghost var next := y + 1;
      forall yy, xx | VisibleBefore(img, next, 0, yy, xx)
        ensures minX <= xx <= maxX && minY <= yy <= maxY
      {
        assert VisibleBefore(img, y, width, yy, xx);
      }
      forall yy, xx ensures VisibleBefore(img, next, 0, yy, xx) == VisibleBefore(img, y, width, yy, xx) {
      }
    }
    forall y, x | 0 <= y < height && 0 <= x < width && Visible(img[y, x])
      ensures VisibleBefore(img, height, 0, y, x)
    {
    }
    if seen {
      assert Visible(img[yMinX, minX]) && Visible(img[yMaxX, maxX]) && Visible(img[minY, xMinY]) && Visible(img[maxY, xMaxY]);
    }
  }

  /** The window of `img` at row `y0`, column `x0`, `h` x `w` pixels, as a new image. */
  method Crop(img: array2<Pixel>, y0: nat, x0: nat, h: nat, w: nat) returns (out: array2<Pixel>)
    requires y0 + h <= img.Length0 && x0 + w <= img.Length1
    ensures fresh(out) && out.Length0 == h && out.Length1 == w
    ensures forall y, x :: 0 <= y < h && 0 <= x < w ==> out[y, x] == img[y0 + y, x0 + x]
  {
    out := new Pixel[h, w]((_, _) => Transparent);
    for y := 0 to h
      invariant forall yy, xx :: 0 <= yy < y && 0 <= xx < w ==> out[yy, xx] == img[y0 + yy, x0 + xx]
    {
      for x := 0 to w
        invariant forall yy, xx :: 0 <= yy < y && 0 <= xx < w ==> out[yy, xx] == img[y0 + yy, x0 + xx]
        invariant forall xx :: 0 <= xx < x ==> out[y, xx] == img[y0 + y, x0 + xx]
      {
        out[y, x] := img[y0 + y, x0 + x];
      }
    }
  }

  /** `trim_to_content`: an image with no visible pixel becomes a single
      transparent pixel; otherwise the result is the tight bounding box of
      the visible pixels (a copy of the whole image when nothing is trimmed). */
  method TrimToContent(img: array2<Pixel>) returns (out: array2<Pixel>)
    ensures fresh(out)
    ensures !HasVisible(img) ==> out.Length0 == 1 && out.Length1 == 1 && out[0, 0] == Transparent
    ensures HasVisible(img) ==> exists y0: nat, x0: nat :: TrimmedTo(img, out, y0, x0)
  {
    var width, height := img.Length1, img.Length0;
    if width == 0 || height == 0 {
      out := new Pixel[1, 1]((_, _) => Transparent);
      return;
    }
    var minX, minY, maxX, maxY := ScanBounds(img);
    if maxX < minX || maxY < minY {
      out := new Pixel[1, 1]((_, _) => Transparent);
      return;
    }
    var newWidth, newHeight := maxX - minX + 1, maxY - minY + 1;
    if newWidth == width && newHeight == height {
      out := Crop(img, 0, 0, height, width);
    } else {
      out := Crop(img, minY, minX, newHeight, newWidth);
    }
    TrimmedToBounds(img, out, minX, minY, maxX, maxY);
  }

  /** The crop at the bounds the loops found is the tight bounding box. */
  lemma TrimmedToBounds(img: array2<Pixel>, out: array2<Pixel>, minX: int, minY: int, maxX: int, maxY: int)
    requires 0 <= minX <= maxX < img.Length1 && 0 <= minY <= maxY < img.Length0
    requires forall y, x :: 0 <= y < img.Length0 && 0 <= x < img.Length1 && Visible(img[y, x]) ==>
      minX <= x <= maxX && minY <= y <= maxY
    requires ColumnHasVisible(img, minX) && ColumnHasVisible(img, maxX) && RowHasVisible(img, minY) && RowHasVisible(img, maxY)
    requires out.Length0 == maxY - minY + 1 && out.Length1 == maxX - minX + 1
    requires forall y, x :: 0 <= y < out.Length0 && 0 <= x < out.Length1 ==> out[y, x] == img[minY + y, minX + x]
    ensures TrimmedTo(img, out, minY, minX)
  {
    var y :| 0 <= y < img.Length0 && Visible(img[y, minX]);
    assert Visible(out[y - minY, 0]);
    y :| 0 <= y < img.Length0 && Visible(img[y, maxX]);
    assert Visible(out[y - minY, out.Length1 - 1]);
    var x :| 0 <= x < img.Length1 && Visible(img[minY, x]);
    assert Visible(out[0, x - minX]);
    x :| 0 <= x < img.Length1 && Visible(img[maxY, x]);
    assert Visible(out[out.Length0 - 1, x - minX]);
  }

  /** When the first and last rows and columns each hold a visible pixel,
      trimming returns the image unchanged. */
  lemma TrimKeepsSpanningImage(img: array2<Pixel>, out: array2<Pixel>, y0: nat, x0: nat)
    requires TrimmedTo(img, out, y0, x0)
    requires RowHasVisible(img, 0) && RowHasVisible(img, img.Length0 - 1)
    requires ColumnHasVisible(img, 0) && ColumnHasVisible(img, img.Length1 - 1)
    ensures y0 == 0 && x0 == 0 && out.Length0 == img.Length0 && out.Length1 == img.Length1
    ensures forall y, x :: 0 <= y < img.Length0 && 0 <= x < img.Length1 ==> out[y, x] == img[y, x]
  {
    var x :| 0 <= x < img.Length1 && Visible(img[0, x]);
    x :| 0 <= x < img.Length1 && Visible(img[img.Length0 - 1, x]);
    var y :| 0 <= y < img.Length0 && Visible(img[y, 0]);
    y :| 0 <= y < img.Length0 && Visible(img[y, img.Length1 - 1]);
  }
}
