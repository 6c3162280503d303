# bgone core, modelled in Dafny

bgone removes a solid background from an image by colour unmixing. Each
observed pixel is treated as a blend `alpha * foreground + (1 - alpha) *
background`, and the engine recovers the foreground and the alpha. This
project models the engine's core in Dafny and proves properties of the
model:

- **Hex colour parsing** (`color.rs`): `#rgb`/`#rrggbb` strings, `auto`
  foreground specs, and normalisation between bytes and `[0, 1]`.
- **Unmixing** (`unmix.rs`):
  - the single-colour projection;
  - the least-squares unmix over several foreground colours;
  - the opacity-maximising unmix, which tries least squares, each single
    colour and each pair of colours;
  - the closeness test;
  - the final colour computation.
- **Pixel processing** (`process.rs`):
  - compositing a pixel over the background;
  - the minimum-alpha search (8 extreme corners, then a 1/1000 alpha scan);
  - the two non-strict pixel modes;
  - trimming an image to its visible content.
- **Colour deduction** (`deduce.rs`):
  - the colour histogram;
  - candidate proposal from the 100 most frequent colours at alphas 25, 50,
    75, 90 and 100 %;
  - near-duplicate removal;
  - greedy farthest-point selection;
  - the standard-colour supplement;
  - the exhaustive search over one, two or three unknowns;
  - reassembling the final colour list.
- **Background detection** (`background.rs`): corner and edge sampling, then
  a majority vote over colours composited over black.

Modules:

- `Wrappers`: `Option` and `Result`.
- `Numeric`: real 3-vectors, `f64::round` as rounding half away from zero,
  clamping, sums, integer square root.
- `ColorSpace`: `color.rs`.
- `Unmix`: `unmix.rs`.
- `Process`: `process.rs`.
- `Deduce`: `deduce.rs`.
- `Background`: `background.rs`.

Modelling conventions:

- Floating point becomes exact `real` arithmetic.
- A norm comparison `v.norm() < t` becomes `NormSq(v) < t * t` with `t > 0`
  (`SqrtBelow`).
- Images are `array2<Pixel>` indexed `[row, column]`. Deduction receives the
  image's pixels as a `seq<Color>`.
- Two operations enter the model as function parameters, because their code
  is outside the core:
  - nalgebra's `pseudo_inverse` (`PseudoInverse`). The only assumption is
    that a successful result has one row per matrix column
    (`ShapedPseudoInverse`).
  - `evaluate_color_set` (`Score`).

## Model

| member | source | states |
|---|---|---|
| ColorSpace.TrimLeadingHashes | src/color.rs:25 | the result is no longer than the input and does not start with `#` |
| ColorSpace.ParseU8One | src/color.rs:30-32 | a one-character `u8::from_str_radix` succeeds exactly on a hex digit, with that digit's value |
| ColorSpace.ParseU8Two | src/color.rs:41-43 | a two-character `u8::from_str_radix` succeeds exactly when the pair is a hex digit or `+` followed by a hex digit, with the pair's value |
| ColorSpace.ParseHexColor | src/color.rs:24-50 | after leading `#`s are stripped, a length other than 3 or 6 is rejected, and only such a length is rejected with the stripped text in the error |
| ColorSpace.ParseShorthand | src/color.rs:28-38 | a 3-character colour parses exactly when all three are hex digits; each channel is 17 times its digit; otherwise the error names the first bad channel in red, green, blue order |
| ColorSpace.ParseFull | src/color.rs:39-45 | a 6-character colour parses exactly when each pair parses as a byte; the channels are the pair values; otherwise the error names the first bad pair |
| ColorSpace.ParseForegroundSpec | src/color.rs:54-60 | `auto` and only `auto` gives an unknown spec; any other string gives a known spec or the error that hex parsing gives |
| ColorSpace.LeadingHashesIgnored | src/color.rs:25 | any number of leading `#`s changes neither the stripped text nor the parse result |
| ColorSpace.TrimRemovesOnlyHashes | src/color.rs:25 | the input is exactly some `#`s followed by the stripped text |
| ColorSpace.ByteHexRoundTrip | src/color.rs:41-43 | the two hex digits of a byte parse back to that byte |
| ColorSpace.HexRoundTrip | src/color.rs:24-50 | parsing the six-digit hex of any colour, after any number of `#`s, gives the colour back |
| ColorSpace.ShorthandChannels | src/color.rs:33-37 | every channel parsed from a shorthand colour is a multiple of 17 |
| ColorSpace.ShorthandRed | src/color.rs:22-23 | `#f00`, `f00` and `##f00` all parse to pure red |
| ColorSpace.PlusSignAccepted | src/color.rs:41-43 | `+f+f+f` parses to (15, 15, 15), because each pair accepts a leading plus sign |
| ColorSpace.Normalize | src/color.rs:63-69 | the result lies in the unit cube, and each channel times 255 is the byte |
| ColorSpace.DenormalizeChannel | src/color.rs:72-78 | inside [0, 1] the byte is within one half of `x * 255`; at or below 0 it is 0; at or above 1 it is 255 |
| ColorSpace.DenormalizeNormalize | src/color.rs:63-78 | denormalising a normalised colour gives the colour back |
| Unmix.Solve | src/unmix.rs:110-113 | there is no solution exactly when the pseudo-inverse fails; otherwise there is one weight per foreground colour |
| Unmix.ProjectedWeight | src/unmix.rs:72-81 | the weight lies in [0, 1] and is 0 when the foreground is within EPSILON of the background |
| Unmix.ProjectionRecoversWeight | src/unmix.rs:62-87 | for an exact blend of a non-degenerate foreground at weight `a` in [0, 1], the projection gives back `a` |
| Unmix.UnmixSingle | src/unmix.rs:62-87 | the result is well formed: one non-negative weight, equal to alpha, in [0, 1]; alpha is 0 for a degenerate foreground |
| Unmix.Renormalize | src/unmix.rs:123-131 | the weights stay non-negative; their sum becomes min(sum, 1); each weight is the original divided by max(sum, 1) |
| Unmix.ClampedSolution | src/unmix.rs:105-114 | a least-squares solution, when there is one, has one non-negative weight per colour |
| Unmix.FirstColorOnly | src/unmix.rs:115-120 | the fallback puts weight 1 on the first colour and 0 on all others |
| Unmix.UnmixSimple | src/unmix.rs:90-137 | the result is well formed: non-negative weights, alpha in [0, 1], weights summing to alpha. Without a solution it is the first-colour fallback; otherwise alpha is min(sum, 1) and the clamped weights are scaled down by max(sum, 1) |
| Unmix.LeastSquaresCandidate | src/unmix.rs:163-190 | an approach-1 candidate is well formed with positive alpha |
| Unmix.SingleCandidate | src/unmix.rs:192-213 | an approach-2 candidate for colour `i` is well formed, puts all its weight on `i`, has a non-degenerate foreground, and reconstructs the pixel within 0.01 |
| Unmix.PairCandidate | src/unmix.rs:215-266 | an approach-3 candidate for `(i, j)` is well formed with positive alpha, is zero outside `i` and `j`, and its blend reconstructs the pixel within 0.01 |
| Unmix.SinglesStageFirstMaximum | src/unmix.rs:192-213 | after the single-colour stage, alpha is at least the starting alpha and at least every accepted single colour's alpha. The start is kept unless a single colour is strictly more opaque; otherwise the result is the first single colour of largest alpha (a tie keeps the earlier result) |
| Unmix.BestSingle | src/unmix.rs:192-213 | the approach-2 loop ends exactly at the single-colour stage's result: each accepted colour replaces the best only when strictly more opaque. It is at least the starting alpha and every accepted single colour's alpha |
| Unmix.BestPairRow | src/unmix.rs:217-268 | one row of the pair loop ends at the pair stage's result for that row, replacing only on a strict improvement. It is at least as opaque as every accepted pair in the rows so far |
| Unmix.BestPair | src/unmix.rs:215-269 | the pair loop ends at the pair stage's result over all rows in loop order, and is at least as opaque as every accepted pair |
| Unmix.UnmixOptimized | src/unmix.rs:150-275 | the result is exactly the staged result: least squares against the zero start, then every single colour, then every pair only when there are two colours or more and alpha is still below 0.99. Each stage keeps the earlier result on a tie. The result is well formed and is the zero start or a candidate. It is at least as opaque as the least-squares candidate and every accepted single colour, and as every accepted pair unless the cutoff was reached |
| Unmix.UnmixColorsInternal | src/unmix.rs:33-59 | the result is well formed. No colours gives empty weights and alpha 0; one colour gives the single projection; more colours give the simple unmix or exactly the staged optimised result, according to the flag |
| Unmix.UnmixColors | src/unmix.rs:24-30 | the public entry point: the internal unmix with opacity optimisation on, so with two colours or more the result is exactly the staged optimised result |
| Unmix.IsColorCloseToForeground | src/unmix.rs:284-314 | true exactly when some non-degenerate foreground colour, used alone, reconstructs the pixel within the threshold |
| Unmix.ExactBlendIsClose | src/unmix.rs:284-314 | an exact blend of a non-degenerate foreground is close to it for every positive threshold |
| Unmix.ComputeResultColor | src/unmix.rs:317-344 | alpha is passed through; the colour is black at alpha 0 and otherwise the weight-averaged foreground |
| Unmix.WeightedSumBounds | src/unmix.rs:325-335 | each channel of the weighted sum lies between 0 and the sum of the weights used |
| Unmix.ResultColorInUnitCube | src/unmix.rs:317-344 | with non-negative weights and unit-cube foregrounds, the result colour lies in the unit cube |
| Unmix.ExtraWeightDarkens | src/unmix.rs:329-341 | a weight with no foreground colour behind it (`get(i)` is `None`) scales the result colour down by `sum / (sum + extra)` |
| Process.CompositeChannel | src/process.rs:34-38 | a translucent channel lands between the pixel's and the background's byte, and is the background's at alpha 0 |
| Process.ConvexCombination | src/process.rs:34-38 | the blend of two values with alpha in [0, 1] lies between them |
| Process.CompositePixelOverBackground | src/process.rs:15-40 | an opaque pixel keeps its RGB; a fully transparent one becomes the background; every channel lies between the pixel's and the background's |
| Process.Corner | src/process.rs:67-70 | each of the 8 candidates has every channel at 0 or 1 |
| Process.RequiredAlpha | src/process.rs:76-101 | the per-channel loop is valid and sets an alpha exactly when all channels agree on one alpha, which it returns |
| Process.CheckReconstruction | src/process.rs:110-118 | accepts exactly when every channel of the blend is within 1e-10 of the observed colour |
| Process.CornerSearch | src/process.rs:54-127 | the result is the observed colour at alpha 1, or the first accepted corner of least alpha, which is below 1: every earlier accepted corner needs strictly more, so a tie or an alpha of exactly 1 keeps the earlier result. No accepted corner needs less alpha |
| Process.AlphaScan | src/process.rs:129-148 | the alpha does not grow; the result is the corner result, or a scan step strictly below the corner's alpha whose foreground lies in the unit cube; no earlier scan step admits one |
| Process.FindMinimumAlphaForColor | src/process.rs:50-151 | always returns a result, with alpha in (0, 1]. It is the trivial solution at alpha 1, the first accepted corner of least alpha below 1, or a scan step below 1 and strictly below every accepted corner. No accepted corner and no lower scan step needs less alpha; a unit-cube input gives a unit-cube foreground |
| Process.MinimumAlphaReconstructs | src/process.rs:42-49 | the result blends back to the observed colour within 1e-10 per channel |
| Process.ScanForegroundReconstructs | src/process.rs:137-140 | the foreground a scan step computes blends back to the observed colour exactly |
| Process.ExactBlendCornerFeasible | src/process.rs:67-127 | an exact blend of a corner that differs from the background in some channel is accepted at its own alpha |
| Process.MinimumAlphaAtMostCornerBlend | src/process.rs:67-127 | for an exact blend of such a corner, the search returns at most the blend's alpha |
| Process.MinimumAlphaAtMostScanBlend | src/process.rs:129-148 | for an exact blend of a unit-cube foreground at a scan alpha, the search returns at most that alpha |
| Process.ScanForegroundOfBlend | src/process.rs:137-140 | the scan recovers the foreground of an exact blend |
| Process.AlphaByte | src/process.rs:185 | the alpha byte is within one half of `alpha * 255` |
| Process.ProcessPixelNonStrictNoFg | src/process.rs:162-187 | a pixel within 1e-6 of the background becomes transparent; any other pixel becomes the minimum-alpha solution, denormalised |
| Process.MinimumAlphaPixel | src/process.rs:173-186 | the output pixel is a minimum-alpha solution, denormalised |
| Process.ProcessPixelNonStrictWithFg | src/process.rs:203-253 | a pixel near the background becomes transparent. A pixel close to a foreground colour gets the colour and alpha of the unmix result, which is the staged optimised result with two colours or more. Any other pixel gets the minimum-alpha solution |
| Process.ScanBounds | src/process.rs:266-283 | every visible pixel lies inside the bounds; with a visible pixel, each bound is attained by one; without one, the initial values remain |
| Process.Crop | src/process.rs:299-306 | the new image has the requested size and holds the source pixels at the offset |
| Process.TrimToContent | src/process.rs:259-309 | an image with no visible pixel gives a 1x1 transparent image. Otherwise the result is the sub-image whose every border row and column holds a visible pixel, and every visible pixel lies inside it |
| Process.TrimmedToBounds | src/process.rs:286-306 | the crop at the scanned bounds is exactly the trimmed image |
| Process.TrimKeepsSpanningImage | src/process.rs:294-296 | when visible pixels touch all four edges, the result equals the input |
| Deduce.KnownAndUnknown | src/deduce.rs:183-195 | the known colours and unknown slots together account for every spec |
| Deduce.AllKnown | src/deduce.rs:197-207 | with no unknown slot, every spec is known and the known colours are the specs' colours in order |
| Deduce.SplitSpecs | src/deduce.rs:183-195 | the known colours come out in spec order; the unknown indices are increasing and point exactly at the unknown specs |
| Deduce.BuildTrial | src/deduce.rs:256-269 | the trial set puts each known colour in its slot and the next trial colour in each unknown slot |
| Deduce.CountPixel | src/deduce.rs:212-215 | counting one more pixel keeps the entries an exact histogram of the pixels seen so far |
| Deduce.CountColors | src/deduce.rs:209-215 | the entries are an exact histogram: distinct colours, exact counts, every pixel covered, total equal to the pixel count |
| Deduce.SortByCountProperties | src/deduce.rs:217-218 | sorting orders counts non-increasingly and keeps the total and distinctness |
| Deduce.ColorHistogram | src/deduce.rs:209-218 | the sorted histogram is exact and ordered by non-increasing count |
| Deduce.TrialChannels | src/deduce.rs:37-47 | a trial foreground is valid exactly when all three channels lie in [0, 1] |
| Deduce.ReconstructionCheckPasses | src/deduce.rs:55-68 | in exact arithmetic a trial foreground reconstructs the observed colour with zero error |
| Deduce.OpaqueTrialProposesColor | src/deduce.rs:33-70 | the 100 % trial always proposes the observed colour itself |
| Deduce.RawCandidatesContain | src/deduce.rs:26-71 | every considered colour that is not near the background is among the proposals |
| Deduce.DedupProperties | src/deduce.rs:73-85 | no kept candidate is within the threshold of an earlier kept one; kept ones come from the input; every dropped one is near a kept one; the first candidate is always kept |
| Deduce.DedupCandidates | src/deduce.rs:73-85 | the loop computes exactly the de-duplication |
| Deduce.ProposeCandidates | src/deduce.rs:33-70 | the alpha loop proposes exactly the trial candidates of one observed colour |
| Deduce.TopObserved | src/deduce.rs:26 | the first 100 histogram entries, or all of them when there are fewer, as a prefix |
| Deduce.FindCandidateForegroundColors | src/deduce.rs:17-92 | at most `num_candidates` colours are returned: all unique candidates if few enough, otherwise a greedy most-different selection of them |
| Deduce.PickNextProperties | src/deduce.rs:101-128 | a next colour is found exactly when some colour is unselected. It is unselected, has the largest key, and is the last colour with that key, as `max_by_key` picks |
| Deduce.GreedyPrefixExtend | src/deduce.rs:101-128 | adding the next pick keeps the selection a greedy prefix |
| Deduce.SelectMostDifferentColors | src/deduce.rs:94-131 | with at most `n` colours all are returned unchanged; otherwise the selection is the greedy sequence of picks, stopping at `n` or when no colour is left |
| Deduce.GreedySelectionProperties | src/deduce.rs:94-131 | a greedy selection has distinct colours drawn from the input; its first colour has the widest channel spread; it has `n` colours or covers the input |
| Deduce.AddStandardColors | src/deduce.rs:224-246 | the candidates are kept as a prefix. Every added colour is a standard colour, not known, not the background, and not within 0.01 of any colour collected before it. Every standard colour ends up added, known, the background, or within 0.01 of a collected colour |
| Deduce.NotNearIsAbsent | src/deduce.rs:239-241 | a colour not within 0.01 of any collected colour is not among them, as every colour is within any positive distance of itself |
| Deduce.StandardsAddedNoRepeat | src/deduce.rs:237-246 | no added standard colour repeats a colour collected before it |
| Deduce.NearAnyGrows | src/deduce.rs:240-244 | being near a collected colour stays true as more colours are collected |
| Deduce.CollectCandidates | src/deduce.rs:220-246 | the pool is the generated candidates for 10 per unknown (all de-duplicated proposals of the 100 most frequent colours when they fit, otherwise their greedy selection), followed by standard colours that are neither known, nor the background, nor within 0.01 of a colour collected before them. Every standard colour is in the pool, known, the background, or within 0.01 of a collected colour. Every colour is a proposal or a standard colour, at most 10 per unknown plus 8 |
| Deduce.PoolKeepsProposals | src/deduce.rs:220-246 | a pool built that way holds every de-duplicated proposal when they fit the budget, and is never empty when there is a proposal |
| Deduce.SearchSingles | src/deduce.rs:254-276 | the single-unknown outcome: the best score is at most every candidate's score. A chosen colour is the first candidate attaining it; no colour is chosen only when the score stays at `f64::MAX` |
| Deduce.SearchPairs | src/deduce.rs:277-304 | the two-unknown outcome: the best score is at most every pair's score; the chosen pair is the first pair in loop order attaining it |
| Deduce.SearchTriplesFrom | src/deduce.rs:314-338 | one inner loop keeps the triple-search state: the best triple so far is the first one attaining the minimum over the triples visited |
| Deduce.SearchTriples | src/deduce.rs:305-340 | the three-unknown outcome: the best score is at most every triple's score; the chosen triple is the first in loop order attaining it |
| Deduce.SearchBest | src/deduce.rs:248-343 | the outcome of the branch the source takes. One unknown: the single search over all candidates. Two unknowns and at most 30 candidates: the pair search. Three unknowns: the triple search over all candidates, or over the greedy selection of 20 when there are more than 25. Otherwise the greedy selection of as many colours as unknowns (all candidates if no more), with the error left at `f64::MAX`. The chosen colours come from the candidates, at most one per unknown slot |
| Deduce.Reassemble | src/deduce.rs:345-364 | known slots keep their colour; the k-th unknown slot gets the k-th chosen colour, or gray (128, 128, 128) if too few were chosen |
| Deduce.DeduceUnknownColors | src/deduce.rs:177-365 | one colour per spec; known slots keep their colour; all-known specs return the known colours. Otherwise there is an exact count-ordered histogram and a candidate pool built from it as `CollectCandidates` builds it: the generated candidates of its 100 most frequent colours, followed by the surviving standard colours. The search over that pool has the outcome of the source's branch, and the `n`-th unknown slot holds its `n`-th colour, or gray when it has fewer |
| Background.SampleListValid | src/background.rs:50-67 | the listed points are the four corners plus every stride point on the top, bottom, left and right edges, all inside the image |
| Background.SampleList | src/background.rs:48-67 | the corners, then the row samples, then the column samples, repetitions included, form a valid sample list: it starts with the four corners, has one entry per corner and per stride point of each edge, contains every such point, holds nothing else, and lies inside the image |
| Background.SamplePoints | src/background.rs:48-67 | the sampling loops build exactly that list, entry by entry in the source's order and with its repetitions, so it is a valid sample list |
| Background.OverBlack | src/background.rs:76-81 | compositing a channel over black never raises it |
| Background.EffectiveColorProperties | src/background.rs:72-84 | an opaque sample counts as its RGB, a transparent one as black, and no channel rises |
| Background.MaxCount | src/background.rs:89-94 | no entries give black; otherwise the colour of an entry with the largest count |
| Background.CountSamples | src/background.rs:69-87 | the counts are an exact histogram of the sampled effective colours |
| Background.LargestCountIsMostCommon | src/background.rs:89-94 | the colour with the largest count occurs among the samples at least as often as any colour |
| Background.DetectBackgroundColorWithConfig | src/background.rs:40-95 | the result is a most common effective colour among the samples of exactly that list at the given interval, each repeated point counted once per occurrence |
| Background.DetectBackgroundColor | src/background.rs:28-30 | the same, with the default interval of 10 |

## Left out

- The N-API bindings (`lib.rs`), PNG decoding and encoding, the command line
  and the rayon-parallel pixel loop are left out. They are I/O and
  concurrency around the modelled functions.
- `Unmix.Solve`: the singular value decomposition behind `pseudo_inverse` is
  not modelled. The pseudo-inverse is a parameter that is assumed only to
  return one row per column. No property of least-squares optimality is
  claimed.
- `evaluate_color_set` (`src/deduce.rs:133-174`) is a parameter `Score` of the
  deduction search. Its scoring formula is not modelled. The search contracts
  hold for every score function.
- IEEE-754 behaviour (rounding error, NaN, infinities, `sqrt` accuracy) is not
  modelled; arithmetic is exact. In particular:
  - the 1e-10 and 1e-6 tolerances compare exact values;
  - the 1/1000 alpha scan uses exact fractions;
  - `f64::MAX` is the exact real 1.7976931348623157e308.
- `Deduce.ReconstructionCheckPasses`: because arithmetic is exact, the
  deduction's reconstruction-error check always passes. The model still
  states the check, but the branch where it rejects a trial is unreachable
  here.
- Saturating `as u8` and `as i32` casts are modelled only by their
  in-range behaviour. `DenormalizeChannel` clamps before the cast, as the
  source does. `AlphaByte` and `OverBlack` only see values in [0, 255].
  `DistanceKey` stays far below `i32::MAX`, because colour distances are at
  most sqrt(3).
- `Process.Corner`: the three nested loops over `&[0.0, 1.0]` are one loop
  over `c` in 0..8, with red as the most significant bit. The visiting order
  is the same.
- `Deduce.ColorHistogram` and `Background.CountSamples`: Rust's `HashMap`
  iterates in an unspecified order. The model keeps entries in first-seen
  order and sorts with a stable insertion sort. The contracts promise only
  the following, so they hold whatever order the map uses:
  - an exact histogram;
  - non-increasing counts;
  - for the background, some colour with the largest count.

  Which equal-count colour is chosen is not pinned down, because the code
  does not guarantee first-seen tie-breaking.
- `Deduce.DeduceUnknownColors` returns the colour list rather than
  `Result<Vec<Color>>`. The source never returns an error (`Ok` on every
  path), and `unreachable!()` at `src/deduce.rs:203` cannot be reached. The
  pool is pinned up to the histogram's order among equal counts (see
  `Deduce.ColorHistogram`). The standard colours appended after the
  generated candidates are pinned by their filter and completeness, not by
  the order of the standard palette.
- Images are `array2<Pixel>` indexed `[row, column]`. The source's
  `(x, y)` is `[y, x]`.
- `DynamicImage::to_rgba8` conversion is not modelled: inputs are already
  RGBA8. Deduction receives the pixels' RGB values as a sequence.
- `Background.DetectBackgroundColorWithConfig` and
  `Background.DetectBackgroundColor` require a non-empty image and a
  positive interval. In the source, an empty image underflows `width - 1`
  and a zero interval makes `step_by` panic.
- Strings are sequences of characters, and one character is one byte.
  Non-ASCII input is not modelled. In Rust, `len()` counts bytes and slicing
  inside a multi-byte character panics.
- `Process.TrimToContent`: the source returns a new 1x1 image for a zero
  width or height. The model takes the no-visible-pixel path for such an
  image, which gives the same 1x1 transparent result.
