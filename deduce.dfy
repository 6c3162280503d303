/** Deduction of unknown foreground colours: the colour histogram of the
    image, candidate colours derived from its most frequent entries,
    near-duplicate removal, greedy farthest-point selection, and the
    exhaustive search over one, two or three unknowns that keeps the first
    colour set with the lowest score. The score (`evaluate_color_set`) is a
    parameter of the model. */
module Deduce {
  import opened Wrappers
  import opened Numeric
  import opened ColorSpace

  /** The exhaustive pair search runs only up to this many candidates. */
  const MaxCandidates2Unknowns: nat := 30
  /** Three unknowns use every candidate up to this many ... */
  const MaxCandidates3UnknownsAll: nat := 25
  /** ... and otherwise this many, chosen by farthest-point selection. */
  const MaxCandidates3UnknownsSelected: nat := 20
  /** Candidates requested per unknown colour. */
  const CandidatesPerUnknown: nat := 10
  /** Only the most frequent colours of the histogram propose candidates. */
  const MaxObservedColors: nat := 100
  /** Colours this close to the background propose nothing. */
  const NearBackgroundDistance: real := 0.01
  /** A standard colour this close to a candidate is not added. */
  const StandardColorMatchDistance: real := 0.01
  /** A trial foreground must reconstruct the observed colour within this distance (in byte units). */
  const MaxReconstructionError: real := 5.0
  /** The trial alphas, in percent. */
  const AlphaPercents: seq<nat> := [25, 50, 75, 90, 100]
  /** The fill for an unknown slot the search left without a colour. */
  const Gray: Color := RGB(128, 128, 128)
  /** `f64::MAX`, the initial best score. */
  const F64Max: real := 1.7976931348623157e308
  /** `i32::MAX`, the selection key when nothing is selected yet. */
  const I32Max: int := 0x7fff_ffff
  /** Colours always offered to the search unless known, equal to the background or near a candidate. */
  const StandardColors: seq<Color> := [
    RGB(255, 0, 0), RGB(0, 255, 0), RGB(0, 0, 255), RGB(255, 255, 0),
    RGB(255, 0, 255), RGB(0, 255, 255), RGB(255, 128, 0), RGB(128, 0, 255)]

  /** One histogram entry: a colour and how many pixels have it. */
  datatype Entry = Entry(color: Color, count: nat)

  /** Squared `color_distance` of two byte colours, after normalisation. */
  function ColorDistSq(a: Color, b: Color): real {
    DistSq(Normalize(a), Normalize(b))
  }

  /** `color_distance(a, b) < t`. */
  predicate WithinDistance(a: Color, b: Color, t: real) {
    SqrtBelow(ColorDistSq(a, b), t)
  }

  // ---------------------------------------------------------------------
  // Known and unknown specs

  /** The known colours, in spec order. */
  function KnownColors(specs: seq<ForegroundSpec>): (k: seq<Color>)
    ensures |k| <= |specs|
  {
    if specs == [] then []
    else
      var last := specs[|specs| - 1];
      KnownColors(specs[..|specs| - 1]) + (if last.Known? then [last.color] else [])
  }

  /** The number of unknown specs. */
  function UnknownCount(specs: seq<ForegroundSpec>): (n: nat)
    ensures n <= |specs|
  {
    if specs == [] then 0
    else UnknownCount(specs[..|specs| - 1]) + (if specs[|specs| - 1].Unknown? then 1 else 0)
  }

  /** Every spec is either known or unknown. */
  lemma {:induction false} KnownAndUnknown(specs: seq<ForegroundSpec>)
    ensures |KnownColors(specs)| + UnknownCount(specs) == |specs|
  {
    if specs != [] {
      KnownAndUnknown(specs[..|specs| - 1]);
    }
  }

  /** The known colours of a prefix are a prefix of the known colours. */
  lemma {:induction false} KnownColorsPrefix(specs: seq<ForegroundSpec>, i: nat)
    requires i <= |specs|
    ensures KnownColors(specs[..i]) <= KnownColors(specs)
    decreases |specs|
  {
    if i < |specs| {
      var p := specs[..|specs| - 1];
      assert specs[..i] == p[..i];
      KnownColorsPrefix(p, i);
    } else {
      assert specs[..i] == specs;
    }
  }

  /** Unknowns before slot `i` number fewer than all unknowns when slot `i` is unknown. */
  lemma {:induction false} UnknownCountPrefix(specs: seq<ForegroundSpec>, i: nat)
    requires i < |specs|
    ensures UnknownCount(specs[..i + 1]) == UnknownCount(specs[..i]) + (if specs[i].Unknown? then 1 else 0)
    ensures UnknownCount(specs[..i + 1]) <= UnknownCount(specs)
    decreases |specs|
  {
    assert specs[..i + 1][..i] == specs[..i];
    if i + 1 < |specs| {
      var p := specs[..|specs| - 1];
      assert specs[..i + 1] == p[..i + 1] && specs[..i] == p[..i];
      UnknownCountPrefix(p, i);
    } else {
      assert specs[..i + 1] == specs;
    }
  }

  /** Known slot `i` holds the known colour numbered by the known slots before it. */
  lemma KnownColorAt(specs: seq<ForegroundSpec>, i: nat)
    requires i < |specs| && specs[i].Known?
    ensures |KnownColors(specs[..i])| < |KnownColors(specs)|
    ensures KnownColors(specs)[|KnownColors(specs[..i])|] == specs[i].color
  {
    assert specs[..i + 1][..i] == specs[..i];
    KnownColorsPrefix(specs, i + 1);
  }

  /** With no unknown spec, the known colours are the specs' colours in order. */
  lemma {:induction false} AllKnown(specs: seq<ForegroundSpec>)
    requires UnknownCount(specs) == 0
    ensures |KnownColors(specs)| == |specs|
    ensures forall i :: 0 <= i < |specs| ==> specs[i].Known? && KnownColors(specs)[i] == specs[i].color
  {
    if specs != [] {
      AllKnown(specs[..|specs| - 1]);
    }
  }

  /** The splitting loop of `deduce_unknown_colors`: known colours and unknown positions. */
  method SplitSpecs(specs: seq<ForegroundSpec>) returns (known: seq<Color>, unknownIndices: seq<nat>)
    ensures known == KnownColors(specs)
    ensures |unknownIndices| == UnknownCount(specs)
    ensures forall k :: 0 <= k < |unknownIndices| ==> unknownIndices[k] < |specs| && specs[unknownIndices[k]].Unknown?
    ensures forall k, l :: 0 <= k < l < |unknownIndices| ==> unknownIndices[k] < unknownIndices[l]
  {
    known, unknownIndices := [], [];
    for i := 0 to |specs|
      invariant known == KnownColors(specs[..i])
      invariant |unknownIndices| == UnknownCount(specs[..i])
      invariant forall k :: 0 <= k < |unknownIndices| ==> unknownIndices[k] < i && specs[unknownIndices[k]].Unknown?
      invariant forall k, l :: 0 <= k < l < |unknownIndices| ==> unknownIndices[k] < unknownIndices[l]
    {
      assert specs[..i + 1][..i] == specs[..i];
      match specs[i]
      case Known(color) =>
        known := known + [color];
      case Unknown =>
        unknownIndices := unknownIndices + [i];
    }
    assert specs[..|specs|] == specs;
  }

  /** The final loop of `deduce_unknown_colors`: known slots keep their
      colour, the `k`-th unknown slot takes `best[k]`, and unknown slots
      beyond `best` are filled with gray. */
  method Reassemble(specs: seq<ForegroundSpec>, best: seq<Color>) returns (r: seq<Color>)
    ensures |r| == |specs|
    ensures forall i :: 0 <= i < |specs| && specs[i].Known? ==> r[i] == specs[i].color
    ensures forall i :: 0 <= i < |specs| && specs[i].Unknown? ==>
      r[i] == if UnknownCount(specs[..i]) < |best| then best[UnknownCount(specs[..i])] else Gray
  {
    r := [];
    var unknownIdx := 0;
    for i := 0 to |specs|
      invariant |r| == i
      invariant unknownIdx == UnknownCount(specs[..i])
      invariant forall j :: 0 <= j < i && specs[j].Known? ==> r[j] == specs[j].color
      invariant forall j :: 0 <= j < i && specs[j].Unknown? ==>
        r[j] == if UnknownCount(specs[..j]) < |best| then best[UnknownCount(specs[..j])] else Gray
    {
      UnknownCountPrefix(specs, i);
      match specs[i]
      case Known(color) =>
        r := r + [color];
      case Unknown =>
        if unknownIdx < |best| {
          r := r + [best[unknownIdx]];
        } else {
          r := r + [Gray];
        }
        unknownIdx := unknownIdx + 1;
    }
  }

  /** Each colour normalised. */
  function NormalizeAll(cs: seq<Color>): (v: seq<Vec3>)
    ensures |v| == |cs| && forall i :: 0 <= i < |cs| ==> v[i] == Normalize(cs[i])
  {
    seq(|cs|, i requires 0 <= i < |cs| => Normalize(cs[i]))
  }

  /** The foreground list tried by the search: known slots normalised, the
      `k`-th unknown slot taking the `k`-th trial colour. */
  function TrialColors(specs: seq<ForegroundSpec>, unknowns: seq<Color>): (t: seq<Vec3>)
    requires UnknownCount(specs) <= |unknowns|
    ensures |t| == |specs|
  {
    seq(|specs|, i requires 0 <= i < |specs| =>
      match specs[i]
      case Known(c) => Normalize(c)
      case Unknown => UnknownCountPrefix(specs, i); Normalize(unknowns[UnknownCount(specs[..i])]))
  }

  /** The `test_fg` loop of the search: fills each slot from the known list
      or the trial colours in turn. */
  method BuildTrial(specs: seq<ForegroundSpec>, knownNorm: seq<Vec3>, unknowns: seq<Color>) returns (t: seq<Vec3>)
    requires knownNorm == NormalizeAll(KnownColors(specs))
    requires UnknownCount(specs) <= |unknowns|
    ensures t == TrialColors(specs, unknowns)
  {
    t := seq(|specs|, _ => Zero3);
    var knownIdx, unknownIdx := 0, 0;
    for i := 0 to |specs|
      invariant |t| == |specs|
      invariant knownIdx == |KnownColors(specs[..i])| && unknownIdx == UnknownCount(specs[..i])
      invariant forall j :: 0 <= j < i ==> t[j] == TrialColors(specs, unknowns)[j]
    {
      UnknownCountPrefix(specs, i);
      assert specs[..i + 1][..i] == specs[..i];
      match specs[i]
      case Known(_) =>
        KnownColorAt(specs, i);
        t := t[i := knownNorm[knownIdx]];
        knownIdx := knownIdx + 1;
      case Unknown =>
        t := t[i := Normalize(unknowns[unknownIdx])];
        unknownIdx := unknownIdx + 1;
    }
  }

  // ---------------------------------------------------------------------
  // Histogram

  /** How many pixels have colour `c`. */
  function Occurrences(pixels: seq<Color>, c: Color): nat {
    multiset(pixels)[c]
  }

  /** No two entries share a colour. */
  predicate DistinctColors(entries: seq<Entry>) {
    forall i, j :: 0 <= i < j < |entries| ==> entries[i].color != entries[j].color
  }

  /** Total of the counts. */
  function SumCounts(entries: seq<Entry>): nat {
    if entries == [] then 0 else SumCounts(entries[..|entries| - 1]) + entries[|entries| - 1].count
  }

  /** Counts never increase along the sequence. */
  predicate CountsNonIncreasing(entries: seq<Entry>) {
    forall i, j :: 0 <= i < j < |entries| ==> entries[i].count >= entries[j].count
  }

  /** Every entry counts its colour's pixels exactly, and has some. */
  predicate CountsMatch(entries: seq<Entry>, pixels: seq<Color>) {
    forall k :: 0 <= k < |entries| ==> entries[k].count == Occurrences(pixels, entries[k].color) && entries[k].color in pixels
  }

  /** Some entry has colour `c`. */
  predicate HasEntry(entries: seq<Entry>, c: Color) {
    exists k :: 0 <= k < |entries| && entries[k].color == c
  }

  /** Every pixel's colour has an entry. */
  predicate CoversPixels(entries: seq<Entry>, pixels: seq<Color>) {
    forall p :: p in pixels ==> HasEntry(entries, p)
  }

  /** `entries` is a histogram of `pixels`: one entry per distinct colour, exact counts. */
  predicate IsHistogram(entries: seq<Entry>, pixels: seq<Color>) {
    DistinctColors(entries) && CountsMatch(entries, pixels) && CoversPixels(entries, pixels) && SumCounts(entries) == |pixels|
  }

  /** Adding one to an entry's count adds one to the total. */
  lemma {:induction false} SumCountsIncrement(entries: seq<Entry>, k: nat)
    requires k < |entries|
    ensures SumCounts(entries[k := Entry(entries[k].color, entries[k].count + 1)]) == SumCounts(entries) + 1
  {
    var e := entries[k := Entry(entries[k].color, entries[k].count + 1)];
    var n := |entries|;
    if k == n - 1 {
      assert e[..n - 1] == entries[..n - 1];
    } else {
      assert e[..n - 1] == entries[..n - 1][k := Entry(entries[k].color, entries[k].count + 1)];
      SumCountsIncrement(entries[..n - 1], k);
    }
  }

  /** The `HashMap` lookup: the index of the entry for `c`, or `|entries|`. */
  method FindEntry(entries: seq<Entry>, c: Color) returns (k: nat)
    ensures k <= |entries|
    ensures k < |entries| ==> entries[k].color == c
    ensures k == |entries| ==> forall j :: 0 <= j < |entries| ==> entries[j].color != c
  {
    k := 0;
    while k < |entries| && entries[k].color != c
      invariant k <= |entries|
      invariant forall j :: 0 <= j < k ==> entries[j].color != c
    {
      k := k + 1;
    }
  }

  /** One step of the counting loop: `*counts.entry(c).or_insert(0) += 1`. */
  method CountPixel(entries: seq<Entry>, ghost pixels: seq<Color>, c: Color) returns (next: seq<Entry>)
    requires IsHistogram(entries, pixels)
    ensures IsHistogram(next, pixels + [c])
  {
    var k := FindEntry(entries, c);
    var ps := pixels + [c];
    if k < |entries| {
      SumCountsIncrement(entries, k);
      next := entries[k := Entry(c, entries[k].count + 1)];
      assert next[k].color == c;
    } else {
      assert c !in pixels;
      assert (entries + [Entry(c, 1)])[..|entries|] == entries;
      next := entries + [Entry(c, 1)];
      assert next[|entries|].color == c;
    }
    assert HasEntry(next, c);
    forall p | p in ps ensures HasEntry(next, p) {
      if p != c {
        assert p in pixels;
        var j :| 0 <= j < |entries| && entries[j].color == p;
        assert next[j].color == p;
      }
    }
  }

  /** The counting loop: one entry per distinct colour, in first-seen order
      (standing in for the `HashMap`'s unspecified order). */
  method CountColors(pixels: seq<Color>) returns (entries: seq<Entry>)
    ensures IsHistogram(entries, pixels)
  {
    entries := [];
    for i := 0 to |pixels|
      invariant IsHistogram(entries, pixels[..i])
    {
      assert pixels[..i + 1] == pixels[..i] + [pixels[i]];
      entries := CountPixel(entries, pixels[..i], pixels[i]);
    }
    assert pixels[..|pixels|] == pixels;
  }

  /** `e` inserted after every entry with at least its count. */
  function InsertByCount(sorted: seq<Entry>, e: Entry): (r: seq<Entry>)
    ensures |r| == |sorted| + 1
    ensures multiset(r) == multiset(sorted) + multiset{e}
  {
    if sorted == [] then [e]
    else if sorted[0].count >= e.count then
      assert sorted == [sorted[0]] + sorted[1..];
      [sorted[0]] + InsertByCount(sorted[1..], e)
    else [e] + sorted
  }

  /** `sort_by_key(Reverse(count))`: a stable sort by decreasing count. */
  function SortByCount(entries: seq<Entry>): (r: seq<Entry>)
    ensures multiset(r) == multiset(entries)
  {
    if entries == [] then []
    else
      assert entries == entries[..|entries| - 1] + [entries[|entries| - 1]];
      InsertByCount(SortByCount(entries[..|entries| - 1]), entries[|entries| - 1])
  }

  lemma {:induction false} InsertKeepsOrder(sorted: seq<Entry>, e: Entry)
    requires CountsNonIncreasing(sorted)
    ensures CountsNonIncreasing(InsertByCount(sorted, e))
  {
    if sorted != [] && sorted[0].count >= e.count {
      InsertKeepsOrder(sorted[1..], e);
      var t := InsertByCount(sorted[1..], e);
      forall x | x in t ensures sorted[0].count >= x.count {
        assert x in multiset(t);
      }
    }
  }

  lemma {:induction false} InsertKeepsDistinct(sorted: seq<Entry>, e: Entry)
    requires DistinctColors(sorted) && forall k :: 0 <= k < |sorted| ==> sorted[k].color != e.color
    ensures DistinctColors(InsertByCount(sorted, e))
  {
    if sorted != [] && sorted[0].count >= e.count {
      InsertKeepsDistinct(sorted[1..], e);
      var t := InsertByCount(sorted[1..], e);
      forall x | x in t ensures sorted[0].color != x.color {
        assert x in multiset(t);
      }
      var r := [sorted[0]] + t;
      forall i, j | 0 <= i < j < |r| ensures r[i].color != r[j].color {
        if i == 0 {
          assert r[j] == t[j - 1];
        }
      }
    }
  }

  lemma {:induction false} InsertAddsCount(sorted: seq<Entry>, e: Entry)
    ensures SumCounts(InsertByCount(sorted, e)) == SumCounts(sorted) + e.count
  {
    if sorted == [] {
      assert [e][..0] == [];
    } else if sorted[0].count >= e.count {
      InsertAddsCount(sorted[1..], e);
      SumCountsCons(sorted[0], InsertByCount(sorted[1..], e));
      SumCountsCons(sorted[0], sorted[1..]);
      assert [sorted[0]] + sorted[1..] == sorted;
    } else {
      SumCountsCons(e, sorted);
    }
  }

  lemma {:induction false} SumCountsCons(e: Entry, s: seq<Entry>)
    ensures SumCounts([e] + s) == e.count + SumCounts(s)
  {
    if s != [] {
      assert ([e] + s)[..|s|] == [e] + s[..|s| - 1];
      SumCountsCons(e, s[..|s| - 1]);
    } else {
      assert ([e] + s)[..0] == [];
    }
  }

  /** The sort keeps the total, keeps colours distinct, and orders by decreasing count. */
  lemma {:induction false} SortByCountProperties(entries: seq<Entry>)
    ensures CountsNonIncreasing(SortByCount(entries))
    ensures SumCounts(SortByCount(entries)) == SumCounts(entries)
    ensures DistinctColors(entries) ==> DistinctColors(SortByCount(entries))
  {
    if entries != [] {
      var p, e := entries[..|entries| - 1], entries[|entries| - 1];
      SortByCountProperties(p);
      InsertKeepsOrder(SortByCount(p), e);
      InsertAddsCount(SortByCount(p), e);
      if DistinctColors(entries) {
        var s := SortByCount(p);
        forall k | 0 <= k < |s| ensures s[k].color != e.color {
          assert s[k] in multiset(p);
          var j :| 0 <= j < |p| && p[j] == s[k];
        }
        InsertKeepsDistinct(s, e);
      }
    }
  }

  /** The colour histogram of `deduce_unknown_colors`: one entry per distinct
      colour, counts exact and summing to the number of pixels, ordered by
      non-increasing count. */
  method ColorHistogram(pixels: seq<Color>) returns (entries: seq<Entry>)
    ensures DistinctColors(entries) && CountsMatch(entries, pixels) && CoversPixels(entries, pixels)
    ensures SumCounts(entries) == |pixels|
    ensures CountsNonIncreasing(entries)
  {
    var counted := CountColors(pixels);
    entries := SortByCount(counted);
    SortByCountProperties(counted);
    forall k | 0 <= k < |entries|
      ensures entries[k].count == Occurrences(pixels, entries[k].color) && entries[k].color in pixels
    {
      assert entries[k] in multiset(counted);
    }
    forall p | p in pixels ensures HasEntry(entries, p) {
      var j :| 0 <= j < |counted| && counted[j].color == p;
      assert counted[j] in multiset(entries);
    }
  }

  // ---------------------------------------------------------------------
  // Candidate generation

  /** The foreground that blends with `bg` at `alpha` into `obs`: `(obs - bg * (1 - alpha)) / alpha`. */
  function TrialForeground(obs: Vec3, bg: Vec3, alpha: real): Vec3
    requires alpha != 0.0
  {
    Vec3((obs.x - bg.x * (1.0 - alpha)) / alpha, (obs.y - bg.y * (1.0 - alpha)) / alpha, (obs.z - bg.z * (1.0 - alpha)) / alpha)
  }

  /** The channel loop of candidate generation: computes the trial
      foreground channel by channel and stops at the first one outside [0, 1]. */
  method TrialChannels(obs: Vec3, bg: Vec3, alpha: real) returns (fg: Vec3, valid: bool)
    requires alpha != 0.0
    ensures valid <==> InUnitCube(TrialForeground(obs, bg, alpha))
    ensures valid ==> fg == TrialForeground(obs, bg, alpha)
  {
    var target := TrialForeground(obs, bg, alpha);
    fg := Zero3;
    valid := true;
    for i := 0 to 3
      invariant forall j :: 0 <= j < i ==> fg.Get(j) == target.Get(j) && 0.0 <= target.Get(j) <= 1.0
      invariant forall j :: i <= j < 3 ==> fg.Get(j) == 0.0
    {
      fg := fg.With(i, (obs.Get(i) - bg.Get(i) * (1.0 - alpha)) / alpha);
      assert fg.Get(i) == target.Get(i);
      if fg.Get(i) < 0.0 || fg.Get(i) > 1.0 {
        valid := false;
        assert !InUnitCube(target);
        return;
      }
    }
    assert fg == Vec3(fg.Get(0), fg.Get(1), fg.Get(2));
  }

  /** `(x * 255.0).round() as u8` for `x` in [0, 1]. */
  function ToByte(x: real): (b: Byte)
    requires 0.0 <= x <= 1.0
  {
    RoundBetween(x * 255.0, 0, 255);
    RoundHalfAway(x * 255.0)
  }

  /** A unit-cube colour rounded to bytes. */
  function ByteColor(fg: Vec3): Color
    requires InUnitCube(fg)
  {
    RGB(ToByte(fg.x), ToByte(fg.y), ToByte(fg.z))
  }

  /** Squared distance, in byte units, between `fg` blended over `bg` at `alpha` and the observed colour. */
  function ReconstructionErrorSq(observed: Color, fg: Vec3, bg: Vec3, alpha: real): real {
    var d := Vec3((fg.x * alpha + bg.x * (1.0 - alpha)) * 255.0 - observed.r as real,
                  (fg.y * alpha + bg.y * (1.0 - alpha)) * 255.0 - observed.g as real,
                  (fg.z * alpha + bg.z * (1.0 - alpha)) * 255.0 - observed.b as real);
    NormSq(d)
  }

  /** The candidates one observed colour proposes for the given alphas (in percent). */
  function TrialCandidates(observed: Color, bg: Color, percents: seq<nat>): seq<Color>
    requires forall k :: 0 <= k < |percents| ==> percents[k] > 0
  {
    if percents == [] then []
    else
      var alpha := percents[|percents| - 1] as real / 100.0;
      var fg := TrialForeground(Normalize(observed), Normalize(bg), alpha);
      TrialCandidates(observed, bg, percents[..|percents| - 1]) +
        (if InUnitCube(fg) && ReconstructionErrorSq(observed, fg, Normalize(bg), alpha) < MaxReconstructionError * MaxReconstructionError
         then [ByteColor(fg)] else [])
  }

  /** The candidates proposed by the observed colours, skipping those near the background. */
  function RawCandidates(observed: seq<Entry>, bg: Color): seq<Color> {
    if observed == [] then []
    else
      var c := observed[|observed| - 1].color;
      RawCandidates(observed[..|observed| - 1], bg) +
        (if WithinDistance(c, bg, NearBackgroundDistance) then [] else TrialCandidates(c, bg, AlphaPercents))
  }

  /** In exact arithmetic a trial foreground reconstructs the observed
      colour exactly, so the error check never rejects a candidate. */
  lemma ReconstructionCheckPasses(observed: Color, bg: Color, alpha: real)
    requires alpha != 0.0
    ensures ReconstructionErrorSq(observed, TrialForeground(Normalize(observed), Normalize(bg), alpha), Normalize(bg), alpha) == 0.0
  {
    var o, b := Normalize(observed), Normalize(bg);
    var fg := TrialForeground(o, b, alpha);
    TrialChannelRecovers(o.x, b.x, alpha);
    TrialChannelRecovers(o.y, b.y, alpha);
    TrialChannelRecovers(o.z, b.z, alpha);
  }

  lemma TrialChannelRecovers(o: real, b: real, alpha: real)
    requires alpha != 0.0
    ensures ((o - b * (1.0 - alpha)) / alpha) * alpha + b * (1.0 - alpha) == o
  {
  }

  /** The alpha = 1 trial proposes the observed colour itself. */
  lemma OpaqueTrialProposesColor(observed: Color, bg: Color)
    ensures observed in TrialCandidates(observed, bg, AlphaPercents)
  {
    var o := Normalize(observed);
    var fg := TrialForeground(o, Normalize(bg), 1.0);
    assert fg == o;
    ReconstructionCheckPasses(observed, bg, 1.0);
    RoundOfInteger(observed.r);
    RoundOfInteger(observed.g);
    RoundOfInteger(observed.b);
    assert ByteColor(fg) == observed;
    assert AlphaPercents[..|AlphaPercents| - 1] == [25, 50, 75, 90];
  }

  /** Every observed colour not near the background is among the raw candidates. */
  lemma {:induction false} RawCandidatesContain(observed: seq<Entry>, bg: Color, k: nat)
    requires k < |observed| && !WithinDistance(observed[k].color, bg, NearBackgroundDistance)
    ensures observed[k].color in RawCandidates(observed, bg)
  {
    var n := |observed|;
    if k == n - 1 {
      OpaqueTrialProposesColor(observed[k].color, bg);
    } else {
      assert observed[..n - 1][k] == observed[k];
      RawCandidatesContain(observed[..n - 1], bg, k);
    }
  }

  /** `c` is within `t` of one of `existing`. */
  predicate IsDuplicate(c: Color, existing: seq<Color>, t: real) {
    exists k :: 0 <= k < |existing| && WithinDistance(c, existing[k], t)
  }

  /** The de-duplication of candidates: each is kept unless within `t` of one kept before it. */
  function Dedup(s: seq<Color>, t: real): (d: seq<Color>)
    ensures |d| <= |s|
  {
    if s == [] then []
    else
      var d := Dedup(s[..|s| - 1], t);
      if IsDuplicate(s[|s| - 1], d, t) then d else d + [s[|s| - 1]]
  }

  /** Kept candidates are pairwise at least `t` apart, are drawn from the
      input, and every input candidate is kept or within `t` of a kept one;
      the first input candidate is kept. */
  lemma {:induction false} DedupProperties(s: seq<Color>, t: real)
    ensures var d := Dedup(s, t);
      && (forall i, j :: 0 <= i < j < |d| ==> !WithinDistance(d[j], d[i], t))
      && (forall c :: c in d ==> c in s)
      && (forall c :: c in s ==> c in d || IsDuplicate(c, d, t))
      && (s != [] ==> d != [] && d[0] == s[0])
  {
    if s != [] {
      var p := s[..|s| - 1];
      DedupProperties(p, t);
      var d0 := Dedup(p, t);
      var c := s[|s| - 1];
      assert s == p + [c];
      if IsDuplicate(c, d0, t) {
      } else {
        var d := d0 + [c];
        forall i, j | 0 <= i < j < |d| ensures !WithinDistance(d[j], d[i], t) {
          if j == |d0| {
            assert d[i] == d0[i];
          }
        }
        forall x | x in s ensures x in d || IsDuplicate(x, d, t) {
          if x != c {
            assert x in p;
            if !(x in d0) {
              var k :| 0 <= k < |d0| && WithinDistance(x, d0[k], t);
              assert d[k] == d0[k];
            }
          }
        }
      }
      if p == [] {
        assert d0 == [];
      } else {
        assert p[0] == s[0];
      }
    }
  }

  /** The de-duplication loop of `find_candidate_foreground_colors`. */
  method DedupCandidates(candidates: seq<Color>, t: real) returns (unique: seq<Color>)
    ensures unique == Dedup(candidates, t)
  {
    unique := [];
    for i := 0 to |candidates|
      invariant unique == Dedup(candidates[..i], t)
    {
      var candidate := candidates[i];
      var isDuplicate := false;
      for k := 0 to |unique|
        invariant !isDuplicate ==> forall j :: 0 <= j < k ==> !WithinDistance(candidate, unique[j], t)
        invariant isDuplicate ==> IsDuplicate(candidate, unique, t)
      {
        if DistSq(Normalize(candidate), Normalize(unique[k])) < t * t && 0.0 < t {
          isDuplicate := true;
          break;
        }
      }
      assert candidates[..i + 1][..i] == candidates[..i];
      if !isDuplicate {
        unique := unique + [candidate];
      }
    }
    assert candidates[..|candidates|] == candidates;
  }

  /** The alpha loop of candidate generation for one observed colour: each
      trial alpha whose foreground lies in the unit cube and passes the
      reconstruction check proposes that foreground, rounded to bytes. */
  method ProposeCandidates(obs: Color, bg: Color) returns (proposed: seq<Color>)
    ensures proposed == TrialCandidates(obs, bg, AlphaPercents)
  {
    var obsNorm, bgNorm := Normalize(obs), Normalize(bg);
    proposed := [];
    for j := 0 to |AlphaPercents|
      invariant proposed == TrialCandidates(obs, bg, AlphaPercents[..j])
    {
      assert AlphaPercents[..j + 1][..j] == AlphaPercents[..j];
      var alpha := AlphaPercents[j] as real / 100.0;
      var fg, valid := TrialChannels(obsNorm, bgNorm, alpha);
      if valid {
        var fgU8 := ByteColor(fg);
        var errorSq := ReconstructionErrorSq(obs, fg, bgNorm, alpha);
        if errorSq < MaxReconstructionError * MaxReconstructionError {
          proposed := proposed + [fgU8];
        }
      }
    }
    assert AlphaPercents[..|AlphaPercents|] == AlphaPercents;
  }

  /** `take(100)` on the sorted histogram: its first `MaxObservedColors`
      entries, or all of them when there are fewer. */
  function TopObserved(entries: seq<Entry>): (r: seq<Entry>)
    ensures |r| <= MaxObservedColors && |r| <= |entries| && r == entries[..|r|]
    ensures |entries| <= MaxObservedColors ==> r == entries
    ensures |entries| > MaxObservedColors ==> |r| == MaxObservedColors
  {
    if |entries| <= MaxObservedColors then entries else entries[..MaxObservedColors]
  }

  /** `find_candidate_foreground_colors`: candidates from the first 100
      histogram entries, de-duplicated, then cut down to `numCandidates` by
      farthest-point selection when there are more. */
  method FindCandidateForegroundColors(observed: seq<Entry>, bg: Color, numCandidates: nat, threshold: real)
    returns (r: seq<Color>)
    ensures var unique := Dedup(RawCandidates(TopObserved(observed), bg), threshold);
      && |r| <= numCandidates
      && (|unique| <= numCandidates ==> r == unique)
      && (|unique| > numCandidates ==> GreedySelection(unique, r, numCandidates))
  {
    var bgNorm := Normalize(bg);
    var candidates := [];
    var top := TopObserved(observed);
    for i := 0 to |top|
      invariant candidates == RawCandidates(top[..i], bg)
    {
      var obs := top[i].color;
      var obsNorm := Normalize(obs);
      assert top[..i + 1][..i] == top[..i];
      if DistSq(obsNorm, bgNorm) < NearBackgroundDistance * NearBackgroundDistance {
        continue;
      }
      var proposed := ProposeCandidates(obs, bg);
      candidates := candidates + proposed;
    }
    assert top[..|top|] == top;
    var unique := DedupCandidates(candidates, threshold);
    if |unique| > numCandidates {
      r := SelectMostDifferentColors(unique, numCandidates);
    } else {
      r := unique;
    }
  }

  // ---------------------------------------------------------------------
  // Farthest-point selection

  /** `max - min` over the channels. */
  function Spread(c: Color): int {
    var hi := if c.r >= c.g && c.r >= c.b then c.r else if c.g >= c.b then c.g else c.b;
    var lo := if c.r <= c.g && c.r <= c.b then c.r else if c.g <= c.b then c.g else c.b;
    hi - lo
  }

  /** `(color_distance(c, s) * 1000.0) as i32`: the distance is at most
      `sqrt(3)`, so the truncation never saturates and equals the integer
      square root of a million times the squared distance. */
  function DistanceKey(c: Color, s: Color): nat {
    FloorSqrt(1000000.0 * ColorDistSq(c, s))
  }

  /** The smallest distance key to the selected colours, `i32::MAX` when none is selected. */
  function MinDistanceKey(c: Color, selected: seq<Color>): int {
    if selected == [] then I32Max
    else if |selected| == 1 then DistanceKey(c, selected[0])
    else
      var rest := MinDistanceKey(c, selected[1..]);
      if DistanceKey(c, selected[0]) <= rest then DistanceKey(c, selected[0]) else rest
  }

  /** The key `max_by_key` maximises: the spread for the first pick, the
      distance to the nearest selected colour afterwards. */
  function SelectionKey(c: Color, selected: seq<Color>): int {
    if selected == [] then Spread(c) else MinDistanceKey(c, selected)
  }

  /** `max_by_key` over the colours not yet selected: the last one with the largest key. */
  function PickNext(colors: seq<Color>, selected: seq<Color>): Option<Color> {
    if colors == [] then None
    else
      var best := PickNext(colors[..|colors| - 1], selected);
      var c := colors[|colors| - 1];
      if c in selected then best
      else if best.None? || SelectionKey(c, selected) >= SelectionKey(best.value, selected) then Some(c)
      else best
  }

  /** `p` occurs at some position of `colors` after which every unselected
      colour has a smaller key. */
  ghost predicate LastWithLargestKey(colors: seq<Color>, selected: seq<Color>, p: Color) {
    exists k :: 0 <= k < |colors| && colors[k] == p &&
      forall j :: k < j < |colors| && colors[j] !in selected ==> SelectionKey(colors[j], selected) < SelectionKey(p, selected)
  }

  /** `PickNext` finds nothing exactly when every colour is selected. */
  lemma {:induction false} PickNextNone(colors: seq<Color>, selected: seq<Color>)
    ensures PickNext(colors, selected).None? <==> forall c :: c in colors ==> c in selected
  {
    if colors != [] {
      var n := |colors|;
      PickNextNone(colors[..n - 1], selected);
      assert colors == colors[..n - 1] + [colors[n - 1]];
    }
  }

  /** What `PickNext` picks is an unselected colour with the largest key. */
  lemma {:induction false} PickNextMaximal(colors: seq<Color>, selected: seq<Color>)
    requires PickNext(colors, selected).Some?
    ensures var p := PickNext(colors, selected).value;
      && p in colors && p !in selected
      && forall c :: c in colors && c !in selected ==> SelectionKey(c, selected) <= SelectionKey(p, selected)
  {
    var n := |colors|;
    var prefix := colors[..n - 1];
    assert colors == prefix + [colors[n - 1]];
    if PickNext(prefix, selected).Some? {
      PickNextMaximal(prefix, selected);
    } else {
      PickNextNone(prefix, selected);
    }
  }

  /** A position of the pick after which no unselected colour has as large a key. */
  lemma {:induction false} PickNextPosition(colors: seq<Color>, selected: seq<Color>) returns (k: nat)
    requires PickNext(colors, selected).Some?
    ensures k < |colors| && colors[k] == PickNext(colors, selected).value
    ensures forall j :: k < j < |colors| && colors[j] !in selected ==>
      SelectionKey(colors[j], selected) < SelectionKey(PickNext(colors, selected).value, selected)
  {
    var n := |colors|;
    var prefix := colors[..n - 1];
    var best := PickNext(prefix, selected);
    var c := colors[n - 1];
    if c !in selected && (best.None? || SelectionKey(c, selected) >= SelectionKey(best.value, selected)) {
      k := n - 1;
    } else {
      var p := best.value;
      assert PickNext(colors, selected).value == p;
      k := PickNextPosition(prefix, selected);
      forall j | k < j < n && colors[j] !in selected
        ensures SelectionKey(colors[j], selected) < SelectionKey(p, selected)
      {
        if j < n - 1 {
          assert colors[j] == prefix[j];
        }
      }
    }
  }

  /** No unselected colour after the pick has as large a key. */
  lemma PickNextLast(colors: seq<Color>, selected: seq<Color>)
    requires PickNext(colors, selected).Some?
    ensures LastWithLargestKey(colors, selected, PickNext(colors, selected).value)
  {
    var k := PickNextPosition(colors, selected);
  }

  /** `PickNext` finds nothing exactly when every colour is selected; what
      it picks is an unselected colour with the largest key, and no
      unselected colour after it has as large a key. */
  lemma PickNextProperties(colors: seq<Color>, selected: seq<Color>)
    ensures PickNext(colors, selected).None? <==> forall c :: c in colors ==> c in selected
    ensures PickNext(colors, selected).Some? ==>
      var p := PickNext(colors, selected).value;
      && p in colors && p !in selected
      && (forall c :: c in colors && c !in selected ==> SelectionKey(c, selected) <= SelectionKey(p, selected))
      && LastWithLargestKey(colors, selected, p)
  {
    PickNextNone(colors, selected);
    if PickNext(colors, selected).Some? {
      PickNextMaximal(colors, selected);
      PickNextLast(colors, selected);
    }
  }

  /** Each pick is `PickNext` of the picks before it. */
  ghost predicate GreedyPrefix(colors: seq<Color>, selected: seq<Color>) {
    forall k :: 0 <= k < |selected| ==> PickNext(colors, selected[..k]) == Some(selected[k])
  }

  lemma GreedyPrefixExtend(colors: seq<Color>, selected: seq<Color>)
    requires GreedyPrefix(colors, selected) && PickNext(colors, selected).Some?
    ensures GreedyPrefix(colors, selected + [PickNext(colors, selected).value])
  {
    var s := selected + [PickNext(colors, selected).value];
    forall k | 0 <= k < |s| ensures PickNext(colors, s[..k]) == Some(s[k]) {
      if k < |selected| {
        assert s[..k] == selected[..k];
      } else {
        assert s[..k] == selected;
      }
    }
  }

  /** `selected` is what the greedy loop produces from `colors` for `n`:
      each pick is `PickNext` of the picks before it, and the loop stopped
      early only when nothing was left to pick. */
  ghost predicate GreedySelection(colors: seq<Color>, selected: seq<Color>, n: nat) {
    && |selected| <= n
    && GreedyPrefix(colors, selected)
    && (|selected| < n ==> PickNext(colors, selected).None?)
  }

  /** `select_most_different_colors`. */
  method SelectMostDifferentColors(colors: seq<Color>, n: nat) returns (selected: seq<Color>)
    ensures |colors| <= n ==> selected == colors
    ensures |colors| > n ==> GreedySelection(colors, selected, n)
  {
    if |colors| <= n {
      return colors;
    }
    selected := [];
    while |selected| < n
      invariant |selected| <= n
      invariant GreedyPrefix(colors, selected)
      decreases n - |selected|
    {
      var next := PickNext(colors, selected);
      if next.Some? {
        GreedyPrefixExtend(colors, selected);
        selected := selected + [next.value];
      } else {
        break;
      }
    }
  }

  /** A greedy selection has no repeats and draws every colour from the
      input; its first pick has the largest channel spread; and it has `n`
      colours unless it took every distinct input colour. */
  lemma GreedySelectionProperties(colors: seq<Color>, selected: seq<Color>, n: nat)
    requires GreedySelection(colors, selected, n)
    ensures forall i, j :: 0 <= i < j < |selected| ==> selected[i] != selected[j]
    ensures forall c :: c in selected ==> c in colors
    ensures |selected| > 0 ==> forall c :: c in colors ==> Spread(c) <= Spread(selected[0])
    ensures |selected| == n || forall c :: c in colors ==> c in selected
  {
    forall k | 0 <= k < |selected|
      ensures selected[k] in colors && selected[k] !in selected[..k]
      ensures forall c :: c in colors && c !in selected[..k] ==> SelectionKey(c, selected[..k]) <= SelectionKey(selected[k], selected[..k])
    {
      PickNextProperties(colors, selected[..k]);
    }
    forall i, j | 0 <= i < j < |selected| ensures selected[i] != selected[j] {
      assert selected[i] in selected[..j];
    }
    if |selected| > 0 {
      assert selected[..0] == [];
    }
    if |selected| < n {
      PickNextProperties(colors, selected);
    }
  }

  // ---------------------------------------------------------------------
  // Standard colours

  /** `c` is within `d` of some colour in `cs`. */
  predicate NearAny(cs: seq<Color>, c: Color, d: real) {
    exists k :: 0 <= k < |cs| && WithinDistance(cs[k], c, d)
  }

  /** The standard-colour loop of `deduce_unknown_colors`: appends each
      standard colour that is not known, not the background, and not within
      0.01 of anything collected so far. */
  method AddStandardColors(candidates: seq<Color>, known: seq<Color>, bg: Color) returns (all: seq<Color>)
    ensures |candidates| <= |all| <= |candidates| + |StandardColors|
    ensures all[..|candidates|] == candidates
    ensures forall k :: |candidates| <= k < |all| ==> all[k] in StandardColors && all[k] !in known && all[k] != bg
    ensures forall k :: |candidates| <= k < |all| ==> !NearAny(all[..k], all[k], StandardColorMatchDistance)
    ensures forall c :: c in StandardColors ==> c in all || c in known || c == bg || NearAny(all, c, StandardColorMatchDistance)
  {
    all := candidates;
    for s := 0 to |StandardColors|
      invariant |candidates| <= |all| <= |candidates| + s
      invariant all[..|candidates|] == candidates
      invariant forall k :: |candidates| <= k < |all| ==> all[k] in StandardColors && all[k] !in known && all[k] != bg
      invariant forall k :: |candidates| <= k < |all| ==> !NearAny(all[..k], all[k], StandardColorMatchDistance)
      invariant forall q :: 0 <= q < s ==>
        StandardColors[q] in all || StandardColors[q] in known || StandardColors[q] == bg || NearAny(all, StandardColors[q], StandardColorMatchDistance)
    {
      var color := StandardColors[s];
      if color !in known && color != bg && !NearAny(all, color, StandardColorMatchDistance) {
        NearAnyGrows(all, color);
        assert forall k :: 0 <= k <= |all| ==> (all + [color])[..k] == all[..k];
        all := all + [color];
      }
    }
  }

  /** Appending a colour keeps every "near something" fact. */
  lemma NearAnyGrows(cs: seq<Color>, c: Color)
    ensures forall x, d :: NearAny(cs, x, d) ==> NearAny(cs + [c], x, d)
  {
    forall x, d | NearAny(cs, x, d) ensures NearAny(cs + [c], x, d) {
      var k :| 0 <= k < |cs| && WithinDistance(cs[k], x, d);
      assert (cs + [c])[k] == cs[k];
    }
  }

  // ---------------------------------------------------------------------
  // The search

  /** `evaluate_color_set(foregrounds, pixels, background)`. */
  type Score = (seq<Vec3>, seq<Entry>, Vec3) -> real

  /** The score of a trial with the given unknown colours. */
  function TrialScore(specs: seq<ForegroundSpec>, unknowns: seq<Color>, pixels: seq<Entry>, bg: Vec3, score: Score): real
    requires UnknownCount(specs) <= |unknowns|
  {
    score(TrialColors(specs, unknowns), pixels, bg)
  }

  /** The outcome of the single-unknown search: no candidate scores below
      `bestError`; either nothing was found and `bestError` is `f64::MAX`, or
      `best` is the first candidate of lowest score, below `f64::MAX`. */
  ghost predicate SinglesOutcome(specs: seq<ForegroundSpec>, cands: seq<Color>, pixels: seq<Entry>, bg: Vec3, score: Score,
                                 best: seq<Color>, bestError: real)
    requires UnknownCount(specs) == 1
  {
    && bestError <= F64Max
    && (forall k :: 0 <= k < |cands| ==> TrialScore(specs, [cands[k]], pixels, bg, score) >= bestError)
    && (best == [] ==> bestError == F64Max)
    && (best != [] ==>
      exists k ::
        && 0 <= k < |cands| && best == [cands[k]] && bestError < F64Max
        && TrialScore(specs, [cands[k]], pixels, bg, score) == bestError
        && forall j :: 0 <= j < k ==> TrialScore(specs, [cands[j]], pixels, bg, score) > bestError)
  }

  /** The single-unknown search: the first candidate with the lowest score below `f64::MAX`. */
  method SearchSingles(specs: seq<ForegroundSpec>, knownNorm: seq<Vec3>, cands: seq<Color>, pixels: seq<Entry>, bg: Vec3, score: Score)
    returns (best: seq<Color>, bestError: real)
    requires knownNorm == NormalizeAll(KnownColors(specs)) && UnknownCount(specs) == 1
    ensures SinglesOutcome(specs, cands, pixels, bg, score, best, bestError)
  {
    best, bestError := [], F64Max;
    ghost var bk := 0;
    for k := 0 to |cands|
      invariant bestError <= F64Max
      invariant forall j :: 0 <= j < k ==> TrialScore(specs, [cands[j]], pixels, bg, score) >= bestError
      invariant best == [] ==> bestError == F64Max
      invariant best != [] ==> (0 <= bk < k && best == [cands[bk]] && bestError < F64Max
        && TrialScore(specs, [cands[bk]], pixels, bg, score) == bestError
        && forall j :: 0 <= j < bk ==> TrialScore(specs, [cands[j]], pixels, bg, score) > bestError)
    {
      var testFg := BuildTrial(specs, knownNorm, [cands[k]]);
      var error := score(testFg, pixels, bg);
      if error < bestError {
        best, bestError := [cands[k]], error;
        bk := k;
      }
    }
  }

  /** Pair `(i2, j2)` comes before pair `(i1, j1)` in the loops' order. */
  predicate PairBefore(i2: int, j2: int, i1: int, j1: int) {
    i2 < i1 || (i2 == i1 && j2 < j1)
  }

  /** The score of the pair `(i, j)`. */
  function PairScore(specs: seq<ForegroundSpec>, cands: seq<Color>, i: nat, j: nat, pixels: seq<Entry>, bg: Vec3, score: Score): real
    requires i < |cands| && j < |cands| && UnknownCount(specs) == 2
  {
    TrialScore(specs, [cands[i], cands[j]], pixels, bg, score)
  }

  /** The outcome of the two-unknown search: no pair `i < j` scores below
      `bestError`; either nothing was found and `bestError` is `f64::MAX`, or
      `best` is the first pair of lowest score, below `f64::MAX`. */
  ghost predicate PairsOutcome(specs: seq<ForegroundSpec>, cands: seq<Color>, pixels: seq<Entry>, bg: Vec3, score: Score,
                               best: seq<Color>, bestError: real)
    requires UnknownCount(specs) == 2
  {
    && bestError <= F64Max
    && (forall i, j :: 0 <= i < j < |cands| ==> PairScore(specs, cands, i, j, pixels, bg, score) >= bestError)
    && (best == [] ==> bestError == F64Max)
    && (best != [] ==>
      exists i, j ::
        && 0 <= i < j < |cands| && best == [cands[i], cands[j]] && bestError < F64Max
        && PairScore(specs, cands, i, j, pixels, bg, score) == bestError
        && forall i2, j2 :: 0 <= i2 < j2 < |cands| && PairBefore(i2, j2, i, j) ==> PairScore(specs, cands, i2, j2, pixels, bg, score) > bestError)
  }

  /** The two-unknown search over pairs `i < j`: the first pair with the lowest score below `f64::MAX`. */
  method SearchPairs(specs: seq<ForegroundSpec>, knownNorm: seq<Vec3>, cands: seq<Color>, pixels: seq<Entry>, bg: Vec3, score: Score)
    returns (best: seq<Color>, bestError: real)
    requires knownNorm == NormalizeAll(KnownColors(specs)) && UnknownCount(specs) == 2
    ensures PairsOutcome(specs, cands, pixels, bg, score, best, bestError)
  {
    best, bestError := [], F64Max;
    ghost var bi, bj := 0, 0;
    for i := 0 to |cands|
      invariant bestError <= F64Max
      invariant forall i2, j2 :: 0 <= i2 < j2 < |cands| && i2 < i ==> PairScore(specs, cands, i2, j2, pixels, bg, score) >= bestError
      invariant best == [] ==> bestError == F64Max
      invariant best != [] ==> (0 <= bi < bj < |cands| && bi < i && best == [cands[bi], cands[bj]] && bestError < F64Max
        && PairScore(specs, cands, bi, bj, pixels, bg, score) == bestError
        && forall i2, j2 :: 0 <= i2 < j2 < |cands| && PairBefore(i2, j2, bi, bj) ==> PairScore(specs, cands, i2, j2, pixels, bg, score) > bestError)
    {
      for j := i + 1 to |cands|
        invariant bestError <= F64Max
        invariant forall i2, j2 :: 0 <= i2 < j2 < |cands| && PairBefore(i2, j2, i, j) ==> PairScore(specs, cands, i2, j2, pixels, bg, score) >= bestError
        invariant best == [] ==> bestError == F64Max
        invariant best != [] ==> (0 <= bi < bj < |cands| && PairBefore(bi, bj, i, j) && best == [cands[bi], cands[bj]] && bestError < F64Max
          && PairScore(specs, cands, bi, bj, pixels, bg, score) == bestError
          && forall i2, j2 :: 0 <= i2 < j2 < |cands| && PairBefore(i2, j2, bi, bj) ==> PairScore(specs, cands, i2, j2, pixels, bg, score) > bestError)
      {
        var testFg := BuildTrial(specs, knownNorm, [cands[i], cands[j]]);
        var error := score(testFg, pixels, bg);
        if error < bestError {
          best, bestError := [cands[i], cands[j]], error;
          bi, bj := i, j;
        }
      }
    }
  }

  /** Triple `(i2, j2, k2)` comes before triple `(i1, j1, k1)` in the loops' order. */
  predicate TripleBefore(i2: int, j2: int, k2: int, i1: int, j1: int, k1: int) {
    i2 < i1 || (i2 == i1 && (j2 < j1 || (j2 == j1 && k2 < k1)))
  }

  /** The score of the triple `(i, j, k)`. */
  function TripleScore(specs: seq<ForegroundSpec>, cands: seq<Color>, i: nat, j: nat, k: nat, pixels: seq<Entry>, bg: Vec3, score: Score): real
    requires i < |cands| && j < |cands| && k < |cands| && UnknownCount(specs) == 3
  {
    TrialScore(specs, [cands[i], cands[j], cands[k]], pixels, bg, score)
  }

  /** Every triple before `(i, j, k)` scores at least `e`. */
  ghost predicate TriplesAtLeast(specs: seq<ForegroundSpec>, cands: seq<Color>, i: int, j: int, k: int, pixels: seq<Entry>, bg: Vec3, score: Score, e: real)
    requires UnknownCount(specs) == 3
  {
    forall i2, j2, k2 :: 0 <= i2 < j2 < k2 < |cands| && TripleBefore(i2, j2, k2, i, j, k) ==> TripleScore(specs, cands, i2, j2, k2, pixels, bg, score) >= e
  }

  /** Every triple before `(i, j, k)` scores above `e`. */
  ghost predicate TriplesAbove(specs: seq<ForegroundSpec>, cands: seq<Color>, i: int, j: int, k: int, pixels: seq<Entry>, bg: Vec3, score: Score, e: real)
    requires UnknownCount(specs) == 3
  {
    forall i2, j2, k2 :: 0 <= i2 < j2 < k2 < |cands| && TripleBefore(i2, j2, k2, i, j, k) ==> TripleScore(specs, cands, i2, j2, k2, pixels, bg, score) > e
  }

  /** The state of the triple search before `(i, j, k)`: every earlier
      triple scores at least `bestError`, and a non-empty `best` is the
      first earlier triple `(bi, bj, bk)` with that score. */
  ghost predicate TripleSearchState(specs: seq<ForegroundSpec>, cands: seq<Color>, pixels: seq<Entry>, bg: Vec3, score: Score,
                                    best: seq<Color>, bestError: real, bi: nat, bj: nat, bk: nat, i: int, j: int, k: int)
    requires UnknownCount(specs) == 3
  {
    && bestError <= F64Max
    && TriplesAtLeast(specs, cands, i, j, k, pixels, bg, score, bestError)
    && (best == [] ==> bestError == F64Max)
    && (best != [] ==>
          && bi < bj < bk < |cands| && TripleBefore(bi, bj, bk, i, j, k) && best == [cands[bi], cands[bj], cands[bk]]
          && bestError < F64Max && TripleScore(specs, cands, bi, bj, bk, pixels, bg, score) == bestError
          && TriplesAbove(specs, cands, bi, bj, bk, pixels, bg, score, bestError))
  }

  /** The innermost loop of the triple search: `(i, j, k)` for every `k > j`.
      It hands the search state on from `(i, j, 0)` to `(i, j + 1, 0)`: the
      returned `best` and `bestError` are the first lowest-scoring triple so
      far and its score, and the ghost results name that triple's indices. */
  method SearchTriplesFrom(specs: seq<ForegroundSpec>, knownNorm: seq<Vec3>, cands: seq<Color>, pixels: seq<Entry>, bg: Vec3, score: Score,
                           i: nat, j: nat, best0: seq<Color>, bestError0: real, ghost bi0: nat, ghost bj0: nat, ghost bk0: nat)
    returns (best: seq<Color>, bestError: real, ghost bi: nat, ghost bj: nat, ghost bk: nat)
    requires knownNorm == NormalizeAll(KnownColors(specs)) && UnknownCount(specs) == 3
    requires i < j < |cands|
    requires TripleSearchState(specs, cands, pixels, bg, score, best0, bestError0, bi0, bj0, bk0, i, j, 0)
    ensures TripleSearchState(specs, cands, pixels, bg, score, best, bestError, bi, bj, bk, i, j + 1, 0)
  {
    best, bestError, bi, bj, bk := best0, bestError0, bi0, bj0, bk0;
    for k := j + 1 to |cands|
      invariant TripleSearchState(specs, cands, pixels, bg, score, best, bestError, bi, bj, bk, i, j, k)
    {
      var testFg := BuildTrial(specs, knownNorm, [cands[i], cands[j], cands[k]]);
      var error := score(testFg, pixels, bg);
      if error < bestError {
        best, bestError := [cands[i], cands[j], cands[k]], error;
        bi, bj, bk := i, j, k;
      }
    }
  }

  /** The outcome of the three-unknown search: no triple `i < j < k` scores
      below `bestError`; either nothing was found and `bestError` is
      `f64::MAX`, or `best` is the first triple of lowest score, below
      `f64::MAX`. */
  ghost predicate TriplesOutcome(specs: seq<ForegroundSpec>, cands: seq<Color>, pixels: seq<Entry>, bg: Vec3, score: Score,
                                 best: seq<Color>, bestError: real)
    requires UnknownCount(specs) == 3
  {
    && bestError <= F64Max
    && TriplesAtLeast(specs, cands, |cands|, 0, 0, pixels, bg, score, bestError)
    && (best == [] ==> bestError == F64Max)
    && (best != [] ==>
      exists i, j, k ::
        && 0 <= i < j < k < |cands| && best == [cands[i], cands[j], cands[k]] && bestError < F64Max
        && TripleScore(specs, cands, i, j, k, pixels, bg, score) == bestError
        && TriplesAbove(specs, cands, i, j, k, pixels, bg, score, bestError))
  }

  /** The three-unknown search over triples `i < j < k`: the first triple with the lowest score below `f64::MAX`. */
  method SearchTriples(specs: seq<ForegroundSpec>, knownNorm: seq<Vec3>, cands: seq<Color>, pixels: seq<Entry>, bg: Vec3, score: Score)
    returns (best: seq<Color>, bestError: real)
    requires knownNorm == NormalizeAll(KnownColors(specs)) && UnknownCount(specs) == 3
    ensures TriplesOutcome(specs, cands, pixels, bg, score, best, bestError)
  {
    best, bestError := [], F64Max;
    ghost var bi: nat, bj: nat, bk: nat := 0, 0, 0;
    for i := 0 to |cands|
      invariant TripleSearchState(specs, cands, pixels, bg, score, best, bestError, bi, bj, bk, i, 0, 0)
    {
      for j := i + 1 to |cands|
        invariant TripleSearchState(specs, cands, pixels, bg, score, best, bestError, bi, bj, bk, i, j, 0)
      {
        best, bestError, bi, bj, bk := SearchTriplesFrom(specs, knownNorm, cands, pixels, bg, score, i, j, best, bestError, bi, bj, bk);
      }
    }
  }

  // ---------------------------------------------------------------------
  // Top level

  /** The generated candidates for `n` slots: every de-duplicated proposal
      from the 100 most frequent colours when there are at most `n`, otherwise
      their greedy most-different selection of `n`. */
  ghost predicate FoundCandidates(found: seq<Color>, histogram: seq<Entry>, bg: Color, n: nat, threshold: real) {
    var unique := Dedup(RawCandidates(TopObserved(histogram), bg), threshold);
    && (|unique| <= n ==> found == unique)
    && (|unique| > n ==> GreedySelection(unique, found, n))
  }

  /** `all` is `found` followed by standard colours that are neither known nor
      the background nor within 0.01 of a colour collected before them, and
      every standard colour is in `all`, known, the
      background, or within 0.01 of a collected colour. */
  ghost predicate StandardsAdded(found: seq<Color>, known: seq<Color>, bg: Color, all: seq<Color>) {
    && |found| <= |all| <= |found| + |StandardColors|
    && all[..|found|] == found
    && (forall k :: |found| <= k < |all| ==> all[k] in StandardColors && all[k] !in known && all[k] != bg)
    && (forall k :: |found| <= k < |all| ==> !NearAny(all[..k], all[k], StandardColorMatchDistance))
    && (forall c :: c in StandardColors ==> c in all || c in known || c == bg || NearAny(all, c, StandardColorMatchDistance))
  }

  /** An appended standard colour repeats no colour collected before it,
      since every colour is within 0.01 of itself. */
  lemma StandardsAddedNoRepeat(found: seq<Color>, known: seq<Color>, bg: Color, all: seq<Color>)
    requires StandardsAdded(found, known, bg, all)
    ensures forall k :: |found| <= k < |all| ==> all[k] !in all[..k]
  {
    forall k | |found| <= k < |all| ensures all[k] !in all[..k] {
      NotNearIsAbsent(all[..k], all[k], StandardColorMatchDistance);
    }
  }

  /** A colour not within a positive distance of any colour of `cs` is not in `cs`. */
  lemma NotNearIsAbsent(cs: seq<Color>, c: Color, d: real)
    requires d > 0.0 && !NearAny(cs, c, d)
    ensures c !in cs
  {
    SelfWithinDistance(c, d);
    AbsentWhenSelfNear(cs, c, d);
  }

  /** Far from every colour of `cs`, a colour near itself is not in `cs`. */
  lemma AbsentWhenSelfNear(cs: seq<Color>, c: Color, d: real)
    requires !NearAny(cs, c, d)
    ensures WithinDistance(c, c, d) ==> c !in cs
  {
  }

  /** Every colour is within any positive distance of itself. */
  lemma SelfWithinDistance(c: Color, d: real)
    requires d > 0.0
    ensures WithinDistance(c, c, d)
  {
    DistSqSelf(Normalize(c));
    ZeroBelowPositive(d);
  }

  /** The candidate pool of `deduce_unknown_colors`: up to ten generated
      candidates per unknown, followed by the standard colours that survive. */
  method CollectCandidates(histogram: seq<Entry>, known: seq<Color>, bg: Color, unknownCount: nat, threshold: real)
    returns (all: seq<Color>)
    ensures CandidatePool(all, histogram, known, bg, unknownCount, threshold)
  {
    var candidates := FindCandidateForegroundColors(histogram, bg, unknownCount * CandidatesPerUnknown, threshold);
    all := AddStandardColors(candidates, known, bg);
    ghost var unique := Dedup(RawCandidates(TopObserved(histogram), bg), threshold);
    if |unique| > unknownCount * CandidatesPerUnknown {
      GreedySelectionProperties(unique, candidates, unknownCount * CandidatesPerUnknown);
    }
    forall k | 0 <= k < |all| ensures InCandidatePool(all[k], histogram, bg, threshold) {
      if k < |candidates| {
        assert all[k] == candidates[k];
      }
    }
    assert FoundCandidates(candidates, histogram, bg, CandidatesPerUnknown * unknownCount, threshold);
    assert StandardsAdded(candidates, known, bg, all);
  }

  /** The outcome of the search stage, branch by branch as the source
      dispatches on the number of unknowns and of candidates. */
  ghost predicate SearchOutcome(specs: seq<ForegroundSpec>, cands: seq<Color>, pixels: seq<Entry>, bg: Vec3, score: Score,
                                best: seq<Color>, bestError: real)
    requires UnknownCount(specs) > 0
  {
    var u := UnknownCount(specs);
    if u == 1 then SinglesOutcome(specs, cands, pixels, bg, score, best, bestError)
    else if u == 2 && |cands| <= MaxCandidates2Unknowns then PairsOutcome(specs, cands, pixels, bg, score, best, bestError)
    else if u == 3 && |cands| <= MaxCandidates3UnknownsAll then TriplesOutcome(specs, cands, pixels, bg, score, best, bestError)
    else if u == 3 then
      exists tried ::
        && GreedySelection(cands, tried, MaxCandidates3UnknownsSelected)
        && TriplesOutcome(specs, tried, pixels, bg, score, best, bestError)
    else
      && bestError == F64Max
      && (|cands| <= u ==> best == cands)
      && (|cands| > u ==> GreedySelection(cands, best, u))
  }

  /** The search stage of `deduce_unknown_colors`: exhaustive over singles,
      pairs (at most 30 candidates) or triples (the 20 most different when
      there are more than 25 candidates); otherwise the most different
      candidates themselves. Whatever it picks is a candidate. */
  method SearchBest(specs: seq<ForegroundSpec>, knownNorm: seq<Vec3>, allCandidates: seq<Color>, histogram: seq<Entry>, bgNorm: Vec3, score: Score)
    returns (bestColors: seq<Color>, bestError: real)
    requires knownNorm == NormalizeAll(KnownColors(specs)) && UnknownCount(specs) > 0
    ensures SearchOutcome(specs, allCandidates, histogram, bgNorm, score, bestColors, bestError)
    ensures forall c :: c in bestColors ==> c in allCandidates
    ensures |bestColors| <= UnknownCount(specs)
  {
    var unknownCount := UnknownCount(specs);
    if unknownCount == 1 {
      bestColors, bestError := SearchSingles(specs, knownNorm, allCandidates, histogram, bgNorm, score);
    } else if unknownCount == 2 && |allCandidates| <= MaxCandidates2Unknowns {
      bestColors, bestError := SearchPairs(specs, knownNorm, allCandidates, histogram, bgNorm, score);
    } else if unknownCount == 3 {
      var candidatesToTry := allCandidates;
      if |allCandidates| > MaxCandidates3UnknownsAll {
        candidatesToTry := SelectMostDifferentColors(allCandidates, MaxCandidates3UnknownsSelected);
        GreedySelectionProperties(allCandidates, candidatesToTry, MaxCandidates3UnknownsSelected);
      }
      bestColors, bestError := SearchTriples(specs, knownNorm, candidatesToTry, histogram, bgNorm, score);
    } else {
      bestColors := SelectMostDifferentColors(allCandidates, unknownCount);
      bestError := F64Max;
      if |allCandidates| > unknownCount {
        GreedySelectionProperties(allCandidates, bestColors, unknownCount);
      }
    }
  }

  /** The colours the search may choose from for a given histogram: the
      de-duplicated candidates of its 100 most frequent colours, and the
      standard palette. */
  ghost predicate InCandidatePool(c: Color, histogram: seq<Entry>, bg: Color, threshold: real) {
    c in Dedup(RawCandidates(TopObserved(histogram), bg), threshold) || c in StandardColors
  }

  /** A candidate pool as `CollectCandidates` builds it: the generated
      candidates for ten per unknown, followed by the surviving standard
      colours, all from the pool. */
  ghost predicate CandidatePool(all: seq<Color>, histogram: seq<Entry>, known: seq<Color>, bg: Color, unknownCount: nat, threshold: real) {
    && (exists found ::
          && FoundCandidates(found, histogram, bg, CandidatesPerUnknown * unknownCount, threshold)
          && StandardsAdded(found, known, bg, all))
    && |all| <= CandidatesPerUnknown * unknownCount + |StandardColors|
    && forall k :: 0 <= k < |all| ==> InCandidatePool(all[k], histogram, bg, threshold)
  }

  /** The pool holds every de-duplicated proposal when they fit the
      budget of ten per unknown, and is never empty when there is a proposal. */
  lemma PoolKeepsProposals(all: seq<Color>, histogram: seq<Entry>, known: seq<Color>, bg: Color, unknownCount: nat, threshold: real)
    requires CandidatePool(all, histogram, known, bg, unknownCount, threshold) && unknownCount > 0
    ensures var unique := Dedup(RawCandidates(TopObserved(histogram), bg), threshold);
      && (|unique| <= CandidatesPerUnknown * unknownCount ==> forall c :: c in unique ==> c in all)
      && (unique != [] ==> all != [])
  {
    var unique := Dedup(RawCandidates(TopObserved(histogram), bg), threshold);
    var n := CandidatesPerUnknown * unknownCount;
    var found :| FoundCandidates(found, histogram, bg, n, threshold) && StandardsAdded(found, known, bg, all);
    forall c | c in found ensures c in all {
      var k :| 0 <= k < |found| && found[k] == c;
      assert all[..|found|][k] == c;
    }
    if |unique| > n {
      GreedySelectionProperties(unique, found, n);
    }
  }

  /** `r` is `specs` with each known colour in place and the `n`-th unknown
      slot filled with `best[n]`, or gray when `best` has no `n`-th colour. */
  ghost predicate FilledFrom(specs: seq<ForegroundSpec>, best: seq<Color>, r: seq<Color>) {
    && |r| == |specs|
    && (forall i :: 0 <= i < |specs| && specs[i].Known? ==> r[i] == specs[i].color)
    && (forall i :: 0 <= i < |specs| && specs[i].Unknown? ==>
          r[i] == if UnknownCount(specs[..i]) < |best| then best[UnknownCount(specs[..i])] else Gray)
  }

  /** Every unknown slot of `r` holds gray (nothing found) or a colour of the pool. */
  ghost predicate UnknownsFromPool(specs: seq<ForegroundSpec>, r: seq<Color>, histogram: seq<Entry>, bg: Color, threshold: real)
    requires |r| == |specs|
  {
    forall i :: 0 <= i < |specs| && specs[i].Unknown? ==> r[i] == Gray || InCandidatePool(r[i], histogram, bg, threshold)
  }

  /** `deduce_unknown_colors` over the image's pixels (as RGB, alpha
      dropped): one colour per spec, known colours kept in place; with no
      unknown spec, the known colours themselves; otherwise every deduced
      colour is gray or comes from the candidate pool of the image's
      histogram, ordered by decreasing count, and the unknown slots are
      filled, in order, with the outcome of the search over that pool. */
  method DeduceUnknownColors(pixels: seq<Color>, specs: seq<ForegroundSpec>, bg: Color, threshold: real, score: Score)
    returns (r: seq<Color>)
    ensures |r| == |specs|
    ensures forall i :: 0 <= i < |specs| && specs[i].Known? ==> r[i] == specs[i].color
    ensures UnknownCount(specs) == 0 ==> r == KnownColors(specs)
    ensures UnknownCount(specs) > 0 ==>
      exists histogram, pool, best, bestError ::
        && IsHistogram(histogram, pixels) && CountsNonIncreasing(histogram)
        && CandidatePool(pool, histogram, KnownColors(specs), bg, UnknownCount(specs), threshold)
        && SearchOutcome(specs, pool, histogram, Normalize(bg), score, best, bestError)
        && FilledFrom(specs, best, r)
        && UnknownsFromPool(specs, r, histogram, bg, threshold)
  {
    var known, unknownIndices := SplitSpecs(specs);
    if |unknownIndices| == 0 {
      AllKnown(specs);
      return known;
    }

    var histogram := ColorHistogram(pixels);
    var unknownCount := |unknownIndices|;
    var allCandidates := CollectCandidates(histogram, known, bg, unknownCount, threshold);
    // With two unknowns there are at most 28 candidates, so the pair search always runs.
    assert unknownCount == 2 ==> |allCandidates| <= MaxCandidates2Unknowns;

    var bestColors, bestError := SearchBest(specs, NormalizeAll(known), allCandidates, histogram, Normalize(bg), score);
    r := Reassemble(specs, bestColors);
    assert FilledFrom(specs, bestColors, r);
    forall i | 0 <= i < |specs| && specs[i].Unknown?
      ensures r[i] == Gray || InCandidatePool(r[i], histogram, bg, threshold)
    {
      var rank := UnknownCount(specs[..i]);
      if rank < |bestColors| {
        assert bestColors[rank] in bestColors;
      }
    }
  }
}
