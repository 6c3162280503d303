/** Background detection: sample the four corners and every `interval`-th
    pixel of the four edges, composite translucent samples over black, count
    the resulting colours and take one with the largest count. */
module Background {
  import opened Numeric
  import opened ColorSpace
  import opened Deduce

  /** Sample every this many pixels along the edges, by default. */
  const DefaultEdgeSampleInterval: nat := 10

  /** The fallback when nothing was counted. */
  const Black: Color := RGB(0, 0, 0)

  /** A sample position: column `x`, row `y`. */
  datatype Point = Point(x: nat, y: nat)

  /** `⌈n / k⌉`: how many of `0, k, 2k, …` lie below `n`. */
  function StrideCount(n: nat, k: nat): nat
    requires k >= 1
  {
    (n + k - 1) / k
  }

  /** The `q`-th stride position, `q * k`. */
  function StrideAt(q: nat, k: nat): nat {
    q * k
  }

  /** The four corners, in the order they are pushed. */
  function Corners(width: nat, height: nat): seq<Point>
    requires width >= 1 && height >= 1
  {
    [Point(0, 0), Point(width - 1, 0), Point(0, height - 1), Point(width - 1, height - 1)]
  }

  /** `p` is a corner, a top or bottom sample at a stride position of the
      width, or a left or right sample at a stride position of the height. */
  predicate IsSamplePoint(p: Point, width: nat, height: nat, k: nat)
    requires width >= 1 && height >= 1 && k >= 1
  {
    || p in Corners(width, height)
    || (exists q :: 0 <= q < StrideCount(width, k) && (p == Point(StrideAt(q, k), 0) || p == Point(StrideAt(q, k), height - 1)))
    || (exists q :: 0 <= q < StrideCount(height, k) && (p == Point(0, StrideAt(q, k)) || p == Point(width - 1, StrideAt(q, k))))
  }

  /** The sample list of `detect_background_color_with_config`: the
      corners first, then each stride position of the top and bottom rows
      and of the left and right columns, without de-duplication. */
  ghost predicate ValidSamplePoints(points: seq<Point>, width: nat, height: nat, k: nat)
    requires width >= 1 && height >= 1 && k >= 1
  {
    && |points| == 4 + 2 * StrideCount(width, k) + 2 * StrideCount(height, k)
    && points[..4] == Corners(width, height)
    && (forall i :: 0 <= i < |points| ==> points[i].x < width && points[i].y < height && IsSamplePoint(points[i], width, height, k))
    && (forall q :: 0 <= q < StrideCount(width, k) ==> Point(StrideAt(q, k), 0) in points && Point(StrideAt(q, k), height - 1) in points)
    && (forall q :: 0 <= q < StrideCount(height, k) ==> Point(0, StrideAt(q, k)) in points && Point(width - 1, StrideAt(q, k)) in points)
  }

  /** A stride loop that stopped at the first multiple `m * k` at or beyond `n`
      ran `⌈n / k⌉` times. */
  lemma StrideLoopCount(n: nat, k: nat, m: nat)
    requires n >= 1 && k >= 1
    requires m * k >= n && (m - 1) * k < n
    ensures m == StrideCount(n, k)
  {
    var q := (n + k - 1) / k;
    assert q * k <= n + k - 1 < (q + 1) * k;
    assert m * k <= n + k - 1 by {
      assert (m - 1) * k <= n - 1;
      assert m * k == (m - 1) * k + k;
    }
    assert (m + 1) * k > n + k - 1 by {
      assert (m + 1) * k == m * k + k;
    }
    if m < q {
      MultiplyMonotone(m + 1, q, k);
    } else if q < m {
      MultiplyMonotone(q + 1, m, k);
    }
  }

  /** The next stride position is `k` further on. */
  lemma StrideStep(q: nat, k: nat)
    ensures StrideAt(q + 1, k) == StrideAt(q, k) + k
  {
  }

  lemma MultiplyMonotone(a: nat, b: nat, k: nat)
    requires a <= b
    ensures a * k <= b * k
  {
  }

  /** The top and bottom samples of the first `m` strides, in push order. */
  function RowSamples(m: nat, k: nat, height: nat): (r: seq<Point>)
    requires height >= 1
    ensures |r| == 2 * m
    ensures forall j :: 0 <= j < |r| ==> r[j] == Point(StrideAt(j / 2, k), if j % 2 == 0 then 0 else height - 1)
  {
    if m == 0 then [] else RowSamples(m - 1, k, height) + [Point(StrideAt(m - 1, k), 0), Point(StrideAt(m - 1, k), height - 1)]
  }

  /** The left and right samples of the first `l` strides, in push order. */
  function ColumnSamples(l: nat, k: nat, width: nat): (r: seq<Point>)
    requires width >= 1
    ensures |r| == 2 * l
    ensures forall j :: 0 <= j < |r| ==> r[j] == Point(if j % 2 == 0 then 0 else width - 1, StrideAt(j / 2, k))
  {
    if l == 0 then [] else ColumnSamples(l - 1, k, width) + [Point(0, StrideAt(l - 1, k)), Point(width - 1, StrideAt(l - 1, k))]
  }

  /** Every stride position counted by `StrideCount(n, k)` lies below `n`. */
  lemma StridesBelow(n: nat, k: nat, q: nat)
    requires k >= 1 && q < StrideCount(n, k)
    ensures StrideAt(q, k) < n
  {
    var m := StrideCount(n, k);
    assert m * k <= n + k - 1;
    MultiplyMonotone(q + 1, m, k);
    assert (q + 1) * k == q * k + k;
  }

  /** Row sample `j` lies in the image on the top or bottom row at a stride position. */
  lemma RowSampleValid(width: nat, height: nat, k: nat, j: nat)
    requires width >= 1 && height >= 1 && k >= 1 && j < 2 * StrideCount(width, k)
    ensures var p := RowSamples(StrideCount(width, k), k, height)[j];
      p.x < width && p.y < height && IsSamplePoint(p, width, height, k)
  {
    var q := j / 2;
    StridesBelow(width, k, q);
    var p := RowSamples(StrideCount(width, k), k, height)[j];
    assert p == Point(StrideAt(q, k), 0) || p == Point(StrideAt(q, k), height - 1);
  }

  /** Column sample `j` lies in the image on the left or right column at a stride position. */
  lemma ColumnSampleValid(width: nat, height: nat, k: nat, j: nat)
    requires width >= 1 && height >= 1 && k >= 1 && j < 2 * StrideCount(height, k)
    ensures var p := ColumnSamples(StrideCount(height, k), k, width)[j];
      p.x < width && p.y < height && IsSamplePoint(p, width, height, k)
  {
    var q := j / 2;
    StridesBelow(height, k, q);
    var p := ColumnSamples(StrideCount(height, k), k, width)[j];
    assert p == Point(0, StrideAt(q, k)) || p == Point(width - 1, StrideAt(q, k));
  }

  /** The corners followed by the row and column samples form a valid sample list. */
  lemma SampleListValid(width: nat, height: nat, k: nat)
    requires width >= 1 && height >= 1 && k >= 1
    ensures ValidSamplePoints(Corners(width, height) + RowSamples(StrideCount(width, k), k, height)
                                + ColumnSamples(StrideCount(height, k), k, width), width, height, k)
  {
    var cs, rs, ls := Corners(width, height), RowSamples(StrideCount(width, k), k, height), ColumnSamples(StrideCount(height, k), k, width);
    var points := cs + rs + ls;
    assert points[..4] == cs;
    forall i | 0 <= i < |points|
      ensures points[i].x < width && points[i].y < height && IsSamplePoint(points[i], width, height, k)
    {
      if i < 4 {
        assert points[i] == cs[i];
      } else if i < 4 + |rs| {
        assert points[i] == rs[i - 4];
        RowSampleValid(width, height, k, i - 4);
      } else {
        assert points[i] == ls[i - 4 - |rs|];
        ColumnSampleValid(width, height, k, i - 4 - |rs|);
      }
    }
    RowSamplesInclude(StrideCount(width, k), k, height);
    ColumnSamplesInclude(StrideCount(height, k), k, width);
  }

  /** The sample list of `detect_background_color_with_config`, entry by
      entry and with its repetitions: the corners, the row samples, the
      column samples. */
  function SampleList(width: nat, height: nat, k: nat): (points: seq<Point>)
    requires width >= 1 && height >= 1 && k >= 1
    ensures ValidSamplePoints(points, width, height, k)
  {
    SampleListValid(width, height, k);
    Corners(width, height) + RowSamples(StrideCount(width, k), k, height) + ColumnSamples(StrideCount(height, k), k, width)
  }

  /** The row samples of `m` strides hold both edge points of each stride. */
  lemma {:induction false} RowSamplesInclude(m: nat, k: nat, height: nat)
    requires height >= 1
    ensures forall q :: 0 <= q < m ==>
      Point(StrideAt(q, k), 0) in RowSamples(m, k, height) && Point(StrideAt(q, k), height - 1) in RowSamples(m, k, height)
  {
    if m > 0 {
      RowSamplesInclude(m - 1, k, height);
    }
  }

  /** The column samples of `l` strides hold both edge points of each stride. */
  lemma {:induction false} ColumnSamplesInclude(l: nat, k: nat, width: nat)
    requires width >= 1
    ensures forall q :: 0 <= q < l ==>
      Point(0, StrideAt(q, k)) in ColumnSamples(l, k, width) && Point(width - 1, StrideAt(q, k)) in ColumnSamples(l, k, width)
  {
    if l > 0 {
      ColumnSamplesInclude(l - 1, k, width);
    }
  }

  /** The sampling loops: the corners, then `(x, 0)` and `(x, h - 1)` for
      `x` stepping by `interval` below the width, then `(0, y)` and
      `(w - 1, y)` for `y` stepping by `interval` below the height. */
  method SamplePoints(width: nat, height: nat, interval: nat) returns (points: seq<Point>)
    requires width >= 1 && height >= 1 && interval >= 1
    ensures points == SampleList(width, height, interval)
    ensures ValidSamplePoints(points, width, height, interval)
  {
    points := Corners(width, height);
    var x := 0;
    ghost var m := 0;
    while x < width
      invariant x == StrideAt(m, interval) && (m == 0 || StrideAt(m - 1, interval) < width)
      invariant points == Corners(width, height) + RowSamples(m, interval, height)
      decreases width - x
    {
      points := points + [Point(x, 0), Point(x, height - 1)];
      assert RowSamples(m + 1, interval, height) == RowSamples(m, interval, height) + [Point(x, 0), Point(x, height - 1)];
      StrideStep(m, interval);
      x := x + interval;
      m := m + 1;
    }
    StrideLoopCount(width, interval, m);
    var y := 0;
    ghost var l := 0;
    while y < height
      invariant y == StrideAt(l, interval) && (l == 0 || StrideAt(l - 1, interval) < height)
      invariant points == Corners(width, height) + RowSamples(m, interval, height) + ColumnSamples(l, interval, width)
      decreases height - y
    {
      points := points + [Point(0, y), Point(width - 1, y)];
      assert ColumnSamples(l + 1, interval, width) == ColumnSamples(l, interval, width) + [Point(0, y), Point(width - 1, y)];
      StrideStep(l, interval);
      y := y + interval;
      l := l + 1;
    }
    StrideLoopCount(height, interval, l);
  }

  /** One channel composited over black at opacity `alpha`: `(p * alpha).round()`. */
  function OverBlack(p: Byte, alpha: real): (c: Byte)
    requires 0.0 <= alpha <= 1.0
    ensures c <= p
  {
    RoundedFractionAtMost(p as nat, alpha);
    RoundHalfAway(p as real * alpha)
  }

  /** A rounded fraction of `p` lies between 0 and `p`. */
  lemma RoundedFractionAtMost(p: nat, alpha: real)
    requires 0.0 <= alpha <= 1.0
    ensures 0 <= RoundHalfAway(p as real * alpha) <= p
  {
    ScaledFraction(p as real, alpha);
    assert p as real * alpha == alpha * p as real;
    RoundBetween(p as real * alpha, 0, p);
  }

  /** The colour a sample counts as: its RGB when opaque, otherwise its
      channels composited over black. */
  function EffectiveColor(px: Pixel): Color {
    var alpha := px.a as real / 255.0;
    if alpha < 1.0 then RGB(OverBlack(px.r, alpha), OverBlack(px.g, alpha), OverBlack(px.b, alpha))
    else px.Rgb()
  }

  /** An opaque sample counts as its RGB, a fully transparent one as black,
      and compositing over black never raises a channel above the raw one. */
  lemma EffectiveColorProperties(px: Pixel)
    ensures px.a == 255 ==> EffectiveColor(px) == px.Rgb()
    ensures px.a == 0 ==> EffectiveColor(px) == Black
    ensures var c := EffectiveColor(px); c.r <= px.r && c.g <= px.g && c.b <= px.b
  {
    if px.a == 0 {
      RoundOfInteger(0);
    }
  }

  /** Every sample point lies inside the image. */
  predicate InImage(points: seq<Point>, img: array2<Pixel>)
    reads img
  {
    forall i :: 0 <= i < |points| ==> points[i].y < img.Length0 && points[i].x < img.Length1
  }

  /** The colours counted for the sample points, in order. */
  ghost function SampleColors(img: array2<Pixel>, points: seq<Point>): seq<Color>
    reads img
    requires InImage(points, img)
  {
    if points == [] then []
    else
      var p := points[|points| - 1];
      SampleColors(img, points[..|points| - 1]) + [EffectiveColor(img[p.y, p.x])]
  }

  /** `c` is sampled, and no colour is sampled more often. */
  ghost predicate MostCommon(c: Color, samples: seq<Color>) {
    c in samples && forall d :: Occurrences(samples, d) <= Occurrences(samples, c)
  }

  /** `max_by_key` over the counts: the colour of an entry with the largest
      count (the last such entry in the counting order), black if there is none. */
  method MaxCount(entries: seq<Entry>) returns (c: Color)
    ensures entries == [] ==> c == Black
    ensures entries != [] ==>
      exists k ::
        && 0 <= k < |entries| && entries[k].color == c
        && forall j :: 0 <= j < |entries| ==> entries[j].count <= entries[k].count
  {
    if entries == [] {
      return Black;
    }
    var best := 0;
    for k := 1 to |entries|
      invariant 0 <= best < k
      invariant forall j :: 0 <= j < k ==> entries[j].count <= entries[best].count
    {
      if entries[k].count >= entries[best].count {
        best := k;
      }
    }
    c := entries[best].color;
  }

  /** The counting loop: the colour of every sample point, tallied. */
  method CountSamples(img: array2<Pixel>, points: seq<Point>) returns (counts: seq<Entry>)
    requires InImage(points, img)
    ensures IsHistogram(counts, SampleColors(img, points))
  {
    counts := [];
    ghost var samples: seq<Color> := [];
    for i := 0 to |points|
      invariant samples == SampleColors(img, points[..i])
      invariant IsHistogram(counts, samples)
    {
      var p := points[i];
      var color := EffectiveColor(img[p.y, p.x]);
      assert points[..i + 1][..i] == points[..i];
      counts := CountPixel(counts, samples, color);
      samples := samples + [color];
    }
    assert points[..|points|] == points;
  }

  /** The colour of an entry with the largest count in a histogram of
      non-empty samples occurs most often among them. */
  lemma LargestCountIsMostCommon(counts: seq<Entry>, samples: seq<Color>, k: nat)
    requires IsHistogram(counts, samples) && samples != []
    requires k < |counts| && forall j :: 0 <= j < |counts| ==> counts[j].count <= counts[k].count
    ensures MostCommon(counts[k].color, samples)
  {
    var c := counts[k].color;
    forall d ensures Occurrences(samples, d) <= Occurrences(samples, c) {
      if d in samples {
        var j :| 0 <= j < |counts| && counts[j].color == d;
      }
    }
  }

  /** `detect_background_color_with_config`: a colour that occurs most often
      among the sampled corner and edge pixels. The image is indexed
      `[row, column]`. */
  method DetectBackgroundColorWithConfig(img: array2<Pixel>, interval: nat) returns (c: Color)
    requires img.Length0 >= 1 && img.Length1 >= 1 && interval >= 1
    ensures InImage(SampleList(img.Length1, img.Length0, interval), img)
    ensures MostCommon(c, SampleColors(img, SampleList(img.Length1, img.Length0, interval)))
  {
    var points := SamplePoints(img.Length1, img.Length0, interval);
    assert InImage(points, img);
    var counts := CountSamples(img, points);
    ghost var samples := SampleColors(img, points);
    assert samples != [] by {
      assert |points| > 0;
    }
    c := MaxCount(counts);
    assert counts != [] by {
      assert samples[0] in samples;
    }
    var k :| 0 <= k < |counts| && counts[k].color == c && forall j :: 0 <= j < |counts| ==> counts[j].count <= counts[k].count;
    LargestCountIsMostCommon(counts, samples, k);
  }

  /** `detect_background_color`: the default sampling interval. */
  method DetectBackgroundColor(img: array2<Pixel>) returns (c: Color)
    requires img.Length0 >= 1 && img.Length1 >= 1
    ensures InImage(SampleList(img.Length1, img.Length0, DefaultEdgeSampleInterval), img)
    ensures MostCommon(c, SampleColors(img, SampleList(img.Length1, img.Length0, DefaultEdgeSampleInterval)))
  {
    c := DetectBackgroundColorWithConfig(img, DefaultEdgeSampleInterval);
  }
}
