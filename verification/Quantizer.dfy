/** Palette, pixel assignment and the end-to-end theorems of the colour quantiser (src/compress_png.c:411-623). */
module Quantizer {
  import opened Common
  import opened Histogram
  import opened MedianCut

  function WeightedSum(s: seq<Color>, k: nat): nat
    requires k < CHANNELS
  {
    if s == [] then 0 else WeightedSum(s[..|s| - 1], k) + s[|s| - 1].px.Ch(k) * s[|s| - 1].count
  }

  lemma WeightStep(lo: nat, hi: nat, w: nat, t: nat, x: nat, n: nat)
    requires lo * t <= w <= hi * t && lo <= x <= hi
    ensures lo * (t + n) <= w + x * n <= hi * (t + n)
  {
    MulLe(lo, x, n);
    MulLe(x, hi, n);
  }

  /** A weighted sum lies between the bounds of its colours, times their total weight. */
  lemma {:induction false} WeightedBounds(s: seq<Color>, k: nat, lo: nat, hi: nat)
    requires k < CHANNELS && forall i :: 0 <= i < |s| ==> lo <= s[i].px.Ch(k) <= hi
    ensures lo * Total(s) <= WeightedSum(s, k) <= hi * Total(s)
  {
    if s != [] {
      WeightedBounds(s[..|s| - 1], k, lo, hi);
      var c := s[|s| - 1];
      WeightStep(lo, hi, WeightedSum(s[..|s| - 1], k), Total(s[..|s| - 1]), c.px.Ch(k), c.count);
    }
  }

  function Divisor(s: seq<Color>): (t: nat)
    ensures 0 < t
  {
    if Total(s) == 0 then 1 else Total(s)
  }

  /** The truncated weighted mean of one channel. */
  function Average(s: seq<Color>, k: nat): (m: byte)
    requires k < CHANNELS
    ensures m * Divisor(s) <= WeightedSum(s, k) < (m + 1) * Divisor(s)
  {
    WeightedBounds(s, k, 0, 255);
    QuotientBounds(WeightedSum(s, k), Divisor(s), 0, 255);
    Truncates(WeightedSum(s, k), Divisor(s));
    WeightedSum(s, k) / Divisor(s)
  }

  /** The channel of all the pixels that the colours stand for. */
  function Spread(s: seq<Color>, k: nat): seq<nat>
    requires k < CHANNELS
  {
    if s == [] then [] else Spread(s[..|s| - 1], k) + seq(s[|s| - 1].count, _ => s[|s| - 1].px.Ch(k))
  }

  function Sum(v: seq<nat>): nat {
    if v == [] then 0 else Sum(v[..|v| - 1]) + v[|v| - 1]
  }

  lemma {:induction false} SumAppends(v: seq<nat>, n: nat, x: nat)
    ensures Sum(v + seq(n, _ => x)) == Sum(v) + x * n
  {
    var all := v + seq(n, _ => x);
    if n == 0 {
      assert all == v;
    } else {
      assert all[..|all| - 1] == v + seq(n - 1, _ => x);
      SumAppends(v, n - 1, x);
      assert x * n == x * (n - 1) + x;
    }
  }

  /** The mean is that of the pixels: their sum divided by their number, and truncated. */
  lemma {:induction false} AverageIsMean(s: seq<Color>, k: nat)
    requires k < CHANNELS
    ensures |Spread(s, k)| == Total(s) && Sum(Spread(s, k)) == WeightedSum(s, k)
    ensures 0 < Total(s) ==> Average(s, k) == Sum(Spread(s, k)) / |Spread(s, k)|
  {
    if s != [] {
      var front, last := s[..|s| - 1], s[|s| - 1];
      AverageIsMean(front, k);
      SumAppends(Spread(front, k), last.count, last.px.Ch(k));
    }
  }

  /** The palette entry of the colours of one box. */
  function Entry(s: seq<Color>): Color {
    Color(Rgba(Average(s, 0), Average(s, 1), Average(s, 2), Average(s, 3)), Divisor(s))
  }

  /** A palette entry stays within the bounds of its box. */
  lemma EntryWithinBox(colors: seq<Color>, b: ColorBox, k: nat)
    requires Tight(colors, b) && k < CHANNELS && 0 < b.total
    ensures b.lo.Ch(k) <= Entry(Segment(colors, b)).px.Ch(k) <= b.hi.Ch(k)
  {
    var s := Segment(colors, b);
    WeightedBounds(s, k, b.lo.Ch(k), b.hi.Ch(k));
    QuotientBounds(WeightedSum(s, k), Total(s), b.lo.Ch(k), b.hi.Ch(k));
  }

  method AverageBox(colors: array<Color>, box: ColorBox) returns (c: Color)
    requires box.start <= box.end <= colors.Length
    ensures c == Entry(Segment(colors[..], box))
  {
    var r, g, b, a, total := 0, 0, 0, 0, 0;
    ghost var s := Segment(colors[..], box);
    for i := box.start to box.end
      invariant r == WeightedSum(s[..i - box.start], 0) && g == WeightedSum(s[..i - box.start], 1)
      invariant b == WeightedSum(s[..i - box.start], 2) && a == WeightedSum(s[..i - box.start], 3)
      invariant total == Total(s[..i - box.start])
    {
      var c := colors[i];
      assert s[..i + 1 - box.start][..i - box.start] == s[..i - box.start] && s[i - box.start] == c;
      r := r + c.px.r * c.count;
      g := g + c.px.g * c.count;
      b := b + c.px.b * c.count;
      a := a + c.px.a * c.count;
      total := total + c.count;
    }
    assert s[..|s|] == s;
    if total == 0 { total := 1; }
    assert r / total == Average(s, 0) && g / total == Average(s, 1) &&
           b / total == Average(s, 2) && a / total == Average(s, 3);
    c := Color(Rgba(r / total, g / total, b / total, a / total), total);
  }

  ghost predicate IsPalette(palette: seq<Color>, colors: seq<Color>, boxes: seq<ColorBox>) {
    && |palette| == |boxes|
    && forall j :: 0 <= j < |boxes| ==>
         boxes[j].start <= boxes[j].end <= |colors| && palette[j] == Entry(Segment(colors, boxes[j]))
  }

  method BuildPalette(colors: array<Color>, boxes: array<ColorBox>, count: nat) returns (palette: array<Color>)
    requires count <= boxes.Length
    requires forall j :: 0 <= j < count ==> boxes[j].start <= boxes[j].end <= colors.Length
    ensures fresh(palette) && palette.Length == count && IsPalette(palette[..], colors[..], boxes[..count])
  {
    palette := new Color[count];
    for i := 0 to count
      invariant forall j :: 0 <= j < i ==> palette[j] == Entry(Segment(colors[..], boxes[j]))
      modifies palette
    {
      palette[i] := AverageBox(colors, boxes[i]);
    }
  }

  // ---------------------------------------------------------------- assignment

  function Square(x: int): (s: nat)
    ensures s == x * x
  {
    x * x
  }

  lemma SquareMonotone(x: int, b: nat)
    requires 0 - b <= x <= b
    ensures Square(x) <= Square(b)
  {
    if x >= 0 { MulLe(x, b, x); MulLe(x, b, b); } else { MulLe(-x, b, -x); MulLe(-x, b, b); }
  }

  function Dist(p: Rgba, q: Rgba): nat {
    Square(p.r - q.r) + Square(p.g - q.g) + Square(p.b - q.b) + Square(p.a - q.a)
  }

  lemma DistBound(p: Rgba, q: Rgba)
    ensures Dist(p, q) <= 260100
    ensures Dist(p, q) == 0 <==> p == q
  {
    SquareMonotone(p.r - q.r, 255);
    SquareMonotone(p.g - q.g, 255);
    SquareMonotone(p.b - q.b, 255);
    SquareMonotone(p.a - q.a, 255);
    SquareZero(p.r - q.r);
    SquareZero(p.g - q.g);
    SquareZero(p.b - q.b);
    SquareZero(p.a - q.a);
  }

  lemma SquareZero(x: int)
    ensures Square(x) == 0 <==> x == 0
  {
  }

  /** The least index among the palette entries nearest to p. */
  ghost predicate IsNearest(palette: seq<Color>, p: Rgba, best: int) {
    && 0 <= best < |palette|
    && (forall j :: 0 <= j < |palette| ==> Dist(p, palette[best].px) <= Dist(p, palette[j].px))
    && (forall j :: 0 <= j < best ==> Dist(p, palette[best].px) < Dist(p, palette[j].px))
  }

  method Nearest(palette: array<Color>, p: Rgba) returns (best: nat)
    requires 0 < palette.Length
    ensures IsNearest(palette[..], p, best)
  {
    best := 0;
    var bestDist := 0xFFFF_FFFF;
    for j := 0 to palette.Length
      invariant j == 0 ==> best == 0 && bestDist == 0xFFFF_FFFF
      invariant j > 0 ==> best < j && bestDist == Dist(p, palette[best].px)
      invariant j > 0 ==> forall i :: 0 <= i < j ==> bestDist <= Dist(p, palette[i].px)
      invariant j > 0 ==> forall i :: 0 <= i < best ==> bestDist < Dist(p, palette[i].px)
    {
      var dist := Dist(p, palette[j].px);
      DistBound(p, palette[j].px);
      if dist < bestDist {
        bestDist := dist;
        best := j;
      }
    }
  }

  method AssignPixels(pixels: seq<Rgba>, palette: array<Color>) returns (indexed: array<byte>)
    requires 0 < palette.Length <= 256
    ensures fresh(indexed) && indexed.Length == |pixels|
    ensures forall i :: 0 <= i < |pixels| ==> IsNearest(palette[..], pixels[i], indexed[i])
  {
    indexed := new byte[|pixels|];
    for i := 0 to |pixels|
      invariant forall j :: 0 <= j < i ==> IsNearest(palette[..], pixels[j], indexed[j])
      modifies indexed
    {
      indexed[i] := Nearest(palette, pixels[i]);
    }
  }

  // ------------------------------------------------------------ the whole quantiser

  /** Non-positive requests mean 128 colours; no palette has more than 256. */
  function Target(requested: int): (t: nat)
    ensures 1 <= t <= 256
  {
    if requested <= 0 then 128 else if requested > 256 then 256 else requested
  }

  /** How the quantiser's outputs relate to its input. */
  ghost predicate Quantised(pixels: seq<Rgba>, requested: int,
                            colors: seq<Color>, boxes: seq<ColorBox>, palette: seq<Color>, indexed: seq<byte>) {
    && multiset(colors) == multiset(Colors(pixels, BUCKETS))
    && Partition(colors, boxes)
    && |boxes| == (if |colors| < Target(requested) then |colors| else Target(requested))
    && IsPalette(palette, colors, boxes)
    && |indexed| == |pixels|
    && forall i :: 0 <= i < |pixels| ==> IsNearest(palette, pixels[i], indexed[i])
  }

  /** `fp_compress_png_quantized` up to the palette and the indexed image; None for an image without pixels. */
  method Quantize(pixels: seq<Rgba>, requested: int)
    returns (result: Option<(array<Color>, array<byte>)>,
             ghost colors: seq<Color>, ghost boxes: seq<ColorBox>, ghost trace: seq<Stage>)
    requires |pixels| < 0x1_0000_0000
    ensures result.None? <==> pixels == []
    ensures result.Some? ==>
      && Quantised(pixels, requested, colors, boxes, result.value.0[..], result.value.1[..])
      && IsRun(trace) && EachSorted(trace)
      && trace[0].colors == Colors(pixels, BUCKETS) && trace[|trace| - 1] == Stage(colors, boxes)
  {
    hide Colors, Tight, IsNearest, Entry, IsRun, EachSorted;
    colors, boxes, trace := [], [], [];
    if |pixels| == 0 { return None, colors, boxes, trace; }
    var target := Target(requested);
    var colorArray := BuildColors(pixels);
    SomeColor(pixels);
    if colorArray.Length < target { target := colorArray.Length; }
    var boxArray, count;
    boxArray, count, trace := SplitBoxes(colorArray, target);
    colors, boxes := colorArray[..], boxArray[..count];
    forall j | 0 <= j < count ensures boxArray[j].start <= boxArray[j].end <= colorArray.Length {
      TightBoxFits(colors, boxes[j]);
    }
    var palette := BuildPalette(colorArray, boxArray, count);
    var indexed := AssignPixels(pixels, palette);
    result := Some((palette, indexed));
  }

  lemma TightBoxFits(colors: seq<Color>, b: ColorBox)
    requires Tight(colors, b)
    ensures b.start <= b.end <= |colors|
  {
  }

  lemma SomeColor(pixels: seq<Rgba>)
    requires pixels != []
    ensures Colors(pixels, BUCKETS) != []
  {
    CountPositive(pixels, Bucket(pixels[0]));
    ColorsContain(pixels, BUCKETS, Bucket(pixels[0]));
  }

  // ------------------------------------------------------------------- theorems

  /** The weights recorded in the boxes add up to the number of pixels. */
  lemma BoxTotalsCountPixels(pixels: seq<Rgba>, requested: int,
                             colors: seq<Color>, boxes: seq<ColorBox>, palette: seq<Color>, indexed: seq<byte>)
    requires Quantised(pixels, requested, colors, boxes, palette, indexed)
    ensures Weights(boxes) == |pixels|
  {
    TotalPermutation(colors, Colors(pixels, BUCKETS));
    TotalIsPixelCount(pixels);
  }

  /** The histogram colour of pixel p sits at position x, inside box j. */
  ghost predicate LiesIn(pixels: seq<Rgba>, colors: seq<Color>, boxes: seq<ColorBox>, p: Rgba, x: int, j: int) {
    && p in pixels && 0 <= x < |colors| && 0 <= j < |boxes| && Holds(boxes[j], x)
    && 0 < CountIn(pixels, Bucket(p)) && colors[x] == BucketColor(pixels, Bucket(p))
  }

  function ErrorBound(b: ColorBox): nat {
    Square(b.Range(0) + 15) + Square(b.Range(1) + 15) + Square(b.Range(2) + 15) + Square(b.Range(3) + 15)
  }

  lemma PositiveTotal(s: seq<Color>)
    requires s != [] && forall i :: 0 <= i < |s| ==> 0 < s[i].count
    ensures 0 < Total(s)
  {
  }

  lemma ColorsStayPositive(pixels: seq<Rgba>, colors: seq<Color>)
    requires multiset(colors) == multiset(Colors(pixels, BUCKETS))
    ensures forall i :: 0 <= i < |colors| ==> 0 < colors[i].count
  {
    ColorsPositive(pixels, BUCKETS);
    forall i | 0 <= i < |colors| ensures 0 < colors[i].count {
      assert colors[i] in multiset(Colors(pixels, BUCKETS));
    }
  }

  /** One channel of a pixel is within the box range plus 15 of the box's palette entry. */
  lemma ChannelError(pixels: seq<Rgba>, colors: seq<Color>, boxes: seq<ColorBox>, p: Rgba, x: int, j: int, k: nat)
    requires multiset(colors) == multiset(Colors(pixels, BUCKETS)) && Partition(colors, boxes)
    requires LiesIn(pixels, colors, boxes, p, x, j) && k < CHANNELS
    ensures boxes[j].start <= boxes[j].end <= |colors|
    ensures var e := Entry(Segment(colors, boxes[j])).px.Ch(k);
      -(boxes[j].Range(k) + 15) <= p.Ch(k) - e <= boxes[j].Range(k) + 15
  {
    var b := boxes[j];
    assert Tight(colors, b);
    MeanStaysInBucket(pixels, p);
    assert colors[x] == Segment(colors, b)[x - b.start];
    ColorsStayPositive(pixels, colors);
    PositiveTotal(Segment(colors, b));
    EntryWithinBox(colors, b, k);
  }

  /** End-to-end error: for every pixel, whichever box holds its histogram colour, the squared distance to the palette
      entry chosen for the pixel is at most the sum over the channels of (range of that box + 15) squared. */
  lemma PixelErrorBounded(pixels: seq<Rgba>, requested: int,
                          colors: seq<Color>, boxes: seq<ColorBox>, palette: seq<Color>, indexed: seq<byte>, i: nat)
    requires Quantised(pixels, requested, colors, boxes, palette, indexed) && i < |pixels|
    ensures indexed[i] < |palette|
    ensures Dist(pixels[i], palette[indexed[i]].px) <= 260100
    ensures exists x, j :: LiesIn(pixels, colors, boxes, pixels[i], x, j)
    ensures forall x, j :: LiesIn(pixels, colors, boxes, pixels[i], x, j) ==>
      Dist(pixels[i], palette[indexed[i]].px) <= ErrorBound(boxes[j])
  {
    var p := pixels[i];
    assert IsNearest(palette, p, indexed[i]);
    DistBound(p, palette[indexed[i]].px);
    CountPositive(pixels, Bucket(p));
    ColorsContain(pixels, BUCKETS, Bucket(p));
    assert BucketColor(pixels, Bucket(p)) in multiset(colors);
    var x0 :| 0 <= x0 < |colors| && colors[x0] == BucketColor(pixels, Bucket(p));
    assert Covered(boxes, x0);
    var j0 :| 0 <= j0 < |boxes| && Holds(boxes[j0], x0);
    assert LiesIn(pixels, colors, boxes, p, x0, j0);
    forall x, j | LiesIn(pixels, colors, boxes, p, x, j)
      ensures Dist(p, palette[indexed[i]].px) <= ErrorBound(boxes[j])
    {
      EntryError(pixels, colors, boxes, p, x, j);
      assert Dist(p, palette[indexed[i]].px) <= Dist(p, palette[j].px);
    }
  }

  lemma ChannelSquare(pixels: seq<Rgba>, colors: seq<Color>, boxes: seq<ColorBox>, p: Rgba, x: int, j: int, k: nat)
    requires multiset(colors) == multiset(Colors(pixels, BUCKETS)) && Partition(colors, boxes)
    requires LiesIn(pixels, colors, boxes, p, x, j) && k < CHANNELS
    ensures boxes[j].start <= boxes[j].end <= |colors|
    ensures Square(p.Ch(k) - Entry(Segment(colors, boxes[j])).px.Ch(k)) <= Square(boxes[j].Range(k) + 15)
  {
    ChannelError(pixels, colors, boxes, p, x, j, k);
    assert Tight(colors, boxes[j]);
    hide Partition, Tight, Colors, Entry, Square, Bucket, BucketColor, CountIn;
    TightRange(colors, boxes[j]);
    SquareMonotone(p.Ch(k) - Entry(Segment(colors, boxes[j])).px.Ch(k), boxes[j].Range(k) + 15);
  }

  lemma EntryError(pixels: seq<Rgba>, colors: seq<Color>, boxes: seq<ColorBox>, p: Rgba, x: int, j: int)
    requires multiset(colors) == multiset(Colors(pixels, BUCKETS)) && Partition(colors, boxes)
    requires LiesIn(pixels, colors, boxes, p, x, j)
    ensures boxes[j].start <= boxes[j].end <= |colors|
    ensures Dist(p, Entry(Segment(colors, boxes[j])).px) <= ErrorBound(boxes[j])
  {
    hide Partition, Colors, Entry, Dist, Square, ErrorBound, Holds, Bucket, BucketColor, CountIn;
    ChannelSquare(pixels, colors, boxes, p, x, j, 0);
    ChannelSquare(pixels, colors, boxes, p, x, j, 1);
    ChannelSquare(pixels, colors, boxes, p, x, j, 2);
    ChannelSquare(pixels, colors, boxes, p, x, j, 3);
    SquaresBound(p, Entry(Segment(colors, boxes[j])).px, boxes[j]);
  }

  lemma SquaresBound(p: Rgba, e: Rgba, b: ColorBox)
    requires forall k :: 0 <= k < CHANNELS ==> Square(p.Ch(k) - e.Ch(k)) <= Square(b.Range(k) + 15)
    ensures Dist(p, e) <= ErrorBound(b)
  {
    DistByChannel(p, e);
    hide Dist, Square;
    assert Square(p.Ch(0) - e.Ch(0)) <= Square(b.Range(0) + 15);
    assert Square(p.Ch(1) - e.Ch(1)) <= Square(b.Range(1) + 15);
    assert Square(p.Ch(2) - e.Ch(2)) <= Square(b.Range(2) + 15);
    assert Square(p.Ch(3) - e.Ch(3)) <= Square(b.Range(3) + 15);
  }

  lemma DistByChannel(p: Rgba, e: Rgba)
    ensures Dist(p, e) ==
      Square(p.Ch(0) - e.Ch(0)) + Square(p.Ch(1) - e.Ch(1)) + Square(p.Ch(2) - e.Ch(2)) + Square(p.Ch(3) - e.Ch(3))
  {
  }

  // -------------------------------------------------------------- the lossless case

  function Distinct(pixels: seq<Rgba>): set<Rgba> {
    set p | p in pixels
  }

  ghost function BucketsOf(ps: set<Rgba>): set<nat> {
    set p | p in ps :: Bucket(p)
  }

  /** No two different pixel values share a histogram bucket. */
  ghost predicate SeparateBuckets(ps: set<Rgba>) {
    forall p, q :: p in ps && q in ps && Bucket(p) == Bucket(q) ==> p == q
  }

  /** There are at most as many buckets as values, and equally many exactly when they are separate. */
  lemma {:induction false} BucketCount(ps: set<Rgba>)
    ensures |BucketsOf(ps)| <= |ps|
    ensures |BucketsOf(ps)| == |ps| <==> SeparateBuckets(ps)
    decreases ps
  {
    if ps == {} {
      assert BucketsOf(ps) == {};
    } else {
      var p :| p in ps;
      var rest := ps - {p};
      BucketCount(rest);
      if Bucket(p) in BucketsOf(rest) {
        assert BucketsOf(ps) == BucketsOf(rest);
        var q :| q in rest && Bucket(q) == Bucket(p);
      } else {
        assert BucketsOf(ps) == BucketsOf(rest) + {Bucket(p)};
        assert SeparateBuckets(ps) <==> SeparateBuckets(rest);
      }
    }
  }

  lemma OccupiedBuckets(pixels: seq<Rgba>, b: nat)
    ensures Occupied(pixels, b) <==> b in BucketsOf(Distinct(pixels))
  {
    if Occupied(pixels, b) {
      var i :| 0 <= i < |pixels| && Bucket(pixels[i]) == b;
      assert pixels[i] in Distinct(pixels);
    }
    if b in BucketsOf(Distinct(pixels)) {
      var p :| p in Distinct(pixels) && Bucket(p) == b;
      var i :| 0 <= i < |pixels| && pixels[i] == p;
    }
  }

  /** The histogram lists one colour for each occupied bucket. */
  lemma {:induction false} ColorCount(pixels: seq<Rgba>, n: nat)
    ensures |Colors(pixels, n)| == |set b: nat | b < n && b in BucketsOf(Distinct(pixels))|
  {
    hide BucketsOf, Distinct, CountIn;
    var now := set b: nat | b < n && b in BucketsOf(Distinct(pixels));
    if n == 0 {
      assert now == {};
    } else {
      ColorCount(pixels, n - 1);
      CountPositive(pixels, n - 1);
      var before := set b: nat | b < n - 1 && b in BucketsOf(Distinct(pixels));
      OccupiedBuckets(pixels, n - 1);
      assert now == if Occupied(pixels, n - 1) then before + {n - 1} else before;
    }
  }

  lemma ColorsAreBuckets(pixels: seq<Rgba>, colors: seq<Color>)
    requires multiset(colors) == multiset(Colors(pixels, BUCKETS))
    ensures |colors| == |BucketsOf(Distinct(pixels))|
  {
    ColorCount(pixels, BUCKETS);
    assert (set b: nat | b < BUCKETS && b in BucketsOf(Distinct(pixels))) == BucketsOf(Distinct(pixels));
    assert |colors| == |multiset(colors)| == |Colors(pixels, BUCKETS)|;
  }

  ghost predicate Lossless(pixels: seq<Rgba>, palette: seq<Color>, indexed: seq<byte>) {
    && |indexed| == |pixels|
    && forall i :: 0 <= i < |pixels| ==> indexed[i] < |palette| && palette[indexed[i]].px == pixels[i]
  }

  /** How many colours the palette has: one for each occupied bucket, but no more than asked for, where nothing or less
      asked for means 128 and more than 256 means 256. */
  lemma PaletteSize(pixels: seq<Rgba>, requested: int,
                    colors: seq<Color>, boxes: seq<ColorBox>, palette: seq<Color>, indexed: seq<byte>)
    requires Quantised(pixels, requested, colors, boxes, palette, indexed)
    ensures var occupied := |BucketsOf(Distinct(pixels))|;
      && (1 <= requested <= 256 ==> |palette| == if occupied < requested then occupied else requested)
      && (requested <= 0 ==> |palette| == if occupied < 128 then occupied else 128)
      && (requested > 256 ==> |palette| == if occupied < 256 then occupied else 256)
  {
    ColorsAreBuckets(pixels, colors);
  }

  /** Quantising loses nothing exactly when different pixel values fall in different buckets and there are
      no more of them than colours asked for. */
  lemma LosslessExactlyWhen(pixels: seq<Rgba>, requested: int,
                            colors: seq<Color>, boxes: seq<ColorBox>, palette: seq<Color>, indexed: seq<byte>)
    requires Quantised(pixels, requested, colors, boxes, palette, indexed)
    ensures var separate, values := SeparateBuckets(Distinct(pixels)), |Distinct(pixels)|;
      && (1 <= requested <= 256 ==> (Lossless(pixels, palette, indexed) <==> separate && values <= requested))
      && (requested <= 0 ==> (Lossless(pixels, palette, indexed) <==> separate && values <= 128))
      && (requested > 256 ==> (Lossless(pixels, palette, indexed) <==> separate && values <= 256))
  {
    LosslessForTarget(pixels, requested, colors, boxes, palette, indexed);
    hide Lossless, SeparateBuckets, Quantised, Distinct;
  }

  lemma LosslessForTarget(pixels: seq<Rgba>, requested: int,
                          colors: seq<Color>, boxes: seq<ColorBox>, palette: seq<Color>, indexed: seq<byte>)
    requires Quantised(pixels, requested, colors, boxes, palette, indexed)
    ensures Lossless(pixels, palette, indexed) <==>
      SeparateBuckets(Distinct(pixels)) && |Distinct(pixels)| <= Target(requested)
  {
    ColorsAreBuckets(pixels, colors);
    BucketCount(Distinct(pixels));
    if Lossless(pixels, palette, indexed) {
      PaletteCovers(pixels, palette, indexed);
    }
    if SeparateBuckets(Distinct(pixels)) && |Distinct(pixels)| <= Target(requested) {
      forall i | 0 <= i < |pixels| ensures indexed[i] < |palette| && palette[indexed[i]].px == pixels[i] {
        ExactPixel(pixels, requested, colors, boxes, palette, indexed, i);
      }
    }
  }

  lemma PaletteCovers(pixels: seq<Rgba>, palette: seq<Color>, indexed: seq<byte>)
    requires Lossless(pixels, palette, indexed)
    ensures |Distinct(pixels)| <= |palette|
  {
    var entries := set c | c in palette :: c.px;
    forall p | p in Distinct(pixels) ensures p in entries {
      var i :| 0 <= i < |pixels| && pixels[i] == p;
      assert palette[indexed[i]] in palette;
    }
    SubsetSize(Distinct(pixels), entries);
    EntriesSize(palette);
  }

  lemma {:induction false} EntriesSize(palette: seq<Color>)
    ensures |set c | c in palette :: c.px| <= |palette|
  {
    if palette != [] {
      var front, last := palette[..|palette| - 1], palette[|palette| - 1];
      EntriesSize(front);
      assert palette == front + [last];
      assert (set c | c in palette :: c.px) == (set c | c in front :: c.px) + {last.px};
    } else {
      assert (set c | c in palette :: c.px) == {};
    }
  }

  /** As many non-empty boxes as colours means one colour to a box. */
  lemma {:induction false} SingletonBoxes(boxes: seq<ColorBox>)
    requires forall i :: 0 <= i < |boxes| ==> boxes[i].Span() >= 1
    ensures Spans(boxes) >= |boxes|
    ensures Spans(boxes) == |boxes| ==> forall i :: 0 <= i < |boxes| ==> boxes[i].Span() == 1
  {
    if boxes != [] { SingletonBoxes(boxes[..|boxes| - 1]); }
  }

  lemma SingletonEntry(c: Color)
    requires 0 < c.count
    ensures Entry([c]).px == c.px
  {
    assert [c][..0] == [];
    assert Total([c]) == c.count;
    forall k | 0 <= k < CHANNELS ensures Average([c], k) == c.px.Ch(k) {
      assert WeightedSum([c], k) == c.px.Ch(k) * c.count;
      QuotientBounds(c.px.Ch(k) * c.count, c.count, c.px.Ch(k), c.px.Ch(k));
    }
    assert Average([c], 0) == c.px.Ch(0) && Average([c], 1) == c.px.Ch(1) &&
           Average([c], 2) == c.px.Ch(2) && Average([c], 3) == c.px.Ch(3);
  }

  /** With separate buckets and enough palette entries, the box of a pixel's colour averages to the pixel itself. */
  lemma ExactBox(pixels: seq<Rgba>, colors: seq<Color>, boxes: seq<ColorBox>, p: Rgba, x: int, j: int)
    requires Partition(colors, boxes) && |boxes| == |colors| && LiesIn(pixels, colors, boxes, p, x, j)
    requires SeparateBuckets(Distinct(pixels))
    ensures boxes[j].start <= boxes[j].end <= |colors| && Entry(Segment(colors, boxes[j])).px == p
  {
    forall h | 0 <= h < |pixels| && Bucket(pixels[h]) == Bucket(p) ensures pixels[h] == p {
      assert pixels[h] in Distinct(pixels) && p in Distinct(pixels);
    }
    UniformBucket(pixels, p);
    assert forall h :: 0 <= h < |boxes| ==> Tight(colors, boxes[h]);
    SingletonBoxes(boxes);
    assert Segment(colors, boxes[j]) == [colors[x]];
    SingletonEntry(colors[x]);
  }

  lemma ExactPixel(pixels: seq<Rgba>, requested: int,
                   colors: seq<Color>, boxes: seq<ColorBox>, palette: seq<Color>, indexed: seq<byte>, i: nat)
    requires Quantised(pixels, requested, colors, boxes, palette, indexed) && i < |pixels|
    requires SeparateBuckets(Distinct(pixels)) && |colors| <= Target(requested)
    ensures indexed[i] < |palette| && palette[indexed[i]].px == pixels[i]
  {
    var p := pixels[i];
    PixelErrorBounded(pixels, requested, colors, boxes, palette, indexed, i);
    var x, j :| LiesIn(pixels, colors, boxes, p, x, j);
    ExactBox(pixels, colors, boxes, p, x, j);
    DistBound(p, palette[j].px);
    DistBound(p, palette[indexed[i]].px);
    assert IsNearest(palette, p, indexed[i]);
    assert Dist(p, palette[indexed[i]].px) <= Dist(p, palette[j].px);
  }
}
