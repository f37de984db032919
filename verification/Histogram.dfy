/** Pixels, the 4-bit-per-channel histogram, and the mean colour of a bucket (src/compress_png.c:243-499). */
module Histogram {
  import opened Common

  const CHANNELS := 4
  const BUCKETS := 65536

  datatype Rgba = Rgba(r: byte, g: byte, b: byte, a: byte) {
    /** Channel k, in the order in which the channels are stored. */
    function Ch(k: nat): byte
      requires k < CHANNELS
    {
      if k == 0 then r else if k == 1 then g else if k == 2 then b else a
    }
  }

  /** One entry of the four parallel sum arrays. */
  datatype Sums = Sums(r: nat, g: nat, b: nat, a: nat) {
    function Ch(k: nat): nat
      requires k < CHANNELS
    {
      if k == 0 then r else if k == 1 then g else if k == 2 then b else a
    }

    function Plus(p: Rgba): Sums {
      Sums(r + p.r, g + p.g, b + p.b, a + p.a)
    }
  }

  datatype Color = Color(px: Rgba, count: nat)

  /** The top four bits of every channel. */
  function Bucket(p: Rgba): (b: nat)
    ensures b < BUCKETS
  {
    (p.r / 16) * 4096 + (p.g / 16) * 256 + (p.b / 16) * 16 + p.a / 16
  }

  /** Two pixels share a bucket exactly when they agree on the top four bits of every channel. */
  lemma SameBucket(p: Rgba, q: Rgba)
    ensures Bucket(p) == Bucket(q) <==> forall k :: 0 <= k < CHANNELS ==> p.Ch(k) / 16 == q.Ch(k) / 16
  {
    SameDigits(p.r / 16, p.g / 16, p.b / 16, p.a / 16, q.r / 16, q.g / 16, q.b / 16, q.a / 16);
    assert p.Ch(0) == p.r && p.Ch(1) == p.g && p.Ch(2) == p.b && p.Ch(3) == p.a;
    assert q.Ch(0) == q.r && q.Ch(1) == q.g && q.Ch(2) == q.b && q.Ch(3) == q.a;
  }

  lemma SameDigits(a: nat, b: nat, c: nat, d: nat, a': nat, b': nat, c': nat, d': nat)
    requires a < 16 && b < 16 && c < 16 && d < 16 && a' < 16 && b' < 16 && c' < 16 && d' < 16
    ensures a * 4096 + b * 256 + c * 16 + d == a' * 4096 + b' * 256 + c' * 16 + d' <==>
            a == a' && b == b' && c == c' && d == d'
  {
    Digits(a, b, c, d);
    Digits(a', b', c', d');
  }

  lemma Digits(a: nat, b: nat, c: nat, d: nat)
    requires a < 16 && b < 16 && c < 16 && d < 16
    ensures var x := a * 4096 + b * 256 + c * 16 + d;
      x / 4096 == a && x % 4096 / 256 == b && x % 256 / 16 == c && x % 16 == d
  {
    var x := a * 4096 + b * 256 + c * 16 + d;
    DivModUnique(x, a, b * 256 + c * 16 + d, 4096);
    DivModUnique(b * 256 + c * 16 + d, b, c * 16 + d, 256);
    DivModUnique(x, a * 16 + b, c * 16 + d, 256);
    DivModUnique(c * 16 + d, c, d, 16);
    DivModUnique(x, a * 256 + b * 16 + c, d, 16);
  }

  function CountIn(pixels: seq<Rgba>, b: nat): nat {
    if pixels == [] then 0
    else CountIn(pixels[..|pixels| - 1], b) + if Bucket(pixels[|pixels| - 1]) == b then 1 else 0
  }

  function SumIn(pixels: seq<Rgba>, b: nat): Sums {
    if pixels == [] then Sums(0, 0, 0, 0)
    else
      var front, p := SumIn(pixels[..|pixels| - 1], b), pixels[|pixels| - 1];
      if Bucket(p) == b then front.Plus(p) else front
  }

  /** The truncated mean of every channel. */
  function Mean(s: Sums, count: nat): (px: Rgba)
    requires 0 < count && forall k :: 0 <= k < CHANNELS ==> s.Ch(k) <= 255 * count
    ensures forall k :: 0 <= k < CHANNELS ==> px.Ch(k) * count <= s.Ch(k) < (px.Ch(k) + 1) * count
  {
    assert s.Ch(0) <= 255 * count && s.Ch(1) <= 255 * count && s.Ch(2) <= 255 * count && s.Ch(3) <= 255 * count;
    QuotientBounds(s.r, count, 0, 255);
    QuotientBounds(s.g, count, 0, 255);
    QuotientBounds(s.b, count, 0, 255);
    QuotientBounds(s.a, count, 0, 255);
    Truncates(s.r, count);
    Truncates(s.g, count);
    Truncates(s.b, count);
    Truncates(s.a, count);
    Rgba(s.r / count, s.g / count, s.b / count, s.a / count)
  }

  lemma QuotientBounds(sum: nat, count: nat, lo: nat, hi: nat)
    requires 0 < count && lo * count <= sum <= hi * count
    ensures lo <= sum / count <= hi
  {
    var q, r := sum / count, sum % count;
    assert sum == q * count + r && 0 <= r < count;
    if q > hi { TimesGrows(hi + 1, q, count); }
    if q < lo { TimesGrows(q + 1, lo, count); }
  }

  lemma Truncates(sum: nat, count: nat)
    requires 0 < count
    ensures sum / count * count <= sum < (sum / count + 1) * count
  {
    var q, r := sum / count, sum % count;
    assert sum == q * count + r && (q + 1) * count == q * count + count;
  }

  lemma TimesGrows(x: int, y: int, n: nat)
    requires x <= y
    ensures x * n <= y * n && (x - 1) * n == x * n - n && (x + 1) * n == x * n + n
  {
    assert (y - x) * n >= 0;
  }

  /** The lower end of the bucket's range on one channel. */
  function Floor16(x: byte): (f: nat)
    ensures f <= x <= f + 15 && f + 15 <= 255
  {
    16 * (x / 16)
  }

  lemma BoundStep(lo: nat, n: nat, s: nat, x: nat)
    requires lo * n <= s <= (lo + 15) * n && lo <= x <= lo + 15
    ensures lo * (n + 1) <= s + x <= (lo + 15) * (n + 1)
  {
  }

  /** The sum over a bucket lies between the bucket's bounds, channel by channel. */
  lemma {:induction false} SumBounds(pixels: seq<Rgba>, p: Rgba, k: nat)
    requires k < CHANNELS
    ensures var n, s, lo := CountIn(pixels, Bucket(p)), SumIn(pixels, Bucket(p)).Ch(k), Floor16(p.Ch(k));
      lo * n <= s <= (lo + 15) * n
  {
    if pixels != [] {
      var front, q := pixels[..|pixels| - 1], pixels[|pixels| - 1];
      SumBounds(front, p, k);
      if Bucket(q) == Bucket(p) {
        SameBucket(p, q);
        assert Floor16(q.Ch(k)) == Floor16(p.Ch(k));
        BoundStep(Floor16(p.Ch(k)), CountIn(front, Bucket(p)), SumIn(front, Bucket(p)).Ch(k), q.Ch(k));
      }
    }
  }

  /** A bucket that holds a pixel. */
  ghost predicate Occupied(pixels: seq<Rgba>, b: nat) {
    exists i :: 0 <= i < |pixels| && Bucket(pixels[i]) == b
  }

  lemma {:induction false} CountPositive(pixels: seq<Rgba>, b: nat)
    ensures 0 < CountIn(pixels, b) <==> Occupied(pixels, b)
  {
    if pixels != [] {
      var front := pixels[..|pixels| - 1];
      CountPositive(front, b);
      if Occupied(front, b) {
        var i :| 0 <= i < |front| && Bucket(front[i]) == b;
        assert Bucket(pixels[i]) == b;
      }
      if Occupied(pixels, b) && Bucket(pixels[|pixels| - 1]) != b {
        var i :| 0 <= i < |pixels| && Bucket(pixels[i]) == b;
        assert Bucket(front[i]) == b;
      }
    }
  }

  lemma MulLe(x: nat, y: nat, n: nat)
    requires x <= y
    ensures x * n <= y * n
  {
  }

  lemma SumsFit(pixels: seq<Rgba>, b: nat)
    ensures 0 < CountIn(pixels, b) ==>
      forall k :: 0 <= k < CHANNELS ==> SumIn(pixels, b).Ch(k) <= 255 * CountIn(pixels, b)
  {
    CountPositive(pixels, b);
    if 0 < CountIn(pixels, b) {
      var i :| 0 <= i < |pixels| && Bucket(pixels[i]) == b;
      forall k | 0 <= k < CHANNELS ensures SumIn(pixels, b).Ch(k) <= 255 * CountIn(pixels, b) {
        SumBounds(pixels, pixels[i], k);
        MulLe(Floor16(pixels[i].Ch(k)) + 15, 255, CountIn(pixels, b));
      }
    }
  }

  /** The histogram colour of bucket b: the truncated mean of its pixels, weighted by their number. */
  function BucketColor(pixels: seq<Rgba>, b: nat): (c: Color)
    requires 0 < CountIn(pixels, b)
    ensures 0 < c.count
  {
    SumsFit(pixels, b);
    Color(Mean(SumIn(pixels, b), CountIn(pixels, b)), CountIn(pixels, b))
  }

  /** A bucket's mean stays in the bucket, so it is within 15 of each of its pixels on every channel. */
  lemma MeanStaysInBucket(pixels: seq<Rgba>, p: Rgba)
    requires p in pixels
    ensures 0 < CountIn(pixels, Bucket(p))
    ensures Bucket(BucketColor(pixels, Bucket(p)).px) == Bucket(p)
    ensures forall k :: 0 <= k < CHANNELS ==> -15 <= p.Ch(k) - BucketColor(pixels, Bucket(p)).px.Ch(k) <= 15
  {
    CountPositive(pixels, Bucket(p));
    var c := BucketColor(pixels, Bucket(p));
    forall k | 0 <= k < CHANNELS ensures c.px.Ch(k) / 16 == p.Ch(k) / 16 && -15 <= p.Ch(k) - c.px.Ch(k) <= 15 {
      MeanChannel(pixels, p, k);
    }
    SameBucket(c.px, p);
  }

  lemma MeanChannel(pixels: seq<Rgba>, p: Rgba, k: nat)
    requires k < CHANNELS && 0 < CountIn(pixels, Bucket(p))
    ensures Floor16(p.Ch(k)) <= BucketColor(pixels, Bucket(p)).px.Ch(k) <= Floor16(p.Ch(k)) + 15
  {
    SumBounds(pixels, p, k);
    QuotientBounds(SumIn(pixels, Bucket(p)).Ch(k), CountIn(pixels, Bucket(p)), Floor16(p.Ch(k)), Floor16(p.Ch(k)) + 15);
  }

  /** A bucket all of whose pixels are equal has that pixel as its mean. */
  lemma {:induction false} UniformSum(pixels: seq<Rgba>, p: Rgba, k: nat)
    requires k < CHANNELS
    requires forall i :: 0 <= i < |pixels| && Bucket(pixels[i]) == Bucket(p) ==> pixels[i] == p
    ensures SumIn(pixels, Bucket(p)).Ch(k) == p.Ch(k) * CountIn(pixels, Bucket(p))
  {
    if pixels != [] {
      var front := pixels[..|pixels| - 1];
      forall i | 0 <= i < |front| && Bucket(front[i]) == Bucket(p) ensures front[i] == p {
        assert pixels[i] == front[i];
      }
      UniformSum(front, p, k);
      assert pixels[|pixels| - 1] == p || Bucket(pixels[|pixels| - 1]) != Bucket(p);
      assert p.Ch(k) * (CountIn(front, Bucket(p)) + 1) == p.Ch(k) * CountIn(front, Bucket(p)) + p.Ch(k);
    }
  }

  lemma UniformBucket(pixels: seq<Rgba>, p: Rgba)
    requires p in pixels
    requires forall i :: 0 <= i < |pixels| && Bucket(pixels[i]) == Bucket(p) ==> pixels[i] == p
    ensures 0 < CountIn(pixels, Bucket(p)) && BucketColor(pixels, Bucket(p)).px == p
  {
    CountPositive(pixels, Bucket(p));
    var c := BucketColor(pixels, Bucket(p));
    forall k | 0 <= k < CHANNELS ensures c.px.Ch(k) == p.Ch(k) {
      UniformSum(pixels, p, k);
      QuotientBounds(SumIn(pixels, Bucket(p)).Ch(k), c.count, p.Ch(k), p.Ch(k));
    }
    assert c.px.Ch(0) == p.Ch(0) && c.px.Ch(1) == p.Ch(1) && c.px.Ch(2) == p.Ch(2) && c.px.Ch(3) == p.Ch(3);
  }

  /** The colours of the occupied buckets below n, in bucket order. */
  function Colors(pixels: seq<Rgba>, n: nat): seq<Color> {
    if n == 0 then []
    else Colors(pixels, n - 1) + if CountIn(pixels, n - 1) == 0 then [] else [BucketColor(pixels, n - 1)]
  }

  lemma {:induction false} ColorsPositive(pixels: seq<Rgba>, n: nat)
    ensures |Colors(pixels, n)| <= n
    ensures forall j :: 0 <= j < |Colors(pixels, n)| ==> 0 < Colors(pixels, n)[j].count
  {
    if n > 0 { ColorsPositive(pixels, n - 1); }
  }

  lemma {:induction false} ColorsContain(pixels: seq<Rgba>, n: nat, b: nat)
    requires b < n && 0 < CountIn(pixels, b)
    ensures BucketColor(pixels, b) in Colors(pixels, n)
  {
    if b < n - 1 { ColorsContain(pixels, n - 1, b); }
  }

  /** The weights of the colours add up to the number of pixels. */
  function Total(colors: seq<Color>): nat {
    if colors == [] then 0 else Total(colors[..|colors| - 1]) + colors[|colors| - 1].count
  }

  lemma {:induction false} TotalConcat(a: seq<Color>, b: seq<Color>)
    ensures Total(a + b) == Total(a) + Total(b)
  {
    if b == [] {
      assert a + b == a;
    } else {
      assert (a + b)[..|a + b| - 1] == a + b[..|b| - 1];
      TotalConcat(a, b[..|b| - 1]);
    }
  }

  /** Taking out the colour at j. */
  lemma TotalWithout(s: seq<Color>, j: nat)
    requires j < |s|
    ensures var rest := s[..j] + s[j + 1..];
      multiset(rest) == multiset(s) - multiset{s[j]} && Total(s) == Total(rest) + s[j].count
  {
    var before, after, one := s[..j], s[j + 1..], [s[j]];
    assert s == before + one + after;
    hide Total;
    TotalConcat(before + one, after);
    TotalConcat(before, one);
    TotalConcat(before, after);
    assert Total(one) == s[j].count by { TotalOne(s[j]); }
  }

  lemma TotalOne(c: Color)
    ensures Total([c]) == c.count
  {
    var s := [c];
    assert s[..|s| - 1] == [];
  }

  lemma {:induction false} TotalPermutation(a: seq<Color>, b: seq<Color>)
    requires multiset(a) == multiset(b)
    ensures Total(a) == Total(b)
    decreases |a|
  {
    assert |a| == |multiset(a)| == |multiset(b)| == |b|;
    if a != [] {
      hide Total;
      var last := |a| - 1;
      var c := a[last];
      assert c in multiset(b);
      var j :| 0 <= j < |b| && b[j] == c;
      TotalWithout(a, last);
      TotalWithout(b, j);
      TotalPermutation(a[..last] + a[last + 1..], b[..j] + b[j + 1..]);
    }
  }

  function CountBelow(pixels: seq<Rgba>, n: nat): nat {
    if n == 0 then 0 else CountBelow(pixels, n - 1) + CountIn(pixels, n - 1)
  }

  lemma {:induction false} CountBelowStep(pixels: seq<Rgba>, n: nat)
    requires pixels != []
    ensures CountBelow(pixels, n) ==
      CountBelow(pixels[..|pixels| - 1], n) + if Bucket(pixels[|pixels| - 1]) < n then 1 else 0
  {
    if n > 0 { CountBelowStep(pixels, n - 1); }
  }

  lemma {:induction false} CountAll(pixels: seq<Rgba>)
    ensures CountBelow(pixels, BUCKETS) == |pixels|
  {
    if pixels != [] {
      CountBelowStep(pixels, BUCKETS);
      CountAll(pixels[..|pixels| - 1]);
    } else {
      CountNone(BUCKETS);
    }
  }

  lemma {:induction false} CountNone(n: nat)
    ensures CountBelow([], n) == 0
  {
    if n > 0 { CountNone(n - 1); }
  }

  lemma {:induction false} TotalColors(pixels: seq<Rgba>, n: nat)
    ensures Total(Colors(pixels, n)) == CountBelow(pixels, n)
  {
    if n > 0 {
      TotalColors(pixels, n - 1);
      TotalConcat(Colors(pixels, n - 1), Colors(pixels, n)[|Colors(pixels, n - 1)|..]);
      assert Colors(pixels, n) == Colors(pixels, n - 1) + Colors(pixels, n)[|Colors(pixels, n - 1)|..];
      if CountIn(pixels, n - 1) > 0 {
        assert Total([BucketColor(pixels, n - 1)]) == CountIn(pixels, n - 1);
      }
    }
  }

  /** Every pixel is counted once. */
  lemma TotalIsPixelCount(pixels: seq<Rgba>)
    ensures Total(Colors(pixels, BUCKETS)) == |pixels|
  {
    TotalColors(pixels, BUCKETS);
    CountAll(pixels);
  }

  lemma HistogramStep(pixels: seq<Rgba>, i: nat, b: nat)
    requires i < |pixels|
    ensures CountIn(pixels[..i + 1], b) == CountIn(pixels[..i], b) + if Bucket(pixels[i]) == b then 1 else 0
    ensures SumIn(pixels[..i + 1], b) ==
      if Bucket(pixels[i]) == b then SumIn(pixels[..i], b).Plus(pixels[i]) else SumIn(pixels[..i], b)
  {
    assert pixels[..i + 1][..i] == pixels[..i];
  }

  /** The histogram loop. The counters are exact because there are fewer than 2^32 pixels. */
  method Accumulate(pixels: seq<Rgba>) returns (counts: array<nat>, sums: array<Sums>)
    requires |pixels| < 0x1_0000_0000
    ensures fresh(counts) && fresh(sums) && counts.Length == BUCKETS == sums.Length
    ensures forall b :: 0 <= b < BUCKETS ==> counts[b] == CountIn(pixels, b) && sums[b] == SumIn(pixels, b)
  {
    counts := new nat[BUCKETS](_ => 0);
    sums := new Sums[BUCKETS](_ => Sums(0, 0, 0, 0));
    for i := 0 to |pixels|
      invariant forall b :: 0 <= b < BUCKETS ==> counts[b] == CountIn(pixels[..i], b)
      invariant forall b :: 0 <= b < BUCKETS ==> sums[b] == SumIn(pixels[..i], b)
    {
      forall b | 0 <= b < BUCKETS
        ensures CountIn(pixels[..i + 1], b) == counts[b] + if Bucket(pixels[i]) == b then 1 else 0
        ensures SumIn(pixels[..i + 1], b) == if Bucket(pixels[i]) == b then sums[b].Plus(pixels[i]) else sums[b]
      {
        HistogramStep(pixels, i, b);
      }
      var bucket := Bucket(pixels[i]);
      counts[bucket] := counts[bucket] + 1;
      sums[bucket] := sums[bucket].Plus(pixels[i]);
    }
    assert pixels[..|pixels|] == pixels;
  }

  method CountOccupied(ghost pixels: seq<Rgba>, counts: array<nat>) returns (capacity: nat)
    requires counts.Length == BUCKETS && forall b :: 0 <= b < BUCKETS ==> counts[b] == CountIn(pixels, b)
    ensures capacity == |Colors(pixels, BUCKETS)|
  {
    capacity := 0;
    for i := 0 to BUCKETS
      invariant capacity == |Colors(pixels, i)|
    {
      if counts[i] > 0 { capacity := capacity + 1; }
    }
  }

  /** Count the occupied buckets, then list their mean colours. */
  method BuildColors(pixels: seq<Rgba>) returns (colors: array<Color>)
    requires |pixels| < 0x1_0000_0000
    ensures fresh(colors) && colors[..] == Colors(pixels, BUCKETS)
  {
    hide Colors;
    NoColors(pixels);
    var counts, sums := Accumulate(pixels);
    var capacity := CountOccupied(pixels, counts);
    colors := new Color[capacity];
    var count := 0;
    for i := 0 to BUCKETS
      invariant count == |Colors(pixels, i)| <= colors.Length == capacity
      invariant colors[..count] == Colors(pixels, i)
      modifies colors
    {
      ColorsGrow(pixels, i + 1, BUCKETS);
      ColorsStep(pixels, i);
      if counts[i] != 0 {
        SumsFit(pixels, i);
        colors[count] := Color(Mean(sums[i], counts[i]), counts[i]);
        count := count + 1;
        assert colors[..count] == colors[..count - 1] + [colors[count - 1]];
      }
    }
  }

  lemma NoColors(pixels: seq<Rgba>)
    ensures Colors(pixels, 0) == []
  {
  }

  lemma ColorsStep(pixels: seq<Rgba>, i: nat)
    ensures Colors(pixels, i + 1) ==
            Colors(pixels, i) + if CountIn(pixels, i) == 0 then [] else [BucketColor(pixels, i)]
  {
  }

  lemma {:induction false} ColorsGrow(pixels: seq<Rgba>, m: nat, n: nat)
    requires m <= n
    ensures |Colors(pixels, m)| <= |Colors(pixels, n)|
  {
    if m < n { ColorsGrow(pixels, m, n - 1); }
  }
}
