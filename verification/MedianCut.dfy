/** The box-splitting loop of the colour quantiser (src/compress_png.c:264-317, 508-577). */
module MedianCut {
  import opened Histogram

  const MAX_BOXES := 256

  /** Colours [start, end) of the colour array, with the bounds recorded by `fp_quant_box_recalc`. */
  datatype ColorBox = ColorBox(start: nat, end: nat, lo: Rgba, hi: Rgba, total: nat) {
    function Span(): int { end - start }

    function Range(k: nat): int
      requires k < CHANNELS
    {
      hi.Ch(k) - lo.Ch(k)
    }

    function WidestRange(): int {
      Max(Max(Max(Range(0), Range(1)), Range(2)), Range(3))
    }

    /** The channel to sort by: the first of the widest ones. */
    function Channel(): (k: nat)
      ensures k < CHANNELS && Range(k) == WidestRange() && forall j :: 0 <= j < k ==> Range(j) < Range(k)
    {
      if Range(0) >= Range(1) && Range(0) >= Range(2) && Range(0) >= Range(3) then 0
      else if Range(1) >= Range(0) && Range(1) >= Range(2) && Range(1) >= Range(3) then 1
      else if Range(2) >= Range(0) && Range(2) >= Range(1) && Range(2) >= Range(3) then 2
      else 3
    }
  }

  function Max(x: int, y: int): int {
    if y > x then y else x
  }

  function Segment(colors: seq<Color>, b: ColorBox): seq<Color>
    requires b.start <= b.end <= |colors|
  {
    colors[b.start..b.end]
  }

  ghost predicate Within(s: seq<Color>, lo: Rgba, hi: Rgba) {
    forall i, k :: 0 <= i < |s| && 0 <= k < CHANNELS ==> lo.Ch(k) <= s[i].px.Ch(k) <= hi.Ch(k)
  }

  ghost predicate AttainedOn(s: seq<Color>, p: Rgba, k: nat)
    requires k < CHANNELS
  {
    exists i :: 0 <= i < |s| && s[i].px.Ch(k) == p.Ch(k)
  }

  ghost predicate Attained(s: seq<Color>, p: Rgba) {
    forall k :: 0 <= k < CHANNELS ==> AttainedOn(s, p, k)
  }

  /** The recorded bounds are the exact minima and maxima, and the recorded total is the exact weight. */
  ghost predicate Tight(colors: seq<Color>, b: ColorBox) {
    && b.start < b.end <= |colors|
    && Within(Segment(colors, b), b.lo, b.hi)
    && Attained(Segment(colors, b), b.lo)
    && Attained(Segment(colors, b), b.hi)
    && b.total == Total(Segment(colors, b))
  }

  function Lower(p: Rgba, q: Rgba): (m: Rgba)
    ensures forall k :: 0 <= k < CHANNELS ==> m.Ch(k) == if q.Ch(k) < p.Ch(k) then q.Ch(k) else p.Ch(k)
  {
    Rgba(if q.r < p.r then q.r else p.r, if q.g < p.g then q.g else p.g,
         if q.b < p.b then q.b else p.b, if q.a < p.a then q.a else p.a)
  }

  function Upper(p: Rgba, q: Rgba): (m: Rgba)
    ensures forall k :: 0 <= k < CHANNELS ==> m.Ch(k) == if q.Ch(k) > p.Ch(k) then q.Ch(k) else p.Ch(k)
  {
    Rgba(if q.r > p.r then q.r else p.r, if q.g > p.g then q.g else p.g,
         if q.b > p.b then q.b else p.b, if q.a > p.a then q.a else p.a)
  }

  lemma BoundsStep(s: seq<Color>, c: Color, lo: Rgba, hi: Rgba)
    requires Within(s, lo, hi) && (s != [] ==> Attained(s, lo) && Attained(s, hi))
    requires s == [] ==> lo == Rgba(255, 255, 255, 255) && hi == Rgba(0, 0, 0, 0)
    ensures Within(s + [c], Lower(lo, c.px), Upper(hi, c.px))
    ensures Attained(s + [c], Lower(lo, c.px)) && Attained(s + [c], Upper(hi, c.px))
  {
    var s', lo', hi' := s + [c], Lower(lo, c.px), Upper(hi, c.px);
    forall k | 0 <= k < CHANNELS
      ensures AttainedOn(s', lo', k) && AttainedOn(s', hi', k)
    {
      assert s'[|s|] == c;
      if s != [] {
        assert AttainedOn(s, lo, k) && AttainedOn(s, hi, k);
        var i :| 0 <= i < |s| && s[i].px.Ch(k) == lo.Ch(k);
        var j :| 0 <= j < |s| && s[j].px.Ch(k) == hi.Ch(k);
        assert s'[i] == s[i] && s'[j] == s[j];
      }
    }
  }

  /** `fp_quant_box_recalc`: an empty box is left alone. */
  method Recalc(box: ColorBox, colors: array<Color>) returns (b: ColorBox)
    requires box.end <= colors.Length
    ensures box.start >= box.end ==> b == box
    ensures box.start < box.end ==> b.start == box.start && b.end == box.end && Tight(colors[..], b)
  {
    if box.start >= box.end { return box; }
    var lo, hi := Rgba(255, 255, 255, 255), Rgba(0, 0, 0, 0);
    var total := 0;
    for i := box.start to box.end
      invariant i == box.start ==> lo == Rgba(255, 255, 255, 255) && hi == Rgba(0, 0, 0, 0)
      invariant Within(colors[box.start..i], lo, hi)
      invariant box.start < i ==> Attained(colors[box.start..i], lo) && Attained(colors[box.start..i], hi)
      invariant total == Total(colors[box.start..i])
    {
      BoundsStep(colors[box.start..i], colors[i], lo, hi);
      assert colors[box.start..i + 1] == colors[box.start..i] + [colors[i]];
      lo, hi := Lower(lo, colors[i].px), Upper(hi, colors[i].px);
      total := total + colors[i].count;
    }
    b := ColorBox(box.start, box.end, lo, hi, total);
    assert Segment(colors[..], b) == colors[box.start..box.end];
  }

  // ------------------------------------------------------------------- sorting

  /** `fp_quant_compare` on channel k: by channel value, then by weight, heaviest first. */
  function Compare(k: nat, x: Color, y: Color): (d: int)
    requires k < CHANNELS
    ensures d < 0 <==> x.px.Ch(k) < y.px.Ch(k) || (x.px.Ch(k) == y.px.Ch(k) && x.count > y.count)
    ensures d == 0 <==> x.px.Ch(k) == y.px.Ch(k) && x.count == y.count
  {
    var diff := x.px.Ch(k) - y.px.Ch(k);
    if diff != 0 then diff
    else if x.count == y.count then 0
    else if x.count < y.count then 1 else -1
  }

  ghost predicate Sorted(k: nat, s: seq<Color>)
    requires k < CHANNELS
  {
    forall i, j :: 0 <= i < j < |s| ==> Compare(k, s[i], s[j]) <= 0
  }

  function Insert(k: nat, c: Color, s: seq<Color>): (r: seq<Color>)
    requires k < CHANNELS && Sorted(k, s)
    ensures Sorted(k, r) && multiset(r) == multiset{c} + multiset(s) && |r| == |s| + 1
    decreases |s|, 1
  {
    if s == [] || Compare(k, c, s[0]) <= 0 then
      [c] + s
    else
      var r := [s[0]] + Insert(k, c, s[1..]);
      InsertHead(k, c, s);
      r
  }

  lemma InsertHead(k: nat, c: Color, s: seq<Color>)
    requires k < CHANNELS && Sorted(k, s) && s != [] && Compare(k, c, s[0]) > 0
    ensures var t := Insert(k, c, s[1..]);
      Sorted(k, [s[0]] + t) && multiset([s[0]] + t) == multiset{c} + multiset(s)
    decreases |s|, 0
  {
    var t := Insert(k, c, s[1..]);
    assert s == [s[0]] + s[1..];
    hide Compare, Insert;
    CompareReversed(k, c, s[0]);
    forall i | 0 <= i < |t| ensures Compare(k, s[0], t[i]) <= 0 {
      assert t[i] in multiset(t);
      assert t[i] == c || t[i] in s[1..];
    }
    Prepend(k, s[0], t);
  }

  lemma Prepend(k: nat, h: Color, t: seq<Color>)
    requires k < CHANNELS && Sorted(k, t) && forall i :: 0 <= i < |t| ==> Compare(k, h, t[i]) <= 0
    ensures Sorted(k, [h] + t) && multiset([h] + t) == multiset{h} + multiset(t)
  {
    hide Compare;
  }

  lemma CompareReversed(k: nat, x: Color, y: Color)
    requires k < CHANNELS && Compare(k, x, y) > 0
    ensures Compare(k, y, x) <= 0
  {
  }

  function SortedCopy(k: nat, s: seq<Color>): (r: seq<Color>)
    requires k < CHANNELS
    ensures Sorted(k, r) && multiset(r) == multiset(s) && |r| == |s|
  {
    if s == [] then []
    else
      assert s == [s[0]] + s[1..];
      Insert(k, s[0], SortedCopy(k, s[1..]))
  }

  /** `qsort` on colours [lo, hi). The C library leaves the order of equal elements open; callers see only
      that the range is sorted, holds the same colours, and that the rest is untouched. */
  method QSort(colors: array<Color>, lo: nat, hi: nat, k: nat)
    requires lo <= hi <= colors.Length && k < CHANNELS
    modifies colors
    ensures Sorted(k, colors[lo..hi]) && multiset(colors[lo..hi]) == multiset(old(colors[lo..hi]))
    ensures colors[..lo] == old(colors[..lo]) && colors[hi..] == old(colors[hi..])
  {
    hide SortedCopy, Compare;
    var s := SortedCopy(k, colors[lo..hi]);
    forall i | lo <= i < hi {
      colors[i] := s[i - lo];
    }
    assert colors[lo..hi] == s;
  }

  // ----------------------------------------------------- choosing and splitting a box

  /** Box `index` can be split, no splittable box is wider, and no later one is as wide. */
  ghost predicate IsChosen(boxes: seq<ColorBox>, index: int) {
    && 0 <= index < |boxes| && boxes[index].Span() >= 2
    && (forall i :: 0 <= i < |boxes| && boxes[i].Span() >= 2 ==> boxes[i].WidestRange() <= boxes[index].WidestRange())
    && (forall i :: index < i < |boxes| && boxes[i].Span() >= 2 ==> boxes[i].WidestRange() < boxes[index].WidestRange())
  }

  method ChooseBox(boxes: array<ColorBox>, count: nat) returns (index: int)
    requires count <= boxes.Length
    requires forall i :: 0 <= i < count ==> boxes[i].WidestRange() >= 0
    ensures if exists i :: 0 <= i < count && boxes[i].Span() >= 2 then IsChosen(boxes[..count], index) else index == -1
  {
    index := -1;
    var widest := 0;
    for i := 0 to count
      invariant index == -1 ==> widest == 0 && forall j :: 0 <= j < i ==> boxes[j].Span() < 2
      invariant index != -1 ==> IsChosen(boxes[..i], index) && widest == boxes[index].WidestRange()
    {
      assert boxes[..i + 1] == boxes[..i] + [boxes[i]];
      if boxes[i].Span() >= 2 {
        var range := boxes[i].WidestRange();
        if range >= widest {
          widest := range;
          index := i;
        }
      }
    }
  }

  /** The first position from m on at which the weight of colours [start, m) reaches half, or end. */
  function HalfWeight(colors: seq<Color>, start: nat, m: nat, end: nat, half: nat): (mid: nat)
    requires start <= m <= end <= |colors|
    ensures m <= mid <= end
    ensures forall i :: m <= i < mid ==> Total(colors[start..i]) < half
    ensures mid < end ==> Total(colors[start..mid]) >= half
    decreases end - m
  {
    if m < end && Total(colors[start..m]) < half then HalfWeight(colors, start, m + 1, end, half) else m
  }

  /** Where box b is cut: at half its weight, moved inside the box. */
  function SplitPoint(colors: seq<Color>, b: ColorBox): (mid: nat)
    requires b.start + 2 <= b.end <= |colors|
    ensures b.start < mid < b.end
    ensures b.start + 1 < mid ==> Total(colors[b.start..mid - 1]) < b.total / 2
    ensures mid < b.end - 1 ==> b.total / 2 <= Total(colors[b.start..mid])
  {
    var mid := HalfWeight(colors, b.start, b.start, b.end, b.total / 2);
    if mid <= b.start then b.start + 1
    else if mid >= b.end then b.end - 1
    else mid
  }

  method FindSplit(colors: array<Color>, box: ColorBox) returns (mid: nat)
    requires box.start + 2 <= box.end <= colors.Length
    ensures mid == SplitPoint(colors[..], box)
  {
    var half := box.total / 2;
    mid := box.start;
    var accum := 0;
    ghost var s := colors[..];
    ghost var goal := HalfWeight(s, box.start, box.start, box.end, half);
    while mid < box.end && accum < half
      invariant box.start <= mid <= box.end
      invariant accum == Total(s[box.start..mid]) && HalfWeight(s, box.start, mid, box.end, half) == goal
    {
      hide HalfWeight, Total;
      ScanStep(s, box.start, mid, box.end, half);
      accum := accum + colors[mid].count;
      mid := mid + 1;
    }
    if mid <= box.start {
      mid := box.start + 1;
    } else if mid >= box.end {
      mid := box.end - 1;
    }
  }

  lemma ScanStep(colors: seq<Color>, start: nat, m: nat, end: nat, half: nat)
    requires start <= m < end <= |colors|
    ensures Total(colors[start..m + 1]) == Total(colors[start..m]) + colors[m].count
    ensures Total(colors[start..m]) < half ==>
      HalfWeight(colors, start, m, end, half) == HalfWeight(colors, start, m + 1, end, half)
  {
    var upTo := colors[start..m + 1];
    assert upTo[..|upTo| - 1] == colors[start..m] && upTo[|upTo| - 1] == colors[m];
  }

  /** One turn of the loop: the colours of the chosen box are permuted and the box is cut in two; the right part is
      appended. */
  ghost predicate Cut(colors: seq<Color>, boxes: seq<ColorBox>, index: int,
                      colors': seq<Color>, boxes': seq<ColorBox>) {
    && IsChosen(boxes, index)
    && var b := boxes[index];
    && b.end <= |colors| == |colors'|
    && colors'[..b.start] == colors[..b.start] && colors'[b.end..] == colors[b.end..]
    && multiset(Segment(colors', b)) == multiset(Segment(colors, b))
    && |boxes'| == |boxes| + 1
    && boxes'[..|boxes|] == boxes[index := boxes'[index]]
    && var left, right := boxes'[index], boxes'[|boxes|];
    && left.start == b.start && left.end == right.start == SplitPoint(colors', b) && right.end == b.end
    && Tight(colors', left) && Tight(colors', right)
  }

  /** The chosen box has been sorted on its channel. The comparison reads the channel from a static variable that every
      quantisation writes, so this holds only while no other one runs. */
  ghost predicate SortedFor(b: ColorBox, colors': seq<Color>) {
    b.start <= b.end <= |colors'| && Sorted(b.Channel(), Segment(colors', b))
  }

  // ------------------------------------------------------------------ partition

  function Spans(boxes: seq<ColorBox>): int {
    if boxes == [] then 0 else Spans(boxes[..|boxes| - 1]) + boxes[|boxes| - 1].Span()
  }

  function Weights(boxes: seq<ColorBox>): int {
    if boxes == [] then 0 else Weights(boxes[..|boxes| - 1]) + boxes[|boxes| - 1].total
  }

  predicate Holds(b: ColorBox, x: int) {
    b.start <= x < b.end
  }

  ghost predicate Covered(boxes: seq<ColorBox>, x: int) {
    exists i :: 0 <= i < |boxes| && Holds(boxes[i], x)
  }

  /** The boxes are non-empty, tight, disjoint and cover the colour array; their spans and weights add up. */
  ghost predicate Partition(colors: seq<Color>, boxes: seq<ColorBox>) {
    && (forall i :: 0 <= i < |boxes| ==> Tight(colors, boxes[i]))
    && (forall i, j, x :: 0 <= i < |boxes| && 0 <= j < |boxes| && Holds(boxes[i], x) && Holds(boxes[j], x) ==> i == j)
    && (forall x :: 0 <= x < |colors| ==> Covered(boxes, x))
    && Spans(boxes) == |colors|
    && Weights(boxes) == Total(colors)
  }

  lemma {:induction false} SpansUpdate(boxes: seq<ColorBox>, i: nat, b: ColorBox)
    requires i < |boxes|
    ensures Spans(boxes[i := b]) == Spans(boxes) - boxes[i].Span() + b.Span()
    ensures Weights(boxes[i := b]) == Weights(boxes) - boxes[i].total + b.total
  {
    var n := |boxes| - 1;
    if i == n {
      assert boxes[i := b][..n] == boxes[..n];
    } else {
      assert boxes[i := b][..n] == boxes[..n][i := b];
      SpansUpdate(boxes[..n], i, b);
    }
  }

  /** While there are fewer boxes than colours, some box holds at least two: the early break is never taken. */
  lemma {:induction false} Pigeonhole(boxes: seq<ColorBox>)
    requires forall i :: 0 <= i < |boxes| ==> boxes[i].Span() < 2
    ensures Spans(boxes) <= |boxes|
  {
    if boxes != [] { Pigeonhole(boxes[..|boxes| - 1]); }
  }

  /** A box outside the sorted range keeps its colours. */
  lemma OutsideUntouched(colors: seq<Color>, colors': seq<Color>, b: ColorBox, other: ColorBox)
    requires b.start <= b.end <= |colors| == |colors'|
    requires colors'[..b.start] == colors[..b.start] && colors'[b.end..] == colors[b.end..]
    requires Tight(colors, other) && (other.end <= b.start || b.end <= other.start)
    ensures Tight(colors', other)
  {
    forall x | other.start <= x < other.end ensures colors'[x] == colors[x] {
      if other.end <= b.start {
        assert colors'[x] == colors'[..b.start][x] && colors[x] == colors[..b.start][x];
      } else {
        assert colors'[x] == colors'[b.end..][x - b.end] && colors[x] == colors[b.end..][x - b.end];
      }
    }
    assert Segment(colors', other) == Segment(colors, other);
  }

  /** Disjoint non-empty boxes lie one after the other. */
  lemma Ordered(colors: seq<Color>, boxes: seq<ColorBox>, i: nat, j: nat)
    requires Partition(colors, boxes) && i < |boxes| && j < |boxes| && i != j
    ensures boxes[i].end <= boxes[j].start || boxes[j].end <= boxes[i].start
  {
    assert Tight(colors, boxes[i]) && Tight(colors, boxes[j]);
    assert !(Holds(boxes[i], boxes[j].start) && Holds(boxes[j], boxes[j].start));
    assert !(Holds(boxes[i], boxes[i].start) && Holds(boxes[j], boxes[i].start));
  }

  lemma CutPermutes(colors: seq<Color>, colors': seq<Color>, b: ColorBox)
    requires b.start <= b.end <= |colors| == |colors'|
    requires colors'[..b.start] == colors[..b.start] && colors'[b.end..] == colors[b.end..]
    requires multiset(Segment(colors', b)) == multiset(Segment(colors, b))
    ensures multiset(colors') == multiset(colors)
  {
    assert colors == colors[..b.start] + Segment(colors, b) + colors[b.end..];
    assert colors' == colors'[..b.start] + Segment(colors', b) + colors'[b.end..];
  }

  /** The weight of the two parts is the weight of the box. */
  lemma CutWeights(colors: seq<Color>, boxes: seq<ColorBox>, index: int, colors': seq<Color>, boxes': seq<ColorBox>)
    requires Cut(colors, boxes, index, colors', boxes') && Tight(colors, boxes[index])
    ensures boxes'[index].total + boxes'[|boxes|].total == boxes[index].total
  {
    var b, left, right := boxes[index], boxes'[index], boxes'[|boxes|];
    assert Segment(colors', b) == Segment(colors', left) + Segment(colors', right);
    TotalConcat(Segment(colors', left), Segment(colors', right));
    TotalPermutation(Segment(colors', b), Segment(colors, b));
  }

  lemma CutSums(colors: seq<Color>, boxes: seq<ColorBox>, index: int, colors': seq<Color>, boxes': seq<ColorBox>)
    requires Cut(colors, boxes, index, colors', boxes') && Tight(colors, boxes[index])
    ensures Spans(boxes') == Spans(boxes) && Weights(boxes') == Weights(boxes)
    ensures multiset(colors') == multiset(colors) && Total(colors') == Total(colors)
  {
    CutWeights(colors, boxes, index, colors', boxes');
    SpansUpdate(boxes, index, boxes'[index]);
    CutPermutes(colors, colors', boxes[index]);
    TotalPermutation(colors', colors);
  }

  /** What each box of the new list holds, in terms of the old one. */
  lemma CutBoxes(colors: seq<Color>, boxes: seq<ColorBox>, index: int, colors': seq<Color>, boxes': seq<ColorBox>)
    requires Cut(colors, boxes, index, colors', boxes')
    ensures forall i :: 0 <= i < |boxes| && i != index ==> boxes'[i] == boxes[i]
    ensures forall x :: Holds(boxes'[index], x) ==> Holds(boxes[index], x) && !Holds(boxes'[|boxes|], x)
    ensures forall x :: Holds(boxes'[|boxes|], x) ==> Holds(boxes[index], x)
  {
    forall i | 0 <= i < |boxes| && i != index ensures boxes'[i] == boxes[i] {
      assert boxes'[i] == boxes'[..|boxes|][i];
    }
  }

  lemma CutKeepsTight(colors: seq<Color>, boxes: seq<ColorBox>, index: int,
                      colors': seq<Color>, boxes': seq<ColorBox>, i: nat)
    requires Partition(colors, boxes) && Cut(colors, boxes, index, colors', boxes') && i < |boxes'|
    ensures Tight(colors', boxes'[i])
  {
    if i != index && i < |boxes| {
      CutBoxes(colors, boxes, index, colors', boxes');
      Ordered(colors, boxes, i, index);
      OutsideUntouched(colors, colors', boxes[index], boxes[i]);
    }
  }

  lemma CutKeepsCover(colors: seq<Color>, boxes: seq<ColorBox>, index: int,
                      colors': seq<Color>, boxes': seq<ColorBox>, x: nat)
    requires Partition(colors, boxes) && Cut(colors, boxes, index, colors', boxes') && x < |colors|
    ensures Covered(boxes', x)
  {
    CutBoxes(colors, boxes, index, colors', boxes');
    assert Covered(boxes, x);
    var i :| 0 <= i < |boxes| && Holds(boxes[i], x);
    if i == index {
      assert Holds(boxes'[index], x) || Holds(boxes'[|boxes|], x);
    } else {
      assert Holds(boxes'[i], x);
    }
  }

  lemma CutKeepsDisjoint(colors: seq<Color>, boxes: seq<ColorBox>, index: int,
                         colors': seq<Color>, boxes': seq<ColorBox>, i: nat, j: nat, x: int)
    requires Partition(colors, boxes) && Cut(colors, boxes, index, colors', boxes')
    requires i < |boxes'| && j < |boxes'| && Holds(boxes'[i], x) && Holds(boxes'[j], x)
    ensures i == j
  {
    CutBoxes(colors, boxes, index, colors', boxes');
    var i0, j0 := if i == |boxes| then index else i, if j == |boxes| then index else j;
    assert Holds(boxes[i0], x) && Holds(boxes[j0], x);
  }

  /** Every cut keeps the partition. */
  lemma CutKeepsPartition(colors: seq<Color>, boxes: seq<ColorBox>, index: int,
                          colors': seq<Color>, boxes': seq<ColorBox>)
    requires Partition(colors, boxes) && Cut(colors, boxes, index, colors', boxes')
    ensures Partition(colors', boxes') && multiset(colors') == multiset(colors)
  {
    CutSums(colors, boxes, index, colors', boxes');
    forall i | 0 <= i < |boxes'| ensures Tight(colors', boxes'[i]) {
      CutKeepsTight(colors, boxes, index, colors', boxes', i);
    }
    forall i, j, x | 0 <= i < |boxes'| && 0 <= j < |boxes'| && Holds(boxes'[i], x) && Holds(boxes'[j], x)
      ensures i == j
    {
      CutKeepsDisjoint(colors, boxes, index, colors', boxes', i, j, x);
    }
    forall x | 0 <= x < |colors'| ensures Covered(boxes', x) {
      CutKeepsCover(colors, boxes, index, colors', boxes', x);
    }
  }

  /** A cut after sorting separates the two parts on the widest channel. */
  lemma CutSeparates(colors: seq<Color>, boxes: seq<ColorBox>, index: int, colors': seq<Color>, boxes': seq<ColorBox>)
    requires Cut(colors, boxes, index, colors', boxes') && SortedFor(boxes[index], colors')
    ensures var k := boxes[index].Channel(); boxes'[index].hi.Ch(k) <= boxes'[|boxes|].lo.Ch(k)
  {
    var b, left, right := boxes[index], boxes'[index], boxes'[|boxes|];
    var k := b.Channel();
    assert AttainedOn(Segment(colors', left), left.hi, k) && AttainedOn(Segment(colors', right), right.lo, k);
    var i :| 0 <= i < |Segment(colors', left)| && Segment(colors', left)[i].px.Ch(k) == left.hi.Ch(k);
    var j :| 0 <= j < |Segment(colors', right)| && Segment(colors', right)[j].px.Ch(k) == right.lo.Ch(k);
    var j' := j + left.Span();
    assert Segment(colors', b)[i] == Segment(colors', left)[i] && Segment(colors', b)[j'] == Segment(colors', right)[j];
    assert Compare(k, Segment(colors', b)[i], Segment(colors', b)[j']) <= 0;
  }

  /** A cut halves the weight as well as one can without splitting a colour: the left part without its last colour
      weighs less than half, and the right part is one colour or weighs at most half. */
  lemma CutBalances(colors: seq<Color>, boxes: seq<ColorBox>, index: int, colors': seq<Color>, boxes': seq<ColorBox>)
    requires Cut(colors, boxes, index, colors', boxes') && Tight(colors, boxes[index])
    ensures var b, left, right := boxes[index], boxes'[index], boxes'[|boxes|];
      && left.start < left.end <= |colors'|
      && (left.Span() > 1 ==> Total(colors'[left.start..left.end - 1]) < b.total / 2)
      && (right.Span() > 1 ==> right.total <= b.total - b.total / 2)
  {
    hide Total;
    CutWeights(colors, boxes, index, colors', boxes');
    var b, left := boxes[index], boxes'[index];
    assert left.total == Total(Segment(colors', left));
    var mid := SplitPoint(colors', b);
  }

  lemma TightRange(colors: seq<Color>, b: ColorBox)
    requires Tight(colors, b)
    ensures forall k :: 0 <= k < CHANNELS ==> b.Range(k) >= 0
    ensures b.WidestRange() >= 0
  {
    forall k | 0 <= k < CHANNELS ensures b.Range(k) >= 0 {
      var c := Segment(colors, b)[0];
      assert b.lo.Ch(k) <= c.px.Ch(k) <= b.hi.Ch(k);
    }
    assert b.Range(0) >= 0;
  }

  lemma SplittableExists(colors: seq<Color>, boxes: seq<ColorBox>)
    requires Partition(colors, boxes) && |boxes| < |colors|
    ensures exists i :: 0 <= i < |boxes| && boxes[i].Span() >= 2
  {
    if forall i :: 0 <= i < |boxes| ==> boxes[i].Span() < 2 { Pigeonhole(boxes); }
  }

  /** A state of the loop. */
  datatype Stage = Stage(colors: seq<Color>, boxes: seq<ColorBox>)

  /** The stages of a run of the loop: one box over all colours at first, then one cut after the other. */
  ghost predicate IsRun(trace: seq<Stage>) {
    && trace != []
    && |trace[0].boxes| == 1 && trace[0].boxes[0].start == 0 && trace[0].boxes[0].end == |trace[0].colors|
    && forall i :: 0 < i < |trace| ==> IsCut(trace[i - 1], trace[i])
  }

  ghost predicate IsCut(before: Stage, after: Stage) {
    exists index :: Cut(before.colors, before.boxes, index, after.colors, after.boxes)
  }

  ghost predicate IsSortedCut(before: Stage, after: Stage) {
    exists index ::
      Cut(before.colors, before.boxes, index, after.colors, after.boxes) && SortedFor(before.boxes[index], after.colors)
  }

  ghost predicate EachSorted(trace: seq<Stage>) {
    forall i :: 0 < i < |trace| ==> IsSortedCut(trace[i - 1], trace[i])
  }

  /** Whatever order the colours of the chosen boxes are brought into, a run of cuts partitions the colours, and each
      cut adds a box. */
  lemma {:induction false} AnyOrderPartitions(trace: seq<Stage>)
    requires IsRun(trace) && Partition(trace[0].colors, trace[0].boxes)
    ensures var last := trace[|trace| - 1];
      && Partition(last.colors, last.boxes) && |last.boxes| == |trace|
      && multiset(last.colors) == multiset(trace[0].colors)
  {
    hide Partition, Cut;
    if |trace| > 1 {
      var n := |trace| - 1;
      var front := trace[..n];
      forall i | 0 < i < |front| ensures IsCut(front[i - 1], front[i]) {
        assert IsCut(trace[i - 1], trace[i]);
      }
      AnyOrderPartitions(front);
      var before, after := trace[n - 1], trace[n];
      assert IsCut(before, after);
      var index :| Cut(before.colors, before.boxes, index, after.colors, after.boxes);
      CutKeepsPartition(before.colors, before.boxes, index, after.colors, after.boxes);
      CutAdds(before.colors, before.boxes, index, after.colors, after.boxes);
    }
  }

  lemma CutAdds(colors: seq<Color>, boxes: seq<ColorBox>, index: int, colors': seq<Color>, boxes': seq<ColorBox>)
    requires Cut(colors, boxes, index, colors', boxes')
    ensures |boxes'| == |boxes| + 1
  {
  }

  lemma OneBox(colors: seq<Color>, b: ColorBox)
    requires Tight(colors, b) && b.start == 0 && b.end == |colors|
    ensures Partition(colors, [b])
  {
    assert Segment(colors, b) == colors;
    hide Tight, Spans, Weights;
    OneSum(b);
    var boxes := [b];
    forall x | 0 <= x < |colors| ensures Covered(boxes, x) { assert Holds(boxes[0], x); }
    assert b.total == Total(colors) by { TightTotal(colors, b); }
  }

  lemma OneSum(b: ColorBox)
    ensures Spans([b]) == b.Span() && Weights([b]) == b.total
  {
    var boxes := [b];
    var none := boxes[..|boxes| - 1];
    assert none == [] && boxes[|boxes| - 1] == b && Spans(none) == 0 && Weights(none) == 0;
  }

  lemma TightTotal(colors: seq<Color>, b: ColorBox)
    requires Tight(colors, b)
    ensures b.start < b.end <= |colors| && b.total == Total(Segment(colors, b))
  {
  }

  /** The body of the loop once a box is chosen. */
  method CutOnce(colors: array<Color>, boxes: array<ColorBox>, count: nat, index: int)
    requires count < boxes.Length
    requires Partition(colors[..], boxes[..count]) && IsChosen(boxes[..count], index)
    modifies colors, boxes
    ensures Cut(old(colors[..]), old(boxes[..count]), index, colors[..], boxes[..count + 1])
    ensures SortedFor(old(boxes[index]), colors[..])
    ensures Partition(colors[..], boxes[..count + 1]) && multiset(colors[..]) == multiset(old(colors[..]))
  {
    hide Partition, IsChosen, Cut, SortedFor, Tight, Sorted;
    ghost var oldColors, oldBoxes := colors[..], boxes[..count];
    ChosenFits(oldColors, oldBoxes, index);
    var box := boxes[index];
    QSort(colors, box.start, box.end, box.Channel());
    var mid := FindSplit(colors, box);
    var left := Recalc(box.(end := mid), colors);
    var right := Recalc(box.(start := mid), colors);
    boxes[index] := left;
    boxes[count] := right;
    ghost var newBoxes := boxes[..count + 1];
    assert newBoxes == oldBoxes[index := left] + [right];
    assert Segment(colors[..], box) == colors[box.start..box.end];
    assert Segment(oldColors, box) == old(colors[box.start..box.end]);
    SortedIsSortedFor(box, colors[..]);
    MakesCut(oldColors, oldBoxes, index, colors[..], left, right);
    CutKeepsPartition(oldColors, oldBoxes, index, colors[..], newBoxes);
  }

  lemma ChosenFits(colors: seq<Color>, boxes: seq<ColorBox>, index: int)
    requires Partition(colors, boxes) && IsChosen(boxes, index)
    ensures 0 <= index < |boxes| && boxes[index].start + 2 <= boxes[index].end <= |colors|
  {
    assert Tight(colors, boxes[index]);
  }

  lemma SortedIsSortedFor(b: ColorBox, colors: seq<Color>)
    requires b.start <= b.end <= |colors| && Sorted(b.Channel(), Segment(colors, b))
    ensures SortedFor(b, colors)
  {
  }

  lemma MakesCut(colors: seq<Color>, boxes: seq<ColorBox>, index: int, colors': seq<Color>, left: ColorBox,
                 right: ColorBox)
    requires IsChosen(boxes, index) && boxes[index].start + 2 <= boxes[index].end <= |colors| == |colors'|
    requires var b := boxes[index];
      && colors'[..b.start] == colors[..b.start] && colors'[b.end..] == colors[b.end..]
      && multiset(Segment(colors', b)) == multiset(Segment(colors, b))
      && left.start == b.start && left.end == right.start == SplitPoint(colors', b) && right.end == b.end
    requires Tight(colors', left) && Tight(colors', right)
    ensures Cut(colors, boxes, index, colors', boxes[index := left] + [right])
  {
    hide Tight, SplitPoint;
    var boxes' := boxes[index := left] + [right];
    assert boxes'[..|boxes|] == boxes[index := left] && boxes'[index] == left && boxes'[|boxes|] == right;
  }

  lemma ExtendRun(trace: seq<Stage>, after: Stage, index: int)
    requires IsRun(trace) && EachSorted(trace)
    requires var before := trace[|trace| - 1];
      Cut(before.colors, before.boxes, index, after.colors, after.boxes) && SortedFor(before.boxes[index], after.colors)
    ensures IsRun(trace + [after]) && EachSorted(trace + [after])
  {
    hide Cut, SortedFor;
    var t := trace + [after];
    forall i | 0 < i < |t| ensures IsCut(t[i - 1], t[i]) && IsSortedCut(t[i - 1], t[i]) {
      if i < |trace| {
        assert IsCut(trace[i - 1], trace[i]) && IsSortedCut(trace[i - 1], trace[i]);
        assert t[i - 1] == trace[i - 1] && t[i] == trace[i];
      } else {
        assert t[i - 1] == trace[|trace| - 1] && t[i] == after;
      }
    }
  }

  /** The box the loop cuts next: there is one as long as boxes are fewer than colours. */
  method NextBox(colors: array<Color>, boxes: array<ColorBox>, count: nat) returns (index: int)
    requires count <= boxes.Length && count < colors.Length && Partition(colors[..], boxes[..count])
    ensures IsChosen(boxes[..count], index)
  {
    SplittableExists(colors[..], boxes[..count]);
    forall i | 0 <= i < count ensures boxes[i].WidestRange() >= 0 {
      TightRange(colors[..], boxes[..count][i]);
    }
    assert forall i :: 0 <= i < count ==> boxes[..count][i] == boxes[i];
    index := ChooseBox(boxes, count);
  }

  method FirstBox(colors: array<Color>) returns (boxes: array<ColorBox>)
    requires 0 < colors.Length
    ensures fresh(boxes) && boxes.Length == MAX_BOXES
    ensures Partition(colors[..], boxes[..1])
    ensures IsRun([Stage(colors[..], boxes[..1])]) && EachSorted([Stage(colors[..], boxes[..1])])
  {
    boxes := new ColorBox[MAX_BOXES];
    var first := Recalc(ColorBox(0, colors.Length, Rgba(0, 0, 0, 0), Rgba(0, 0, 0, 0), 0), colors);
    boxes[0] := first;
    OneBox(colors[..], first);
    assert boxes[..1] == [first];
  }

  /** The loop ends with exactly `target` boxes that partition the colours, having only permuted the colours. */
  method SplitBoxes(colors: array<Color>, target: nat)
    returns (boxes: array<ColorBox>, count: nat, ghost trace: seq<Stage>)
    requires 1 <= target <= MAX_BOXES && target <= colors.Length
    modifies colors
    ensures fresh(boxes) && boxes.Length == MAX_BOXES && count == target
    ensures Partition(colors[..], boxes[..count]) && multiset(colors[..]) == multiset(old(colors[..]))
    ensures IsRun(trace) && EachSorted(trace) && trace[0].colors == old(colors[..])
    ensures trace[|trace| - 1] == Stage(colors[..], boxes[..count])
  {
    hide Partition, IsCut, EachSorted, Cut, SortedFor, IsChosen;
    boxes := FirstBox(colors);
    count := 1;
    trace := [Stage(colors[..], boxes[..count])];
    while count < target
      invariant 1 <= count <= target
      invariant Partition(colors[..], boxes[..count])
      invariant multiset(colors[..]) == multiset(old(colors[..]))
      invariant IsRun(trace) && EachSorted(trace) && trace[0].colors == old(colors[..])
      invariant trace[|trace| - 1] == Stage(colors[..], boxes[..count])
    {
      var index := NextBox(colors, boxes, count);
      if index == -1 { break; }
      CutOnce(colors, boxes, count, index);
      count := count + 1;
      ExtendRun(trace, Stage(colors[..], boxes[..count]), index);
      trace := trace + [Stage(colors[..], boxes[..count])];
    }
  }
}
