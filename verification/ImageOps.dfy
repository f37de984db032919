/** Cropping an image, and trimming its transparent border (src/image_ops.c:7-129). */
module ImageOps {
  import opened Common

  const INT_MAX := 0x7FFF_FFFF

  datatype Pixel = Pixel(r: byte, g: byte, b: byte, alpha: byte)

  datatype Rect = Rect(x: int, y: int, w: int, h: int)

  type Picture = seq<seq<Pixel>>

  predicate Sized(p: Picture, w: nat, h: nat) {
    |p| == h && forall y :: 0 <= y < h ==> |p[y]| == w
  }

  predicate Inside(b: Rect, w: nat, h: nat) {
    0 <= b.x && 0 <= b.y && 0 < b.w && 0 < b.h && b.x + b.w <= w && b.y + b.h <= h
  }

  /** The part of an image that a crop takes; None when it takes none. */
  function Clip(b: Rect, w: nat, h: nat): (c: Option<Rect>)
    ensures c.Some? ==> Inside(c.value, w, h)
  {
    var x, y := if b.x < 0 then 0 else b.x, if b.y < 0 then 0 else b.y;
    if b.w <= 0 || b.h <= 0 || x >= w || y >= h then None
    else Some(Rect(x, y, if x + b.w > w then w - x else b.w, if y + b.h > h then h - y else b.h))
  }

  function Cropped(p: Picture, w: nat, h: nat, b: Rect): (c: Picture)
    requires Sized(p, w, h) && Inside(b, w, h)
    ensures Sized(c, b.w, b.h)
    ensures forall y :: 0 <= y < b.h ==> c[y] == p[b.y + y][b.x..b.x + b.w]
  {
    seq(b.h, y requires 0 <= y < b.h => p[b.y + y][b.x..b.x + b.w])
  }

  // ------------------------------------------------------------ row-major storage

  /** Row y of an image of width w. */
  function Row(s: seq<Pixel>, w: nat, y: nat): (r: seq<Pixel>)
    ensures 0 <= y * w && (y * w + w <= |s| ==> |r| == w)
  {
    RowStart(y, w);
    if y * w + w <= |s| then s[y * w..y * w + w] else []
  }

  lemma RowStart(y: nat, w: nat)
    ensures 0 <= y * w
  {
  }

  lemma RowFits(y: nat, w: nat, h: nat)
    requires y < h
    ensures 0 <= y * w && y * w + w <= h * w == w * h
  {
    assert (h - y - 1) * w >= 0;
    assert h * w == (h - y - 1) * w + (y * w + w);
  }

  ghost function Rows(s: seq<Pixel>, w: nat, h: nat): (p: Picture)
    requires |s| == w * h
    ensures Sized(p, w, h) && forall y :: 0 <= y < h ==> p[y] == Row(s, w, y)
  {
    AllRowsFit(w, h);
    seq(h, y requires 0 <= y < h => Row(s, w, y))
  }

  lemma AllRowsFit(w: nat, h: nat)
    ensures forall y :: 0 <= y < h ==> y * w + w <= w * h
  {
    forall y | 0 <= y < h ensures y * w + w <= w * h { RowFits(y, w, h); }
  }

  /** A row above is not touched by writing further on. */
  lemma RowKept(s: seq<Pixel>, t: seq<Pixel>, w: nat, y: nat, row: nat)
    requires y < row && row * w <= |s| && row * w <= |t| && s[..row * w] == t[..row * w]
    ensures Row(s, w, y) == Row(t, w, y)
  {
    RowFits(y, w, row);
    assert s[y * w..y * w + w] == s[..row * w][y * w..y * w + w];
    assert t[y * w..y * w + w] == t[..row * w][y * w..y * w + w];
  }

  /** `fp_image_ops_report`. */
  class Report {
    var originalWidth: nat
    var originalHeight: nat
    var finalWidth: nat
    var finalHeight: nat
    var trimApplied: bool
    var cropApplied: bool
  }

  /** The numbers in a report. */
  datatype Sizes = Sizes(originalWidth: nat, originalHeight: nat, finalWidth: nat, finalHeight: nat)

  ghost function SizesIn(r: Report): Sizes
    reads r
  {
    Sizes(r.originalWidth, r.originalHeight, r.finalWidth, r.finalHeight)
  }

  class Image {
    var pixels: array<Pixel>
    var width: nat
    var height: nat

    ghost predicate Valid()
      reads this
    {
      pixels.Length == width * height && width <= INT_MAX && height <= INT_MAX
    }

    ghost function Shown(): (p: Picture)
      requires Valid()
      reads this, pixels
      ensures Sized(p, width, height)
    {
      Rows(pixels[..], width, height)
    }

    lemma PixelAt(x: nat, y: nat)
      requires Valid() && x < width && y < height
      ensures 0 <= y * width + x < pixels.Length && pixels[y * width + x] == Shown()[y][x]
    {
      RowFits(y, width, height);
      assert Shown()[y] == Row(pixels[..], width, y);
    }

    method SeedReport(report: Report?)
      modifies report
      ensures report != null ==> SizesIn(report) == Sizes(width, height, width, height)
      ensures report != null ==>
        report.trimApplied == old(report.trimApplied) && report.cropApplied == old(report.cropApplied)
    {
      if report == null { return; }
      report.originalWidth := width;
      report.originalHeight := height;
      report.finalWidth := width;
      report.finalHeight := height;
    }

    /** `fp_crop_image`. */
    method Crop(b: Rect, report: Report?) returns (ok: bool)
      requires Valid() && b.x + b.w <= INT_MAX && b.y + b.h <= INT_MAX && b.w <= INT_MAX && b.h <= INT_MAX
      modifies this, report
      ensures Valid() && ok == Clip(b, old(width), old(height)).Some?
      ensures !ok ==> pixels == old(pixels) && width == old(width) && height == old(height)
      ensures ok ==> var c := Clip(b, old(width), old(height)).value;
        fresh(pixels) && width == c.w && height == c.h &&
        Shown() == Cropped(old(Shown()), old(width), old(height), c)
      ensures report != null && (0 < b.w && 0 < b.h) ==>
        SizesIn(report) == Sizes(old(width), old(height), width, height)
      ensures report != null ==>
        report.trimApplied == old(report.trimApplied) && report.cropApplied == (ok || old(report.cropApplied))
    {
      hide Rows, Cropped;
      if b.w <= 0 || b.h <= 0 { return false; }
      SeedReport(report);
      var x, y, w, h := b.x, b.y, b.w, b.h;
      if width == 0 || height == 0 { return false; }
      if x < 0 { x := 0; }
      if y < 0 { y := 0; }
      if x >= width || y >= height { return false; }
      if x + w > width { w := width - x; }
      if y + h > height { h := height - y; }
      assert Clip(b, width, height) == Some(Rect(x, y, w, h));
      TakeBox(Rect(x, y, w, h));
      if report != null {
        report.cropApplied := true;
        report.finalWidth := w;
        report.finalHeight := h;
      }
      ok := true;
    }

    /** The image becomes the box. */
    method TakeBox(b: Rect)
      requires Valid() && Inside(b, width, height)
      modifies this
      ensures Valid() && fresh(pixels) && width == b.w && height == b.h
      ensures Shown() == Cropped(old(Shown()), old(width), old(height), b)
    {
      hide Rows, Cropped;
      var cropped := CopyBox(b);
      pixels := cropped;
      width := b.w;
      height := b.h;
    }

    /** The row copies. */
    method CopyBox(b: Rect) returns (cropped: array<Pixel>)
      requires Valid() && Inside(b, width, height)
      ensures fresh(cropped) && cropped.Length == b.w * b.h
      ensures Rows(cropped[..], b.w, b.h) == Cropped(Shown(), width, height, b)
    {
      hide Row, Rows, Cropped;
      RowStart(b.w, b.h);
      ghost var p := Shown();
      cropped := new Pixel[b.w * b.h](_ => Pixel(0, 0, 0, 0));
      for row := 0 to b.h
        invariant RowsCopied(cropped[..], row, p, b)
        modifies cropped
      {
        ghost var was := cropped[..];
        RowFits(row, b.w, b.h);
        RowFits(b.y + row, width, height);
        RowOfImage(b.y + row, b.x, b.w);
        CopyPixels(pixels, (b.y + row) * width + b.x, cropped, row * b.w, b.w);
        OneMoreRow(was, cropped[..], row, p, b);
      }
      CopiedRowsAre(cropped[..], p, width, height, b);
    }

    /** The scan for opaque pixels: the largest and least coordinates at which there are any. */
    method Scan(threshold: nat) returns (found: bool, b: Rect)
      requires Valid() && 0 < width && 0 < height
      ensures found <==> AnyOpaque(Shown(), threshold)
      ensures found ==> Bounds(Shown(), threshold, b)
    {
      hide Rows, Scanned, Opaque, Bounds;
      ghost var p := Shown();
      var minX, minY, maxX, maxY := width, height, -1, -1;
      ScanStarts(p, threshold, width, height);
      for y := 0 to height
        invariant Scanned(p, threshold, width, height, 0, y, minX, minY, maxX, maxY)
      {
        for x := 0 to width
          invariant Scanned(p, threshold, width, height, x, y, minX, minY, maxX, maxY)
        {
          PixelAt(x, y);
          ScanStep(p, threshold, width, height, x, y, minX, minY, maxX, maxY);
          var alpha := pixels[y * width + x].alpha;
          if alpha > threshold {
            if x < minX { minX := x; }
            if y < minY { minY := y; }
            if x > maxX { maxX := x; }
            if y > maxY { maxY := y; }
          }
        }
        ScanRowEnds(p, threshold, width, height, y, minX, minY, maxX, maxY);
      }
      found := maxX >= minX && maxY >= minY;
      b := Rect(minX, minY, maxX - minX + 1, maxY - minY + 1);
      ScanEnds(p, threshold, width, height, minX, minY, maxX, maxY);
    }

    /** `fp_trim_image`. */
    method Trim(tolerance: real, report: Report?) returns (ok: bool)
      requires Valid()
      modifies this, report
      ensures Valid() && ok == (0 < old(width) && 0 < old(height))
      ensures !ok ==> pixels == old(pixels) && width == old(width) && height == old(height)
      ensures ok ==> TrimmedTo(old(Shown()), old(width), old(height), Threshold(tolerance), Shown(), width, height)
      ensures ok && report != null ==> SizesIn(report) == Sizes(old(width), old(height), width, height)
      ensures ok && report != null ==>
        report.trimApplied == (width != old(width) || height != old(height) || old(report.trimApplied))
    {
      hide Bounds, Rows, Cropped, TrimmedTo, AnyOpaque, IsTrimBox;
      ghost var p := Shown();
      SeedReport(report);
      var threshold := Threshold(tolerance);
      if width == 0 || height == 0 { return false; }
      var found, b := Scan(threshold);
      if !found { b := Rect(0, 0, 1, 1); }
      ScannedBox(p, threshold, b);
      BoundsInside(p, width, height, threshold, b);
      TrimmedBy(p, width, height, threshold, b);
      if b.w == width && b.h == height && b.x == 0 && b.y == 0 {
        WholePicture(p, width, height);
        return true;
      }
      ClipInside(b, width, height);
      ok := Crop(b, report);
      if ok && report != null { report.trimApplied := true; }
    }

    lemma RowOfImage(y: nat, x: nat, n: nat)
      requires Valid() && y < height && x + n <= width
      ensures 0 <= y * width + x && y * width + x + n <= pixels.Length
      ensures pixels[y * width + x..y * width + x + n] == Shown()[y][x..x + n]
    {
      RowFits(y, width, height);
      assert Shown()[y] == Row(pixels[..], width, y) == pixels[..][y * width..y * width + width];
      SliceOfSlice(pixels[..], y * width, width, x, n);
      assert pixels[y * width + x..y * width + x + n] == pixels[..][y * width + x..y * width + x + n];
    }
  }

  /** Row y of the box has been copied. */
  predicate RowCopied(s: seq<Pixel>, y: int, p: Picture, b: Rect) {
    && 0 <= y && 0 <= b.x && 0 <= b.y && 0 <= b.w
    && b.y + y < |p| && b.x + b.w <= |p[b.y + y]| && Row(s, b.w, y) == p[b.y + y][b.x..b.x + b.w]
  }

  ghost predicate RowsCopied(s: seq<Pixel>, n: nat, p: Picture, b: Rect) {
    forall y :: 0 <= y < n ==> RowCopied(s, y, p, b)
  }

  lemma OneMoreRow(was: seq<Pixel>, s: seq<Pixel>, row: nat, p: Picture, b: Rect)
    requires 0 <= b.x && 0 <= b.y && 0 <= b.w && RowsCopied(was, row, p, b) && 0 <= row * b.w
    requires |s| == |was| && row * b.w + b.w <= |s| && s[..row * b.w] == was[..row * b.w]
    requires b.y + row < |p| && b.x + b.w <= |p[b.y + row]|
    requires s[row * b.w..row * b.w + b.w] == p[b.y + row][b.x..b.x + b.w]
    ensures RowsCopied(s, row + 1, p, b)
  {
    assert RowCopied(s, row, p, b);
    forall y | 0 <= y < row ensures RowCopied(s, y, p, b) {
      assert RowCopied(was, y, p, b);
      RowKept(s, was, b.w, y, row);
    }
  }

  lemma CopiedRowsAre(s: seq<Pixel>, p: Picture, w: nat, h: nat, b: Rect)
    requires Sized(p, w, h) && Inside(b, w, h) && |s| == b.w * b.h && RowsCopied(s, b.h, p, b)
    ensures Rows(s, b.w, b.h) == Cropped(p, w, h, b)
  {
    hide Row, Cropped;
    forall y | 0 <= y < b.h ensures Rows(s, b.w, b.h)[y] == Cropped(p, w, h, b)[y] {
      assert RowCopied(s, y, p, b);
    }
  }

  /** `memcpy`. */
  method CopyPixels(src: array<Pixel>, from: nat, dst: array<Pixel>, at: nat, n: nat)
    requires src != dst && from + n <= src.Length && at + n <= dst.Length
    modifies dst
    ensures dst[at..at + n] == src[from..from + n]
    ensures dst[..at] == old(dst[..at]) && dst[at + n..] == old(dst[at + n..])
  {
    for i := 0 to n
      invariant dst[at..at + i] == src[from..from + i]
      invariant dst[..at] == old(dst[..at]) && dst[at + n..] == old(dst[at + n..])
    {
      dst[at + i] := src[from + i];
    }
  }

  // ---------------------------------------------------------------- the trim box

  function Clamp(tolerance: real): real {
    if tolerance < 0.0 then 0.0 else if tolerance > 1.0 then 1.0 else tolerance
  }

  /** The largest alpha value, rounded to the nearest, that still counts as transparent. */
  function Threshold(tolerance: real): (t: nat)
    ensures t <= 255
  {
    (Clamp(tolerance) * 255.0 + 0.5).Floor
  }

  /** A pixel counts as opaque exactly when its alpha is more than half a step above the tolerance; alpha 0 never
      does. */
  lemma OpaqueExactlyWhen(p: Picture, tolerance: real, x: int, y: int)
    ensures Opaque(p, Threshold(tolerance), x, y) <==>
      0 <= y < |p| && 0 <= x < |p[y]| && p[y][x].alpha as real > Clamp(tolerance) * 255.0 + 0.5
    ensures Opaque(p, Threshold(tolerance), x, y) ==> p[y][x].alpha > 0
  {
  }

  predicate Opaque(p: Picture, threshold: nat, x: int, y: int) {
    0 <= y < |p| && 0 <= x < |p[y]| && p[y][x].alpha > threshold
  }

  predicate In(b: Rect, x: int, y: int) {
    b.x <= x < b.x + b.w && b.y <= y < b.y + b.h
  }

  ghost predicate OnColumn(p: Picture, threshold: nat, x: int) {
    exists y :: Opaque(p, threshold, x, y)
  }

  ghost predicate OnRow(p: Picture, threshold: nat, y: int) {
    exists x :: Opaque(p, threshold, x, y)
  }

  /** Each side of the range has an opaque pixel on it. */
  ghost predicate Touches(p: Picture, threshold: nat, minX: int, minY: int, maxX: int, maxY: int) {
    && OnColumn(p, threshold, minX) && OnColumn(p, threshold, maxX)
    && OnRow(p, threshold, minY) && OnRow(p, threshold, maxY)
  }

  ghost predicate Encloses(p: Picture, threshold: nat, b: Rect) {
    forall x, y :: Opaque(p, threshold, x, y) ==> In(b, x, y)
  }

  /** What the scan knows before pixel (x, y): the ranges of the opaque pixels seen so far. */
  ghost predicate Scanned(p: Picture, threshold: nat, w: nat, h: nat, x: int, y: int,
                          minX: int, minY: int, maxX: int, maxY: int) {
    && Sized(p, w, h) && (maxX == -1 <==> maxY == -1)
    && (maxX == -1 ==> minX == w && minY == h)
    && (forall u, v :: Opaque(p, threshold, u, v) && (v < y || (v == y && u < x)) ==>
          minX <= u <= maxX && minY <= v <= maxY)
    && (maxX != -1 ==> Touches(p, threshold, minX, minY, maxX, maxY))
  }

  lemma ScanStarts(p: Picture, threshold: nat, w: nat, h: nat)
    requires Sized(p, w, h)
    ensures Scanned(p, threshold, w, h, 0, 0, w, h, -1, -1)
  {
  }

  lemma ScanStep(p: Picture, threshold: nat, w: nat, h: nat, x: int, y: int, minX: int, minY: int, maxX: int, maxY: int)
    requires Scanned(p, threshold, w, h, x, y, minX, minY, maxX, maxY) && 0 <= x < w && 0 <= y < h
    ensures if p[y][x].alpha > threshold
            then Scanned(p, threshold, w, h, x + 1, y, if x < minX then x else minX, if y < minY then y else minY,
                         if x > maxX then x else maxX, if y > maxY then y else maxY)
            else Scanned(p, threshold, w, h, x + 1, y, minX, minY, maxX, maxY)
  {
    assert Opaque(p, threshold, x, y) <==> p[y][x].alpha > threshold;
    if maxX != -1 {
      var v :| Opaque(p, threshold, maxX, v);
      var u :| Opaque(p, threshold, u, maxY);
    }
    hide Opaque;
  }

  lemma ScanRowEnds(p: Picture, threshold: nat, w: nat, h: nat, y: int, minX: int, minY: int, maxX: int, maxY: int)
    requires Scanned(p, threshold, w, h, w, y, minX, minY, maxX, maxY)
    ensures Scanned(p, threshold, w, h, 0, y + 1, minX, minY, maxX, maxY)
  {
  }

  lemma ScanEnds(p: Picture, threshold: nat, w: nat, h: nat, minX: int, minY: int, maxX: int, maxY: int)
    requires Scanned(p, threshold, w, h, 0, h, minX, minY, maxX, maxY)
    ensures AnyOpaque(p, threshold) <==> maxX >= minX && maxY >= minY
    ensures AnyOpaque(p, threshold) ==> Bounds(p, threshold, Rect(minX, minY, maxX - minX + 1, maxY - minY + 1))
  {
    if maxX != -1 {
      var y :| Opaque(p, threshold, minX, y);
      var x :| Opaque(p, threshold, x, maxY);
    }
  }

  /** The box holds every opaque pixel and has one on each side. */
  ghost predicate Bounds(p: Picture, threshold: nat, b: Rect) {
    Encloses(p, threshold, b) && Touches(p, threshold, b.x, b.y, b.x + b.w - 1, b.y + b.h - 1)
  }

  ghost predicate AnyOpaque(p: Picture, threshold: nat) {
    exists x, y :: Opaque(p, threshold, x, y)
  }

  /** What is left of an image without opaque pixels is its top left corner. */
  ghost predicate IsTrimBox(p: Picture, threshold: nat, b: Rect) {
    if AnyOpaque(p, threshold) then Bounds(p, threshold, b) else b == Rect(0, 0, 1, 1)
  }

  ghost predicate TrimmedTo(p: Picture, w: nat, h: nat, threshold: nat, q: Picture, qw: nat, qh: nat)
    requires Sized(p, w, h)
  {
    exists b :: IsTrimBox(p, threshold, b) && Inside(b, w, h) && q == Cropped(p, w, h, b) && qw == b.w && qh == b.h
  }

  lemma BoundsInside(p: Picture, w: nat, h: nat, threshold: nat, b: Rect)
    requires Sized(p, w, h) && 0 < w && 0 < h && IsTrimBox(p, threshold, b)
    ensures Inside(b, w, h)
  {
    if AnyOpaque(p, threshold) {
      TrimBoxIsLeast(p, threshold, b, Rect(0, 0, w, h));
      var y :| Opaque(p, threshold, b.x, y);
      assert In(b, b.x, y);
    }
  }

  lemma ScannedBox(p: Picture, threshold: nat, b: Rect)
    requires if AnyOpaque(p, threshold) then Bounds(p, threshold, b) else b == Rect(0, 0, 1, 1)
    ensures IsTrimBox(p, threshold, b)
  {
  }

  lemma TrimmedBy(p: Picture, w: nat, h: nat, threshold: nat, b: Rect)
    requires Sized(p, w, h) && Inside(b, w, h) && IsTrimBox(p, threshold, b)
    ensures TrimmedTo(p, w, h, threshold, Cropped(p, w, h, b), b.w, b.h)
  {
  }

  lemma WholePicture(p: Picture, w: nat, h: nat)
    requires Sized(p, w, h) && 0 < w && 0 < h
    ensures Cropped(p, w, h, Rect(0, 0, w, h)) == p
  {
    var q := Cropped(p, w, h, Rect(0, 0, w, h));
    assert |q| == |p|;
    forall y | 0 <= y < h ensures q[y] == p[y] { assert q[y] == p[0 + y][0..w]; }
  }

  /** Trimming is minimal: the box lies within every box that holds all opaque pixels. */
  lemma TrimBoxIsLeast(p: Picture, threshold: nat, b: Rect, c: Rect)
    requires Bounds(p, threshold, b) && Encloses(p, threshold, c)
    ensures c.x <= b.x && c.y <= b.y && b.x + b.w <= c.x + c.w && b.y + b.h <= c.y + c.h
  {
    var y1 :| Opaque(p, threshold, b.x, y1);
    var x1 :| Opaque(p, threshold, x1, b.y);
    var right, bottom := b.x + b.w - 1, b.y + b.h - 1;
    assert OnColumn(p, threshold, right) && OnRow(p, threshold, bottom);
    var y2 :| Opaque(p, threshold, right, y2);
    var x2 :| Opaque(p, threshold, x2, bottom);
    assert In(c, b.x, y1) && In(c, right, y2) && In(c, x1, b.y) && In(c, x2, bottom);
  }

  /** Trimming has one result. */
  lemma TrimBoxIsUnique(p: Picture, threshold: nat, b: Rect, c: Rect)
    requires IsTrimBox(p, threshold, b) && IsTrimBox(p, threshold, c)
    ensures b == c
  {
    if AnyOpaque(p, threshold) {
      TrimBoxIsLeast(p, threshold, b, c);
      TrimBoxIsLeast(p, threshold, c, b);
    }
  }

  lemma CroppedPixel(p: Picture, w: nat, h: nat, b: Rect, threshold: nat, x: int, y: int)
    requires Sized(p, w, h) && Inside(b, w, h)
    ensures Opaque(Cropped(p, w, h, b), threshold, x, y) <==>
            In(b, b.x + x, b.y + y) && Opaque(p, threshold, b.x + x, b.y + y)
  {
    var c := Cropped(p, w, h, b);
    if 0 <= y < b.h && 0 <= x < b.w {
      assert c[y][x] == p[b.y + y][b.x + x];
    }
  }

  lemma ColumnKept(p: Picture, w: nat, h: nat, threshold: nat, c: Rect, x: int)
    requires Sized(p, w, h) && Inside(c, w, h) && Encloses(p, threshold, c) && OnColumn(p, threshold, x)
    ensures OnColumn(Cropped(p, w, h, c), threshold, x - c.x)
  {
    var y :| Opaque(p, threshold, x, y);
    CroppedPixel(p, w, h, c, threshold, x - c.x, y - c.y);
  }

  lemma RowOfBoxKept(p: Picture, w: nat, h: nat, threshold: nat, c: Rect, y: int)
    requires Sized(p, w, h) && Inside(c, w, h) && Encloses(p, threshold, c) && OnRow(p, threshold, y)
    ensures OnRow(Cropped(p, w, h, c), threshold, y - c.y)
  {
    var x :| Opaque(p, threshold, x, y);
    CroppedPixel(p, w, h, c, threshold, x - c.x, y - c.y);
  }

  /** A crop that cuts off no opaque pixel leaves the same to trim. */
  lemma TrimAfterCrop(p: Picture, w: nat, h: nat, threshold: nat, c: Rect, b: Rect)
    requires Sized(p, w, h) && Inside(c, w, h) && AnyOpaque(p, threshold) && Bounds(p, threshold, b)
    requires Encloses(p, threshold, c)
    ensures IsTrimBox(Cropped(p, w, h, c), threshold, Rect(b.x - c.x, b.y - c.y, b.w, b.h))
  {
    hide Opaque, Cropped, Encloses, OnRow;
    var q, d := Cropped(p, w, h, c), Rect(b.x - c.x, b.y - c.y, b.w, b.h);
    ColumnKept(p, w, h, threshold, c, b.x);
    ColumnKept(p, w, h, threshold, c, b.x + b.w - 1);
    RowOfBoxKept(p, w, h, threshold, c, b.y);
    RowOfBoxKept(p, w, h, threshold, c, b.y + b.h - 1);
    EnclosedAfterCrop(p, w, h, threshold, c, b);
    assert AnyOpaque(q, threshold) by {
      var y :| Opaque(q, threshold, b.x - c.x, y);
    }
    assert d.x + d.w - 1 == b.x + b.w - 1 - c.x && d.y + d.h - 1 == b.y + b.h - 1 - c.y;
  }

  lemma EnclosedAfterCrop(p: Picture, w: nat, h: nat, threshold: nat, c: Rect, b: Rect)
    requires Sized(p, w, h) && Inside(c, w, h) && Encloses(p, threshold, b)
    ensures Encloses(Cropped(p, w, h, c), threshold, Rect(b.x - c.x, b.y - c.y, b.w, b.h))
  {
    hide Opaque;
    forall x, y | Opaque(Cropped(p, w, h, c), threshold, x, y)
      ensures In(Rect(b.x - c.x, b.y - c.y, b.w, b.h), x, y)
    {
      CroppedPixel(p, w, h, c, threshold, x, y);
      assert In(b, c.x + x, c.y + y);
    }
  }

  /** Trimming twice is trimming once. */
  lemma TrimIsIdempotent(p: Picture, w: nat, h: nat, threshold: nat,
                         q: Picture, qw: nat, qh: nat, r: Picture, rw: nat, rh: nat)
    requires Sized(p, w, h) && Sized(q, qw, qh)
    ensures TrimmedTo(p, w, h, threshold, q, qw, qh) && TrimmedTo(q, qw, qh, threshold, r, rw, rh) ==> r == q
  {
    if TrimmedTo(p, w, h, threshold, q, qw, qh) && TrimmedTo(q, qw, qh, threshold, r, rw, rh) {
      TrimsOnce(p, w, h, threshold, q, qw, qh, r, rw, rh);
    }
  }

  lemma TrimsOnce(p: Picture, w: nat, h: nat, threshold: nat,
                  q: Picture, qw: nat, qh: nat, r: Picture, rw: nat, rh: nat)
    requires Sized(p, w, h) && TrimmedTo(p, w, h, threshold, q, qw, qh)
    requires Sized(q, qw, qh) && TrimmedTo(q, qw, qh, threshold, r, rw, rh)
    ensures r == q
  {
    hide Opaque;
    var b :| IsTrimBox(p, threshold, b) && Inside(b, w, h) && q == Cropped(p, w, h, b) && qw == b.w && qh == b.h;
    var c :| IsTrimBox(q, threshold, c) && Inside(c, qw, qh) && r == Cropped(q, qw, qh, c) && rw == c.w && rh == c.h;
    if AnyOpaque(p, threshold) {
      TrimAfterCrop(p, w, h, threshold, b, b);
    } else {
      forall x, y ensures !Opaque(q, threshold, x, y) { CroppedPixel(p, w, h, b, threshold, x, y); }
    }
    TrimBoxIsUnique(q, threshold, c, Rect(0, 0, b.w, b.h));
    WholePicture(q, qw, qh);
  }

  /** Trimming loses no opaque pixel. */
  lemma TrimKeepsOpaque(p: Picture, w: nat, h: nat, threshold: nat, b: Rect, x: int, y: int)
    requires Sized(p, w, h) && Inside(b, w, h) && IsTrimBox(p, threshold, b)
    ensures Opaque(p, threshold, x, y) <==> Opaque(Cropped(p, w, h, b), threshold, x - b.x, y - b.y)
  {
    CroppedPixel(p, w, h, b, threshold, x - b.x, y - b.y);
  }

  // --------------------------------------------------------------- crops in a row

  /** The one crop that does the work of two. */
  function Compose(first: Rect, second: Rect): Rect {
    Rect(first.x + second.x, first.y + second.y, second.w, second.h)
  }

  function NotNegative(v: int): nat {
    if v < 0 then 0 else v
  }

  /** A crop takes the pixels of the image that lie in its box, once that has been moved to start in the image; it
      fails exactly when there are none. */
  lemma CropTakes(b: Rect, w: nat, h: nat)
    ensures forall x, y :: Clip(b, w, h).Some? && In(Clip(b, w, h).value, x, y) <==>
      0 <= x < w && 0 <= y < h && In(Rect(NotNegative(b.x), NotNegative(b.y), b.w, b.h), x, y)
    ensures Clip(b, w, h).None? <==>
      forall x, y :: 0 <= x < w && 0 <= y < h ==> !In(Rect(NotNegative(b.x), NotNegative(b.y), b.w, b.h), x, y)
  {
    var c := Clip(b, w, h);
    if c.Some? { assert In(Rect(NotNegative(b.x), NotNegative(b.y), b.w, b.h), c.value.x, c.value.y); }
  }

  /** A crop of a crop takes nothing exactly when the second box is empty or starts beyond the first as clipped to the
      image; otherwise the two are one crop, of the second box as clipped to the first. */
  lemma NestedCrops(p: Picture, w: nat, h: nat, b1: Rect, b2: Rect)
    requires Sized(p, w, h) && Clip(b1, w, h).Some?
    ensures var c1 := Clip(b1, w, h).value;
      Clip(b2, c1.w, c1.h).None? <==> b2.w <= 0 || b2.h <= 0 || b2.x >= c1.w || b2.y >= c1.h
    ensures var c1 := Clip(b1, w, h).value; Clip(b2, c1.w, c1.h).Some? ==>
      var c2 := Clip(b2, c1.w, c1.h).value; var c := Compose(c1, c2);
      Clip(c, w, h) == Some(c) && Cropped(Cropped(p, w, h, c1), c1.w, c1.h, c2) == Cropped(p, w, h, c)
  {
    var c1 := Clip(b1, w, h).value;
    if Clip(b2, c1.w, c1.h).Some? { NestedCropsTake(p, w, h, c1, Clip(b2, c1.w, c1.h).value); }
  }

  lemma NestedCropsTake(p: Picture, w: nat, h: nat, c1: Rect, c2: Rect)
    requires Sized(p, w, h) && Inside(c1, w, h) && Inside(c2, c1.w, c1.h)
    ensures var c := Compose(c1, c2);
      Clip(c, w, h) == Some(c) && Cropped(Cropped(p, w, h, c1), c1.w, c1.h, c2) == Cropped(p, w, h, c)
  {
    hide Clip;
    var c := Compose(c1, c2);
    var twice, once := Cropped(Cropped(p, w, h, c1), c1.w, c1.h, c2), Cropped(p, w, h, c);
    forall y | 0 <= y < c.h ensures twice[y] == once[y] {
      SliceOfSlice(p[c.y + y], c1.x, c1.w, c2.x, c2.w);
    }
    assert Clip(c, w, h) == Some(c) by { ClipInside(c, w, h); }
  }

  lemma ClipInside(b: Rect, w: nat, h: nat)
    requires Inside(b, w, h)
    ensures Clip(b, w, h) == Some(b)
  {
  }

  lemma SliceOfSlice(s: seq<Pixel>, a: nat, n: nat, b: nat, m: nat)
    requires a + n <= |s| && b + m <= n
    ensures s[a..a + n][b..b + m] == s[a + b..a + b + m]
  {
    var twice, once := s[a..a + n][b..b + m], s[a + b..a + b + m];
    forall k | 0 <= k < m ensures twice[k] == once[k] {
      assert s[a..a + n][b + k] == s[a + b + k];
    }
  }
}
