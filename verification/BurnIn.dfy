/** Burning approved spans into page rasters (`redaction/apply.py`). */
module BurnIn {
  import opened Basics
  import opened TextLayer

  datatype Color = Color(red: int, green: int, blue: int)

  const BLACK := Color(0, 0, 0)
  const APPLY_OUTPUT_DPI := 300.0
  const POINTS_PER_INCH := 72.0
  const SCALE: real := APPLY_OUTPUT_DPI / POINTS_PER_INCH
  const BOX_PADDING_PTS := 2.0

  datatype ApprovedSpan = ApprovedSpan(pageNumber: int, bboxes: seq<BBox>, text: string)

  // ---------- rounding ----------

  /** Rounds to the nearest integer, and to the even one from the middle. */
  function Round(x: real): (r: int)
    ensures x - 0.5 <= r as real <= x + 0.5
    ensures x - x.Floor as real == 0.5 ==> r % 2 == 0
  {
    var f := x.Floor;
    var d := x - f as real;
    if d < 0.5 then f else if d > 0.5 then f + 1 else if f % 2 == 0 then f else f + 1
  }

  lemma RoundIsMonotone(x: real, y: real)
    requires x <= y
    ensures Round(x) <= Round(y)
  {
    if x.Floor == y.Floor {
    } else {
      assert x.Floor + 1 <= y.Floor;
    }
  }

  // ---------- boxes on a raster ----------

  datatype PixelBox = PixelBox(left: int, top: int, right: int, bottom: int)

  function Larger(a: int, b: int): int { if a > b then a else b }

  function Smaller(a: int, b: int): int { if a < b then a else b }

  /** Where a lower edge at v points lands once padded, scaled and rounded. */
  function LowEdge(v: real, scale: real): int { Round((v - BOX_PADDING_PTS) * scale) }

  /** Where an upper edge at v points lands once padded, scaled and rounded. */
  function HighEdge(v: real, scale: real): int { Round((v + BOX_PADDING_PTS) * scale) }

  /** The padded, scaled, rounded and clamped box that is painted for b. */
  function PaddedBox(b: BBox, scale: real, width: nat, height: nat): PixelBox {
    PixelBox(
      Larger(0, LowEdge(b.x0, scale)), Larger(0, LowEdge(b.y0, scale)),
      Smaller(width, HighEdge(b.x1, scale)), Smaller(height, HighEdge(b.y1, scale)))
  }

  /** The drawing call refuses a rectangle whose second corner lies before its first. */
  predicate Drawable(box: PixelBox) {
    box.left <= box.right && box.top <= box.bottom
  }

  /** Both corners belong to the rectangle. */
  predicate Covers(box: PixelBox, x: int, y: int) {
    box.left <= x <= box.right && box.top <= y <= box.bottom
  }

  predicate BoxesHit(bboxes: seq<BBox>, n: int, scale: real, width: nat, height: nat, x: int, y: int)
    requires n <= |bboxes|
  {
    exists k :: 0 <= k < n && Covers(PaddedBox(bboxes[k], scale, width, height), x, y)
  }

  /** Pixel (x, y) lies in the box of some span. */
  predicate SpansHit(spans: seq<ApprovedSpan>, n: int, scale: real, width: nat, height: nat, x: int, y: int)
    requires n <= |spans|
  {
    exists i :: 0 <= i < n && BoxesHit(spans[i].bboxes, |spans[i].bboxes|, scale, width, height, x, y)
  }

  predicate BoxesDrawable(bboxes: seq<BBox>, n: int, scale: real, width: nat, height: nat)
    requires n <= |bboxes|
  {
    forall k :: 0 <= k < n ==> Drawable(PaddedBox(bboxes[k], scale, width, height))
  }

  predicate SpansDrawable(spans: seq<ApprovedSpan>, n: int, scale: real, width: nat, height: nat)
    requires n <= |spans|
  {
    forall i :: 0 <= i < n ==> BoxesDrawable(spans[i].bboxes, |spans[i].bboxes|, scale, width, height)
  }

  /** A pixel column (or row) meets the range from lo to hi points. */
  ghost predicate MeetsRange(lo: real, hi: real, x: nat) {
    lo * 300.0 / 72.0 < (x + 1) as real && x as real <= hi * 300.0 / 72.0
  }

  lemma PaddingBeatsRounding(lo: real, hi: real, x: nat)
    requires MeetsRange(lo, hi, x)
    ensures LowEdge(lo, SCALE) <= x <= HighEdge(hi, SCALE)
  {
    assert SCALE * 2.0 > 8.0;
    assert lo * SCALE == lo * 300.0 / 72.0 && hi * SCALE == hi * 300.0 / 72.0;
    assert (lo - BOX_PADDING_PTS) * SCALE == lo * SCALE - 2.0 * SCALE;
    assert (hi + BOX_PADDING_PTS) * SCALE == hi * SCALE + 2.0 * SCALE;
  }

  /** Every pixel of the raster that meets the unpadded box is painted, however the box lies. */
  lemma PaddingCoversInk(b: BBox, width: nat, height: nat, x: nat, y: nat)
    requires x < width && y < height
    requires MeetsRange(b.x0, b.x1, x) && MeetsRange(b.y0, b.y1, y)
    ensures Covers(PaddedBox(b, SCALE, width, height), x, y)
  {
    PaddingBeatsRounding(b.x0, b.x1, x);
    PaddingBeatsRounding(b.y0, b.y1, y);
    var l, t, r, m := LowEdge(b.x0, SCALE), LowEdge(b.y0, SCALE), HighEdge(b.x1, SCALE), HighEdge(b.y1, SCALE);
    ClampedCovers(l, r, width, x);
    ClampedCovers(t, m, height, y);
  }

  /** An edge lands within half a pixel of where it lies at 300 dots per inch, two points further out. */
  lemma EdgesAreNear(v: real)
    ensures -0.5 <= LowEdge(v, SCALE) as real - (v - 2.0) * 300.0 / 72.0 <= 0.5
    ensures -0.5 <= HighEdge(v, SCALE) as real - (v + 2.0) * 300.0 / 72.0 <= 0.5
  {
    assert (v - BOX_PADDING_PTS) * SCALE == (v - 2.0) * 300.0 / 72.0;
    assert (v + BOX_PADDING_PTS) * SCALE == (v + 2.0) * 300.0 / 72.0;
  }

  /** Pixel x lies in the range widened by two points at 300 dots per inch, give or take some slack. */
  ghost predicate NearRange(lo: real, hi: real, x: int, slack: real) {
    (lo - 2.0) * 300.0 / 72.0 - slack <= x as real <= (hi + 2.0) * 300.0 / 72.0 + slack
  }

  /** A box paints every pixel that lies in it with its padding, and none that lies more than half a pixel outside. */
  lemma PaintIsThePadding(b: BBox, width: nat, height: nat, x: nat, y: nat)
    requires x < width && y < height
    ensures Covers(PaddedBox(b, SCALE, width, height), x, y) ==>
              NearRange(b.x0, b.x1, x, 0.5) && NearRange(b.y0, b.y1, y, 0.5)
    ensures NearRange(b.x0, b.x1, x, -0.5) && NearRange(b.y0, b.y1, y, -0.5) ==>
              Covers(PaddedBox(b, SCALE, width, height), x, y)
  {
    EdgesAreNear(b.x0);
    EdgesAreNear(b.x1);
    EdgesAreNear(b.y0);
    EdgesAreNear(b.y1);
    hide LowEdge, HighEdge;
    ClampIsExact(LowEdge(b.x0, SCALE), HighEdge(b.x1, SCALE), width, x);
    ClampIsExact(LowEdge(b.y0, SCALE), HighEdge(b.y1, SCALE), height, y);
    NearIsBetween(b.x0, b.x1, LowEdge(b.x0, SCALE), HighEdge(b.x1, SCALE), x);
    NearIsBetween(b.y0, b.y1, LowEdge(b.y0, SCALE), HighEdge(b.y1, SCALE), y);
    hide NearRange;
  }

  lemma NearIsBetween(lo: real, hi: real, low: int, high: int, x: int)
    requires -0.5 <= low as real - (lo - 2.0) * 300.0 / 72.0 <= 0.5
    requires -0.5 <= high as real - (hi + 2.0) * 300.0 / 72.0 <= 0.5
    ensures low <= x <= high ==> NearRange(lo, hi, x, 0.5)
    ensures NearRange(lo, hi, x, -0.5) ==> low <= x <= high
  {
  }

  lemma ClampIsExact(lo: int, hi: int, size: nat, x: nat)
    requires x < size
    ensures Larger(0, lo) <= x <= Smaller(size, hi) <==> lo <= x <= hi
  {
  }

  lemma ClampedCovers(lo: int, hi: int, size: nat, x: nat)
    requires lo <= x <= hi && x < size
    ensures Larger(0, lo) <= x <= Smaller(size, hi)
  {
  }

  lemma OrderedEdges(lo: real, hi: real)
    requires lo <= hi
    ensures LowEdge(lo, SCALE) <= HighEdge(hi, SCALE)
  {
    assert (lo - BOX_PADDING_PTS) * SCALE <= (hi + BOX_PADDING_PTS) * SCALE;
    RoundIsMonotone((lo - BOX_PADDING_PTS) * SCALE, (hi + BOX_PADDING_PTS) * SCALE);
  }

  lemma ClampedIsEmpty(lo: int, hi: int, size: nat)
    ensures Larger(0, lo) > Smaller(size, hi) <==> lo > size || hi < 0 || lo > hi
  {
  }

  /**
   * The drawing call refuses a box exactly when, padded, scaled and rounded, it starts past the far
   * edge of the raster, ends before the near one, or ends before it starts; the last cannot happen
   * to a box whose corners are in order.
   */
  lemma RefusedIffOffOrReversed(b: BBox, width: nat, height: nat)
    ensures !Drawable(PaddedBox(b, SCALE, width, height)) <==>
            || LowEdge(b.x0, SCALE) > width || HighEdge(b.x1, SCALE) < 0
            || LowEdge(b.x0, SCALE) > HighEdge(b.x1, SCALE)
            || LowEdge(b.y0, SCALE) > height || HighEdge(b.y1, SCALE) < 0
            || LowEdge(b.y0, SCALE) > HighEdge(b.y1, SCALE)
    ensures b.x0 <= b.x1 && b.y0 <= b.y1 ==>
              (!Drawable(PaddedBox(b, SCALE, width, height)) <==>
                || LowEdge(b.x0, SCALE) > width || HighEdge(b.x1, SCALE) < 0
                || LowEdge(b.y0, SCALE) > height || HighEdge(b.y1, SCALE) < 0)
  {
    ClampedIsEmpty(LowEdge(b.x0, SCALE), HighEdge(b.x1, SCALE), width);
    ClampedIsEmpty(LowEdge(b.y0, SCALE), HighEdge(b.y1, SCALE), height);
    if b.x0 <= b.x1 && b.y0 <= b.y1 {
      OrderedEdges(b.x0, b.x1);
      OrderedEdges(b.y0, b.y1);
    }
  }

  // ---------- painting in place ----------

  /** Row y, column x. */
  type Canvas = array2<Color>

  method DrawRectangle(pixels: Canvas, box: PixelBox) returns (ok: bool)
    requires 0 <= box.left && 0 <= box.top && box.right <= pixels.Length1 && box.bottom <= pixels.Length0
    modifies pixels
    ensures ok <==> Drawable(box)
    ensures forall y, x :: 0 <= y < pixels.Length0 && 0 <= x < pixels.Length1 ==>
              pixels[y, x] == if ok && Covers(box, x, y) then BLACK else old(pixels[y, x])
  {
    if !Drawable(box) { return false; }
    ok := true;
    var bottom, right := Smaller(box.bottom + 1, pixels.Length0), Smaller(box.right + 1, pixels.Length1);
    var row := box.top;
    while row < bottom
      invariant box.top <= row && (row <= bottom || row == box.top)
      invariant forall y, x :: 0 <= y < pixels.Length0 && 0 <= x < pixels.Length1 ==>
                  pixels[y, x] == if Covers(box, x, y) && y < row then BLACK else old(pixels[y, x])
    {
      var column := box.left;
      while column < right
        invariant box.left <= column && (column <= right || column == box.left)
        invariant forall y, x :: 0 <= y < pixels.Length0 && 0 <= x < pixels.Length1 ==>
                    pixels[y, x] == if Covers(box, x, y) && (y < row || (y == row && x < column)) then BLACK
                        else old(pixels[y, x])
      {
        pixels[row, column] := BLACK;
        column := column + 1;
      }
      row := row + 1;
    }
  }

  /** Paints every box of every span, or reports that the drawing call refused one. */
  method DrawBoxes(pixels: Canvas, spans: seq<ApprovedSpan>, scale: real) returns (ok: bool)
    modifies pixels
    ensures ok <==> SpansDrawable(spans, |spans|, scale, pixels.Length1, pixels.Length0)
    ensures ok ==> forall y, x :: 0 <= y < pixels.Length0 && 0 <= x < pixels.Length1 ==>
              pixels[y, x] == if SpansHit(spans, |spans|, scale, pixels.Length1, pixels.Length0, x, y) then BLACK
                  else old(pixels[y, x])
  {
    var width, height := pixels.Length1, pixels.Length0;
    for i := 0 to |spans|
      invariant SpansDrawable(spans, i, scale, width, height)
      invariant forall y, x :: 0 <= y < height && 0 <= x < width ==>
                  pixels[y, x] == if SpansHit(spans, i, scale, width, height, x, y) then BLACK else old(pixels[y, x])
    {
      var bboxes := spans[i].bboxes;
      for k := 0 to |bboxes|
        invariant BoxesDrawable(bboxes, k, scale, width, height)
        invariant forall y, x :: 0 <= y < height && 0 <= x < width ==>
                    pixels[y, x] == if SpansHit(spans, i, scale, width, height, x, y)
                        || BoxesHit(bboxes, k, scale, width, height, x, y)
                                    then BLACK else old(pixels[y, x])
      {
        var box := PaddedBox(bboxes[k], scale, width, height);
        var drawn := DrawRectangle(pixels, box);
        if !drawn {
          assert !BoxesDrawable(bboxes, |bboxes|, scale, width, height);
          return false;
        }
        forall y, x | 0 <= y < height && 0 <= x < width
          ensures BoxesHit(bboxes, k + 1, scale, width, height, x, y)
                  <==> BoxesHit(bboxes, k, scale, width, height, x, y) || Covers(box, x, y)
        {
        }
      }
      forall y, x | 0 <= y < height && 0 <= x < width
        ensures SpansHit(spans, i + 1, scale, width, height, x, y)
                <==> SpansHit(spans, i, scale, width, height, x, y)
                     || BoxesHit(bboxes, |bboxes|, scale, width, height, x, y)
      {
      }
    }
    ok := true;
  }

  // ---------- pages ----------

  datatype RawImage = RawImage(width: nat, height: nat, pixels: seq<seq<Color>>)

  predicate Rectangular(i: RawImage) {
    |i.pixels| == i.height && forall y :: 0 <= y < i.height ==> |i.pixels[y]| == i.width
  }

  type Image = i: RawImage | Rectangular(i) witness RawImage(0, 0, [])

  type Bytes = seq<bv8>

  /** The PDF library: one raster per page of a readable document, and an image-only document from rasters. */
  datatype Renderer = Renderer(rasterize: Bytes -> Option<seq<Image>>, rebuild: seq<Image> -> Bytes)

  datatype BurnError = Unreadable | PageOutOfRange | BoxRefused

  /** The spans of the page with 0-based index p, in order. */
  function OnPage(spans: seq<ApprovedSpan>, p: int): seq<ApprovedSpan> {
    if spans == [] then [] else
    var last := spans[|spans| - 1];
    OnPage(spans[..|spans| - 1], p) + if last.pageNumber - 1 == p then [last] else []
  }

  predicate PagesExist(spans: seq<ApprovedSpan>, pageCount: nat) {
    forall k :: 0 <= k < |spans| ==> 1 <= spans[k].pageNumber <= pageCount
  }

  function BurnedPage(image: Image, spans: seq<ApprovedSpan>): Image {
    RawImage(image.width, image.height,
             seq(image.height, y requires 0 <= y < image.height =>
        seq(image.width, x requires 0 <= x < image.width =>
          if SpansHit(spans, |spans|, SCALE, image.width, image.height, x, y) then BLACK else image.pixels[y][x])))
  }

  function BurnedPages(images: seq<Image>, spans: seq<ApprovedSpan>): (r: seq<Image>)
    ensures |r| == |images|
  {
    seq(|images|, p requires 0 <= p < |images| => BurnedPage(images[p], OnPage(spans, p)))
  }

  predicate PageDrawable(image: Image, spans: seq<ApprovedSpan>) {
    SpansDrawable(spans, |spans|, SCALE, image.width, image.height)
  }

  predicate PagesDrawable(images: seq<Image>, spans: seq<ApprovedSpan>, n: nat)
    requires n <= |images|
  {
    forall p :: 0 <= p < n ==> PageDrawable(images[p], OnPage(spans, p))
  }

  /** What burning spans into a document gives, or why it raises. */
  function Burned(r: Renderer, pdf: Bytes, spans: seq<ApprovedSpan>): Result<Bytes, BurnError> {
    match r.rasterize(pdf)
    case None => Err(Unreadable)
    case Some(images) =>
      if !PagesExist(spans, |images|) then Err(PageOutOfRange)
      else if !PagesDrawable(images, spans, |images|) then Err(BoxRefused)
      else Ok(r.rebuild(BurnedPages(images, spans)))
  }

  /** The drawing call refuses this box on the page of this span. */
  ghost predicate RefusedOn(pages: seq<Image>, s: ApprovedSpan, b: BBox) {
    && 1 <= s.pageNumber <= |pages|
    && var page := pages[s.pageNumber - 1]; !Drawable(PaddedBox(b, SCALE, page.width, page.height))
  }

  /**
   * Burn-in raises exactly when the document cannot be read, some span names a page it does not
   * have, or the drawing call refuses some box; in that order.
   */
  lemma BurnRaises(r: Renderer, pdf: Bytes, spans: seq<ApprovedSpan>)
    ensures Burned(r, pdf, spans) == Err(Unreadable) <==> r.rasterize(pdf).None?
    ensures r.rasterize(pdf).Some? ==>
              var pages := r.rasterize(pdf).value;
              var missing := exists s :: s in spans && !(1 <= s.pageNumber <= |pages|);
              && (Burned(r, pdf, spans) == Err(PageOutOfRange) <==> missing)
              && (Burned(r, pdf, spans) == Err(BoxRefused)
                  <==> !missing && exists s, b :: s in spans && b in s.bboxes && RefusedOn(pages, s, b))
  {
    if r.rasterize(pdf).Some? {
      var pages := r.rasterize(pdf).value;
      assert PagesExist(spans, |pages|) <==> forall s :: s in spans ==> 1 <= s.pageNumber <= |pages|;
      hide PagesExist;
      if forall s :: s in spans ==> 1 <= s.pageNumber <= |pages| { DrawableIff(pages, spans); }
      hide PagesDrawable, RefusedOn, BurnedPages;
    }
  }

  lemma DrawableIff(pages: seq<Image>, spans: seq<ApprovedSpan>)
    requires forall s :: s in spans ==> 1 <= s.pageNumber <= |pages|
    ensures PagesDrawable(pages, spans, |pages|)
            <==> forall s, b :: s in spans && b in s.bboxes ==> !RefusedOn(pages, s, b)
  {
    hide Drawable;
    forall p | 0 <= p < |pages|
      ensures PageDrawable(pages[p], OnPage(spans, p))
              <==> forall s, b :: s in spans && s.pageNumber - 1 == p && b in s.bboxes ==>
                     Drawable(PaddedBox(b, SCALE, pages[p].width, pages[p].height))
    {
      OnPageMembers(spans, p);
      PageDrawableIff(pages[p], OnPage(spans, p));
    }
    hide PageDrawable;
  }

  lemma PageDrawableIff(page: Image, spans: seq<ApprovedSpan>)
    ensures PageDrawable(page, spans)
            <==> forall s, b :: s in spans && b in s.bboxes ==> Drawable(PaddedBox(b, SCALE, page.width, page.height))
  {
    hide Drawable, PaddedBox;
    if PageDrawable(page, spans) {
      forall s, b | s in spans && b in s.bboxes ensures Drawable(PaddedBox(b, SCALE, page.width, page.height)) {
        var i :| 0 <= i < |spans| && spans[i] == s;
        var k :| 0 <= k < |s.bboxes| && s.bboxes[k] == b;
        assert BoxesDrawable(spans[i].bboxes, |spans[i].bboxes|, SCALE, page.width, page.height);
      }
    }
  }

  lemma {:induction false} OnPageMembers(spans: seq<ApprovedSpan>, p: int)
    ensures forall s :: s in OnPage(spans, p) <==> s in spans && s.pageNumber - 1 == p
  {
    if spans != [] {
      OnPageMembers(spans[..|spans| - 1], p);
      assert spans == spans[..|spans| - 1] + [spans[|spans| - 1]];
    }
  }

  /** How many spans land on the first n pages, counted page by page. */
  function LandedOn(spans: seq<ApprovedSpan>, n: nat): nat {
    if n == 0 then 0 else LandedOn(spans, n - 1) + |OnPage(spans, n - 1)|
  }

  /** Every span of a valid request lands on exactly one existing page. */
  lemma {:induction false} EverySpanLandsOnce(spans: seq<ApprovedSpan>, pageCount: nat)
    requires PagesExist(spans, pageCount)
    ensures LandedOn(spans, pageCount) == |spans|
  {
    if spans == [] {
      NothingLands(pageCount);
    } else {
      EverySpanLandsOnce(spans[..|spans| - 1], pageCount);
      OneMoreLands(spans, pageCount);
    }
  }

  lemma {:induction false} NothingLands(n: nat)
    ensures LandedOn([], n) == 0
  {
    if n > 0 { NothingLands(n - 1); }
  }

  lemma {:induction false} OneMoreLands(spans: seq<ApprovedSpan>, n: nat)
    requires spans != [] && spans[|spans| - 1].pageNumber >= 1
    ensures LandedOn(spans, n)
         == LandedOn(spans[..|spans| - 1], n) + if spans[|spans| - 1].pageNumber <= n then 1 else 0
  {
    if n > 0 { OneMoreLands(spans, n - 1); }
  }

  /** Pixel (x, y) of page p lies in a padded box of some span of that page. */
  ghost predicate InApprovedBox(image: Image, spans: seq<ApprovedSpan>, p: int, x: int, y: int) {
    exists s, b :: s in spans && s.pageNumber - 1 == p && b in s.bboxes
        && Covers(PaddedBox(b, SCALE, image.width, image.height), x, y)
  }

  lemma SpansHitIffInBox(image: Image, spans: seq<ApprovedSpan>, p: int, x: int, y: int)
    ensures SpansHit(OnPage(spans, p), |OnPage(spans, p)|, SCALE, image.width, image.height, x, y)
            <==> InApprovedBox(image, spans, p, x, y)
  {
    var on := OnPage(spans, p);
    OnPageMembers(spans, p);
    if SpansHit(on, |on|, SCALE, image.width, image.height, x, y) {
      var i :| 0 <= i < |on| && BoxesHit(on[i].bboxes, |on[i].bboxes|, SCALE, image.width, image.height, x, y);
      var k :| 0 <= k < |on[i].bboxes| && Covers(PaddedBox(on[i].bboxes[k], SCALE, image.width, image.height), x, y);
      assert on[i] in on && on[i].bboxes[k] in on[i].bboxes;
    }
    if InApprovedBox(image, spans, p, x, y) {
      var s, b :| s in spans && s.pageNumber - 1 == p && b in s.bboxes
          && Covers(PaddedBox(b, SCALE, image.width, image.height), x, y);
      assert s in on;
      var i :| 0 <= i < |on| && on[i] == s;
      var k :| 0 <= k < |s.bboxes| && s.bboxes[k] == b;
      assert BoxesHit(on[i].bboxes, |on[i].bboxes|, SCALE, image.width, image.height, x, y);
    }
  }

  /** After burning, a pixel is black if it lies in a box of an approved span of its page, and otherwise what it was. */
  lemma BurnedPixel(images: seq<Image>, spans: seq<ApprovedSpan>, p: nat, x: nat, y: nat)
    requires p < |images| && x < images[p].width && y < images[p].height
    ensures var page := BurnedPages(images, spans)[p];
            && page.width == images[p].width && page.height == images[p].height
            && page.pixels[y][x] == if InApprovedBox(images[p], spans, p, x, y) then BLACK else images[p].pixels[y][x]
  {
    SpansHitIffInBox(images[p], spans, p, x, y);
  }

  /** No pixel that a box of an approved span touches survives, padding aside. */
  lemma InkIsGone(images: seq<Image>, spans: seq<ApprovedSpan>, s: ApprovedSpan, b: BBox, p: nat, x: nat, y: nat)
    requires p < |images| && x < images[p].width && y < images[p].height
    requires s in spans && s.pageNumber == p + 1 && b in s.bboxes
    requires MeetsRange(b.x0, b.x1, x) && MeetsRange(b.y0, b.y1, y)
    ensures BurnedPages(images, spans)[p].pixels[y][x] == Color(0, 0, 0)
  {
    PaddingCoversInk(b, images[p].width, images[p].height, x, y);
    BurnedPixel(images, spans, p, x, y);
  }

  /** A pixel more than half a pixel outside the padding of every box of every span of its page is as it was. */
  lemma OutsidePaddingIsKept(images: seq<Image>, spans: seq<ApprovedSpan>, p: nat, x: nat, y: nat)
    requires p < |images| && x < images[p].width && y < images[p].height
    requires forall s, b :: s in spans && s.pageNumber == p + 1 && b in s.bboxes ==>
               !(NearRange(b.x0, b.x1, x, 0.5) && NearRange(b.y0, b.y1, y, 0.5))
    ensures BurnedPages(images, spans)[p].pixels[y][x] == images[p].pixels[y][x]
  {
    BurnedPixel(images, spans, p, x, y);
    hide NearRange, BurnedPages;
    if InApprovedBox(images[p], spans, p, x, y) {
      var s, b :| s in spans && s.pageNumber - 1 == p && b in s.bboxes
          && Covers(PaddedBox(b, SCALE, images[p].width, images[p].height), x, y);
      PaintIsThePadding(b, images[p].width, images[p].height, x, y);
    }
  }

  /** The burned pages depend on which spans are approved, not on their order or repetition. */
  lemma BurnIgnoresOrder(images: seq<Image>, spans: seq<ApprovedSpan>, others: seq<ApprovedSpan>)
    requires forall s :: s in spans <==> s in others
    ensures BurnedPages(images, spans) == BurnedPages(images, others)
  {
    forall p | 0 <= p < |images| ensures BurnedPages(images, spans)[p] == BurnedPages(images, others)[p] {
      var a, b := BurnedPages(images, spans)[p], BurnedPages(images, others)[p];
      forall y | 0 <= y < images[p].height ensures a.pixels[y] == b.pixels[y] {
        forall x | 0 <= x < images[p].width ensures a.pixels[y][x] == b.pixels[y][x] {
          BurnedPixel(images, spans, p, x, y);
          BurnedPixel(images, others, p, x, y);
        }
      }
    }
  }

  // ---------- the page loop ----------

  method ValidatePageNumbers(spans: seq<ApprovedSpan>, pageCount: nat) returns (ok: bool)
    ensures ok <==> PagesExist(spans, pageCount)
  {
    for k := 0 to |spans|
      invariant PagesExist(spans[..k], pageCount)
    {
      if !(1 <= spans[k].pageNumber <= pageCount) { return false; }
    }
    ok := true;
  }

  function PageOf(grouped: map<int, seq<ApprovedSpan>>, p: int): seq<ApprovedSpan> {
    if p in grouped then grouped[p] else []
  }

  lemma OnPageOneMore(spans: seq<ApprovedSpan>, k: nat, p: int)
    requires k < |spans|
    ensures OnPage(spans[..k + 1], p) == OnPage(spans[..k], p) + if spans[k].pageNumber - 1 == p then [spans[k]] else []
  {
    assert spans[..k + 1][..k] == spans[..k];
  }

  /** Groups by 0-based page index: each group is the spans of that page in order, and no group is empty. */
  method SpansByPage(spans: seq<ApprovedSpan>) returns (grouped: map<int, seq<ApprovedSpan>>)
    ensures forall p :: PageOf(grouped, p) == OnPage(spans, p)
    ensures forall p :: p in grouped <==> OnPage(spans, p) != []
  {
    grouped := map[];
    for k := 0 to |spans|
      invariant forall p :: PageOf(grouped, p) == OnPage(spans[..k], p)
      invariant forall p :: p in grouped <==> OnPage(spans[..k], p) != []
    {
      hide OnPage;
      forall p: int
        ensures OnPage(spans[..k + 1], p) == OnPage(spans[..k], p)
                 + if spans[k].pageNumber - 1 == p then [spans[k]] else []
      {
        OnPageOneMore(spans, k, p);
      }
      var index := spans[k].pageNumber - 1;
      grouped := grouped[index := PageOf(grouped, index) + [spans[k]]];
    }
    assert spans[..|spans|] == spans;
  }

  method RedactPageImage(image: Image, spans: seq<ApprovedSpan>) returns (result: Option<Image>)
    ensures result.Some? <==> PageDrawable(image, spans)
    ensures result.Some? ==> result.value == BurnedPage(image, spans)
  {
    var canvas := new Color[image.height, image.width](
      (y, x) requires 0 <= y < image.height && 0 <= x < image.width => image.pixels[y][x]);
    var ok := DrawBoxes(canvas, spans, SCALE);
    if !ok { return None; }
    var rows: seq<seq<Color>> := [];
    for y := 0 to image.height
      invariant rows == BurnedPage(image, spans).pixels[..y]
    {
      var row: seq<Color> := [];
      for x := 0 to image.width
        invariant row == BurnedPage(image, spans).pixels[y][..x]
      {
        row := row + [canvas[y, x]];
      }
      assert row == BurnedPage(image, spans).pixels[y];
      rows := rows + [row];
    }
    result := Some(RawImage(image.width, image.height, rows));
  }

  method RedactPages(images: seq<Image>, spans: seq<ApprovedSpan>) returns (pages: Option<seq<Image>>)
    ensures pages.Some? <==> PagesDrawable(images, spans, |images|)
    ensures pages.Some? ==> pages.value == BurnedPages(images, spans)
  {
    var grouped := SpansByPage(spans);
    hide PageDrawable, BurnedPage, OnPage;
    var done: seq<Image> := [];
    for p := 0 to |images|
      invariant PagesDrawable(images, spans, p)
      invariant |done| == p && forall k :: 0 <= k < p ==> done[k] == BurnedPage(images[k], OnPage(spans, k))
    {
      var image := RedactPageImage(images[p], PageOf(grouped, p));
      if image.None? { return None; }
      done := done + [image.value];
    }
    pages := Some(done);
  }

  method Burn(r: Renderer, pdf: Bytes, spans: seq<ApprovedSpan>) returns (result: Result<Bytes, BurnError>)
    ensures result == Burned(r, pdf, spans)
  {
    var source := r.rasterize(pdf);
    if source.None? { return Err(Unreadable); }
    var valid := ValidatePageNumbers(spans, |source.value|);
    if !valid { return Err(PageOutOfRange); }
    var pages := RedactPages(source.value, spans);
    result := if pages.None? then Err(BoxRefused) else Ok(r.rebuild(pages.value));
  }
}
