/**
 What areas and overlaps of boxes mean in pixels: a box is the set of the pixels in it, its area their
 number, and intersection over union the share of pixels in both among the pixels in either.
 */
module PixelArea {
  import opened Arithmetic
  import opened Options
  import opened RegionSelection

  type Pixel = (int, int)

  function Extent(low: int, high: int): nat {
    if low <= high then high - low else 0
  }

  /** The pixels of a box; a box turned inside out has none. */
  ghost function Pixels(b: Box): set<Pixel> {
    set x, y | b.x0 <= x < b.x1 && b.y0 <= y < b.y1 :: (x, y)
  }

  ghost function Column(x: int, low: int, high: int): set<Pixel> {
    set y | low <= y < high :: (x, y)
  }

  lemma {:induction false} ColumnSize(x: int, low: int, high: int)
    ensures |Column(x, low, high)| == Extent(low, high)
    decreases high - low
  {
    if low >= high {
      assert Column(x, low, high) == {};
    } else {
      ColumnSize(x, low, high - 1);
      assert Column(x, low, high) == Column(x, low, high - 1) + {(x, high - 1)};
    }
  }

  lemma WiderByAColumn(b: Box)
    requires b.x0 < b.x1
    ensures var narrower := b.(x1 := b.x1 - 1);
            Pixels(b) == Pixels(narrower) + Column(b.x1 - 1, b.y0, b.y1)
            && Pixels(narrower) !! Column(b.x1 - 1, b.y0, b.y1)
  {
  }

  lemma OneRowMore(width: nat, height: nat)
    ensures (width + 1) * height == width * height + height
  {
  }

  /** A box has width times height pixels. */
  lemma {:induction false} PixelsOfABox(b: Box)
    ensures |Pixels(b)| == Extent(b.x0, b.x1) * Extent(b.y0, b.y1)
    decreases b.x1 - b.x0
  {
    if b.x0 >= b.x1 {
      assert Pixels(b) == {};
    } else {
      WiderByAColumn(b);
      ColumnSize(b.x1 - 1, b.y0, b.y1);
      hide Pixels, Column;
      PixelsOfABox(b.(x1 := b.x1 - 1));
      OneRowMore(Extent(b.x0, b.x1 - 1), Extent(b.y0, b.y1));
    }
  }

  /** The area of a box that is not turned inside out is its number of pixels. */
  lemma AreaCountsPixels(b: Box)
    requires b.x0 <= b.x1 && b.y0 <= b.y1
    ensures Area(b) == |Pixels(b)|
  {
    PixelsOfABox(b);
  }

  function Common(a: Box, b: Box): Box {
    Box(Max(a.x0, b.x0), Max(a.y0, b.y0), Min(a.x1, b.x1), Min(a.y1, b.y1))
  }

  lemma CommonPixels(a: Box, b: Box)
    ensures Pixels(a) * Pixels(b) == Pixels(Common(a, b))
  {
  }

  /** The intersection of two boxes, of any shape, counts their common pixels. */
  lemma IntersectionCountsPixels(a: Box, b: Box)
    ensures Intersection(a, b) == |Pixels(a) * Pixels(b)|
  {
    CommonPixels(a, b);
    PixelsOfABox(Common(a, b));
    hide Pixels;
  }

  lemma UnionSize<T>(a: set<T>, b: set<T>)
    ensures |a + b| == |a| + |b| - |a * b|
  {
    assert a + b == a + (b - a);
    assert b == (b - a) + a * b;
  }

  lemma CommonPixelMeansShape(a: Box, b: Box)
    requires Pixels(a) * Pixels(b) != {}
    ensures a.x0 < a.x1 && a.y0 < a.y1 && b.x0 < b.x1 && b.y0 < b.y1
  {
    var p :| p in Pixels(a) * Pixels(b);
  }

  /** Intersection over union, for boxes of any shape: the share of common pixels, or zero. */
  lemma OverlapCountsPixels(a: Box, b: Box)
    ensures var common, either := |Pixels(a) * Pixels(b)|, |Pixels(a) + Pixels(b)|;
            IntersectionOverUnion(a, b) == if common == 0 then 0.0 else common as real / either as real
  {
    IntersectionCountsPixels(a, b);
    if Pixels(a) * Pixels(b) != {} {
      CommonPixelMeansShape(a, b);
      AreaCountsPixels(a);
      AreaCountsPixels(b);
      UnionSize(Pixels(a), Pixels(b));
      var p :| p in Pixels(a) * Pixels(b);
      assert p in Pixels(a) + Pixels(b);
      hide Area, Intersection, Pixels;
      assert |Pixels(a) + Pixels(b)| >= 1;
    }
  }

  // ---------- The fate of a region, in pixels ----------

  /** A region that is on this very render, within its page, and large enough. */
  predicate OnPage(r: Region, render: Render, budget: Budget) {
    && r.pageNo == render.pageNo && r.renderIdentity == render.identity
    && r.imageWidthPx == render.widthPx && r.imageHeightPx == render.heightPx
    && 0 <= r.box.x0 && r.box.x0 + budget.minWidthPx <= r.box.x1 <= render.widthPx
    && 0 <= r.box.y0 && r.box.y0 + budget.minHeightPx <= r.box.y1 <= render.heightPx
  }

  lemma ValidIsOnPage(r: Region, render: Render, budget: Budget)
    ensures ValidRegion(r, render, budget) <==> OnPage(r, render, budget)
  {
  }

  /** How many pixels the regions have, counted with repetition. */
  ghost function PixelCount(regions: seq<Region>): nat {
    if regions == [] then 0 else PixelCount(regions[..|regions| - 1]) + |Pixels(regions[|regions| - 1].box)|
  }

  ghost predicate Upright(regions: seq<Region>) {
    forall k :: 0 <= k < |regions| ==> regions[k].box.x0 <= regions[k].box.x1 && regions[k].box.y0 <= regions[k].box.y1
  }

  lemma {:induction false} TotalCountsPixels(regions: seq<Region>)
    requires Upright(regions)
    ensures TotalArea(regions) == PixelCount(regions)
  {
    if regions == [] {
    } else {
      TotalCountsPixels(regions[..|regions| - 1]);
      AreaCountsPixels(regions[|regions| - 1].box);
    }
  }

  /** At least 85% of the pixels in either box are in both. */
  ghost predicate NearlySame(a: Box, b: Box) {
    var common, either := |Pixels(a) * Pixels(b)|, |Pixels(a) + Pixels(b)|;
    common > 0 && 100 * common >= 85 * either
  }

  lemma RatioAtLeast(common: real, either: real)
    requires either > 0.0
    ensures common / either >= 0.85 <==> 100.0 * common >= 85.0 * either
  {
    var ratio := common / either;
    assert ratio * either == common;
    if ratio >= 0.85 {
      assert (ratio - 0.85) * either >= 0.0;
    } else {
      assert (0.85 - ratio) * either > 0.0;
    }
  }

  lemma OverlapsNearlySame(a: Region, b: Region)
    ensures Overlaps(a, b) <==> NearlySame(a.box, b.box)
  {
    OverlapCountsPixels(a.box, b.box);
    hide IntersectionOverUnion, Pixels;
    if Pixels(a.box) * Pixels(b.box) != {} {
      var p :| p in Pixels(a.box) * Pixels(b.box);
      assert p in Pixels(a.box) + Pixels(b.box);
      RatioAtLeast(|Pixels(a.box) * Pixels(b.box)| as real, |Pixels(a.box) + Pixels(b.box)| as real);
    }
  }

  /** Exactly what becomes of a region, given those selected before it: it is selected if there is room
      for one more region and for its pixels, it is on the page, and it is not nearly the same as a
      selected one; it is dropped for being nearly the same if that alone stands against it; and is
      reported unresolved otherwise. */
  lemma FateInPixels(r: Region, selected: seq<Region>, render: Render, budget: Budget)
    requires Upright(selected) && budget.minWidthPx >= 0 && budget.minHeightPx >= 0
    ensures var fits := && OnPage(r, render, budget)
                        && |selected| < budget.maxRegions
                        && PixelCount(selected) + |Pixels(r.box)| <= budget.maxTotalPixels;
            var fate := FateOf(r, selected, render, budget);
            && (fate == Unresolved <==> !fits)
            && (fate == Covered <==> fits && exists k :: 0 <= k < |selected| && NearlySame(r.box, selected[k].box))
  {
    TotalCountsPixels(selected);
    ValidIsOnPage(r, render, budget);
    if OnPage(r, render, budget) {
      AreaCountsPixels(r.box);
    }
    hide ValidRegion;
    forall k | 0 <= k < |selected| ensures Overlaps(r, selected[k]) <==> NearlySame(r.box, selected[k].box) {
      OverlapsNearlySame(r, selected[k]);
    }
    hide Overlaps, NearlySame, Pixels, PixelCount, TotalArea, Area, OnPage;
  }

  // ---------- From boxes to regions, exactly ----------

  /** The box says that it lies on this render, in its coordinates, and where. */
  ghost predicate LiesOn(box: OcrBox, render: Render, x0: real, y0: real, x1: real, y1: real) {
    && box.bbox == Some((Some(x0), Some(y0), Some(x1), Some(y1)))
    && box.coordinateSpace == Some(render.coordinateSpace) && box.renderIdentity == Some(render.identity)
    && box.imageWidthPx == Some(render.widthPx) && box.imageHeightPx == Some(render.heightPx)
  }

  /** The whole number a coordinate is rounded to, down or up. */
  predicate RoundsDown(x: real, n: int) {
    n as real <= x < (n + 1) as real
  }

  predicate RoundsUp(x: real, n: int) {
    (n - 1) as real < x <= n as real
  }

  /** The region of a box: the least box of whole pixels around it, with the box's text, the page's
      risks and the numbers of the render. */
  ghost predicate IsRegionOf(r: Region, box: OcrBox, render: Render, reasons: seq<Issue>,
                             x0: real, y0: real, x1: real, y1: real)
  {
    && LiesOn(box, render, x0, y0, x1, y1)
    && RoundsDown(x0, r.box.x0) && RoundsDown(y0, r.box.y0) && RoundsUp(x1, r.box.x1) && RoundsUp(y1, r.box.y1)
    && r.pageNo == render.pageNo && r.renderIdentity == render.identity
    && r.imageWidthPx == render.widthPx && r.imageHeightPx == render.heightPx
    && r.reasons == reasons && r.sourceText == box.text
  }

  lemma BoundLiesOn(box: OcrBox, render: Render)
    ensures Bound(box, render) <==> exists x0, y0, x1, y1 :: LiesOn(box, render, x0, y0, x1, y1)
  {
    if Bound(box, render) {
      var b := box.bbox.value;
      assert LiesOn(box, render, b.0.value, b.1.value, b.2.value, b.3.value);
    }
  }

  lemma RegionIsRegionOf(box: OcrBox, index: int, render: Render, reasons: seq<Issue>)
    requires Bound(box, render)
    ensures RegionOf(box, index, render, reasons).regionId == index
    ensures exists x0, y0, x1, y1 ::
              IsRegionOf(RegionOf(box, index, render, reasons), box, render, reasons, x0, y0, x1, y1)
  {
    var b := box.bbox.value;
    assert IsRegionOf(RegionOf(box, index, render, reasons), box, render, reasons,
                      b.0.value, b.1.value, b.2.value, b.3.value);
  }

  /** Box n is the source of the one candidate numbered n if it lies on the render, and is reported
      unresolved under its number if it does not. */
  lemma {:induction false} EveryBoxIsUsed(boxes: seq<OcrBox>, n: nat, render: Render, reasons: seq<Issue>)
    requires n < |boxes|
    ensures (exists x0, y0, x1, y1 :: LiesOn(boxes[n], render, x0, y0, x1, y1)) ==>
              exists k, x0, y0, x1, y1 ::
                && 0 <= k < |Candidates(boxes, render, reasons)|
                && Candidates(boxes, render, reasons)[k].regionId == n + 1
                && IsRegionOf(Candidates(boxes, render, reasons)[k], boxes[n], render, reasons, x0, y0, x1, y1)
    ensures (forall x0, y0, x1, y1 :: !LiesOn(boxes[n], render, x0, y0, x1, y1)) ==> n + 1 in Unbound(boxes, render)
  {
    var last := |boxes| - 1;
    BoundLiesOn(boxes[n], render);
    hide LiesOn, Bound, IsRegionOf, RegionOf;
    if n == last {
      if Bound(boxes[n], render) {
        RegionIsRegionOf(boxes[n], n + 1, render, reasons);
        var x0, y0, x1, y1 :| IsRegionOf(RegionOf(boxes[n], n + 1, render, reasons), boxes[n], render, reasons,
                                         x0, y0, x1, y1);
        var all := Candidates(boxes, render, reasons);
        assert all[|all| - 1] == RegionOf(boxes[n], n + 1, render, reasons);
      }
    } else {
      EveryBoxIsUsed(boxes[..last], n, render, reasons);
      if Bound(boxes[n], render) {
        var before, all := Candidates(boxes[..last], render, reasons), Candidates(boxes, render, reasons);
        var k, x0, y0, x1, y1 :| 0 <= k < |before| && before[k].regionId == n + 1
                                 && IsRegionOf(before[k], boxes[n], render, reasons, x0, y0, x1, y1);
        assert all[k] == before[k];
      }
    }
  }
}
