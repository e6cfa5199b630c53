/** Greedy, bounded selection of the page regions worth a second reading. */
module RegionSelection {
  import opened Arithmetic
  import opened Options
  import opened Sorting

  datatype Issue =
    | EmptyOutput | SparseOutput | DuplicateLineSequence | RepeatedTextBlock | ReadingOrderRisk
    | LowEngineConfidence | ArabicFragmentation | ArabicPathologicalSpacing | UnicodeCorruption
    | EngineError | RereadDisagreement | EvidenceUnavailable

  datatype Box = Box(x0: int, y0: int, x1: int, y1: int)

  datatype Render = Render(pageNo: int, identity: string, widthPx: int, heightPx: int, coordinateSpace: string)

  datatype Budget = Budget(maxRegions: int, maxTotalPixels: int, minWidthPx: int, minHeightPx: int)

  const DEFAULT_BUDGET := Budget(4, 4_000_000, 8, 8)

  /** `regionId` is the number n of the id "ocr-region-n". */
  datatype Region = Region(
    regionId: int,
    pageNo: int,
    box: Box,
    renderIdentity: string,
    imageWidthPx: int,
    imageHeightPx: int,
    reasons: seq<Issue>,
    sourceText: string)

  // ---------- Overlap ----------

  function Area(b: Box): int {
    (b.x1 - b.x0) * (b.y1 - b.y0)
  }

  function Intersection(a: Box, b: Box): int {
    Max(0, Min(a.x1, b.x1) - Max(a.x0, b.x0)) * Max(0, Min(a.y1, b.y1) - Max(a.y0, b.y0))
  }

  function IntersectionOverUnion(a: Box, b: Box): real {
    var intersection := Intersection(a, b);
    if intersection == 0 then 0.0
    else intersection as real / Max(1, Area(a) + Area(b) - intersection) as real
  }

  lemma ProductMonotone(a: int, b: int, c: int, d: int)
    requires 0 <= a <= c && 0 <= b <= d
    ensures 0 <= a * b <= c * d
  {
    assert a * b <= c * b;
    assert c * b <= c * d;
  }

  lemma IntersectionBounds(a: Box, b: Box)
    ensures 0 <= Intersection(a, b)
    ensures Intersection(a, b) != 0 ==> Intersection(a, b) <= Area(a)
  {
    var w, h := Min(a.x1, b.x1) - Max(a.x0, b.x0), Min(a.y1, b.y1) - Max(a.y0, b.y0);
    if w > 0 && h > 0 {
      ProductMonotone(w, h, a.x1 - a.x0, a.y1 - a.y0);
    } else {
      assert Max(0, w) == 0 || Max(0, h) == 0;
    }
  }

  lemma IntersectionSymmetric(a: Box, b: Box)
    ensures Intersection(a, b) == Intersection(b, a)
  {
  }

  lemma OverlapSymmetric(a: Box, b: Box)
    ensures IntersectionOverUnion(a, b) == IntersectionOverUnion(b, a)
  {
    IntersectionSymmetric(a, b);
    hide Intersection, Area;
  }

  lemma OverlapInRange(a: Box, b: Box)
    ensures 0.0 <= IntersectionOverUnion(a, b) <= 1.0
  {
    IntersectionBounds(a, b);
    IntersectionSymmetric(a, b);
    IntersectionBounds(b, a);
    hide Intersection, Area;
    var i := Intersection(a, b);
    if i != 0 {
      RatioBounds(i as real, Max(1, Area(a) + Area(b) - i) as real);
    }
  }

  lemma OverlapWithItself(a: Box)
    requires a.x0 < a.x1 && a.y0 < a.y1
    ensures IntersectionOverUnion(a, a) == 1.0
  {
    assert Intersection(a, a) == Area(a);
    ProductMonotone(1, 1, a.x1 - a.x0, a.y1 - a.y0);
    assert Area(a) >= 1;
    hide Intersection, Area;
    var i := Intersection(a, a);
    assert IntersectionOverUnion(a, a) == i as real / i as real;
    WholeIsOne(i as real);
  }

  /** Intersection over union is symmetric and lies between 0 and 1, for boxes of any shape;
      a box of positive width and height overlaps itself completely. */
  lemma OverlapIsAMeasure(a: Box, b: Box)
    ensures IntersectionOverUnion(a, b) == IntersectionOverUnion(b, a)
    ensures 0.0 <= IntersectionOverUnion(a, b) <= 1.0
    ensures a.x0 < a.x1 && a.y0 < a.y1 ==> IntersectionOverUnion(a, a) == 1.0
  {
    hide IntersectionOverUnion;
    OverlapSymmetric(a, b);
    OverlapInRange(a, b);
    if a.x0 < a.x1 && a.y0 < a.y1 {
      OverlapWithItself(a);
    }
  }

  lemma WholeIsOne(x: real)
    requires x > 0.0
    ensures x / x == 1.0
  {
  }

  lemma RatioBounds(a: real, b: real)
    requires 0.0 < a <= b
    ensures 0.0 <= a / b <= 1.0
  {
  }

  // ---------- Selection ----------

  predicate ValidRegion(r: Region, render: Render, budget: Budget) {
    && r.pageNo == render.pageNo
    && r.renderIdentity == render.identity
    && r.imageWidthPx == render.widthPx
    && r.imageHeightPx == render.heightPx
    && r.box.x0 >= 0 && r.box.y0 >= 0 && r.box.x1 <= render.widthPx && r.box.y1 <= render.heightPx
    && r.box.x1 - r.box.x0 >= budget.minWidthPx && r.box.y1 - r.box.y0 >= budget.minHeightPx
  }

  predicate Overlaps(a: Region, b: Region) {
    IntersectionOverUnion(a.box, b.box) >= 0.85
  }

  function TotalArea(regions: seq<Region>): int {
    if regions == [] then 0 else TotalArea(regions[..|regions| - 1]) + Area(regions[|regions| - 1].box)
  }

  /** What becomes of one region, given those selected before it. */
  datatype Fate = Selected | Unresolved | Covered

  function FateOf(r: Region, selected: seq<Region>, render: Render, budget: Budget): Fate {
    if |selected| >= budget.maxRegions || !ValidRegion(r, render, budget) then Unresolved
    else if TotalArea(selected) + Area(r.box) > budget.maxTotalPixels then Unresolved
    else if exists k :: 0 <= k < |selected| && Overlaps(r, selected[k]) then Covered
    else Selected
  }

  /** The regions selected from a prefix of the input. */
  function SelectedOf(regions: seq<Region>, render: Render, budget: Budget): seq<Region> {
    if regions == [] then []
    else
      var before, r := SelectedOf(regions[..|regions| - 1], render, budget), regions[|regions| - 1];
      if FateOf(r, before, render, budget) == Selected then before + [r] else before
  }

  /** The fate of region k. */
  function FateAt(regions: seq<Region>, k: nat, render: Render, budget: Budget): Fate
    requires k < |regions|
  {
    FateOf(regions[k], SelectedOf(regions[..k], render, budget), render, budget)
  }

  function UnresolvedOf(regions: seq<Region>, render: Render, budget: Budget): seq<int> {
    if regions == [] then []
    else
      var n := |regions| - 1;
      UnresolvedOf(regions[..n], render, budget) +
      if FateAt(regions, n, render, budget) == Unresolved then [regions[n].regionId] else []
  }

  lemma SelectNext(regions: seq<Region>, i: nat, render: Render, budget: Budget)
    requires i < |regions|
    ensures var before := SelectedOf(regions[..i], render, budget);
            var fate := FateOf(regions[i], before, render, budget);
            && SelectedOf(regions[..i + 1], render, budget) == before + (if fate == Selected then [regions[i]] else [])
            && UnresolvedOf(regions[..i + 1], render, budget) ==
               UnresolvedOf(regions[..i], render, budget) + (if fate == Unresolved then [regions[i].regionId] else [])
  {
    hide FateOf;
    assert regions[..i + 1][..i] == regions[..i];
  }

  lemma TotalAreaAppend(regions: seq<Region>, r: Region)
    ensures TotalArea(regions + [r]) == TotalArea(regions) + Area(r.box)
  {
    assert (regions + [r])[..|regions|] == regions;
  }

  method ValidateAndBoundRegions(regions: seq<Region>, render: Render, budget: Budget)
    returns (accepted: seq<Region>, unresolved: seq<int>)
    ensures accepted == SelectedOf(regions, render, budget)
    ensures unresolved == UnresolvedOf(regions, render, budget)
  {
    accepted, unresolved := [], [];
    var pixels := 0;
    for i := 0 to |regions|
      invariant accepted == SelectedOf(regions[..i], render, budget)
      invariant unresolved == UnresolvedOf(regions[..i], render, budget)
      invariant pixels == TotalArea(accepted)
    {
      hide SelectedOf, UnresolvedOf, FateAt, TotalArea, ValidRegion, Overlaps, Area;
      var region := regions[i];
      SelectNext(regions, i, render, budget);
      assert accepted + [] == accepted && unresolved + [] == unresolved;
      if |accepted| >= budget.maxRegions || !ValidRegion(region, render, budget) {
        unresolved := unresolved + [region.regionId];
        continue;
      }
      var area := Area(region.box);
      var overlapping := AnyOverlap(region, accepted);
      if pixels + area > budget.maxTotalPixels || overlapping {
        if pixels + area > budget.maxTotalPixels {
          unresolved := unresolved + [region.regionId];
        }
        continue;
      }
      TotalAreaAppend(accepted, region);
      accepted := accepted + [region];
      pixels := pixels + area;
    }
    assert regions[..|regions|] == regions;
  }

  method AnyOverlap(region: Region, accepted: seq<Region>) returns (found: bool)
    ensures found <==> exists k :: 0 <= k < |accepted| && Overlaps(region, accepted[k])
  {
    for k := 0 to |accepted|
      invariant forall j :: 0 <= j < k ==> !Overlaps(region, accepted[j])
    {
      if Overlaps(region, accepted[k]) {
        return true;
      }
    }
    return false;
  }

  /** Selected regions are valid, few, small in total and pairwise not near-duplicates. */
  lemma {:induction false} SelectionIsBounded(regions: seq<Region>, render: Render, budget: Budget)
    ensures var s := SelectedOf(regions, render, budget);
            && |s| <= Max(0, budget.maxRegions)
            && TotalArea(s) <= Max(0, budget.maxTotalPixels)
            && (forall k :: 0 <= k < |s| ==> ValidRegion(s[k], render, budget))
            && (forall i, j :: 0 <= i < |s| && 0 <= j < |s| && i != j ==>
                  IntersectionOverUnion(s[i].box, s[j].box) < 0.85)
  {
    hide IntersectionOverUnion, Area;
    if regions == [] {
    } else {
      SelectionIsBounded(regions[..|regions| - 1], render, budget);
      var before, r := SelectedOf(regions[..|regions| - 1], render, budget), regions[|regions| - 1];
      var s := SelectedOf(regions, render, budget);
      if FateOf(r, before, render, budget) == Selected {
        assert s[..|before|] == before;
        forall i, j | 0 <= i < |s| && 0 <= j < |s| && i != j
          ensures IntersectionOverUnion(s[i].box, s[j].box) < 0.85
        {
          OverlapIsAMeasure(s[i].box, s[j].box);
          if j == |before| { assert !Overlaps(r, before[i]); }
          if i == |before| { assert !Overlaps(r, before[j]); }
        }
      }
    }
  }

  /** The positions of the selected regions. */
  function Positions(regions: seq<Region>, render: Render, budget: Budget): seq<nat> {
    if regions == [] then []
    else
      var n := |regions| - 1;
      Positions(regions[..n], render, budget) + if FateAt(regions, n, render, budget) == Selected then [n] else []
  }

  /** Selection keeps the input order: it reads off the positions marked selected. */
  lemma {:induction false} SelectionKeepsOrder(regions: seq<Region>, render: Render, budget: Budget)
    ensures var s, p := SelectedOf(regions, render, budget), Positions(regions, render, budget);
            && |p| == |s|
            && (forall k :: 0 <= k < |p| ==> p[k] < |regions| && regions[p[k]] == s[k])
            && (forall i, j :: 0 <= i < j < |p| ==> p[i] < p[j])
  {
    hide FateOf;
    if regions == [] {
    } else {
      SelectionKeepsOrder(regions[..|regions| - 1], render, budget);
    }
  }

  lemma FateAtPrefix(regions: seq<Region>, n: nat, k: nat, render: Render, budget: Budget)
    requires k < n <= |regions|
    ensures FateAt(regions[..n], k, render, budget) == FateAt(regions, k, render, budget)
  {
    assert regions[..n][..k] == regions[..k];
  }

  lemma {:induction false} SelectedAppearsLater(regions: seq<Region>, k: nat, render: Render, budget: Budget)
    requires k < |regions| && FateAt(regions, k, render, budget) == Selected
    ensures regions[k] in SelectedOf(regions, render, budget)
  {
    var n := |regions| - 1;
    if k == n {
    } else {
      FateAtPrefix(regions, n, k, render, budget);
      SelectedAppearsLater(regions[..n], k, render, budget);
    }
  }

  lemma {:induction false} UnresolvedAppears(regions: seq<Region>, k: nat, render: Render, budget: Budget)
    requires k < |regions| && FateAt(regions, k, render, budget) == Unresolved
    ensures regions[k].regionId in UnresolvedOf(regions, render, budget)
  {
    var n := |regions| - 1;
    if k == n {
    } else {
      FateAtPrefix(regions, n, k, render, budget);
      UnresolvedAppears(regions[..n], k, render, budget);
    }
  }

  /** No region is silently dropped: each is selected, or reported unresolved, or at least 85%
      overlapped by a region selected before it. */
  lemma EveryRegionIsAccountedFor(regions: seq<Region>, k: nat, render: Render, budget: Budget)
    requires k < |regions|
    ensures || regions[k] in SelectedOf(regions, render, budget)
            || regions[k].regionId in UnresolvedOf(regions, render, budget)
            || exists j :: 0 <= j < k && FateAt(regions, j, render, budget) == Selected
                           && IntersectionOverUnion(regions[k].box, regions[j].box) >= 0.85
  {
    var before := SelectedOf(regions[..k], render, budget);
    match FateAt(regions, k, render, budget)
    case Selected => SelectedAppearsLater(regions, k, render, budget);
    case Unresolved => UnresolvedAppears(regions, k, render, budget);
    case Covered =>
      var m :| 0 <= m < |before| && Overlaps(regions[k], before[m]);
      var j := SelectedHasPosition(regions, k, m, render, budget);
  }

  lemma {:induction false} SelectedHasPosition(regions: seq<Region>, k: nat, m: nat, render: Render, budget: Budget)
    returns (j: nat)
    requires k <= |regions| && m < |SelectedOf(regions[..k], render, budget)|
    ensures j < k && regions[j] == SelectedOf(regions[..k], render, budget)[m]
    ensures FateAt(regions, j, render, budget) == Selected
  {
    var n := k - 1;
    assert k > 0;
    assert regions[..k][..n] == regions[..n];
    if m < |SelectedOf(regions[..n], render, budget)| {
      j := SelectedHasPosition(regions, n, m, render, budget);
    } else {
      j := n;
    }
  }

  // ---------- From OCR boxes to regions ----------

  /** A box as an engine reports it; a coordinate that is not a finite number is None. */
  datatype OcrBox = OcrBox(
    text: string,
    bbox: Option<(Option<real>, Option<real>, Option<real>, Option<real>)>,
    readingOrder: Option<int>,
    coordinateSpace: Option<string>,
    renderIdentity: Option<string>,
    imageWidthPx: Option<int>,
    imageHeightPx: Option<int>)

  function Ceil(x: real): int {
    -((-x).Floor)
  }

  /** The box names this very render and has four finite coordinates. */
  predicate Bound(box: OcrBox, render: Render) {
    && box.bbox.Some?
    && box.coordinateSpace == Some(render.coordinateSpace)
    && box.renderIdentity == Some(render.identity)
    && box.imageWidthPx == Some(render.widthPx)
    && box.imageHeightPx == Some(render.heightPx)
    && box.bbox.value.0.Some? && box.bbox.value.1.Some? && box.bbox.value.2.Some? && box.bbox.value.3.Some?
  }

  function RegionOf(box: OcrBox, index: int, render: Render, reasons: seq<Issue>): Region
    requires Bound(box, render)
  {
    var b := box.bbox.value;
    Region(index, render.pageNo, Box(b.0.value.Floor, b.1.value.Floor, Ceil(b.2.value), Ceil(b.3.value)),
           render.identity, render.widthPx, render.heightPx, reasons, box.text)
  }

  function Candidates(boxes: seq<OcrBox>, render: Render, reasons: seq<Issue>): seq<Region> {
    if boxes == [] then []
    else
      var n := |boxes| - 1;
      Candidates(boxes[..n], render, reasons) +
      if Bound(boxes[n], render) then [RegionOf(boxes[n], n + 1, render, reasons)] else []
  }

  function Unbound(boxes: seq<OcrBox>, render: Render): seq<int> {
    if boxes == [] then []
    else
      var n := |boxes| - 1;
      Unbound(boxes[..n], render) + if Bound(boxes[n], render) then [] else [n + 1]
  }

  method SelectOcrRegions(boxes: seq<OcrBox>, render: Render, reasons: seq<Issue>, budget: Budget)
    returns (selected: seq<Region>, unresolved: seq<int>)
    ensures selected == SelectedOf(Candidates(boxes, render, reasons), render, budget)
    ensures unresolved == Unbound(boxes, render) + UnresolvedOf(Candidates(boxes, render, reasons), render, budget)
  {
    var candidates: seq<Region> := [];
    unresolved := [];
    for i := 0 to |boxes|
      invariant candidates == Candidates(boxes[..i], render, reasons)
      invariant unresolved == Unbound(boxes[..i], render)
    {
      assert boxes[..i + 1][..i] == boxes[..i];
      if !Bound(boxes[i], render) {
        unresolved := unresolved + [i + 1];
        continue;
      }
      candidates := candidates + [RegionOf(boxes[i], i + 1, render, reasons)];
    }
    assert boxes[..|boxes|] == boxes;
    var boundedUnresolved: seq<int>;
    selected, boundedUnresolved := ValidateAndBoundRegions(candidates, render, budget);
    unresolved := unresolved + boundedUnresolved;
  }

  /** Region n comes from box n and covers it. */
  lemma {:induction false} CandidatesCoverTheirBoxes(boxes: seq<OcrBox>, render: Render, reasons: seq<Issue>)
    ensures forall k :: 0 <= k < |Candidates(boxes, render, reasons)| ==>
              CandidateFits(boxes, render, reasons, Candidates(boxes, render, reasons)[k])
  {
    if boxes == [] {
    } else {
      var n := |boxes| - 1;
      CandidatesCoverTheirBoxes(boxes[..n], render, reasons);
      forall k | 0 <= k < |Candidates(boxes[..n], render, reasons)|
        ensures CandidateFits(boxes, render, reasons, Candidates(boxes[..n], render, reasons)[k])
      {
        assert CandidateFits(boxes[..n], render, reasons, Candidates(boxes[..n], render, reasons)[k]);
      }
    }
  }

  predicate CandidateFits(boxes: seq<OcrBox>, render: Render, reasons: seq<Issue>, r: Region) {
    && 1 <= r.regionId <= |boxes|
    && Bound(boxes[r.regionId - 1], render)
    && r.reasons == reasons && r.sourceText == boxes[r.regionId - 1].text
    && var b := boxes[r.regionId - 1].bbox.value;
       && r.box.x0 as real <= b.0.value && r.box.y0 as real <= b.1.value
       && b.2.value <= r.box.x1 as real && b.3.value <= r.box.y1 as real
  }

  function RegionIds(regions: seq<Region>): seq<int> {
    seq(|regions|, k requires 0 <= k < |regions| => regions[k].regionId)
  }

  lemma IncreasingAppend(ids: seq<int>, id: int)
    requires Increasing(ids) && forall k :: k in ids ==> k < id
    ensures Increasing(ids + [id])
  {
    forall k | 0 <= k < |ids| ensures ids[k] < id {
      assert ids[k] in ids;
    }
  }

  /** All ids are numbers of boxes that are bound to the render, or all of boxes that are not. */
  predicate Number(ids: seq<int>, boxes: seq<OcrBox>, render: Render, bound: bool) {
    forall id :: id in ids ==> 1 <= id <= |boxes| && Bound(boxes[id - 1], render) == bound
  }

  lemma NumberMore(ids: seq<int>, boxes: seq<OcrBox>, n: nat, render: Render, bound: bool)
    requires n <= |boxes| && Number(ids, boxes[..n], render, bound)
    ensures Number(ids, boxes, render, bound) && forall id :: id in ids ==> id <= n
  {
    forall id | id in ids ensures 1 <= id <= n && Bound(boxes[id - 1], render) == bound {
      assert boxes[..n][id - 1] == boxes[id - 1];
    }
  }

  lemma {:induction false} UnboundIds(boxes: seq<OcrBox>, render: Render)
    ensures Number(Unbound(boxes, render), boxes, render, false) && Increasing(Unbound(boxes, render))
  {
    if boxes == [] {
    } else {
      var n := |boxes| - 1;
      UnboundIds(boxes[..n], render);
      NumberMore(Unbound(boxes[..n], render), boxes, n, render, false);
      IncreasingAppend(Unbound(boxes[..n], render), n + 1);
    }
  }

  lemma {:induction false} CandidateIds(boxes: seq<OcrBox>, render: Render, reasons: seq<Issue>)
    ensures var ids := RegionIds(Candidates(boxes, render, reasons));
            Number(ids, boxes, render, true) && Increasing(ids)
  {
    if boxes == [] {
    } else {
      var n := |boxes| - 1;
      CandidateIds(boxes[..n], render, reasons);
      var ids := RegionIds(Candidates(boxes[..n], render, reasons));
      NumberMore(ids, boxes, n, render, true);
      IncreasingAppend(ids, n + 1);
      assert RegionIds(Candidates(boxes, render, reasons)) == ids + if Bound(boxes[n], render) then [n + 1] else [];
    }
  }

  lemma {:induction false} UnresolvedIds(regions: seq<Region>, render: Render, budget: Budget)
    requires Increasing(RegionIds(regions))
    ensures var u := UnresolvedOf(regions, render, budget);
            Increasing(u) && forall id :: id in u ==> id in RegionIds(regions)
  {
    hide FateAt;
    if regions == [] {
    } else {
      var n := |regions| - 1;
      var all, before, id := RegionIds(regions), RegionIds(regions[..n]), regions[n].regionId;
      assert all == before + [id];
      assert forall k :: 0 <= k < n ==> before[k] == all[k] < all[n];
      UnresolvedIds(regions[..n], render, budget);
      IncreasingAppend(UnresolvedOf(regions[..n], render, budget), id);
    }
  }

  /** The ids reported unresolved are distinct, so removing duplicates from them, as the source
      does, changes nothing. */
  lemma UnresolvedIdsDistinct(boxes: seq<OcrBox>, render: Render, reasons: seq<Issue>, budget: Budget)
    ensures var u := Unbound(boxes, render) + UnresolvedOf(Candidates(boxes, render, reasons), render, budget);
            forall i, j :: 0 <= i < j < |u| ==> u[i] != u[j]
  {
    hide Candidates, Unbound, UnresolvedOf, Bound, RegionIds;
    UnboundIds(boxes, render);
    CandidateIds(boxes, render, reasons);
    UnresolvedIds(Candidates(boxes, render, reasons), render, budget);
    var a, b := Unbound(boxes, render), UnresolvedOf(Candidates(boxes, render, reasons), render, budget);
    forall i, j | 0 <= i < |a| && 0 <= j < |b| ensures a[i] != b[j] {
      assert a[i] in a && b[j] in b;
    }
  }

  lemma {:induction false} SelectedAreInputs(regions: seq<Region>, render: Render, budget: Budget)
    ensures forall r :: r in SelectedOf(regions, render, budget) ==> r in regions
  {
    if regions == [] {
    } else {
      SelectedAreInputs(regions[..|regions| - 1], render, budget);
    }
  }
}
