/**
 Self-review of an OCR result and its reconciliation with selective second readings.  Accepting
 anything is the exception: whatever is not shown to be repaired goes to review with empty text.
 */
module Reconciliation {
  import opened Options
  import opened RegionSelection
  import opened TextEvidence
  import opened Texts

  /** `confidence` is what the engine reports, if it is a finite number and validated as native. */
  datatype OcrResult = OcrResult(
    success: bool,
    text: string,
    boxes: seq<OcrBox>,
    readingOrder: seq<int>,
    confidence: Option<real>)

  datatype Verdict = Accepted | RereadRequired | ReviewRequired | Failed

  datatype Review = Review(
    verdict: Verdict,
    issues: seq<Issue>,
    regions: seq<Region>,
    rereadJustified: bool,
    manualReviewRequired: bool,
    unresolved: seq<int>)

  datatype Reread = Reread(regionId: int, success: bool, text: string)

  datatype PageState = AcceptedFirstPass | AcceptedAfterSelectiveReread | PageReviewRequired

  datatype Reconciled = Reconciled(
    state: PageState,
    text: string,
    reasons: seq<Issue>,
    acceptedReplacements: seq<int>,
    unresolved: seq<int>,
    reviewRequired: bool)

  // ---------- Evidence in a result ----------

  function BoxOrders(boxes: seq<OcrBox>): seq<int> {
    if boxes == [] then []
    else
      BoxOrders(boxes[..|boxes| - 1]) +
      if boxes[|boxes| - 1].readingOrder.Some? then [boxes[|boxes| - 1].readingOrder.value] else []
  }

  /** The order has a duplicate or is not sorted. */
  predicate OrderAtRisk(order: seq<int>) {
    exists i, j :: 0 <= i < j < |order| && order[i] >= order[j]
  }

  /** The categorical risks the OCR result itself gives evidence of. */
  function ObservableIssues(cc: Classes, r: OcrResult): seq<Issue> {
    var text := Strip(cc, r.text);
    if !r.success then [EngineError]
    else if text == "" then [EmptyOutput]
    else
      TextIssues(cc, text)
      + (if OrderAtRisk(if r.readingOrder != [] then r.readingOrder else BoxOrders(r.boxes))
         then [ReadingOrderRisk] else [])
      + (if r.confidence.Some? && r.confidence.value < 0.5 then [LowEngineConfidence] else [])
  }

  /** The risks that the text alone shows. */
  function TextIssues(cc: Classes, text: string): seq<Issue> {
    (if CountWhere(text, cc.isAlnum) < 2 then [SparseOutput] else [])
    + (if CorruptionCount(text) > 0 then [UnicodeCorruption] else [])
    + (if LineRepeats(cc, text) then [DuplicateLineSequence, RepeatedTextBlock] else [])
    + (if FragmentCount(cc, text) >= 4 then [ArabicFragmentation, ArabicPathologicalSpacing] else [])
  }

  // ---------- What each risk means ----------

  predicate OutOfOrder(a: OcrBox, b: OcrBox) {
    a.readingOrder.Some? && b.readingOrder.Some? && a.readingOrder.value >= b.readingOrder.value
  }

  /** The order reported, or else that of the boxes that have a place in it, is strictly increasing. */
  ghost predicate InOrder(r: OcrResult) {
    if r.readingOrder != [] then
      forall i, j :: 0 <= i < j < |r.readingOrder| ==> r.readingOrder[i] < r.readingOrder[j]
    else forall i, j :: 0 <= i < j < |r.boxes| ==> !OutOfOrder(r.boxes[i], r.boxes[j])
  }

  ghost predicate Confident(r: OcrResult) {
    r.confidence.Some? ==> r.confidence.value >= 0.5
  }

  ghost predicate Reached(order: seq<int>, v: int) {
    exists i :: 0 <= i < |order| && order[i] >= v
  }

  ghost predicate ReachedByBox(boxes: seq<OcrBox>, v: int) {
    exists k :: 0 <= k < |boxes| && boxes[k].readingOrder.Some? && boxes[k].readingOrder.value >= v
  }

  ghost predicate BoxesOutOfOrder(boxes: seq<OcrBox>) {
    exists i, j :: 0 <= i < j < |boxes| && OutOfOrder(boxes[i], boxes[j])
  }

  lemma OrderOneMore(order: seq<int>, x: int, v: int)
    ensures Reached(order + [x], v) <==> Reached(order, v) || x >= v
    ensures OrderAtRisk(order + [x]) <==> OrderAtRisk(order) || Reached(order, x)
  {
    var all := order + [x];
    assert all[|order|] == x && forall i :: 0 <= i < |order| ==> all[i] == order[i];
  }

  lemma BoxesOneMore(boxes: seq<OcrBox>, box: OcrBox, v: int)
    ensures ReachedByBox(boxes + [box], v) <==>
            ReachedByBox(boxes, v) || (box.readingOrder.Some? && box.readingOrder.value >= v)
    ensures BoxesOutOfOrder(boxes + [box]) <==>
            BoxesOutOfOrder(boxes) || (box.readingOrder.Some? && ReachedByBox(boxes, box.readingOrder.value))
  {
    var all := boxes + [box];
    assert all[|boxes|] == box && forall i :: 0 <= i < |boxes| ==> all[i] == boxes[i];
    if box.readingOrder.Some? && ReachedByBox(boxes, box.readingOrder.value) {
      var k :| 0 <= k < |boxes| && boxes[k].readingOrder.Some?
               && boxes[k].readingOrder.value >= box.readingOrder.value;
      assert OutOfOrder(all[k], all[|boxes|]);
    }
    if BoxesOutOfOrder(boxes) {
      var i, j :| 0 <= i < j < |boxes| && OutOfOrder(boxes[i], boxes[j]);
      assert OutOfOrder(all[i], all[j]);
    }
  }

  /** The orders of the boxes, taken by themselves, tell the same. */
  lemma {:induction false} BoxOrdersTell(boxes: seq<OcrBox>, v: int)
    ensures Reached(BoxOrders(boxes), v) <==> ReachedByBox(boxes, v)
    ensures OrderAtRisk(BoxOrders(boxes)) <==> BoxesOutOfOrder(boxes)
  {
    if boxes == [] {
    } else {
      var n := |boxes| - 1;
      var box := boxes[n];
      BoxOrdersTell(boxes[..n], v);
      assert boxes == boxes[..n] + [box] && BoxOrders(boxes[..n]) + [] == BoxOrders(boxes[..n]);
      hide Reached, ReachedByBox, OrderAtRisk, BoxesOutOfOrder;
      BoxesOneMore(boxes[..n], box, v);
      if box.readingOrder.Some? {
        BoxOrdersTell(boxes[..n], box.readingOrder.value);
        OrderOneMore(BoxOrders(boxes[..n]), box.readingOrder.value, v);
      }
    }
  }

  lemma RiskIffNotInOrder(r: OcrResult)
    ensures OrderAtRisk(if r.readingOrder != [] then r.readingOrder else BoxOrders(r.boxes)) <==> !InOrder(r)
  {
    BoxOrdersTell(r.boxes, 0);
  }

  /** What the stripped text of a successful result, and its order and confidence, have to be like for
      each risk to be reported. */
  ghost predicate Shows(cc: Classes, r: OcrResult, text: string, issue: Issue) {
    match issue
    case SparseOutput => !TwoAlphanumeric(cc, text)
    case UnicodeCorruption => HasDamage(text)
    case DuplicateLineSequence => LineThrice(cc, text)
    case RepeatedTextBlock => LineThrice(cc, text)
    case ArabicFragmentation => |Fragments(Split(text, cc.isSpace))| >= 4
    case ArabicPathologicalSpacing => |Fragments(Split(text, cc.isSpace))| >= 4
    case ReadingOrderRisk => !InOrder(r)
    case LowEngineConfidence => !Confident(r)
    case _ => false
  }

  lemma TextIssuesExactly(cc: Classes, r: OcrResult, text: string, issue: Issue)
    requires issue != ReadingOrderRisk && issue != LowEngineConfidence
    ensures Shows(cc, r, text, issue) ==> issue in TextIssues(cc, text)
    ensures cc.isSpace(' ') ==> (issue in TextIssues(cc, text) <==> Shows(cc, r, text, issue))
  {
    CountedTwo(cc, text);
    CorruptionIsDamage(text);
    LineThriceRepeats(cc, text);
    FragmentsCounted(Split(text, cc.isSpace));
    hide CorruptionCount, CountWhere, CountTokens, Split, Fragments, HasDamage, TwoAlphanumeric, LineRepeats,
         LineThrice;
  }

  lemma TextIssuesAreTextual(cc: Classes, text: string)
    ensures ReadingOrderRisk !in TextIssues(cc, text) && LowEngineConfidence !in TextIssues(cc, text)
  {
    hide CountWhere, CorruptionCount, LineRepeats, FragmentCount;
  }

  lemma ObservedParts(cc: Classes, r: OcrResult, issue: Issue)
    ensures !r.success ==> (issue in ObservableIssues(cc, r) <==> issue == EngineError)
    ensures r.success && Strip(cc, r.text) == "" ==> (issue in ObservableIssues(cc, r) <==> issue == EmptyOutput)
    ensures r.success && Strip(cc, r.text) != "" ==>
              (issue in ObservableIssues(cc, r) <==>
                 || issue in TextIssues(cc, Strip(cc, r.text))
                 || (issue == ReadingOrderRisk && !InOrder(r)) || (issue == LowEngineConfidence && !Confident(r)))
  {
    RiskIffNotInOrder(r);
    hide Strip, TextIssues, OrderAtRisk, InOrder, BoxOrders;
  }

  /** Exactly which risks are reported: an engine's error alone; or the blank text alone; or each risk
      that the stripped text, the order or the confidence shows.  (That every line reported as repeated
      stands there three times needs that the blank is white space.) */
  lemma IssuesExactly(cc: Classes, r: OcrResult, from: int, to: int, issue: Issue)
    requires Stripped(cc, r.text, from, to)
    ensures !r.success ==> (issue in ObservableIssues(cc, r) <==> issue == EngineError)
    ensures r.success && from == to ==> (issue in ObservableIssues(cc, r) <==> issue == EmptyOutput)
    ensures r.success && from < to && Shows(cc, r, r.text[from..to], issue) ==> issue in ObservableIssues(cc, r)
    ensures r.success && from < to && cc.isSpace(' ') ==>
              (issue in ObservableIssues(cc, r) <==> Shows(cc, r, r.text[from..to], issue))
  {
    var text := r.text[from..to];
    StrippedIsStrip(cc, r.text, from, to);
    hide *;
    ObservedParts(cc, r, issue);
    if issue == ReadingOrderRisk || issue == LowEngineConfidence {
      TextIssuesAreTextual(cc, text);
      OrderAndConfidenceShow(cc, r, text);
    } else {
      TextIssuesExactly(cc, r, text, issue);
    }
  }

  lemma OrderAndConfidenceShow(cc: Classes, r: OcrResult, text: string)
    ensures Shows(cc, r, text, ReadingOrderRisk) <==> !InOrder(r)
    ensures Shows(cc, r, text, LowEngineConfidence) <==> !Confident(r)
  {
  }

  /** The place of each risk in the order of the tests. */
  function Place(issue: Issue): nat {
    match issue
    case SparseOutput => 1
    case UnicodeCorruption => 2
    case DuplicateLineSequence => 3
    case RepeatedTextBlock => 4
    case ArabicFragmentation => 5
    case ArabicPathologicalSpacing => 6
    case ReadingOrderRisk => 7
    case LowEngineConfidence => 8
    case _ => 0
  }

  /** The risks are reported in that order, none of them twice. */
  lemma IssuesInOrder(cc: Classes, r: OcrResult)
    ensures var issues := ObservableIssues(cc, r);
            forall i, j :: 0 <= i < j < |issues| ==> Place(issues[i]) < Place(issues[j])
  {
    hide Strip, OrderAtRisk, CountWhere, CorruptionCount, LineRepeats, FragmentCount, BoxOrders;
  }

  /** A text that may stand: once stripped it is not empty, undamaged, has two alphanumeric characters,
      no line three times, and at most three one-letter Arabic words. */
  ghost predicate Clean(cc: Classes, text: string) {
    exists from, to :: Stripped(cc, text, from, to) && from < to && CleanText(cc, text[from..to])
  }

  ghost predicate CleanText(cc: Classes, text: string) {
    && !HasDamage(text) && TwoAlphanumeric(cc, text) && !LineThrice(cc, text)
    && |Fragments(Split(text, cc.isSpace))| <= 3
  }

  /** A result without risks has a clean text, its order kept and no low confidence; and conversely. */
  lemma NoIssueIsClean(cc: Classes, r: OcrResult)
    ensures ObservableIssues(cc, r) == [] ==> r.success && Clean(cc, r.text) && InOrder(r) && Confident(r)
    ensures cc.isSpace(' ') && r.success && Clean(cc, r.text) && InOrder(r) && Confident(r) ==>
              ObservableIssues(cc, r) == []
  {
    if ObservableIssues(cc, r) == [] {
      NoIssueMeans(cc, r);
    }
    if cc.isSpace(' ') && r.success && Clean(cc, r.text) && InOrder(r) && Confident(r) {
      var from, to :| Stripped(cc, r.text, from, to) && from < to && CleanText(cc, r.text[from..to]);
      hide ObservableIssues, Stripped, TwoAlphanumeric, LineThrice, Fragments, Split, HasDamage, InOrder, Confident;
      forall issue ensures issue !in ObservableIssues(cc, r) {
        IssuesExactly(cc, r, from, to, issue);
      }
      NothingInside(ObservableIssues(cc, r));
    }
  }

  lemma NothingInside<T>(s: seq<T>)
    ensures (forall x :: x !in s) <==> s == []
  {
    if s != [] {
      assert s[0] in s;
    }
  }

  lemma NotShown(cc: Classes, r: OcrResult, from: int, to: int, issue: Issue)
    requires ObservableIssues(cc, r) == [] && Stripped(cc, r.text, from, to)
    ensures r.success && from < to && !Shows(cc, r, r.text[from..to], issue)
  {
    hide ObservableIssues, Shows, Strip;
    IssuesExactly(cc, r, from, to, EngineError);
    IssuesExactly(cc, r, from, to, EmptyOutput);
    IssuesExactly(cc, r, from, to, issue);
  }

  lemma NoIssueMeans(cc: Classes, r: OcrResult)
    requires ObservableIssues(cc, r) == []
    ensures r.success && Clean(cc, r.text) && InOrder(r) && Confident(r)
  {
    var from, to := StripMeans(cc, r.text);
    hide ObservableIssues, Stripped, Strip, InOrder, Confident, TwoAlphanumeric, LineThrice, Fragments, Split,
         HasDamage;
    NotShown(cc, r, from, to, SparseOutput);
    NotShown(cc, r, from, to, UnicodeCorruption);
    NotShown(cc, r, from, to, RepeatedTextBlock);
    NotShown(cc, r, from, to, ArabicFragmentation);
    NotShown(cc, r, from, to, ReadingOrderRisk);
    NotShown(cc, r, from, to, LowEngineConfidence);
    assert CleanText(cc, r.text[from..to]);
  }

  // ---------- Review ----------

  method ReviewFirstPass(cc: Classes, result: OcrResult, render: Render) returns (review: Review)
    ensures review == ReviewOf(cc, result, render)
  {
    hide ObservableIssues, Candidates, Unbound, SelectedOf, UnresolvedOf;
    var issues := ObservableIssues(cc, result);
    if issues == [] {
      return Review(Accepted, [], [], false, false, []);
    }
    var regions, unresolved := SelectOcrRegions(result.boxes, render, issues, DEFAULT_BUDGET);
    if unresolved != [] {
      issues := issues + [EvidenceUnavailable];
    }
    var justified := regions != [] && unresolved == [] && EngineError !in issues;
    var verdict := if EngineError in issues then Failed else if justified then RereadRequired else ReviewRequired;
    return Review(verdict, issues, regions, justified, !justified, unresolved);
  }

  /** What the review of a first pass amounts to. */
  function ReviewOf(cc: Classes, result: OcrResult, render: Render): Review {
    var issues := ObservableIssues(cc, result);
    if issues == [] then Review(Accepted, [], [], false, false, [])
    else
      var candidates := Candidates(result.boxes, render, issues);
      var regions := SelectedOf(candidates, render, DEFAULT_BUDGET);
      var unresolved := Unbound(result.boxes, render) + UnresolvedOf(candidates, render, DEFAULT_BUDGET);
      var justified := regions != [] && unresolved == [] && EngineError !in issues;
      Review(if EngineError in issues then Failed else if justified then RereadRequired else ReviewRequired,
             if unresolved == [] then issues else issues + [EvidenceUnavailable],
             regions, justified, !justified, unresolved)
  }

  /** A review asks for rereads of at most four regions of at least eight pixels each way, of four
      million pixels in all, and no two of them overlap by 85%. */
  lemma ReviewIsBounded(cc: Classes, result: OcrResult, render: Render)
    ensures var regions := ReviewOf(cc, result, render).regions;
            && |regions| <= 4 && TotalArea(regions) <= 4_000_000
            && (forall k :: 0 <= k < |regions| ==> ValidRegion(regions[k], render, Budget(4, 4_000_000, 8, 8)))
            && (forall i, j :: 0 <= i < j < |regions| ==>
                  IntersectionOverUnion(regions[i].box, regions[j].box) < 0.85)
    ensures ObservableIssues(cc, result) != [] ==>
              ReviewOf(cc, result, render).regions ==
              SelectedOf(Candidates(result.boxes, render, ObservableIssues(cc, result)), render,
                         Budget(4, 4_000_000, 8, 8))
  {
    hide ObservableIssues, IntersectionOverUnion, ValidRegion, TotalArea, SelectedOf;
    SelectionIsBounded(Candidates(result.boxes, render, ObservableIssues(cc, result)), render, DEFAULT_BUDGET);
    assert TotalArea([]) == 0 by {
      NoArea();
    }
  }

  lemma NoArea()
    ensures TotalArea([]) == 0
  {
  }

  // ---------- Reconciliation ----------

  /** A correction target must carry the defect that justified its crop. */
  predicate CarriesDefect(cc: Classes, region: Region) {
    if UnicodeCorruption in region.reasons then CorruptionCount(region.sourceText) > 0
    else if SparseOutput in region.reasons then CountWhere(region.sourceText, cc.isAlnum) < 2
    else if ArabicFragmentation in region.reasons then FragmentCount(cc, region.sourceText) >= 4
    else if ArabicPathologicalSpacing in region.reasons then FragmentCount(cc, region.sourceText) >= 4
    else false
  }

  /** The last reread of a region wins. */
  function RereadFor(rereads: seq<Reread>, regionId: int): Option<Reread> {
    if rereads == [] then None
    else if rereads[|rereads| - 1].regionId == regionId then Some(rereads[|rereads| - 1])
    else RereadFor(rereads[..|rereads| - 1], regionId)
  }

  predicate Replaceable(cc: Classes, text: string, region: Region, reread: Option<Reread>) {
    && reread.Some?
    && reread.value.success
    && Strip(cc, reread.value.text) != ""
    && region.sourceText != ""
    && Count(text, region.sourceText) == 1
    && CorruptionCount(reread.value.text) == 0
    && CarriesDefect(cc, region)
  }

  /** The text after repairing the first regions, or the region at which repair gets stuck. */
  datatype Repair = Repaired(text: string) | Stuck(region: nat)

  function RepairText(cc: Classes, text: string, regions: seq<Region>, rereads: seq<Reread>): Repair {
    if regions == [] then Repaired(text)
    else
      var n := |regions| - 1;
      match RepairText(cc, text, regions[..n], rereads)
      case Stuck(k) => Stuck(k)
      case Repaired(t) =>
        var reread := RereadFor(rereads, regions[n].regionId);
        if Replaceable(cc, t, regions[n], reread)
        then Repaired(ReplaceFirst(t, regions[n].sourceText, reread.value.text))
        else Stuck(n)
  }

  /** The result that stands for an accepted text: it has no boxes, order or confidence. */
  function AsResult(text: string): OcrResult {
    OcrResult(true, text, [], [], None)
  }

  /** `tuple(dict.fromkeys(items))`: duplicates removed, first occurrences kept in order. */
  function FirstOccurrences<T(==)>(items: seq<T>): seq<T> {
    if items == [] then []
    else
      var before, last := FirstOccurrences(items[..|items| - 1]), items[|items| - 1];
      if last in before then before else before + [last]
  }

  lemma {:induction false} FirstOccurrencesMeans<T>(items: seq<T>)
    ensures forall x :: x in FirstOccurrences(items) <==> x in items
    ensures forall i, j :: 0 <= i < j < |FirstOccurrences(items)| ==>
              FirstOccurrences(items)[i] != FirstOccurrences(items)[j]
  {
    if items == [] {
    } else {
      var n := |items| - 1;
      FirstOccurrencesMeans(items[..n]);
      assert items == items[..n] + [items[n]];
    }
  }

  /** Each item kept stands where it first occurs, and those places come in order. */
  lemma {:induction false} FirstOccurrencesInOrder<T>(items: seq<T>) returns (from: seq<nat>)
    ensures var firsts := FirstOccurrences(items);
            && |from| == |firsts|
            && (forall k :: 0 <= k < |from| ==>
                  from[k] < |items| && items[from[k]] == firsts[k] && firsts[k] !in items[..from[k]])
            && (forall j, k :: 0 <= j < k < |from| ==> from[j] < from[k])
  {
    from := [];
    if items == [] {
    } else {
      var n := |items| - 1;
      from := FirstOccurrencesInOrder(items[..n]);
      FirstOccurrencesMeans(items[..n]);
      assert forall k :: 0 <= k < |from| ==> items[..n][..from[k]] == items[..from[k]];
      if items[n] !in FirstOccurrences(items[..n]) {
        from := from + [n];
      }
    }
  }

  /** A result that asks for a human: it carries no text and accepts no replacement. */
  function ForReview(reasons: seq<Issue>, unresolved: seq<int>): Reconciled {
    Reconciled(PageReviewRequired, "", reasons, [], unresolved, true)
  }

  /** The reconciliation, judged by the repair it attempts. */
  function ReconciledOf(cc: Classes, firstPass: string, review: Review, rereads: seq<Reread>): Reconciled {
    match review.verdict
    case Accepted => Reconciled(AcceptedFirstPass, firstPass, [], [], [], false)
    case RereadRequired =>
      if review.unresolved != [] then
        ForReview(FirstOccurrences(review.issues + [EvidenceUnavailable]), review.unresolved)
      else AfterRepair(cc, RepairText(cc, firstPass, review.regions, rereads), review)
    case _ => ForReview(review.issues, FirstOccurrences(review.unresolved + RegionIds(review.regions)))
  }

  function AfterRepair(cc: Classes, repair: Repair, review: Review): Reconciled {
    match repair
    case Stuck(k) =>
      ForReview(FirstOccurrences(review.issues + [RereadDisagreement]),
                if k < |review.regions| then [review.regions[k].regionId] else [])
    case Repaired(text) =>
      var outstanding := ObservableIssues(cc, AsResult(text));
      if outstanding != [] then
        ForReview(FirstOccurrences(review.issues + outstanding + [RereadDisagreement]), RegionIds(review.regions))
      else Reconciled(AcceptedAfterSelectiveReread, text, review.issues, RegionIds(review.regions), [], false)
  }

  method ReconcileOcrResults(cc: Classes, firstPass: string, review: Review, rereads: seq<Reread>)
    returns (r: Reconciled)
    ensures r == ReconciledOf(cc, firstPass, review, rereads)
  {
    hide ObservableIssues, Strip, CorruptionCount, Count, CarriesDefect, ReplaceFirst, FirstOccurrences;
    if review.verdict == Accepted {
      return Reconciled(AcceptedFirstPass, firstPass, [], [], [], false);
    }
    if review.verdict != RereadRequired {
      return ForReview(review.issues, FirstOccurrences(review.unresolved + RegionIds(review.regions)));
    }
    if review.unresolved != [] {
      return ForReview(FirstOccurrences(review.issues + [EvidenceUnavailable]), review.unresolved);
    }
    var reconciled := firstPass;
    var accepted: seq<int> := [];
    for i := 0 to |review.regions|
      invariant RepairText(cc, firstPass, review.regions[..i], rereads) == Repaired(reconciled)
      invariant accepted == RegionIds(review.regions[..i])
    {
      var region := review.regions[i];
      var reread := RereadFor(rereads, region.regionId);
      assert review.regions[..i + 1][..i] == review.regions[..i];
      if !Replaceable(cc, reconciled, region, reread) {
        assert RepairText(cc, firstPass, review.regions[..i + 1], rereads) == Stuck(i);
        StuckStays(cc, firstPass, review.regions, rereads, i + 1);
        return ForReview(FirstOccurrences(review.issues + [RereadDisagreement]), [region.regionId]);
      }
      reconciled := ReplaceFirst(reconciled, region.sourceText, reread.value.text);
      accepted := accepted + [region.regionId];
    }
    assert review.regions[..|review.regions|] == review.regions;
    var outstanding := ObservableIssues(cc, AsResult(reconciled));
    if outstanding != [] {
      return ForReview(FirstOccurrences(review.issues + outstanding + [RereadDisagreement]), RegionIds(review.regions));
    }
    return Reconciled(AcceptedAfterSelectiveReread, reconciled, review.issues, accepted, [], false);
  }

  lemma {:induction false} StuckStays(cc: Classes, text: string, regions: seq<Region>, rereads: seq<Reread>, n: nat)
    requires n <= |regions| && RepairText(cc, text, regions[..n], rereads).Stuck?
    ensures RepairText(cc, text, regions, rereads) == RepairText(cc, text, regions[..n], rereads)
    decreases |regions| - n
  {
    if n == |regions| {
      assert regions[..n] == regions;
    } else {
      assert regions[..n + 1][..n] == regions[..n];
      StuckStays(cc, text, regions, rereads, n + 1);
    }
  }

  // ---------- Failing closed ----------

  /** One repair, by the last reread of the region. */
  ghost predicate RepairStep(cc: Classes, before: string, after: string, region: Region, rereads: seq<Reread>) {
    exists k :: IsLastReread(rereads, region.regionId, k) && RepairsWith(cc, before, after, region, rereads[k])
  }

  predicate IsLastReread(rereads: seq<Reread>, regionId: int, k: int) {
    && 0 <= k < |rereads| && rereads[k].regionId == regionId
    && forall m :: k < m < |rereads| ==> rereads[m].regionId != regionId
  }

  /** The source text of a region shows the first of the page's defects that a reread can repair. */
  ghost predicate ShowsItsDefect(cc: Classes, region: Region) {
    if UnicodeCorruption in region.reasons then HasDamage(region.sourceText)
    else if SparseOutput in region.reasons then !TwoAlphanumeric(cc, region.sourceText)
    else
      && (ArabicFragmentation in region.reasons || ArabicPathologicalSpacing in region.reasons)
      && |Fragments(Split(region.sourceText, cc.isSpace))| >= 4
  }

  lemma CarriesExactly(cc: Classes, region: Region)
    ensures CarriesDefect(cc, region) <==> ShowsItsDefect(cc, region)
  {
    CorruptionIsDamage(region.sourceText);
    CountedTwo(cc, region.sourceText);
    FragmentsCounted(Split(region.sourceText, cc.isSpace));
    hide CorruptionCount, CountWhere, CountTokens, Split, Fragments, HasDamage, TwoAlphanumeric;
  }

  /** The defective source text stands in the text, every other occurrence of it overlaps the
      first, and the first is replaced by a clean, non-blank second reading. */
  ghost predicate RepairsWith(cc: Classes, before: string, after: string, region: Region, reread: Reread) {
    && reread.success && Visible(cc, reread.text) && !HasDamage(reread.text)
    && region.sourceText != "" && ShowsItsDefect(cc, region)
    && var k := Find(before, region.sourceText);
       && OccursAt(before, region.sourceText, k)
       && (forall j :: OccursAt(before, region.sourceText, j) ==> k <= j < k + |region.sourceText|)
       && after == before[..k] + reread.text + before[k + |region.sourceText|..]
  }

  /** A chain of repairs, one for each region in order. */
  ghost predicate RepairChain(cc: Classes, texts: seq<string>, regions: seq<Region>, rereads: seq<Reread>) {
    |texts| == |regions| + 1 &&
    forall k :: 0 <= k < |regions| ==> RepairStep(cc, texts[k], texts[k + 1], regions[k], rereads)
  }

  lemma {:induction false} RereadForIsLast(rereads: seq<Reread>, regionId: int) returns (last: int)
    ensures RereadFor(rereads, regionId).Some? ==>
              IsLastReread(rereads, regionId, last) && rereads[last] == RereadFor(rereads, regionId).value
    ensures RereadFor(rereads, regionId).None? ==> forall k :: !IsLastReread(rereads, regionId, k)
    ensures forall k :: IsLastReread(rereads, regionId, k) ==> k == last
  {
    last := -1;
    if rereads == [] {
    } else {
      var n := |rereads| - 1;
      if rereads[n].regionId == regionId {
        last := n;
      } else {
        last := RereadForIsLast(rereads[..n], regionId);
        forall k | IsLastReread(rereads, regionId, k) ensures k == last && RereadFor(rereads, regionId).Some? {
          assert IsLastReread(rereads[..n], regionId, k);
        }
      }
    }
  }

  /** A repair step is exactly what the reconciliation does with a replaceable region. */
  lemma RepairStepIsReplacement(cc: Classes, before: string, after: string, region: Region,
                                rereads: seq<Reread>)
    ensures RepairStep(cc, before, after, region, rereads) <==>
            && Replaceable(cc, before, region, RereadFor(rereads, region.regionId))
            && after == ReplaceFirst(before, region.sourceText, RereadFor(rereads, region.regionId).value.text)
  {
    hide Strip, CorruptionCount, CarriesDefect, ShowsItsDefect, Count, Visible, HasDamage;
    var last := RereadForIsLast(rereads, region.regionId);
    CarriesExactly(cc, region);
    if region.sourceText != "" {
      CountOneIffAllOverlapFirst(before, region.sourceText);
    }
    var reread := RereadFor(rereads, region.regionId);
    if reread.Some? {
      StripLeavesVisible(cc, reread.value.text);
      CorruptionIsDamage(reread.value.text);
      assert RepairsWith(cc, before, after, region, reread.value) <==>
             && Replaceable(cc, before, region, reread)
             && after == ReplaceFirst(before, region.sourceText, reread.value.text);
    }
  }

  lemma {:induction false} RepairedByChain(cc: Classes, text: string, regions: seq<Region>, rereads: seq<Reread>)
    returns (texts: seq<string>)
    requires RepairText(cc, text, regions, rereads).Repaired?
    ensures RepairChain(cc, texts, regions, rereads)
    ensures texts[0] == text && texts[|regions|] == RepairText(cc, text, regions, rereads).text
  {
    hide Replaceable, RepairStep;
    if regions == [] {
      texts := [text];
    } else {
      var n := |regions| - 1;
      var earlier := RepairedByChain(cc, text, regions[..n], rereads);
      var after := RepairText(cc, text, regions, rereads).text;
      RepairStepIsReplacement(cc, earlier[n], after, regions[n], rereads);
      texts := earlier + [after];
      forall k | 0 <= k < |regions| ensures RepairStep(cc, texts[k], texts[k + 1], regions[k], rereads) {
        if k < n {
          assert RepairStep(cc, earlier[k], earlier[k + 1], regions[..n][k], rereads);
        }
      }
    }
  }

  lemma {:induction false} ChainRepairs(cc: Classes, texts: seq<string>, regions: seq<Region>, rereads: seq<Reread>)
    requires RepairChain(cc, texts, regions, rereads)
    ensures RepairText(cc, texts[0], regions, rereads) == Repaired(texts[|regions|])
    decreases |regions|
  {
    hide Replaceable, RepairStep;
    if regions == [] {
    } else {
      var n := |regions| - 1;
      forall k | 0 <= k < n ensures RepairStep(cc, texts[..n + 1][k], texts[..n + 1][k + 1], regions[..n][k], rereads) {
        assert RepairStep(cc, texts[k], texts[k + 1], regions[k], rereads);
      }
      ChainRepairs(cc, texts[..n + 1], regions[..n], rereads);
      assert RepairStep(cc, texts[n], texts[n + 1], regions[n], rereads);
      RepairStepIsReplacement(cc, texts[n], texts[n + 1], regions[n], rereads);
    }
  }

  /** A target that cannot overlap itself is repaired at its only occurrence. */
  lemma RepairedAtItsOnlyPlace(cc: Classes, before: string, after: string, region: Region,
                               rereads: seq<Reread>)
    requires RepairStep(cc, before, after, region, rereads) && !SelfOverlaps(region.sourceText)
    ensures OccursOnce(before, region.sourceText)
  {
    RepairStepIsReplacement(cc, before, after, region, rereads);
    hide Strip, CorruptionCount, CarriesDefect, Count, RepairStep;
    CountOneIsUnique(before, region.sourceText);
  }

  /** The page was flagged for a defect that a second reading can repair. */
  predicate Repairable(issues: seq<Issue>) {
    UnicodeCorruption in issues || SparseOutput in issues || ArabicFragmentation in issues
  }

  lemma IssuesComeInPairs(cc: Classes, result: OcrResult)
    ensures ArabicPathologicalSpacing in ObservableIssues(cc, result) <==>
            ArabicFragmentation in ObservableIssues(cc, result)
  {
    hide Strip, OrderAtRisk, LineRepeats, CorruptionCount, FragmentCount, CountWhere, BoxOrders;
  }

  /** A review that asks for rereads has regions, all flagged with the page's issues. */
  lemma RereadReviewHasRegions(cc: Classes, result: OcrResult, render: Render)
    requires ReviewOf(cc, result, render).verdict == RereadRequired
    ensures var review := ReviewOf(cc, result, render);
            && review.regions != [] && review.unresolved == []
            && review.issues == ObservableIssues(cc, result)
            && review.regions == SelectedOf(Candidates(result.boxes, render, review.issues), render, DEFAULT_BUDGET)
            && forall k :: 0 <= k < |review.regions| ==> review.regions[k].reasons == review.issues
  {
    hide ObservableIssues, ValidRegion, FateOf;
    var issues := ObservableIssues(cc, result);
    CandidatesCoverTheirBoxes(result.boxes, render, issues);
    SelectedAreInputs(Candidates(result.boxes, render, issues), render, DEFAULT_BUDGET);
    var review := ReviewOf(cc, result, render);
    forall k | 0 <= k < |review.regions| ensures review.regions[k].reasons == issues {
      assert review.regions[k] in Candidates(result.boxes, render, issues);
    }
  }

  /** Acceptance after rereading fails closed: every suspicious region was repaired at its first
      occurrence, each target carrying its defect, and any other occurrence overlapped that one; a
      target that cannot overlap itself was repaired at its only occurrence; the page had been
      flagged for a repairable defect; and the text that is accepted shows no remaining issue. */
  lemma AcceptedRereadIsRepaired(cc: Classes, result: OcrResult, render: Render,
                                 rereads: seq<Reread>)
    returns (texts: seq<string>)
    ensures var review := ReviewOf(cc, result, render);
            var r := ReconciledOf(cc, result.text, review, rereads);
            r.state == AcceptedAfterSelectiveReread ==>
              && review.verdict == RereadRequired && review.regions != []
              && RepairChain(cc, texts, review.regions, rereads)
              && texts[0] == result.text && texts[|review.regions|] == r.text
              && (forall k :: 0 <= k < |review.regions| && !SelfOverlaps(review.regions[k].sourceText) ==>
                    OccursOnce(texts[k], review.regions[k].sourceText))
              && r.acceptedReplacements == RegionIds(review.regions)
              && Repairable(review.issues)
              && ObservableIssues(cc, AsResult(r.text)) == []
  {
    var review := ReviewOf(cc, result, render);
    texts := [];
    if ReconciledOf(cc, result.text, review, rereads).state == AcceptedAfterSelectiveReread {
      RereadReviewHasRegions(cc, result, render);
      hide ReviewOf, ObservableIssues, RepairText;
      texts := RepairedByChain(cc, result.text, review.regions, rereads);
      assert RepairStep(cc, texts[0], texts[1], review.regions[0], rereads);
      assert ShowsItsDefect(cc, review.regions[0]);
      IssuesComeInPairs(cc, result);
      hide ShowsItsDefect;
      forall k | 0 <= k < |review.regions| && !SelfOverlaps(review.regions[k].sourceText)
        ensures OccursOnce(texts[k], review.regions[k].sourceText)
      {
        assert RepairStep(cc, texts[k], texts[k + 1], review.regions[k], rereads);
        RepairedAtItsOnlyPlace(cc, texts[k], texts[k + 1], review.regions[k], rereads);
      }
    }
  }

  /** Every outcome is one of three, and anything short of acceptance carries no text. */
  lemma ReviewHasNoText(cc: Classes, result: OcrResult, render: Render, rereads: seq<Reread>)
    ensures var r := ReconciledOf(cc, result.text, ReviewOf(cc, result, render), rereads);
            && (r.reviewRequired <==> r.state == PageReviewRequired)
            && (r.reviewRequired ==> r.text == "" && r.acceptedReplacements == [])
            && (r.reviewRequired ==> forall i :: i in ObservableIssues(cc, result) ==> i in r.reasons)
            && (r.state == AcceptedFirstPass ==> r.text == result.text && ObservableIssues(cc, result) == [])
            && (!result.success ==> r.reviewRequired)
  {
    var review := ReviewOf(cc, result, render);
    ReviewKeepsIssues(cc, result, render);
    hide *;
    ReconciledShape(cc, result.text, review, rereads);
    if ReconciledOf(cc, result.text, review, rereads).reviewRequired {
      ReconciledKeepsIssues(cc, result.text, review, rereads);
    }
  }

  /** Whatever is accepted is clean, at the first pass or after rereading; at the first pass it is also
      in order and not of low confidence, and conversely what is so is accepted as it stands. */
  lemma AcceptedIsClean(cc: Classes, result: OcrResult, render: Render, rereads: seq<Reread>)
    ensures var r := ReconciledOf(cc, result.text, ReviewOf(cc, result, render), rereads);
            && (r.state != PageReviewRequired ==> Clean(cc, r.text))
            && (r.state == AcceptedFirstPass ==>
                  r.text == result.text && result.success && InOrder(result) && Confident(result))
            && (cc.isSpace(' ') && result.success && Clean(cc, result.text) && InOrder(result) && Confident(result) ==>
                  r == Reconciled(AcceptedFirstPass, result.text, [], [], [], false))
  {
    var review := ReviewOf(cc, result, render);
    var r := ReconciledOf(cc, result.text, review, rereads);
    NoIssueIsClean(cc, result);
    ReviewAccepts(cc, result, render);
    hide ObservableIssues, Clean, InOrder, Confident, ReviewOf, RepairText, FirstOccurrences;
    if r.state == AcceptedAfterSelectiveReread {
      NoIssueIsClean(cc, AsResult(r.text));
    }
  }

  lemma ReviewAccepts(cc: Classes, result: OcrResult, render: Render)
    ensures ReviewOf(cc, result, render).verdict == Accepted <==> ObservableIssues(cc, result) == []
  {
    hide ObservableIssues, Candidates, SelectedOf, Unbound, UnresolvedOf;
  }

  lemma ReconciledShape(cc: Classes, text: string, review: Review, rereads: seq<Reread>)
    ensures var r := ReconciledOf(cc, text, review, rereads);
            && (r.reviewRequired <==> r.state == PageReviewRequired)
            && (r.reviewRequired ==> r.text == "" && r.acceptedReplacements == [])
            && (r.state == AcceptedFirstPass <==> review.verdict == Accepted)
            && (review.verdict == Accepted ==> r.text == text)
            && (review.verdict == Failed ==> r.reviewRequired)
  {
    hide RepairText, ObservableIssues, FirstOccurrences;
  }

  lemma ReviewKeepsIssues(cc: Classes, result: OcrResult, render: Render)
    ensures forall i :: i in ObservableIssues(cc, result) ==> i in ReviewOf(cc, result, render).issues
    ensures ReviewOf(cc, result, render).verdict == Accepted ==> ObservableIssues(cc, result) == []
    ensures !result.success ==> ReviewOf(cc, result, render).verdict == Failed
  {
    assert !result.success ==> ObservableIssues(cc, result) == [EngineError];
    hide ObservableIssues, Candidates, SelectedOf, Unbound, UnresolvedOf;
  }

  lemma ReconciledKeepsIssues(cc: Classes, text: string, review: Review, rereads: seq<Reread>)
    requires ReconciledOf(cc, text, review, rereads).reviewRequired
    ensures forall i :: i in review.issues ==> i in ReconciledOf(cc, text, review, rereads).reasons
  {
    hide RepairText, ObservableIssues, FirstOccurrences;
    FirstOccurrencesMeans(review.issues + [EvidenceUnavailable]);
    FirstOccurrencesMeans(review.issues + [RereadDisagreement]);
    var repair := RepairText(cc, text, review.regions, rereads);
    if repair.Repaired? {
      FirstOccurrencesMeans(review.issues + ObservableIssues(cc, AsResult(repair.text)) + [RereadDisagreement]);
    }
  }

  /** Acceptance is exact: a review that asked for rereads ends accepted if and only if the
      repairs go through and leave a text without issues. */
  lemma AcceptedIffRepaired(cc: Classes, result: OcrResult, render: Render, rereads: seq<Reread>)
    requires ReviewOf(cc, result, render).verdict == RereadRequired
    ensures ReconciledOf(cc, result.text, ReviewOf(cc, result, render), rereads).state == AcceptedAfterSelectiveReread
            <==>
            exists texts ::
              && RepairChain(cc, texts, ReviewOf(cc, result, render).regions, rereads)
              && texts[0] == result.text && ObservableIssues(cc, AsResult(texts[|texts| - 1])) == []
  {
    var review := ReviewOf(cc, result, render);
    RereadReviewHasRegions(cc, result, render);
    hide ReviewOf, ObservableIssues, RepairText;
    var r := ReconciledOf(cc, result.text, review, rereads);
    if r.state == AcceptedAfterSelectiveReread {
      var texts := RepairedByChain(cc, result.text, review.regions, rereads);
    }
    forall texts | RepairChain(cc, texts, review.regions, rereads)
                   && texts[0] == result.text && ObservableIssues(cc, AsResult(texts[|texts| - 1])) == []
      ensures r.state == AcceptedAfterSelectiveReread
    {
      ChainRepairs(cc, texts, review.regions, rereads);
    }
  }

  /** What acceptance after rereading does not look at: reading order and engine confidence of
      the first pass are dropped, so two first passes that differ only there, and both ask for
      rereads, are reconciled to the same state and text. */
  lemma RereadForgetsOrderAndConfidence(cc: Classes, a: OcrResult, b: OcrResult, render: Render,
                                        rereads: seq<Reread>)
    requires b == a.(readingOrder := b.readingOrder, confidence := b.confidence)
    requires ReviewOf(cc, a, render).verdict == RereadRequired && ReviewOf(cc, b, render).verdict == RereadRequired
    ensures var ra := ReconciledOf(cc, a.text, ReviewOf(cc, a, render), rereads);
            var rb := ReconciledOf(cc, b.text, ReviewOf(cc, b, render), rereads);
            ra.state == rb.state && ra.text == rb.text
  {
    hide ReviewOf, ObservableIssues, RepairText, SelectedOf, Candidates;
    var x, y := ReviewOf(cc, a, render), ReviewOf(cc, b, render);
    RereadReviewHasRegions(cc, a, render);
    RereadReviewHasRegions(cc, b, render);
    SameTextIssues(cc, a, b);
    SameGeometry(a.boxes, render, x.issues, y.issues);
    SameRepair(cc, a.text, x.regions, y.regions, rereads);
  }

  lemma SameTextIssues(cc: Classes, a: OcrResult, b: OcrResult)
    requires b == a.(readingOrder := b.readingOrder, confidence := b.confidence)
    ensures SameDefects(ObservableIssues(cc, a), ObservableIssues(cc, b))
  {
    SameTextIssue(cc, a, b, UnicodeCorruption);
    SameTextIssue(cc, a, b, SparseOutput);
    SameTextIssue(cc, a, b, ArabicFragmentation);
    SameTextIssue(cc, a, b, ArabicPathologicalSpacing);
    hide ObservableIssues;
  }

  lemma SameTextIssue(cc: Classes, a: OcrResult, b: OcrResult, issue: Issue)
    requires b == a.(readingOrder := b.readingOrder, confidence := b.confidence)
    requires issue != ReadingOrderRisk && issue != LowEngineConfidence
    ensures issue in ObservableIssues(cc, a) <==> issue in ObservableIssues(cc, b)
  {
    hide *;
    ObservedParts(cc, a, issue);
    ObservedParts(cc, b, issue);
  }

  /** The two issue lists agree on everything a correction target is checked for. */
  predicate SameDefects(a: seq<Issue>, b: seq<Issue>) {
    && (UnicodeCorruption in a <==> UnicodeCorruption in b)
    && (SparseOutput in a <==> SparseOutput in b)
    && (ArabicFragmentation in a <==> ArabicFragmentation in b)
    && (ArabicPathologicalSpacing in a <==> ArabicPathologicalSpacing in b)
  }

  /** Equal but for the reasons. */
  predicate SameShape(a: seq<Region>, b: seq<Region>) {
    |a| == |b| && forall k :: 0 <= k < |a| ==> a[k] == b[k].(reasons := a[k].reasons)
  }

  lemma {:induction false} SameGeometry(boxes: seq<OcrBox>, render: Render, a: seq<Issue>, b: seq<Issue>)
    ensures SameShape(Candidates(boxes, render, a), Candidates(boxes, render, b))
    ensures SameShape(SelectedOf(Candidates(boxes, render, a), render, DEFAULT_BUDGET),
                      SelectedOf(Candidates(boxes, render, b), render, DEFAULT_BUDGET))
  {
    if boxes == [] {
    } else {
      SameGeometry(boxes[..|boxes| - 1], render, a, b);
    }
    SameSelection(Candidates(boxes, render, a), Candidates(boxes, render, b), render, DEFAULT_BUDGET);
  }

  lemma {:induction false} SameAreas(a: seq<Region>, b: seq<Region>)
    requires SameShape(a, b)
    ensures TotalArea(a) == TotalArea(b)
  {
    if a == [] {
    } else {
      SameAreas(a[..|a| - 1], b[..|b| - 1]);
    }
  }

  lemma {:induction false} SameSelection(a: seq<Region>, b: seq<Region>, render: Render, budget: Budget)
    requires SameShape(a, b)
    ensures SameShape(SelectedOf(a, render, budget), SelectedOf(b, render, budget))
  {
    if a == [] {
    } else {
      var n := |a| - 1;
      SameSelection(a[..n], b[..n], render, budget);
      SameFate(a[n], b[n], SelectedOf(a[..n], render, budget), SelectedOf(b[..n], render, budget), render, budget);
    }
  }

  lemma SameFate(a: Region, b: Region, before: seq<Region>, before': seq<Region>, render: Render, budget: Budget)
    requires a == b.(reasons := a.reasons) && SameShape(before, before')
    ensures FateOf(a, before, render, budget) == FateOf(b, before', render, budget)
  {
    SameAreas(before, before');
    forall k | 0 <= k < |before| ensures Overlaps(a, before[k]) <==> Overlaps(b, before'[k]) {
      assert before[k].box == before'[k].box;
    }
  }

  lemma {:induction false} SameRepair(cc: Classes, text: string, a: seq<Region>, b: seq<Region>, rereads: seq<Reread>)
    requires SameShape(a, b)
    requires forall k :: 0 <= k < |a| ==> SameDefects(a[k].reasons, b[k].reasons)
    ensures RepairText(cc, text, a, rereads) == RepairText(cc, text, b, rereads)
  {
    if a == [] {
    } else {
      var n := |a| - 1;
      SameRepair(cc, text, a[..n], b[..n], rereads);
      assert SameDefects(a[n].reasons, b[n].reasons);
      assert CarriesDefect(cc, a[n]) == CarriesDefect(cc, b[n]);
    }
  }

  // ---------- A page that is accepted although its defect stands twice ----------

  const PAGE_RENDER := Render(1, "id", 100, 100, "px")

  /** A page of three dashes, with one box for two of them and any reading order. */
  function DashPage(order: seq<int>): OcrResult {
    var box := OcrBox("--", Some((Some(0.0), Some(0.0), Some(50.0), Some(50.0))), None, Some("px"), Some("id"),
                      Some(100), Some(100));
    OcrResult(true, "---", [box], order, None)
  }

  /** Dashes are neither space nor alphanumeric, and the letters of "ok" are letters. */
  predicate Ordinary(cc: Classes) {
    && !cc.isSpace('-') && !cc.isSpace('o') && !cc.isSpace('k')
    && !cc.isLineBreak('-') && !cc.isLineBreak('o') && !cc.isLineBreak('k')
    && !cc.isAlnum('-') && cc.isAlnum('o') && cc.isAlnum('k')
  }

  /** One word without damage. */
  predicate Solid(cc: Classes, text: string) {
    |text| >= 2 && forall k :: 0 <= k < |text| ==> !cc.isSpace(text[k]) && !cc.isLineBreak(text[k]) && !Corrupt(text[k])
  }

  lemma SplitSolid(text: string, p: char -> bool)
    requires text != "" && forall k :: 0 <= k < |text| ==> !p(text[k])
    ensures Split(text, p) == [text]
  {
    assert WordLength(text, p) == |text|;
    assert text[..|text|] == text && text[|text|..] == "";
  }

  lemma {:induction false} CountsNone(text: string, p: char -> bool)
    requires forall k :: 0 <= k < |text| ==> !p(text[k])
    ensures CountWhere(text, p) == 0
  {
    if text == "" {
    } else {
      CountsNone(text[..|text| - 1], p);
    }
  }

  lemma SolidIssues(cc: Classes, text: string)
    requires Solid(cc, text)
    ensures Strip(cc, text) == text && CorruptionCount(text) == 0 && FragmentCount(cc, text) == 0
    ensures TextIssues(cc, text) == if CountWhere(text, cc.isAlnum) < 2 then [SparseOutput] else []
  {
    SplitSolid(text, cc.isSpace);
    SplitSolid(text, cc.isLineBreak);
    CountsNone(text, c => Corrupt(c));
    OneLineOnce(cc, text);
    assert CountTokens([text][..0]) == 0;
  }

  lemma OneLineOnce(cc: Classes, text: string)
    requires Solid(cc, text) && Split(text, cc.isSpace) == [text] && Split(text, cc.isLineBreak) == [text]
    ensures !LineRepeats(cc, text)
  {
    assert NormalizedLines(cc, [text][..0]) == [];
    assert NormalizedLines(cc, [text]) == [text];
  }

  lemma DashIssues(cc: Classes, order: seq<int>)
    requires Ordinary(cc)
    ensures ObservableIssues(cc, DashPage(order)) ==
            [SparseOutput] + (if OrderAtRisk(order) then [ReadingOrderRisk] else [])
    ensures CountWhere("--", cc.isAlnum) == 0 && DashPage(order).text == "---"
  {
    SolidIssues(cc, "---");
    CountsNone("---", cc.isAlnum);
    CountsNone("--", cc.isAlnum);
    hide Strip, TextIssues, CountWhere;
    var boxes := DashPage(order).boxes;
    assert BoxOrders(boxes[..0]) == [];
    assert BoxOrders(boxes) == [];
  }

  lemma DashRegion(cc: Classes, order: seq<int>, issues: seq<Issue>)
    requires issues == ObservableIssues(cc, DashPage(order)) && issues != [] && EngineError !in issues
    ensures var review := ReviewOf(cc, DashPage(order), PAGE_RENDER);
            && review.verdict == RereadRequired && review.issues == issues && review.unresolved == []
            && review.regions == [Region(1, 1, Box(0, 0, 50, 50), "id", 100, 100, issues, "--")]
  {
    var boxes := DashPage(order).boxes;
    var region := Region(1, 1, Box(0, 0, 50, 50), "id", 100, 100, issues, "--");
    hide ObservableIssues;
    DashCandidate(boxes, region, issues);
    OneRegionSelected([region]);
  }

  lemma DashCandidate(boxes: seq<OcrBox>, region: Region, issues: seq<Issue>)
    requires boxes == DashPage([]).boxes
    requires region == Region(1, 1, Box(0, 0, 50, 50), "id", 100, 100, issues, "--")
    ensures Candidates(boxes, PAGE_RENDER, issues) == [region] && Unbound(boxes, PAGE_RENDER) == []
  {
    assert boxes[..0] == [];
    assert (0.0).Floor == 0 && Ceil(50.0) == 50;
    assert RegionOf(boxes[0], 1, PAGE_RENDER, issues) == region;
  }

  lemma OneRegionSelected(regions: seq<Region>)
    requires |regions| == 1 && regions[0].box == Box(0, 0, 50, 50)
    requires ValidRegion(regions[0], PAGE_RENDER, DEFAULT_BUDGET)
    ensures SelectedOf(regions, PAGE_RENDER, DEFAULT_BUDGET) == regions
    ensures UnresolvedOf(regions, PAGE_RENDER, DEFAULT_BUDGET) == []
  {
    assert regions[..0] == [];
    assert FateOf(regions[0], [], PAGE_RENDER, DEFAULT_BUDGET) == Selected;
  }

  lemma CountAppend(s: string, c: char, p: char -> bool)
    ensures CountWhere("", p) == 0
    ensures CountWhere(s + [c], p) == CountWhere(s, p) + if p(c) then 1 else 0
  {
    assert (s + [c])[..|s|] == s;
  }

  lemma TwoLetters(cc: Classes, ok: string)
    requires Ordinary(cc) && ok == "ok"
    ensures CountWhere(ok, cc.isAlnum) == 2 && CountWhere(ok + ['-'], cc.isAlnum) == 2
  {
    CountAppend([], 'o', cc.isAlnum);
    CountAppend(['o'], 'k', cc.isAlnum);
    CountAppend(ok, '-', cc.isAlnum);
    assert [] + ['o'] == ['o'] && ['o'] + ['k'] == ok;
  }

  lemma OkIssues(cc: Classes, ok: string, text: string)
    requires Ordinary(cc) && ok == "ok" && text == ok + ['-']
    ensures ObservableIssues(cc, AsResult(text)) == []
    ensures CorruptionCount(ok) == 0 && Strip(cc, ok) == ok
  {
    SolidIssues(cc, text);
    SolidIssues(cc, ok);
    TwoLetters(cc, ok);
    hide Strip, TextIssues, CountWhere, CorruptionCount, FragmentCount;
    assert BoxOrders([]) == [];
  }

  lemma DashOccurrences(text: string, part: string, ok: string)
    requires text == "---" && part == "--"
    ensures OccursAt(text, part, 0) && OccursAt(text, part, 1) && Count(text, part) == 1
    ensures ReplaceFirst(text, part, ok) == ok + ['-']
  {
    CountOneIffAllOverlapFirst(text, part);
    hide Count, Find;
    FindMeans(text, part);
    assert OccursAt(text, part, 0);
  }

  lemma DashRepair(cc: Classes, text: string, region: Region, ok: string, rereads: seq<Reread>)
    requires region.regionId == 1 && region.sourceText != "" && CarriesDefect(cc, region)
    requires rereads == [Reread(1, true, ok)] && ok != ""
    requires CorruptionCount(ok) == 0 && Strip(cc, ok) == ok && Count(text, region.sourceText) == 1
    ensures RepairText(cc, text, [region], rereads) == Repaired(ReplaceFirst(text, region.sourceText, ok))
  {
    hide CarriesDefect, Count, ReplaceFirst, CorruptionCount, Strip;
    assert RereadFor(rereads, 1) == Some(rereads[0]);
    assert [region][..0] == [];
    assert RepairText(cc, text, [], rereads) == Repaired(text);
  }

  lemma DashCarries(cc: Classes, region: Region)
    requires region.sourceText == "--" && CountWhere("--", cc.isAlnum) == 0
    requires SparseOutput in region.reasons && UnicodeCorruption !in region.reasons
    ensures CarriesDefect(cc, region)
  {
  }

  lemma DashReconciled(cc: Classes, text: string, review: Review, rereads: seq<Reread>,
                       repaired: string)
    requires review.verdict == RereadRequired && review.unresolved == []
    requires |review.regions| == 1 && review.regions[0].regionId == 1
    requires RepairText(cc, text, review.regions, rereads) == Repaired(repaired)
    requires ObservableIssues(cc, AsResult(repaired)) == []
    ensures ReconciledOf(cc, text, review, rereads) ==
            Reconciled(AcceptedAfterSelectiveReread, repaired, review.issues, [1], [], false)
  {
    hide ObservableIssues, RepairText;
    assert RegionIds(review.regions) == [1];
  }

  /** The page asks for a reread of its one region, whose text stands in it twice; the second
      reading "ok" is put in the place of one occurrence, and the page is accepted with a dash left
      over.  That holds too for a page flagged for its reading order. */
  lemma OverlappingDefectIsAccepted(cc: Classes, order: seq<int>, ok: string, rereads: seq<Reread>)
    requires Ordinary(cc) && ok == "ok" && rereads == [Reread(1, true, ok)]
    ensures var page := DashPage(order);
            var review := ReviewOf(cc, page, PAGE_RENDER);
            && review.verdict == RereadRequired && |review.regions| == 1
            && (ReadingOrderRisk in review.issues <==> OrderAtRisk(order))
            && OccursAt(page.text, review.regions[0].sourceText, 0)
            && OccursAt(page.text, review.regions[0].sourceText, 1)
            && ReconciledOf(cc, page.text, review, rereads) ==
               Reconciled(AcceptedAfterSelectiveReread, ok + ['-'], review.issues, [1], [], false)
  {
    hide *;
    var page := DashPage(order);
    DashIssues(cc, order);
    DashRegion(cc, order, ObservableIssues(cc, page));
    var review := ReviewOf(cc, page, PAGE_RENDER);
    var region := review.regions[0];
    assert review.regions == [region];
    DashCarries(cc, region);
    DashOccurrences(page.text, region.sourceText, ok);
    OkIssues(cc, ok, ok + ['-']);
    DashRepair(cc, page.text, region, ok, rereads);
    DashReconciled(cc, page.text, review, rereads, ok + ['-']);
  }

  /** A page flagged for its reading order can so be accepted, with the order unexamined. */
  lemma RiskyOrderIsAccepted(cc: Classes, order: seq<int>, ok: string, rereads: seq<Reread>)
    requires Ordinary(cc) && ok == "ok" && rereads == [Reread(1, true, ok)] && order == [2, 1]
    ensures var review := ReviewOf(cc, DashPage(order), PAGE_RENDER);
            && ReadingOrderRisk in review.issues
            && ReconciledOf(cc, DashPage(order).text, review, rereads).state == AcceptedAfterSelectiveReread
  {
    assert order[0] >= order[1];
    assert OrderAtRisk(order);
    hide *;
    OverlappingDefectIsAccepted(cc, order, ok, rereads);
  }
}
