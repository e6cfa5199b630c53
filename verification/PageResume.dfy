/**
 The page loop of a conversion: pages already in the checkpoint are skipped, every other page is
 evaluated once and the checkpoint rewritten after it; the loop can be cancelled before a page
 or inside one, the process can die at any point, and the closing status message can raise.
 Evaluating a page is a function of its number.
 */
module PageResume {
  import opened Checkpoints
  import opened Options
  import opened Sorting

  // ---------- The page selection ----------

  datatype Selection = Pages(pages: seq<int>) | Bounds(from: Option<int>, to: Option<int>)

  datatype SelectionError = MissingBounds | EmptySelection | OutOfRange

  datatype Validated = Accepted(pages: seq<int>) | Rejected(error: SelectionError)

  function PageRange(from: int, to: int): (pages: seq<int>)
    ensures from <= to ==> |pages| == to - from + 1
    ensures from > to ==> pages == []
    ensures forall k :: 0 <= k < |pages| ==> pages[k] == from + k
  {
    if from > to then [] else seq(to - from + 1, k => from + k)
  }

  function Validate(selection: Selection, pageCount: nat): (v: Validated)
    ensures v.Accepted? ==> v.pages != [] && forall p :: p in v.pages ==> 1 <= p <= pageCount
  {
    if selection.Bounds? && (selection.from.None? || selection.to.None?) then Rejected(MissingBounds)
    else
      var pages := match selection
                   case Pages(pages) => pages
                   case Bounds(from, to) => PageRange(from.value, to.value);
      if pages == [] then Rejected(EmptySelection)
      else if exists k :: 0 <= k < |pages| && (pages[k] < 1 || pages[k] > pageCount) then Rejected(OutOfRange)
      else Accepted(pages)
  }

  /** The pages that the caller asks for: those of a list as they stand there, or those from a first
      page to a last one. */
  ghost predicate Names(selection: Selection, pages: seq<int>) {
    match selection
    case Pages(given) => pages == given
    case Bounds(from, to) =>
      && from.Some? && to.Some?
      && |pages| == (if from.value <= to.value then to.value - from.value + 1 else 0)
      && forall k :: 0 <= k < |pages| ==> pages[k] == from.value + k
  }

  predicate InDocument(pages: seq<int>, pageCount: nat) {
    pages != [] && forall k :: 0 <= k < |pages| ==> 1 <= pages[k] <= pageCount
  }

  /** The pages accepted are the pages asked for, all of them and in their order; and when each error
      arises. */
  lemma SelectionIsKept(selection: Selection, pageCount: nat, pages: seq<int>)
    requires Names(selection, pages)
    ensures Validate(selection, pageCount) == Accepted(pages) <==> InDocument(pages, pageCount)
    ensures Validate(selection, pageCount) == Rejected(EmptySelection) <==> pages == []
    ensures Validate(selection, pageCount) == Rejected(OutOfRange) <==>
            pages != [] && !InDocument(pages, pageCount)
  {
    if selection.Bounds? {
      assert PageRange(selection.from.value, selection.to.value) == pages;
    }
    assert forall k :: 0 <= k < |pages| ==> pages[k] in pages;
  }

  /** A selection names no pages if and only if a bound is missing, and only then is that the error. */
  lemma MissingBoundNamesNothing(selection: Selection, pageCount: nat)
    ensures Validate(selection, pageCount) == Rejected(MissingBounds) <==>
            selection.Bounds? && (selection.from.None? || selection.to.None?)
    ensures Validate(selection, pageCount) == Rejected(MissingBounds) <==> forall pages :: !Names(selection, pages)
  {
    if selection.Pages? {
      assert Names(selection, selection.pages);
    } else if selection.from.Some? && selection.to.Some? {
      assert Names(selection, PageRange(selection.from.value, selection.to.value));
    }
  }

  // ---------- What an attempt does ----------

  /** What happens to the loop at the k-th page it has to evaluate: it goes on, or it is cancelled
      or the process dies, before the page or while evaluating it. */
  datatype Event = Goes | Cancelled(evaluating: bool) | Dies(evaluating: bool)

  type World = nat -> Event

  /** `Raised`: the closing message reads the variable `review`, and this call never bound it. */
  datatype Outcome =
    | Invalid(error: SelectionError)
    | CancelledByUser
    | Died
    | Raised
    | Done(results: seq<PageResult>)

  /** The result of a page, whether getting it ran the OCR self-review, which binds `review`, and
      whether it went on to rereads, between which the loop looks for a cancellation. */
  datatype Evaluation = Evaluation(result: PageResult, reviews: bool, rereads: bool)

  type Evaluator = int -> Evaluation

  ghost predicate Faithful(f: Evaluator) {
    forall p :: f(p).result.pageNo == p
  }

  /** The pages to evaluate: the selected ones not done, each at its first occurrence. */
  function Unfinished(pages: seq<int>, done: set<int>): seq<int> {
    if pages == [] then []
    else
      var before, last := Unfinished(pages[..|pages| - 1], done), pages[|pages| - 1];
      if last in done || last in before then before else before + [last]
  }

  function Extended(existing: Results, pages: seq<int>, f: Evaluator): Results {
    existing + map p | p in pages :: f(p).result
  }

  /** The event ends the attempt at a page; inside a page only rereads notice a cancellation. */
  predicate Stops(event: Event, evaluation: Evaluation) {
    event.Dies? || event == Cancelled(false) || (event == Cancelled(true) && evaluation.rereads)
  }

  /** The first page of the list, from k on, at which the attempt ends. */
  function FirstStop(world: World, f: Evaluator, list: seq<int>, k: nat): nat
    requires k <= |list|
    decreases |list| - k
  {
    if k == |list| || Stops(world(k), f(list[k])) then k else FirstStop(world, f, list, k + 1)
  }

  /** The durable state of a job, and the pages ever evaluated for it. */
  datatype Disk = Disk(file: File, evaluated: seq<int>)

  /** `status` says whether the caller passes an object to show status messages on. */
  datatype Attempt = Attempt(selection: Selection, status: bool, world: World)

  /** The event strikes while a page is being evaluated. */
  predicate Interrupted(event: Event) {
    event == Cancelled(true) || event == Dies(true)
  }

  /** How many pages an attempt completes. */
  function Completed(pages: seq<int>, existing: Results, f: Evaluator, world: World): nat {
    FirstStop(world, f, Unfinished(pages, existing.Keys), 0)
  }

  function Evaluated(pages: seq<int>, existing: Results, f: Evaluator, world: World): seq<int> {
    var unfinished := Unfinished(pages, existing.Keys);
    var n := FirstStop(world, f, unfinished, 0);
    StopInRange(world, f, unfinished, 0);
    if n < |unfinished| && Interrupted(world(n)) then unfinished[..n + 1] else unfinished[..n]
  }

  function FileAfter(file: File, pages: seq<int>, existing: Results, f: Evaluator, world: World): File {
    var unfinished := Unfinished(pages, existing.Keys);
    var n := FirstStop(world, f, unfinished, 0);
    StopInRange(world, f, unfinished, 0);
    if n == 0 then file else Rows(Saved(Extended(existing, unfinished[..n], f)))
  }

  /** The results of a finished attempt: in the order selected, old where there is one. */
  function Ordered(pages: seq<int>, existing: Results, f: Evaluator): seq<PageResult> {
    seq(|pages|, k requires 0 <= k < |pages| => if pages[k] in existing then existing[pages[k]] else f(pages[k]).result)
  }

  /** The closing message is reached with pages to review, none pending, and `review` unbound: no
      page of this attempt ran the self-review. */
  predicate MessageRaises(pages: seq<int>, existing: Results, f: Evaluator, status: bool) {
    var results := Ordered(pages, existing, f);
    && status
    && (forall k :: 0 <= k < |results| ==> results[k].route != PendingModel)
    && (exists k :: 0 <= k < |results| && results[k].route == ReviewRequired)
    && (forall k :: 0 <= k < |pages| && pages[k] !in existing ==> !f(pages[k]).reviews)
  }

  ghost function OutcomeOf(pages: seq<int>, existing: Results, f: Evaluator, status: bool, world: World): Outcome {
    var unfinished := Unfinished(pages, existing.Keys);
    OutcomeAt(pages, existing, f, status, world, FirstStop(world, f, unfinished, 0))
  }

  /** The outcome of an attempt that completes n pages. */
  ghost function OutcomeAt(pages: seq<int>, existing: Results, f: Evaluator, status: bool, world: World, n: nat)
    : Outcome
  {
    if n < |Unfinished(pages, existing.Keys)| then if world(n).Cancelled? then CancelledByUser else Died
    else if world(n).Dies? then Died
    else if MessageRaises(pages, existing, f, status) then Raised
    else Done(Ordered(pages, existing, f))
  }

  ghost function StepDisk(d: Disk, a: Attempt, pageCount: nat, f: Evaluator): Disk {
    match Validate(a.selection, pageCount)
    case Rejected(_) => d
    case Accepted(pages) =>
      var existing := Existing(d.file);
      Disk(FileAfter(d.file, pages, existing, f, a.world), d.evaluated + Evaluated(pages, existing, f, a.world))
  }

  ghost function StepOutcome(d: Disk, a: Attempt, pageCount: nat, f: Evaluator): Outcome {
    match Validate(a.selection, pageCount)
    case Rejected(error) => Invalid(error)
    case Accepted(pages) => OutcomeOf(pages, Existing(d.file), f, a.status, a.world)
  }

  /** What happens to a job: an attempt at it, or the preparation of a retry of its failed pages. */
  datatype HistoryStep = Try(attempt: Attempt) | Retry(threshold: real)

  ghost function AfterStep(d: Disk, step: HistoryStep, pageCount: nat, f: Evaluator): Disk {
    match step
    case Try(attempt) => StepDisk(d, attempt, pageCount, f)
    case Retry(threshold) => Disk(RetryFile(d.file, threshold), d.evaluated)
  }

  /** Any number of attempts and retries of the same job, one after the other. */
  ghost function AfterAll(d: Disk, history: seq<HistoryStep>, pageCount: nat, f: Evaluator): Disk {
    if history == [] then d
    else AfterStep(AfterAll(d, history[..|history| - 1], pageCount, f), history[|history| - 1], pageCount, f)
  }

  lemma {:induction false} StopInRange(world: World, f: Evaluator, list: seq<int>, k: nat)
    requires k <= |list|
    ensures k <= FirstStop(world, f, list, k) <= |list|
    ensures forall m :: k <= m < FirstStop(world, f, list, k) ==> !Stops(world(m), f(list[m]))
    ensures var n := FirstStop(world, f, list, k); n < |list| ==> Stops(world(n), f(list[n]))
    decreases |list| - k
  {
    if k == |list| || Stops(world(k), f(list[k])) {
    } else {
      StopInRange(world, f, list, k + 1);
    }
  }

  /** The stop is where the world first stops the attempt. */
  lemma {:induction false} StopIs(world: World, f: Evaluator, list: seq<int>, k: nat, n: nat)
    requires k <= n <= |list| && forall m :: k <= m < n ==> !Stops(world(m), f(list[m]))
    requires n == |list| || Stops(world(n), f(list[n]))
    ensures FirstStop(world, f, list, k) == n
    decreases n - k
  {
    if k == n {
    } else {
      StopIs(world, f, list, k + 1, n);
    }
  }

  lemma {:induction false} UnfinishedMeans(pages: seq<int>, done: set<int>)
    ensures forall p :: p in Unfinished(pages, done) <==> p in pages && p !in done
    ensures forall i, j :: 0 <= i < j < |Unfinished(pages, done)| ==>
              Unfinished(pages, done)[i] != Unfinished(pages, done)[j]
  {
    if pages == [] {
    } else {
      var n := |pages| - 1;
      UnfinishedMeans(pages[..n], done);
      assert pages == pages[..n] + [pages[n]];
    }
  }

  lemma {:induction false} UnfinishedPrefix(pages: seq<int>, done: set<int>, i: nat)
    requires i <= |pages|
    ensures Unfinished(pages[..i], done) <= Unfinished(pages, done)
  {
    if i == |pages| {
      assert pages[..i] == pages;
    } else {
      var n := |pages| - 1;
      UnfinishedPrefix(pages[..n], done, i);
      assert pages[..n][..i] == pages[..i];
    }
  }

  lemma UnfinishedStep(pages: seq<int>, done: set<int>, i: nat)
    requires i < |pages|
    ensures Unfinished(pages[..i + 1], done) == Unfinished(pages[..i], done)
            + if pages[i] in done || pages[i] in Unfinished(pages[..i], done) then [] else [pages[i]]
  {
    assert pages[..i + 1][..i] == pages[..i];
  }

  function CountRoute(results: seq<PageResult>, route: Route): nat {
    if results == [] then 0
    else CountRoute(results[..|results| - 1], route) + if results[|results| - 1].route == route then 1 else 0
  }

  /** The places of the results that took the route. */
  ghost function OnRoute(results: seq<PageResult>, route: Route): set<int> {
    set k | 0 <= k < |results| && results[k].route == route
  }

  lemma OneMoreOnRoute(results: seq<PageResult>, route: Route)
    requires results != []
    ensures var n := |results| - 1;
            |OnRoute(results, route)| == |OnRoute(results[..n], route)| + if results[n].route == route then 1 else 0
  {
    var n := |results| - 1;
    var before := OnRoute(results[..n], route);
    assert OnRoute(results, route) == if results[n].route == route then before + {n} else before;
  }

  lemma {:induction false} CountRouteCounts(results: seq<PageResult>, route: Route)
    ensures CountRoute(results, route) == |OnRoute(results, route)|
  {
    if results == [] {
      assert OnRoute(results, route) == {};
    } else {
      CountRouteCounts(results[..|results| - 1], route);
      hide OnRoute;
      OneMoreOnRoute(results, route);
    }
  }

  lemma CountRouteMeans(results: seq<PageResult>, route: Route)
    ensures CountRoute(results, route) > 0 <==> exists k :: 0 <= k < |results| && results[k].route == route
  {
    CountRouteCounts(results, route);
    hide CountRoute;
    if OnRoute(results, route) != {} {
      var k :| k in OnRoute(results, route);
    }
    assert forall k :: 0 <= k < |results| && results[k].route == route ==> k in OnRoute(results, route);
  }

  /** `review` is bound: some page evaluated so far ran the self-review. */
  predicate AnyReviews(pages: seq<int>, f: Evaluator) {
    exists k :: 0 <= k < |pages| && f(pages[k]).reviews
  }

  lemma AnyReviewsAppend(pages: seq<int>, p: int, f: Evaluator)
    ensures AnyReviews(pages + [p], f) <==> AnyReviews(pages, f) || f(p).reviews
    ensures !AnyReviews([], f)
  {
    var all := pages + [p];
    assert all[|pages|] == p && forall k :: 0 <= k < |pages| ==> all[k] == pages[k];
  }

  /** The pages to evaluate are the selected ones without a result. */
  lemma AnyReviewsOfUnfinished(pages: seq<int>, existing: Results, f: Evaluator)
    ensures AnyReviews(Unfinished(pages, existing.Keys), f) <==>
            exists k :: 0 <= k < |pages| && pages[k] !in existing && f(pages[k]).reviews
  {
    var unfinished := Unfinished(pages, existing.Keys);
    UnfinishedMeans(pages, existing.Keys);
    hide Unfinished;
    forall k | 0 <= k < |unfinished| ensures unfinished[k] in pages && unfinished[k] !in existing {
      Unevaluated(unfinished, pages, existing.Keys, unfinished[k]);
    }
    forall k | 0 <= k < |pages| && pages[k] !in existing ensures pages[k] in unfinished {
      Covers(unfinished, pages, existing.Keys, pages[k]);
    }
  }

  lemma Unevaluated(unfinished: seq<int>, pages: seq<int>, done: set<int>, p: int)
    requires p in unfinished && forall q :: q in unfinished <==> q in pages && q !in done
    ensures p in pages && p !in done
  {
  }

  lemma Covers(unfinished: seq<int>, pages: seq<int>, done: set<int>, p: int)
    requires p in pages && p !in done && forall q :: q in unfinished <==> q in pages && q !in done
    ensures p in unfinished
  {
  }

  /** The counts and the binding that the closing message looks at. */
  lemma MessageReads(pages: seq<int>, existing: Results, f: Evaluator)
    ensures var results := Ordered(pages, existing, f);
            MessageRaises(pages, existing, f, true) <==>
            && CountRoute(results, PendingModel) == 0
            && CountRoute(results, ReviewRequired) > 0
            && !AnyReviews(Unfinished(pages, existing.Keys), f)
  {
    var results := Ordered(pages, existing, f);
    CountRouteMeans(results, PendingModel);
    CountRouteMeans(results, ReviewRequired);
    AnyReviewsOfUnfinished(pages, existing, f);
    hide CountRoute, Ordered, AnyReviews, Unfinished;
  }

  lemma MessageNeedsStatus(pages: seq<int>, existing: Results, f: Evaluator, status: bool)
    ensures MessageRaises(pages, existing, f, status) ==> status
  {
  }

  /** The world stopped the attempt at none of these pages. */
  ghost predicate RanOn(world: World, f: Evaluator, list: seq<int>) {
    forall k :: 0 <= k < |list| ==> !Stops(world(k), f(list[k]))
  }

  lemma RanOnAppend(world: World, f: Evaluator, list: seq<int>, p: int)
    requires RanOn(world, f, list) && !Stops(world(|list|), f(p))
    ensures RanOn(world, f, list + [p])
  {
  }

  class Conversion {
    const checkpoint: CheckpointFile
    ghost var evaluated: seq<int>

    constructor ()
      ensures fresh(checkpoint) && checkpoint.file == Missing && evaluated == []
    {
      checkpoint := new CheckpointFile();
      evaluated := [];
    }

    /** The loop over the selected pages, and the choice of the closing message. */
    method ProcessPages(pages: seq<int>, existing: Results, f: Evaluator, status: bool, world: World)
      returns (outcome: Outcome)
      modifies this, checkpoint
      ensures outcome == OutcomeOf(pages, existing, f, status, world)
      ensures checkpoint.file == FileAfter(old(checkpoint.file), pages, existing, f, world)
      ensures evaluated == old(evaluated) + Evaluated(pages, existing, f, world)
    {
      hide Unfinished, FirstStop, Saved, Extended, OutcomeOf, FileAfter, Evaluated, MessageRaises;
      var results := existing;
      var completed := |existing|;
      var reviewBound := false;
      ghost var unfinished := Unfinished(pages, existing.Keys);
      NothingYet(pages, existing, f);
      for i := 0 to |pages|
        invariant completed == |existing| + |Unfinished(pages[..i], existing.Keys)|
        invariant results == Extended(existing, Unfinished(pages[..i], existing.Keys), f)
        invariant RanOn(world, f, Unfinished(pages[..i], existing.Keys))
        invariant checkpoint.file == if completed == |existing| then old(checkpoint.file) else Rows(Saved(results))
        invariant evaluated == old(evaluated) + Unfinished(pages[..i], existing.Keys)
        invariant reviewBound == AnyReviews(Unfinished(pages[..i], existing.Keys), f)
      {
        var pageNo := pages[i];
        PageIsNext(pages, existing, f, i);
        if pageNo in results {
          continue;
        }
        var n := completed - |existing|;
        assert unfinished[n] == pageNo;
        if Stops(world(n), f(pageNo)) {
          StopsAt(old(checkpoint.file), pages, existing, f, status, world, n);
        }
        if world(n) == Cancelled(false) {
          return CancelledByUser;
        }
        if world(n) == Dies(false) {
          return Died;
        }
        evaluated := evaluated + [pageNo];
        if world(n) == Cancelled(true) && f(pageNo).rereads {
          return CancelledByUser;
        }
        if world(n) == Dies(true) {
          return Died;
        }
        AnyReviewsAppend(Unfinished(pages[..i], existing.Keys), pageNo, f);
        RanOnAppend(world, f, Unfinished(pages[..i], existing.Keys), pageNo);
        if f(pageNo).reviews {
          reviewBound := true;
        }
        results := results[pageNo := f(pageNo).result];
        checkpoint.Save(results);
        completed := completed + 1;
      }
      assert pages[..|pages|] == pages && unfinished[..|unfinished|] == unfinished;
      StopsAt(old(checkpoint.file), pages, existing, f, status, world, |unfinished|);
      AllResults(pages, existing, f);
      if world(completed - |existing|).Dies? {
        return Died;
      }
      var orderedResults := seq(|pages|, k requires 0 <= k < |pages| => results[pages[k]]);
      assert orderedResults == Ordered(pages, existing, f);
      if status {
        var pending := CountRoute(orderedResults, PendingModel);
        var reviewCount := CountRoute(orderedResults, ReviewRequired);
        MessageReads(pages, existing, f);
        if pending == 0 && reviewCount > 0 && !reviewBound {
          return Raised;
        }
      }
      MessageNeedsStatus(pages, existing, f, status);
      outcome := Done(orderedResults);
    }

    ghost function OnDisk(): Disk
      reads this, checkpoint
    {
      Disk(checkpoint.file, evaluated)
    }

    /** One attempt: recover what the checkpoint has, check the selection, run the loop. */
    method Convert(selection: Selection, pageCount: nat, f: Evaluator, status: bool, world: World)
      returns (outcome: Outcome)
      modifies this, checkpoint
      ensures outcome == StepOutcome(old(OnDisk()), Attempt(selection, status, world), pageCount, f)
      ensures OnDisk() == StepDisk(old(OnDisk()), Attempt(selection, status, world), pageCount, f)
    {
      var existing := LoadCheckpoint(checkpoint.file);
      var validated := Validate(selection, pageCount);
      if validated.Rejected? {
        return Invalid(validated.error);
      }
      outcome := ProcessPages(validated.pages, existing, f, status, world);
    }
  }

  /** The three accounts of an attempt that stops at its n-th page. */
  lemma StopsAt(file: File, pages: seq<int>, existing: Results, f: Evaluator, status: bool,
                world: World, n: nat)
    requires n <= |Unfinished(pages, existing.Keys)| && RanOn(world, f, Unfinished(pages, existing.Keys)[..n])
    requires n == |Unfinished(pages, existing.Keys)| || Stops(world(n), f(Unfinished(pages, existing.Keys)[n]))
    ensures var unfinished := Unfinished(pages, existing.Keys);
            && Evaluated(pages, existing, f, world) ==
               (if n < |unfinished| && Interrupted(world(n)) then unfinished[..n + 1] else unfinished[..n])
            && FileAfter(file, pages, existing, f, world) ==
               (if n == 0 then file else Rows(Saved(Extended(existing, unfinished[..n], f))))
            && OutcomeOf(pages, existing, f, status, world) == OutcomeAt(pages, existing, f, status, world, n)
  {
    var unfinished := Unfinished(pages, existing.Keys);
    forall m | 0 <= m < n ensures !Stops(world(m), f(unfinished[m])) {
      assert unfinished[..n][m] == unfinished[m];
    }
    StopIs(world, f, unfinished, 0, n);
  }

  lemma NothingYet(pages: seq<int>, existing: Results, f: Evaluator)
    ensures Unfinished(pages[..0], existing.Keys) == [] && Extended(existing, [], f) == existing
  {
  }

  /** A page with no result yet is the next one to do; one with a result adds nothing to do. */
  lemma PageIsNext(pages: seq<int>, existing: Results, f: Evaluator, i: nat)
    requires i < |pages|
    ensures var unfinished := Unfinished(pages, existing.Keys);
            var before, after := Unfinished(pages[..i], existing.Keys), Unfinished(pages[..i + 1], existing.Keys);
            && before <= unfinished
            && (pages[i] in Extended(existing, before, f) ==> after == before)
            && (pages[i] !in Extended(existing, before, f) ==>
                  && after == before + [pages[i]]
                  && |before| < |unfinished| && unfinished[..|before|] == before && unfinished[..|before| + 1] == after
                  && Extended(existing, after, f) == Extended(existing, before, f)[pages[i] := f(pages[i]).result])
  {
    hide Unfinished, Extended;
    var before := Unfinished(pages[..i], existing.Keys);
    UnfinishedPrefix(pages, existing.Keys, i);
    UnfinishedPrefix(pages, existing.Keys, i + 1);
    UnfinishedStep(pages, existing.Keys, i);
    ExtendOne(existing, before, pages[i], f);
  }

  lemma ExtendOne(existing: Results, pages: seq<int>, p: int, f: Evaluator)
    ensures p in Extended(existing, pages, f) <==> p in existing || p in pages
    ensures p !in existing ==> Extended(existing, pages + [p], f) == Extended(existing, pages, f)[p := f(p).result]
  {
  }

  lemma ResultOf(pages: seq<int>, existing: Results, f: Evaluator, p: int)
    requires p in pages
    ensures p in Extended(existing, Unfinished(pages, existing.Keys), f)
    ensures Extended(existing, Unfinished(pages, existing.Keys), f)[p] ==
            if p in existing then existing[p] else f(p).result
  {
    UnfinishedMeans(pages, existing.Keys);
    hide Unfinished;
    assert p in existing.Keys || p in Unfinished(pages, existing.Keys);
  }

  lemma AllResults(pages: seq<int>, existing: Results, f: Evaluator)
    ensures var results := Extended(existing, Unfinished(pages, existing.Keys), f);
            forall k :: 0 <= k < |pages| ==> pages[k] in results && results[pages[k]] == Ordered(pages, existing, f)[k]
  {
    hide Unfinished, Extended;
    forall k | 0 <= k < |pages|
      ensures pages[k] in Extended(existing, Unfinished(pages, existing.Keys), f)
      ensures Extended(existing, Unfinished(pages, existing.Keys), f)[pages[k]] == Ordered(pages, existing, f)[k]
    {
      ResultOf(pages, existing, f, pages[k]);
    }
  }

  // ---------- Properties of whole histories ----------

  ghost predicate Trusted(d: Disk, f: Evaluator) {
    forall p :: p in Existing(d.file) ==> Existing(d.file)[p] == f(p).result
  }

  lemma ExtendedIsWellKeyed(existing: Results, pages: seq<int>, f: Evaluator)
    requires WellKeyed(existing) && Faithful(f) && forall p :: p in pages ==> p != 0
    ensures WellKeyed(Extended(existing, pages, f))
  {
  }

  /** What the checkpoint holds after an attempt: what it held, and the pages completed. */
  lemma CheckpointAfter(file: File, pages: seq<int>, f: Evaluator, world: World)
    requires Faithful(f) && forall p :: p in pages ==> p >= 1
    ensures var existing := Existing(file);
            var n := Completed(pages, existing, f, world);
            && n <= |Unfinished(pages, existing.Keys)|
            && Existing(FileAfter(file, pages, existing, f, world))
               == Extended(existing, Unfinished(pages, existing.Keys)[..n], f)
  {
    hide Existing, Saved, Unfinished, FirstStop;
    var existing := Existing(file);
    var unfinished := Unfinished(pages, existing.Keys);
    StopInRange(world, f, unfinished, 0);
    var n := Completed(pages, existing, f, world);
    UnfinishedMeans(pages, existing.Keys);
    LoadedIsWellKeyed(file);
    forall p | p in unfinished[..n] ensures p != 0 {
      assert p in unfinished;
    }
    ExtendedIsWellKeyed(existing, unfinished[..n], f);
    RoundTripIffWellKeyed(Extended(existing, unfinished[..n], f));
    if n == 0 {
      assert Extended(existing, [], f) == existing;
    }
  }

  lemma StepKeepsTrust(d: Disk, a: Attempt, pageCount: nat, f: Evaluator)
    requires Faithful(f) && Trusted(d, f)
    ensures Trusted(StepDisk(d, a, pageCount, f), f)
  {
    hide Existing, Unfinished, FileAfter, Evaluated, Completed;
    var v := Validate(a.selection, pageCount);
    if v.Accepted? {
      CheckpointAfter(d.file, v.pages, f, a.world);
    }
  }

  lemma RetryKeepsTrust(d: Disk, threshold: real, f: Evaluator)
    requires Trusted(d, f)
    ensures Trusted(Disk(RetryFile(d.file, threshold), d.evaluated), f)
  {
    hide Existing, RetryFile;
    RetryFileHoldsKept(d.file, threshold);
  }

  lemma {:induction false} HistoryKeepsTrust(d: Disk, history: seq<HistoryStep>, pageCount: nat, f: Evaluator)
    requires Faithful(f) && Trusted(d, f)
    ensures Trusted(AfterAll(d, history, pageCount, f), f)
  {
    if history == [] {
    } else {
      var n := |history| - 1;
      HistoryKeepsTrust(d, history[..n], pageCount, f);
      var before := AfterAll(d, history[..n], pageCount, f);
      assert AfterAll(d, history, pageCount, f) == AfterStep(before, history[n], pageCount, f);
      hide AfterAll, Trusted, StepDisk;
      match history[n]
      case Try(attempt) => StepKeepsTrust(before, attempt, pageCount, f);
      case Retry(threshold) => RetryKeepsTrust(before, threshold, f);
    }
  }

  /** The attempt gets through all its pages. */
  ghost predicate RunsThrough(d: Disk, a: Attempt, pageCount: nat, f: Evaluator) {
    var v := Validate(a.selection, pageCount);
    v.Accepted? &&
    var unfinished := Unfinished(v.pages, Existing(d.file).Keys);
    FirstStop(a.world, f, unfinished, 0) == |unfinished| && !a.world(|unfinished|).Dies?
  }

  const BLANK := Disk(Missing, [])

  /** The closing message of an attempt on selected pages raises, in terms of the pages alone: a
      status object, no page pending, some page to review, and every page that runs the
      self-review already done. */
  ghost predicate Unmentionable(pages: seq<int>, done: set<int>, f: Evaluator, status: bool) {
    && status
    && (forall k :: 0 <= k < |pages| ==> f(pages[k]).result.route != PendingModel)
    && (exists k :: 0 <= k < |pages| && f(pages[k]).result.route == ReviewRequired)
    && (forall k :: 0 <= k < |pages| && f(pages[k]).reviews ==> pages[k] in done)
  }

  lemma RaisesOnPages(pages: seq<int>, existing: Results, f: Evaluator, status: bool)
    requires forall p :: p in existing ==> existing[p] == f(p).result
    ensures MessageRaises(pages, existing, f, status) <==> Unmentionable(pages, existing.Keys, f, status)
  {
    var results := Ordered(pages, existing, f);
    forall k | 0 <= k < |pages| ensures results[k] == f(pages[k]).result {
      var p := pages[k];
      assert p in existing ==> existing[p] == f(p).result;
    }
  }

  /** One result for each page asked for, in that order, and each the evaluation of its page. */
  ghost predicate ResultsFor(pages: seq<int>, f: Evaluator, results: seq<PageResult>) {
    && |results| == |pages|
    && forall k :: 0 <= k < |pages| ==> results[k].pageNo == pages[k] && results[k] == f(pages[k]).result
  }

  lemma FreshResults(pages: seq<int>, existing: Results, f: Evaluator)
    requires Faithful(f) && forall p :: p in existing ==> existing[p] == f(p).result
    ensures ResultsFor(pages, f, Ordered(pages, existing, f))
  {
    forall k | 0 <= k < |pages| ensures Ordered(pages, existing, f)[k] == f(pages[k]).result {
      var p := pages[k];
      assert p in existing ==> existing[p] == f(p).result;
    }
  }

  /** After any history of attempts and retries, an attempt that is neither cancelled nor dies returns
      the results of the pages asked for, exactly unless its closing message raises. */
  lemma ResumeReturnsUnlessRaised(history: seq<HistoryStep>, last: Attempt, pages: seq<int>, pageCount: nat,
                                  f: Evaluator)
    requires Faithful(f) && Names(last.selection, pages)
    requires RunsThrough(AfterAll(BLANK, history, pageCount, f), last, pageCount, f)
    ensures var d := AfterAll(BLANK, history, pageCount, f);
            var outcome := StepOutcome(d, last, pageCount, f);
            if Unmentionable(pages, Existing(d.file).Keys, f, last.status) then outcome == Raised
            else outcome.Done? && ResultsFor(pages, f, outcome.results)
  {
    HistoryKeepsTrust(BLANK, history, pageCount, f);
    SelectionIsKept(last.selection, pageCount, pages);
    var d := AfterAll(BLANK, history, pageCount, f);
    hide AfterAll, Unmentionable, MessageRaises, Validate, Names, Unfinished, FirstStop, Existing, ResultsFor;
    FreshResults(pages, Existing(d.file), f);
    RaisesOnPages(pages, Existing(d.file), f, last.status);
  }

  lemma SameResults(pages: seq<int>, f: Evaluator, a: seq<PageResult>, b: seq<PageResult>)
    requires ResultsFor(pages, f, a) && ResultsFor(pages, f, b)
    ensures a == b
  {
  }

  /** Resuming is invisible up to that message: an attempt that gets through its pages ends as one
      uninterrupted attempt on a fresh job does, unless its message raises while the fresh job's would
      not, because some selected page runs the self-review and had been done before. */
  lemma ResumeEqualsUninterrupted(history: seq<HistoryStep>, last: Attempt, pages: seq<int>, pageCount: nat,
                                  f: Evaluator)
    requires Faithful(f) && Names(last.selection, pages)
    requires RunsThrough(AfterAll(BLANK, history, pageCount, f), last, pageCount, f)
    ensures var d := AfterAll(BLANK, history, pageCount, f);
            StepOutcome(d, last, pageCount, f) == StepOutcome(BLANK, last.(world := _ => Goes), pageCount, f)
            <==> !(Unmentionable(pages, Existing(d.file).Keys, f, last.status) && AnyReviews(pages, f))
  {
    var d := AfterAll(BLANK, history, pageCount, f);
    var anew := last.(world := _ => Goes);
    ResumeReturnsUnlessRaised(history, last, pages, pageCount, f);
    assert AfterAll(BLANK, [], pageCount, f) == BLANK;
    GoesThrough(BLANK, anew, pageCount, f);
    ResumeReturnsUnlessRaised([], anew, pages, pageCount, f);
    var mine, theirs := StepOutcome(d, last, pageCount, f), StepOutcome(BLANK, anew, pageCount, f);
    hide StepOutcome, ResultsFor, AfterAll, RunsThrough;
    if mine.Done? && theirs.Done? {
      SameResults(pages, f, mine.results, theirs.results);
    }
  }

  lemma GoesThrough(d: Disk, a: Attempt, pageCount: nat, f: Evaluator)
    requires Validate(a.selection, pageCount).Accepted? && forall k :: a.world(k) == Goes
    ensures RunsThrough(d, a, pageCount, f)
  {
    var v := Validate(a.selection, pageCount);
    StopInRange(a.world, f, Unfinished(v.pages, Existing(d.file).Keys), 0);
  }

  /** Whatever the worlds, an attempt that returns results returns those of the pages asked for, one for
      each and in that order, evaluated as in an uninterrupted attempt. */
  lemma ReturnedResultsAreRight(history: seq<HistoryStep>, last: Attempt, pages: seq<int>, pageCount: nat,
                                f: Evaluator)
    requires Faithful(f) && Names(last.selection, pages)
    ensures var outcome := StepOutcome(AfterAll(BLANK, history, pageCount, f), last, pageCount, f);
            outcome.Done? ==> InDocument(pages, pageCount) && ResultsFor(pages, f, outcome.results)
  {
    HistoryKeepsTrust(BLANK, history, pageCount, f);
    SelectionIsKept(last.selection, pageCount, pages);
    var d := AfterAll(BLANK, history, pageCount, f);
    hide AfterAll, MessageRaises, Validate, ResultsFor, Names;
    FreshResults(pages, Existing(d.file), f);
  }

  /** The one page of a document goes through OCR and ends up for review.  Its checkpoint is written
      and the process dies.  One uninterrupted attempt returns; but from then on every attempt that
      shows a status, however many there have been, raises or dies. */
  lemma {:induction false} ResumeCanRaiseForEver(f: Evaluator, first: Attempt, more: seq<HistoryStep>,
                                                 last: Attempt)
    requires Faithful(f) && f(1).result.route == ReviewRequired && f(1).reviews
    requires first.selection == Pages([1]) && first.world(0) == Goes && first.world(1).Dies?
    requires forall k :: 0 <= k < |more| ==> more[k].Try? && more[k].attempt.selection == Pages([1])
    requires last.selection == Pages([1]) && last.status
    ensures last.world(0) == last.world(1) == Goes ==> StepOutcome(BLANK, last, 1, f) == Done([f(1).result])
    ensures StepOutcome(BLANK, first, 1, f) == Died
    ensures StepOutcome(AfterAll(BLANK, [Try(first)] + more, 1, f), last, 1, f) ==
            if last.world(0).Dies? then Died else Raised
  {
    var pages := [1];
    OnePageStaysDone(f, first, more);
    assert Validate(Pages(pages), 1) == Accepted(pages);
    NothingOnBlank();
    hide AfterAll, Validate, Existing;
    OnePageRaises(AfterAll(BLANK, [Try(first)] + more, 1, f), pages, f, last.world);
    OnePageFresh(pages, f, first.status, first.world);
    if last.world(0) == last.world(1) == Goes {
      OnePageFresh(pages, f, true, last.world);
    }
  }

  lemma NothingOnBlank()
    ensures Existing(BLANK.file) == map[]
  {
  }

  lemma OnePageRaises(d: Disk, pages: seq<int>, f: Evaluator, world: World)
    requires pages == [1] && f(1).result.route == ReviewRequired
    requires 1 in Existing(d.file) && Existing(d.file)[1] == f(1).result
    ensures OutcomeOf(pages, Existing(d.file), f, true, world) == if world(0).Dies? then Died else Raised
  {
    hide Existing;
    var existing := Existing(d.file);
    OnePageDone(pages, existing.Keys);
    assert pages[0] in existing;
    var results := Ordered(pages, existing, f);
    assert results[0].route == ReviewRequired;
  }

  /** On a fresh job the page is evaluated, and its self-review makes the closing message safe. */
  lemma OnePageFresh(pages: seq<int>, f: Evaluator, status: bool, world: World)
    requires pages == [1] && f(1).reviews && world(0) == Goes
    ensures Unfinished(pages, {}) == [1] && FirstStop(world, f, [1], 0) == 1
    ensures OutcomeOf(pages, map[], f, status, world) == if world(1).Dies? then Died else Done([f(1).result])
  {
    var none: Results := map[];
    assert none.Keys == {};
    OnePageToDo(pages);
    hide Unfinished, FirstStop, Ordered;
    StopIs(world, f, pages, 0, 1);
    OnePageReturns(pages, f, status);
  }

  lemma OnePageToDo(pages: seq<int>)
    requires |pages| == 1
    ensures Unfinished(pages, {}) == pages
  {
    assert pages[..0] == [];
    assert Unfinished([], {}) == [];
  }

  lemma OnePageReturns(pages: seq<int>, f: Evaluator, status: bool)
    requires |pages| == 1 && f(pages[0]).reviews
    ensures Ordered(pages, map[], f) == [f(pages[0]).result] && !MessageRaises(pages, map[], f, status)
  {
  }

  lemma OnePageDone(pages: seq<int>, done: set<int>)
    requires pages == [1] && 1 in done
    ensures Unfinished(pages, done) == []
  {
    assert Unfinished(pages[..0], done) == [];
  }

  lemma OnePageCheckpointed(f: Evaluator, first: Attempt)
    requires Faithful(f) && f(1).reviews && first.selection == Pages([1]) && first.world(0) == Goes
    ensures var d := StepDisk(BLANK, first, 1, f); 1 in Existing(d.file) && Existing(d.file)[1] == f(1).result
  {
    var pages := [1];
    assert Validate(Pages(pages), 1) == Accepted(pages);
    OnePageFresh(pages, f, first.status, first.world);
    NothingOnBlank();
    hide Existing, Unfinished, FileAfter, Evaluated, FirstStop, Validate;
    CheckpointAfter(Missing, pages, f, first.world);
  }

  lemma {:induction false} OnePageStaysDone(f: Evaluator, first: Attempt, more: seq<HistoryStep>)
    requires Faithful(f) && f(1).reviews
    requires first.selection == Pages([1]) && first.world(0) == Goes
    requires forall k :: 0 <= k < |more| ==> more[k].Try? && more[k].attempt.selection == Pages([1])
    ensures var d := AfterAll(BLANK, [Try(first)] + more, 1, f);
            1 in Existing(d.file) && Existing(d.file)[1] == f(1).result
  {
    var all := [Try(first)] + more;
    var n := |all| - 1;
    var before := AfterAll(BLANK, all[..n], 1, f);
    assert AfterAll(BLANK, all, 1, f) == AfterStep(before, all[n], 1, f);
    if more == [] {
      assert all[..n] == [] && all[n] == Try(first);
      hide StepDisk, Existing;
      OnePageCheckpointed(f, first);
    } else {
      hide AfterAll, StepDisk, Existing;
      assert all[..n] == [Try(first)] + more[..|more| - 1] && all[n] == more[|more| - 1];
      OnePageStaysDone(f, first, more[..|more| - 1]);
      StepCounts(before, all[n].attempt, 1, f, 1);
    }
  }

  // ---------- Counting evaluations ----------

  /** An attempt was cancelled or died while it was evaluating this page. */
  ghost predicate CutAt(d: Disk, a: Attempt, pageCount: nat, f: Evaluator, p: int) {
    var v := Validate(a.selection, pageCount);
    v.Accepted? &&
    var unfinished := Unfinished(v.pages, Existing(d.file).Keys);
    var n := FirstStop(a.world, f, unfinished, 0);
    n < |unfinished| && Interrupted(a.world(n)) && unfinished[n] == p
  }

  ghost predicate CutBy(d: Disk, step: HistoryStep, pageCount: nat, f: Evaluator, p: int) {
    step.Try? && CutAt(d, step.attempt, pageCount, f, p)
  }

  /** A retry was prepared that forgot this page. */
  ghost predicate ForgottenBy(d: Disk, step: HistoryStep, p: int) {
    step.Retry? && p in Existing(d.file) && NotGoodEnough(Existing(d.file)[p], step.threshold)
  }

  /** How many attempts of a history were cut over the page, and how many retries forgot it. */
  ghost function CutsAndRetries(d: Disk, history: seq<HistoryStep>, pageCount: nat, f: Evaluator, p: int): (nat, nat) {
    if history == [] then (0, 0)
    else
      var n := |history| - 1;
      var (cuts, retries) := CutsAndRetries(d, history[..n], pageCount, f, p);
      var before := AfterAll(d, history[..n], pageCount, f);
      (cuts + if CutBy(before, history[n], pageCount, f, p) then 1 else 0,
       retries + if ForgottenBy(before, history[n], p) then 1 else 0)
  }

  ghost function Times(s: seq<int>, p: int): nat {
    multiset(s)[p]
  }

  lemma TimesOfPrefix(s: seq<int>, n: nat, p: int)
    requires n <= |s| && Distinct(s)
    ensures Times(s[..n], p) == if p in s[..n] then 1 else 0
    ensures n < |s| ==> Times(s[..n + 1], p) == Times(s[..n], p) + if s[n] == p then 1 else 0
  {
    DistinctIsSimple(s[..n]);
    assert p in s[..n] <==> p in multiset(s[..n]);
    if n < |s| {
      assert s[..n + 1] == s[..n] + [s[n]];
    }
  }

  /** In one attempt a page is evaluated when it becomes part of the checkpoint, or when the attempt
      is cancelled or dies over it. */
  lemma StepCounts(d: Disk, a: Attempt, pageCount: nat, f: Evaluator, p: int)
    requires Faithful(f)
    ensures var d' := StepDisk(d, a, pageCount, f);
            Times(d'.evaluated, p) + (if p in Existing(d.file) then 1 else 0)
            == Times(d.evaluated, p) + (if p in Existing(d'.file) then 1 else 0)
               + if CutAt(d, a, pageCount, f, p) then 1 else 0
    ensures p in Existing(d.file) ==>
              var d' := StepDisk(d, a, pageCount, f);
              && p in Existing(d'.file) && Existing(d'.file)[p] == Existing(d.file)[p]
              && Times(d'.evaluated, p) == Times(d.evaluated, p)
  {
    var v := Validate(a.selection, pageCount);
    if v.Accepted? {
      CheckpointAfter(d.file, v.pages, f, a.world);
      var existing := Existing(d.file);
      var unfinished := Unfinished(v.pages, existing.Keys);
      UnfinishedMeans(v.pages, existing.Keys);
      StopInRange(a.world, f, unfinished, 0);
      hide Existing, Unfinished, FirstStop, FileAfter;
      var n := Completed(v.pages, existing, f, a.world);
      TimesOfPrefix(unfinished, n, p);
      var d' := StepDisk(d, a, pageCount, f);
      assert Existing(d'.file) == Extended(existing, unfinished[..n], f);
      assert p in unfinished[..n] ==> p in unfinished;
      assert n < |unfinished| ==> unfinished[n] in unfinished;
      var now := Evaluated(v.pages, existing, f, a.world);
      assert multiset(d.evaluated + now) == multiset(d.evaluated) + multiset(now);
    }
  }

  lemma RetryCounts(d: Disk, threshold: real, p: int)
    ensures p in Existing(RetryFile(d.file, threshold)) <==>
            p in Existing(d.file) && !NotGoodEnough(Existing(d.file)[p], threshold)
  {
    hide Existing, RetryFile, Failed, NotGoodEnough;
    RetryFileHoldsKept(d.file, threshold);
    if p in Existing(d.file) {
      FailedExactly(Existing(d.file)[p], threshold);
    }
  }

  /** One step of a history. */
  lemma HistoryStepCounts(d: Disk, step: HistoryStep, pageCount: nat, f: Evaluator, p: int)
    requires Faithful(f)
    ensures var d' := AfterStep(d, step, pageCount, f);
            Times(d'.evaluated, p) + (if p in Existing(d.file) then 1 else 0)
            == Times(d.evaluated, p) + (if p in Existing(d'.file) then 1 else 0)
               + (if CutBy(d, step, pageCount, f, p) then 1 else 0)
               + if ForgottenBy(d, step, p) then 1 else 0
  {
    hide Existing, StepDisk, CutAt, Times, RetryFile;
    match step
    case Try(attempt) => StepCounts(d, attempt, pageCount, f, p);
    case Retry(threshold) => RetryCounts(d, threshold, p);
  }

  /** Over any history, how often a page has been evaluated: once if the checkpoint has it, once for
      every attempt that was cancelled or died over it, and once for every retry that forgot it. */
  lemma {:induction false} EvaluationsAreCounted(history: seq<HistoryStep>, pageCount: nat, f: Evaluator, p: int)
    requires Faithful(f)
    ensures var d := AfterAll(BLANK, history, pageCount, f);
            var (cuts, retries) := CutsAndRetries(BLANK, history, pageCount, f, p);
            Times(d.evaluated, p) == (if p in Existing(d.file) then 1 else 0) + cuts + retries
  {
    if history == [] {
    } else {
      var n := |history| - 1;
      EvaluationsAreCounted(history[..n], pageCount, f, p);
      hide Existing, AfterStep, CutBy, ForgottenBy, Times;
      HistoryStepCounts(AfterAll(BLANK, history[..n], pageCount, f), history[n], pageCount, f, p);
    }
  }

  /** After a retry is prepared, an attempt that gets through its pages evaluates the failed ones and
      those never done, and no other; if it returns, the kept results are returned as they were. */
  lemma RetryReevaluatesFailed(d: Disk, threshold: real, a: Attempt, pages: seq<int>, pageCount: nat, f: Evaluator)
    requires Names(a.selection, pages)
    requires RunsThrough(Disk(RetryFile(d.file, threshold), d.evaluated), a, pageCount, f)
    ensures var results := Existing(d.file);
            var d' := Disk(RetryFile(d.file, threshold), d.evaluated);
            var now := Evaluated(pages, Existing(d'.file), f, a.world);
            var outcome := StepOutcome(d', a, pageCount, f);
            && StepDisk(d', a, pageCount, f).evaluated == d.evaluated + now
            && (forall p :: p in now <==> p in pages && (p in results ==> NotGoodEnough(results[p], threshold)))
            && (outcome.Done? ==> |outcome.results| == |pages| && forall k :: 0 <= k < |pages| ==>
                  outcome.results[k] == if pages[k] in results && !NotGoodEnough(results[pages[k]], threshold)
                                        then results[pages[k]] else f(pages[k]).result)
  {
    var d' := Disk(RetryFile(d.file, threshold), d.evaluated);
    RetryFileHoldsKept(d.file, threshold);
    SelectionIsKept(a.selection, pageCount, pages);
    forall result ensures Failed(result, threshold) <==> NotGoodEnough(result, threshold) {
      FailedExactly(result, threshold);
    }
    hide RetryFile, Existing, MessageRaises, Validate, Names, Failed, NotGoodEnough;
    var kept := Kept(Existing(d.file), threshold);
    UnfinishedMeans(pages, kept.Keys);
    var unfinished := Unfinished(pages, kept.Keys);
    assert unfinished[..|unfinished|] == unfinished;
  }
}
