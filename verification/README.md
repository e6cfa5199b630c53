# Verified models of the OCR conversion and training-data algorithms

This Dafny project models the algorithmic core of the repository and proves what that core is
for: optimal alignment of OCR output against ground truth, the claim protocol that lets many
workers share one job row, a fail-closed walk over object graphs, rate limits, quotas and budgets
under interleaving, selective rereading, batch selection, percentiles, and resumable page loops.
Run `dafny verify dfyconfig.toml` to check all of it.

Code that updates variables, arrays, dictionaries or object fields is modelled by methods with
loops and by classes; each is proved against a specification function or predicate, and the
promises are lemmas about that specification.  Where both share a definition (a table, a list of
words, a threshold, an order), a lemma says in other terms what that definition accepts.

| file | what it models |
|---|---|
| `EditDistance.dfy`, `Alignment.dfy` | unit edit distance, the full matrix with backtrace, the rolling rows |
| `ErrorAnalysis.dfy`, `Tally.dfy`, `Texts.dfy` | error records and counts of one sample, and what they spell and count; dictionary counting; string operations |
| `JobLifecycle.dfy` | one conversion row under claims, heartbeats, sweepers and two-phase finalization |
| `ObjectGraph.dfy`, `Protection.dfy`, `MetadataCoverage.dfy` | walks in a graph; the protected-data traversal over a heap of shared, possibly cyclic objects; what its metadata check covers |
| `RateLimiter.dfy`, `UsageQuota.dfy`, `BudgetLedger.dfy` | the sliding-window limiter, the usage-event quotas, the cost reservations |
| `RegionSelection.dfy`, `PixelArea.dfy` | bounded region selection; boxes, areas and overlaps as sets of pixels |
| `TextEvidence.dfy`, `Reconciliation.dfy` | the tests of a text, and what they say of its characters and words; review and reconciliation of second readings |
| `RoundRobin.dfy`, `Grouping.dfy`, `ActiveLearning.dfy`, `BatchLaws.dfy`, `Exporter.dfy` | round-robin service of groups, the batch recommender and what its strategies promise, the capped and balanced export |
| `Percentiles.dfy` | interpolated percentiles, group summaries, the percentile window |
| `Checkpoints.dfy`, `PageResume.dfy` | the checkpoint file; the page loop under cancellation, crash, resume and retries, up to its closing message |
| `Sorting.dfy`, `Arithmetic.dfy`, `Options.dfy` | `sorted`, slices, ordered and distinct sequences; minimum and maximum; missing values |

## Where the code differs from what is said or expected of it

Each entry names a lemma with a concrete input or run and, where there is one, the lemma with the
exact condition.

* A resumed conversion can raise where an uninterrupted one returns. The closing status message of
  `process_pdf` (`pdfword/ocr_pipeline.py:588`) reads `review`, which is bound only when a page of
  this very call runs the OCR self-review (`pdfword/ocr_pipeline.py:445`). Input:
  `ResumeCanRaiseForEver`; condition: `ResumeReturnsUnlessRaised`, `ResumeEqualsUninterrupted`.
* A reread may replace one of two occurrences of a defect, since `str.count(...) == 1` does not see
  overlaps, and the page is then accepted. Input: `OverlappingDefectIsAccepted`; condition: exactly
  the texts that cannot overlap themselves are safe, `CountOneIsUniqueIff`,
  `RepairedAtItsOnlyPlace`.
* The alignment module's docstring (`clouda_lab/error_analysis.py:15`) names another tie order than
  the code follows. Input: `DocumentedTiesNotFollowed`; condition: `DocumentedUnlessSideTie`.
* A finalization prepared for one status can be completed with another. Run:
  `PreparedCompletedEndsInReview`; condition: `CompleteTrustsItsTarget`.
* Abandoning a finalization takes an edge that the transition table lacks. Run:
  `AbandonmentLeavesTheTable`; condition: `StatusChangesFollowTable`.
* A claim token passed in `extra` replaces the drawn one, and a finalize under it then takes effect.
  Run: `OverrideDefeatsFencing`; condition: `OverrideBreaksFencingUnless` for one step,
  `FencingUnlessOverridden` for all runs.
* A sweeper can take a job that a heartbeat has just refreshed, if clock readings coincide. Run:
  `EqualStampsLoseAHeartbeat`; condition: `SweepTakesWrittenRowExactly`.
* The rate limiter reads its clock before it takes its lock. With readings that run backwards a
  window can hold more than the limit. Run: `BackwardTimesBreakTheBound`; condition: for readings
  out of order by a bounded amount, `WindowGuaranteedIff` says exactly which windows are bounded.
* The metadata check misses malformed mappings in sequences inside sequences. Input:
  `DeepMalformationEscapesMetadataCheck`; condition: it sees all of a record in which no sequence
  holds a sequence, `FlatRecordsAreSeen`, and in any record exactly what lies in the sequences it
  looks into, `PlantedIsSeenExactly`, `NothingEscapesExactly`.
* The local gate's daily limit can be exceeded although every cost is as announced, since a cost
  reaches the day's total only after the lock is released. Run: `StaleDailyCostOverspends`;
  condition: by as much as the total lags and no more, `DailyBoundIff`, `BudgetHolds`.
* A malformed cost estimate is let through as free. Run: `MalformedEstimateOverspends`; condition:
  `MalformedEstimateIsFree`.
* Acceptance after rereading no longer looks at reading order or confidence. Input:
  `RiskyOrderIsAccepted`; condition: `AcceptedIffRepaired`; in general:
  `RereadForgetsOrderAndConfidence`.
* A percentile window can be empty although there are rows. Input: `WindowCanBeEmpty`; condition:
  `WindowIsARun`.
* A checkpointed result for page number 0 is not recovered. Input: `PageZeroIsLost`; condition:
  `RoundTripIffWellKeyed`.

## Model

| member | source | states |
|---|---|---|
| EditDistance.DistanceBounds | pdfword/accuracy.py:235-247 | the distance lies between the difference of the lengths and the greater length |
| EditDistance.DistanceSymmetric | pdfword/accuracy.py:236-237 | the distance is symmetric, which the argument swap relies on |
| EditDistance.DistanceZeroIffEqual | pdfword/accuracy.py:235-247 | the distance is zero exactly for equal sequences |
| EditDistance.TriangleInequality | pdfword/accuracy.py:235-247 | the triangle inequality, so unit edit distance is a metric |
| EditDistance.ChainCostsAtLeastDistance | pdfword/accuracy.py:235-247 | no chain of single-token insertions, deletions and substitutions, at any positions and through any intermediate texts, is shorter than the distance |
| EditDistance.ShortestChain | pdfword/accuracy.py:235-247 | some chain of single-token edits has exactly that length |
| Alignment.Align | clouda_lab/error_analysis.py:53-104 | matrix fill, trace and backtrace return a valid edit script whose non-match operations number the distance, namely the one chosen with ties to the diagonal, then deletion, then insertion |
| Alignment.ScriptCostsAtLeastDistance | clouda_lab/error_analysis.py:58-104 | no valid edit script uses fewer non-match operations than the alignment |
| Alignment.ScriptReplaysHypothesis | clouda_lab/error_analysis.py:82-104 | a script that uses each reference and each hypothesis index once in increasing order writes exactly the hypothesis |
| Alignment.CanonicalIsOptimal | clouda_lab/error_analysis.py:73-104 | the alignment with the code's tie order is such a script and is optimal |
| Alignment.CanonicalSubstitutionsDiffer | clouda_lab/error_analysis.py:86-88 | no substitution of the alignment joins equal tokens |
| Alignment.DeletionBeatsInsertion | clouda_lab/error_analysis.py:73-81 | an input where deletion and insertion tie below the diagonal and the code deletes |
| Alignment.StepsDifferAtSideTies | clouda_lab/error_analysis.py:73-81 | the code's choice in a cell differs from the docstring's order if and only if deletion and insertion cost the same and both beat the diagonal |
| Alignment.DocumentedUnlessSideTie | clouda_lab/error_analysis.py:73-104 | the whole alignment is the documented one if and only if no cell on the backtrace's path has such a tie |
| Alignment.DocumentedTiesNotFollowed | clouda_lab/error_analysis.py:73-104 | two texts whose alignment is not the documented one |
| Alignment.FillInterior | clouda_lab/error_analysis.py:66-81 | the two filling loops leave in every inner trace cell the choice that the true distances of the prefixes dictate |
| Alignment.Backtrace | clouda_lab/error_analysis.py:82-104 | the reversed backtrace is the path that those choices prescribe from the last cell |
| Alignment.TwoRows | clouda_data/evaluation/cer.py:4-13 | two rolling rows without a swap compute the same distance as the full matrix |
| Alignment.LevenshteinDistance | pdfword/accuracy.py:235-247 | two rolling rows with swapped arguments compute the same distance, in either argument order |
| ErrorAnalysis.CharRecords | clouda_lab/error_analysis.py:113-184 | one record for each operation of the alignment, which quotes the reference's character at its position and the hypothesis' at its predicted position, carries the classifier's answer for (truth, prediction) and the twelve characters on either side |
| ErrorAnalysis.WordCharIndex | clouda_lab/error_analysis.py:187-200 | the scanned ranges cut out exactly the words that `split` yields, in order |
| ErrorAnalysis.WordRecords | clouda_lab/error_analysis.py:203-272 | one record for each operation of the word alignment, which quotes the word of either side, says where the reference's stands, and is `missing_word`, `extra_word` or what the classifier answers for (truth, prediction) |
| ErrorAnalysis.WordRecordsPoint | clouda_lab/error_analysis.py:203-272 | a record about a reference word points at an occurrence of that word in the text |
| ErrorAnalysis.CharRecordsSpell | clouda_lab/error_analysis.py:113-184 | the truths of the character records spell the reference and their predictions spell the hypothesis |
| ErrorAnalysis.WordRecordsSpell | clouda_lab/error_analysis.py:203-272 | those of the word records are the words of the reference and of the hypothesis, in order |
| ErrorAnalysis.SubstitutionsCounted | clouda_lab/error_analysis.py:284-297 | the pair (g, p) is counted as often as the alignment puts p where the reference has g |
| ErrorAnalysis.TypesCounted | clouda_lab/error_analysis.py:275-329 | an error type is counted as often as records of errors of both levels have it |
| ErrorAnalysis.ErrorTypeCounts | clouda_lab/error_analysis.py:275-281 | the loop tallies the error types of the records that are not matches |
| ErrorAnalysis.SubstitutionPairs | clouda_lab/error_analysis.py:284-297 | the loop tallies the (truth, prediction) pairs of the substitutions |
| ErrorAnalysis.TokensConserved | clouda_lab/error_analysis.py:82-104 | for any script, matches, substitutions and deletions make up the reference; matches, substitutions and insertions make up the hypothesis; the errors make up the cost |
| ErrorAnalysis.RecordsCountDistance | clouda_lab/error_analysis.py:324-325 | the records that are not matches number the distance, and none exist exactly for equal texts |
| ErrorAnalysis.PairsSum | clouda_lab/error_analysis.py:284-297 | the counts of the substitution pairs sum to the number of substitutions |
| ErrorAnalysis.FoldErrors | clouda_lab/error_analysis.py:326-329 | folding the word errors into the counts adds each once |
| ErrorAnalysis.AnalyzeSample | clouda_lab/error_analysis.py:306-353 | all of this together: the records spell both texts; each pair and each error type is counted as often as it occurs; the error-type counts sum to character distance plus word distance, both as the independent rolling-row form computes them; the pair counts sum to the substitutions; an exact match has no errors |
| Tally.TallyCountsOccurrences | clouda_lab/error_analysis.py:275-281 | the dictionary idiom counts each key's occurrences |
| JobLifecycle.Conversion.TransitionConversion | pdfword/database.py:1928-2012 | accepted exactly when the table or a self-loop allows it and no foreign active claim is taken; a claim sets owner, token, attempt count and stamps; a claim token or heartbeat in `extra` overrides them; a rejection changes nothing |
| JobLifecycle.Conversion.FinalizeIfOwned | pdfword/database.py:2014-2065 | takes effect exactly on a processing row with this worker and token, and what it writes |
| JobLifecycle.Conversion.PrepareFinalization | pdfword/database.py:2067-2119 | the same guard; moves the row to finalizing and records the intended status |
| JobLifecycle.Conversion.CompleteFinalization | pdfword/database.py:2121-2153 | takes effect exactly on a finalizing row with this worker and token |
| JobLifecycle.Conversion.RollbackFinalization | pdfword/database.py:2155-2184 | returns an owned finalizing row to processing, silently does nothing otherwise |
| JobLifecycle.Conversion.AbandonConversionFinalization | pdfword/database.py:2186-2213 | resets a finalizing row to pending exactly when its stamp is the observed one |
| JobLifecycle.Conversion.AbandonStaleProcessing | pdfword/database.py:2215-2232 | resets a processing row to pending exactly when its stamp is the observed one |
| JobLifecycle.Conversion.RecordHeartbeat | pdfword/database.py:2234-2247 | stamps a processing row that has no owner or this owner |
| JobLifecycle.RunKeepsInv | pdfword/database.py:1928-2247 | in every run a held row carries the latest issued token, that token is unspent, tokens are issued and spent at most once, and attempts count claims |
| JobLifecycle.Fencing | pdfword/database.py:2014-2184 | in every interleaving a finalize, prepare, complete or rollback that takes effect carries the token of the latest claim, and no earlier one |
| JobLifecycle.TokensSpentAtMostOnce | pdfword/database.py:2014-2153 | two operations of a run that finalize or complete the job carry different tokens |
| JobLifecycle.AttemptsAreClaims | pdfword/database.py:1982-1986 | the attempt count is the number of claims of the run, and of tokens issued |
| JobLifecycle.TerminalStatusesAbsorb | pdfword/database.py:32-33 | once completed or in manual review a job stays so, and issues no token, through any further operations |
| JobLifecycle.StatusChangesFollowTable | pdfword/database.py:19-34 | every status change is a self-loop, an edge of the table, or finalizing to pending by abandonment, which is not in the table |
| JobLifecycle.TransitionAcceptedExactly | pdfword/database.py:19-34 | exactly which transitions are accepted, by their target: from where a job can get there or stay, and who can re-affirm a claim |
| JobLifecycle.FinalizationAcceptedExactly | pdfword/database.py:2014-2153 | exactly which finalizations are accepted, by status, worker, token (none standing for an empty one) and target |
| JobLifecycle.AcceptedReachesItsTarget | pdfword/database.py:1928-2247 | an accepted operation leaves the job in its own target status, and stamps the completion exactly of a final one |
| JobLifecycle.NoJobIsStuck | pdfword/database.py:1928-2153 | from every state of every run but the two that absorb, any worker can bring the job to any final status, in one step or in two, with at most one return to pending and one claim of its own |
| JobLifecycle.ProcessingKeepsItsOwner | pdfword/database.py:1963-1981 | while a row stays in processing its token, its attempt count and a non-empty owner never change |
| JobLifecycle.StaleRecoveryIsSafe | pdfword/database.py:2186-2232 | with distinct clock readings a sweeper succeeds if and only if the row it read was in the expected status and no operation has written the row since |
| JobLifecycle.SweepAcceptedExactly | pdfword/database.py:2186-2232 | without any assumption on the clock, a sweep is accepted if and only if the row has the expected status and the last write (or the creation) left the observed stamp |
| JobLifecycle.SweepTakesWrittenRowExactly | pdfword/database.py:2186-2232 | a sweep takes a row written since it was read if and only if the last write lies after the read, left the expected status and used the observed stamp again |
| JobLifecycle.EqualStampsLoseAHeartbeat | pdfword/database.py:2215-2247 | a run with equal clock readings in which a sweeper takes a job after a heartbeat it has not seen |
| JobLifecycle.PreparedCompletedEndsInReview | pdfword/database.py:2121-2153 | a run in which a job prepared to complete ends in manual review |
| JobLifecycle.AbandonmentLeavesTheTable | pdfword/database.py:2186-2213 | a run in which abandonment moves a job from finalizing to pending, against the table |
| JobLifecycle.OverrideDefeatsFencing | pdfword/database.py:1989-2004 | a run in which a finalize takes effect under a token that no claim issued, and the issued one is refused |
| JobLifecycle.CompleteTrustsItsTarget | pdfword/database.py:2121-2153 | the final status is the intended one if and only if the caller repeats the prepared target |
| JobLifecycle.RollbackRestoresClaim | pdfword/database.py:2155-2184 | rollback undoes prepare but for the stamp, and exactly the same worker and token can prepare again |
| JobLifecycle.OverrideBreaksFencingUnless | pdfword/database.py:1989-2004 | when a claim token in `extra` keeps, and when it breaks, the property that the held token is the latest issued |
| JobLifecycle.HeldTokenComesFrom | pdfword/database.py:1959-2004 | in any run, whatever tokens are drawn or passed, a held row carries the token of the last claim or of the last override since it |
| JobLifecycle.FencingUnlessOverridden | pdfword/database.py:2014-2184 | in any run a finalize, prepare, complete or rollback that takes effect carries the token of the latest claim if and only if that claim has not been overridden since, or last with its own token |
| ObjectGraph.ChildrenDecide | clouda_contracts/protection.py:99-135 | the step of the search: a node not itself at fault is at fault for the current path exactly when one of its children is for the path extended by it |
| ObjectGraph.IncriminatedIsFaulty | clouda_contracts/protection.py:94-135 | a search that remembers only its path finds a fault exactly when a bad node or a node on a cycle is reachable |
| Protection.Traversal.RecordIsProtected | clouda_contracts/protection.py:99-120 | terminates on every finite heap, decides fault relative to the current path, and restores the path set |
| Protection.Traversal.NestedValueIsProtected | clouda_contracts/protection.py:123-135 | the same for nested values, where sequences are followed and scalars are harmless |
| Protection.Traversal.MetadataIsMalformed | clouda_contracts/protection.py:143-174 | the same for the metadata check, which follows mappings and looks one sequence deep |
| Protection.IsProtected | clouda_contracts/protection.py:94-96 | False exactly for a mapping from which no cycle can be reached and every field of every mapping reached is harmless: the six names of splits and roles hold None, False or a text that mentions no mark and is no true word, the three flags hold False or a false word, and nested blocks are None or mappings; over arbitrary sharing |
| Protection.IsMalformed | clouda_contracts/protection.py:138-140 | True exactly for a value that is no mapping or from which the metadata check's steps reach a cycle or a field that is ill-typed, or a flag whose text is neither a true nor a false word |
| Protection.MarkedIsNotCleared | clouda_contracts/protection.py:36-91 | a record from which a mapping can be reached that has, in one of the nine protection fields, the flag true, a true word or a text with a mark anywhere in it, is protected |
| Protection.MarksExactly | clouda_contracts/protection.py:36-49 | a text protects if and only if it mentions a mark or is `true`, `yes` or `1`: the names of protected splits and roles add nothing, and no false word mentions a mark |
| Protection.StepsExactly | clouda_contracts/protection.py:116-172 | the protection check steps to whatever a mapping or a sequence holds; the metadata check from a mapping to the mappings it holds and to those in the sequences it holds |
| Protection.MalformedImpliesProtected | clouda_contracts/protection.py:94-174 | whatever the metadata check rejects the protection check rejects |
| Protection.DeepMalformationEscapesMetadataCheck | clouda_contracts/protection.py:160-174 | a malformed mapping two sequences deep is protected but passes the metadata check |
| MetadataCoverage.FlatRecordsAreSeen | clouda_contracts/protection.py:143-174 | a record from which no sequence inside a sequence can be reached is reported exactly if it contains a malformed mapping or a cycle anywhere |
| MetadataCoverage.SeenIsContained | clouda_contracts/protection.py:143-174 | in any record, what is reported is contained |
| MetadataCoverage.LookedIntoReportsMalformed | clouda_contracts/protection.py:160-172 | if every sequence of the record is held by a mapping that the check visits, every malformed mapping contained is reported |
| MetadataCoverage.FlatLooksEverywhere | clouda_contracts/protection.py:160-172 | in a record without sequences inside sequences every sequence is so held |
| MetadataCoverage.PlantedIsContained | clouda_contracts/protection.py:160-172 | a malformed mapping put into any sequence of the record is contained in it |
| MetadataCoverage.PlantedIsSeenExactly | clouda_contracts/protection.py:160-172 | it is reported if and only if a mapping that the check visits holds that sequence |
| MetadataCoverage.NothingEscapesExactly | clouda_contracts/protection.py:160-172 | so every sequence of a record that passes is held by a visited mapping if and only if no malformed mapping put into one of them would escape |
| RateLimiter.SlidingWindowRateLimiter.constructor | pdfword/operations.py:124-135 | limits, windows and sweep intervals below one become one; the limiter starts empty |
| RateLimiter.SlidingWindowRateLimiter.SweepExpired | pdfword/operations.py:137-150 | removes exactly the clients with no event or an expired newest event |
| RateLimiter.SlidingWindowRateLimiter.Allow | pdfword/operations.py:152-172 | the answer and the whole new state of one call, with its countdown to the sweep |
| RateLimiter.LimiterRefinesNaive | pdfword/operations.py:137-172 | for non-decreasing times the limiter admits exactly the calls that one which keeps all history and never sweeps admits; its deques are non-empty, sorted and no longer than the limit |
| RateLimiter.AdmittedIffRoomInWindow | pdfword/operations.py:152-172 | a call is admitted exactly when fewer than `limit` admitted events of its key lie in (now - window, now] |
| RateLimiter.EveryWindowIsBounded | pdfword/operations.py:152-172 | for non-decreasing times every half-open window of the configured length holds at most `limit` admitted events of a key |
| RateLimiter.SkewedWindowIsBounded | pdfword/operations.py:152-172 | if no call is more than delta earlier than one served before it, no half-open window shorter than the configured one by twice delta (by delta for a limit of one) holds more than `limit` admitted events of a key |
| RateLimiter.LongWindowFails | pdfword/operations.py:137-172 | for every configuration that sweeps at each call and every such delta, a run out of order by delta that puts more than `limit` events of a key into a window of any greater length |
| RateLimiter.WindowGuaranteedIff | pdfword/operations.py:137-172 | over all sweep intervals and all runs out of order by at most delta, windows of a given length are bounded by the limit if and only if the length is at most the configured one less that loss, or not positive |
| RateLimiter.BackwardTimesBreakTheBound | pdfword/operations.py:152-172 | four calls with a clock that steps back admit three events into a window of limit two |
| UsageQuota.UsageLog.ConsumeDailyQuota | pdfword/database.py:1655-1698 | admits exactly while the scope has used less than the limit since midnight UTC, and records exactly then |
| UsageQuota.UsageLog.ConsumeWindowQuota | pdfword/database.py:1700-1749 | the same since the start of a rolling window |
| UsageQuota.ClosedWindowIsBounded | pdfword/database.py:1700-1749 | no closed window of the given length holds more than `limit` events of a scope, in whatever timestamp order requests commit |
| UsageQuota.UtcDayIsBounded | pdfword/database.py:1655-1698 | no UTC day does, in whatever timestamp order requests commit |
| UsageQuota.ScopesAreIndependent | pdfword/database.py:1700-1749 | removing all other scopes' requests from a run changes nothing for a scope |
| UsageQuota.CountIncludesLaterStamps | pdfword/database.py:1716-1727 | the count exceeds the closed window's content by exactly the events stamped after the request |
| UsageQuota.DailyAdmittedExactly | pdfword/database.py:1655-1698 | a request is admitted if and only if less than the limit was used since its UTC day began, counting later stamps; without later stamps, exactly if the day has room |
| UsageQuota.WindowAdmittedExactly | pdfword/database.py:1700-1749 | the same for a window of seconds that ends at the request |
| UsageQuota.LateCommitIsRefusedEarly | pdfword/database.py:1716-1727 | a request whose clock lags is refused although its own window is empty |
| BudgetLedger.Budget.RecordTelemetry | pdfword/conversion_service.py:204-213 | settles the oldest reservation of the thread and adds the actual cost |
| BudgetLedger.Budget.CloudAttemptAllowed | pdfword/conversion_service.py:215-239 | allows and reserves exactly within both limits, counting what is spent and what is reserved |
| BudgetLedger.Budget.LocalCloudAttemptAllowed | pdfword/conversion_service.py:431-452 | the local gate with the day's cost read anew; an estimate that cannot be converted raises, NaN counts as free, infinity is refused under a positive limit |
| BudgetLedger.AdmittedExactly | pdfword/conversion_service.py:215-239 | exactly which attempts either gate admits: under each positive limit there is something left and room for the announced cost |
| BudgetLedger.ReservedExactly | pdfword/conversion_service.py:233-239 | an admitted attempt reserves its announced cost in the line of its thread, and nothing else changes |
| BudgetLedger.ReservedIsOutstanding | pdfword/conversion_service.py:204-239 | in every thread interleaving the reserved cost is the sum of the outstanding reservations |
| BudgetLedger.ClampNeverBites | pdfword/conversion_service.py:206-209 | the clamp of the reserved cost at zero never changes anything |
| BudgetLedger.BudgetHolds | pdfword/conversion_service.py:204-239 | start, spent and reserved cost together stay within the limit, or the start when that was beyond it, plus the sum of the overruns of actual costs over their reservations, plus, for the local gate's daily limit, the lag of the day's total that it reads |
| BudgetLedger.NoOverrunNoOverspend | pdfword/conversion_service.py:204-239 | when no cost exceeds its reservation nothing is overspent beyond that lag |
| BudgetLedger.StaleDailyCostOverspends | pdfword/conversion_service.py:431-452 | a run in which two local attempts are admitted and spend twice the daily limit, the second not yet reading the cost of the first |
| BudgetLedger.LagIsSpent | pdfword/conversion_service.py:431-452 | for every limit and every lag, a run of the local path without overruns that exceeds the limit by the lag |
| BudgetLedger.DailyBoundIff | pdfword/conversion_service.py:431-452 | a bound holds for all runs of the local path without overruns in which the day's total lags by no more than this if and only if it is at least the limit plus the lag |
| BudgetLedger.MalformedEstimateIsFree | pdfword/conversion_service.py:222-224 | the worker's gate treats every malformed estimate as a free attempt, since the clamp precedes the check for a negative value |
| BudgetLedger.MalformedEstimateOverspends | pdfword/conversion_service.py:222-224 | a run in which an attempt that announces NaN is admitted and spends five times the limit, where one that announces its cost is refused |
| RegionSelection.OverlapIsAMeasure | pdfword/ocr_self_review.py:330-340 | intersection over union is symmetric, within [0, 1], and 1 for a proper box with itself |
| PixelArea.AreaCountsPixels | pdfword/ocr_self_review.py:336-340 | the area of an upright box is its number of pixels |
| PixelArea.OverlapCountsPixels | pdfword/ocr_self_review.py:330-340 | intersection over union is the share of the pixels in both boxes among those in either, and zero if there are none, for boxes of any shape |
| PixelArea.FateInPixels | pdfword/ocr_self_review.py:343-400 | exactly when a region is selected, reported, or dropped as nearly the same as a selected one, in terms of the page, the budget and the pixels |
| PixelArea.EveryBoxIsUsed | pdfword/ocr_self_review.py:294-323 | a box that lies on the render becomes the candidate of its number, the least box of whole pixels around it; any other is reported under its number |
| RegionSelection.ValidateAndBoundRegions | pdfword/ocr_self_review.py:372-400 | the loop selects and reports by each region's fate given those selected before it |
| RegionSelection.SelectionIsBounded | pdfword/ocr_self_review.py:343-400 | selected regions are valid, at most the budgeted number and total area, and pairwise overlap less than 0.85 |
| RegionSelection.SelectionKeepsOrder | pdfword/ocr_self_review.py:372-400 | they stand in input order |
| RegionSelection.EveryRegionIsAccountedFor | pdfword/ocr_self_review.py:391-400 | each region is selected, reported unresolved, or overlaps an earlier selected one by at least 0.85 |
| RegionSelection.SelectOcrRegions | pdfword/ocr_self_review.py:286-327 | boxes not bound to this render are unresolved, the others become candidates in order |
| RegionSelection.CandidatesCoverTheirBoxes | pdfword/ocr_self_review.py:305-323 | a candidate's rounded rectangle contains the box it is numbered after |
| RegionSelection.UnresolvedIdsDistinct | pdfword/ocr_self_review.py:324-327 | the reported ids are distinct, so removing duplicates changes nothing |
| Reconciliation.ReviewFirstPass | pdfword/ocr_self_review.py:234-275 | the verdict, issues, regions and unresolved ids of a first pass |
| TextEvidence.CorruptionIsDamage | pdfword/ocr_self_review.py:164-170 | a text counts as corrupt exactly if a character is U+FFFD, of the private-use area, or a control character other than tab and newline |
| TextEvidence.JoinThenSplit | pdfword/ocr_self_review.py:173-174 | joining words by blanks loses nothing, so that normalized lines are equal exactly if their words are |
| TextEvidence.LineThriceRepeats | pdfword/ocr_self_review.py:200-207 | lines count as repeated exactly if a line that is not blank stands in the text three times, but for white space |
| Reconciliation.IssuesExactly | pdfword/ocr_self_review.py:183-231 | exactly which risks are reported, each in terms of the stripped text, its characters, words and lines, the reading order and the confidence |
| Reconciliation.IssuesInOrder | pdfword/ocr_self_review.py:183-231 | they are reported in the order of the tests, none twice |
| Reconciliation.AcceptedIsClean | pdfword/ocr_self_review.py:183-275 | whatever is accepted, at the first pass or after rereading, is once stripped not empty, without a damaged character, with two alphanumeric ones, no line three times and at most three one-letter Arabic words; at the first pass it is in strictly increasing order and not of low confidence, and conversely what is all that is accepted as it stands |
| Reconciliation.ReviewIsBounded | pdfword/ocr_self_review.py:57-64 | a review asks for rereads of at most four regions, of at least eight pixels each way, four million pixels in all |
| Reconciliation.FirstOccurrencesInOrder | pdfword/ocr_self_review.py:231 | removing duplicates keeps the first occurrences, in order |
| Reconciliation.RereadReviewHasRegions | pdfword/ocr_self_review.py:254-275 | a review that asks for rereads has regions, nothing unresolved, and flags every region with the page's issues |
| Reconciliation.ReconcileOcrResults | pdfword/ocr_self_review.py:419-514 | the state, text, reasons and ids of every outcome |
| Reconciliation.RepairStepIsReplacement | pdfword/ocr_self_review.py:461-484 | the loop's guard and replacement amount to: the last reread of the region is clean and not blank, the source text carries the defect, all its occurrences overlap the first, and the first is replaced |
| Reconciliation.AcceptedRereadIsRepaired | pdfword/ocr_self_review.py:419-528 | acceptance after rereading implies a chain of such repairs over all regions from the first-pass text to the accepted one, at the only occurrence of each source text that cannot overlap itself, a page flagged for a repairable defect, and no remaining observable issue |
| Reconciliation.RepairedAtItsOnlyPlace | pdfword/ocr_self_review.py:461-484 | a source text that cannot overlap itself is replaced where it occurs and nowhere else occurs |
| Reconciliation.OverlappingDefectIsAccepted | pdfword/ocr_self_review.py:419-514 | a page with the defect at two overlapping places, from review to acceptance with one of them left over |
| Reconciliation.AcceptedIffRepaired | pdfword/ocr_self_review.py:457-514 | a review that asked for rereads ends accepted if and only if such a chain exists and leaves no issue |
| Reconciliation.ReviewHasNoText | pdfword/ocr_self_review.py:419-514 | every review-required result has empty text and no accepted replacement and names every issue observed; first-pass acceptance means no issue |
| Reconciliation.RereadForgetsOrderAndConfidence | pdfword/ocr_self_review.py:485-490 | two first passes that differ only in reading order and confidence, and both ask for rereads, get the same state and text |
| Reconciliation.RiskyOrderIsAccepted | pdfword/ocr_self_review.py:485-490 | a page flagged for its reading order that is accepted after a reread |
| Texts.CountOneIffAllOverlapFirst | pdfword/ocr_self_review.py:468 | a count of one means that there is an occurrence and that every other overlaps the first |
| Texts.CountOneIsUnique | pdfword/ocr_self_review.py:468 | for a part that cannot overlap itself, a count of one is a unique occurrence, in every text |
| Texts.CountMissesOverlap | pdfword/ocr_self_review.py:468 | for every other part, a text with a count of one and two occurrences |
| Texts.CountOneIsUniqueIff | pdfword/ocr_self_review.py:468 | a count of one means a unique occurrence in all texts if and only if the part cannot overlap itself |
| Texts.CountOneIsNotUnique | pdfword/ocr_self_review.py:468 | a text with a count of one and two occurrences |
| RoundRobin.Drain | clouda_lab/active_learning.py:109-120 | the loop's output is a point of the round-robin schedule, at which the limit is reached or every group is empty |
| RoundRobin.GivesPrefix | clouda_lab/active_learning.py:109-120 | at every point each group has given a prefix of itself, in its own order |
| RoundRobin.DrainedFromPool | clouda_lab/active_learning.py:109-120 | the output is part of the groups' contents, has min(limit, available) items, and is everything when there is no limit |
| Grouping.GroupBy | clouda_lab/active_learning.py:105-108 | the groups split the list by key, each in list order |
| Grouping.ScheduleIsBalanced | clouda_lab/active_learning.py:109-120 | at every point of the schedule each group has given a prefix and no group is more than one ahead of another that still has items |
| Grouping.QueuesPartition | clouda_lab/active_learning.py:105-108 | splitting by key loses and repeats nothing |
| Grouping.ItemsInRounds | clouda_lab/active_learning.py:109-120 | the schedule serves items round by round, and within a round in ascending order of their groups |
| ActiveLearning.SelectHardest | clouda_lab/active_learning.py:86-91 | the batch is in rank order and no candidate left out ranks before one chosen |
| ActiveLearning.SelectRandom | clouda_lab/active_learning.py:92-103 | the same for the seeded hash order |
| ActiveLearning.SelectBalanced | clouda_lab/active_learning.py:104-120 | from each group a hardest-first prefix, with counts that differ by at most one unless the smaller group is exhausted, taken in rounds that go through the groups in ascending order |
| ActiveLearning.SelectDiverse | clouda_lab/active_learning.py:121-150 | the hardest sample of each category, hardest first, then the others, hardest first, as far as the batch goes; so it covers min(batch size, categories) categories |
| ActiveLearning.SelectCurriculum | clouda_lab/active_learning.py:151-165 | opens with the hardest two thirds in rank order and continues with the easiest of the rest, easiest first |
| ActiveLearning.RecommendNextBatch | clouda_lab/active_learning.py:59-165 | rejects duplicate ids; otherwise every strategy yields min(batch size, candidates) distinct samples outside the history, with the strategy's own promise; for a negative batch size the strategies that slice drop from the end and the others select nothing |
| BatchLaws.RecommendedMeans | clouda_lab/active_learning.py:84-165 | what each strategy promises, in terms of scores, ids, hashes, groups and categories: it is one of the next laws, or the hardest, or the first hashed, in order and with nothing left out that comes before |
| BatchLaws.BalancedMeans | clouda_lab/active_learning.py:104-120 | in each group nothing left out is harder than what is in; no group is more than one ahead of one of which something is left out; and the groups take turns |
| BatchLaws.DiversityMeans | clouda_lab/active_learning.py:121-150 | first the samples than which none of their category is harder, then, if all of those are in, the others; each part hardest first, with nothing left out that comes before |
| BatchLaws.CurriculumMeans | clouda_lab/active_learning.py:151-165 | two thirds of the batch, a third being at least one and rounded down, are the hardest, hardest first; the rest the easiest of what remains, easiest first |
| BatchLaws.BatchSizeMeans | clouda_lab/active_learning.py:86-165 | the batch has as many samples as asked for or as there are; what a negative number does to each strategy |
| Exporter.CapSources | clouda_training/exporter.py:155-162 | the counter loop keeps exactly the items with fewer than the cap of their source before them |
| Exporter.CapKeepsTheFirst | clouda_training/exporter.py:155-162 | of each source exactly its first items up to the cap are kept |
| Exporter.CapKeepsOrder | clouda_training/exporter.py:155-162 | the kept items stand in their original order |
| Exporter.BalanceBuckets | clouda_training/exporter.py:163-177 | the balanced output is a permutation that keeps each bucket's order and goes round by round through the buckets in ascending order, and at every point of it no bucket is more than one ahead of another that still has items |
| Exporter.BucketsTakeTurns | clouda_training/exporter.py:172-177 | the n-th item of a bucket comes before the m-th of another only if n is less than m, or equal and its bucket comes first |
| Exporter.BucketsKeepOrder | clouda_training/exporter.py:163-177 | the n-th item of a bucket in the balanced list is its n-th in the capped one |
| Exporter.SelectForExport | clouda_training/exporter.py:155-179 | the two loops together, balanced or not |
| Exporter.ExportRespectsTheCap | clouda_training/exporter.py:155-179 | after balancing too, each source contributes exactly the smaller of its number of items and the cap |
| Percentiles.FormsAgree | clouda_lab/dataset_selection.py:329-338 | both percentile functions are linear interpolation at the rank, and agree on [0, 100] |
| Percentiles.PercentileIsMonotone | clouda_lab/batch_analysis.py:37-48 | percentiles lie within the list, grow with the percentage, and reach the ends at 0 and 100 |
| Percentiles.ValueBetweenRanks | clouda_lab/dataset_selection.py:329-338 | between the ranks of two neighbours the value is their mean weighted by nearness |
| Percentiles.ValueOffTheEnds | clouda_lab/dataset_selection.py:329-338 | just below the first rank it extrapolates the first two values, from the last rank on it is the last value, and of no values it is zero |
| Percentiles.ValueFromTheEnd | clouda_lab/dataset_selection.py:329-338 | further below the indexes count from the end of the list |
| Percentiles.SummaryIsOrdered | clouda_lab/batch_analysis.py:78-92 | least rate, p50, p90, p95 and maximum are ordered, both ends are attained, and the mean lies between them |
| Percentiles.CutsAreRows | clouda_lab/dataset_selection.py:320-322 | comparing a score with an interpolated cut is comparing it with a row of the list |
| Percentiles.WindowIsARun | clouda_lab/dataset_selection.py:304-323 | for percentages from 0 to 100 the window is a contiguous run of the sorted rows, between the rows at the rounded-up low rank and the rounded-down high rank, and is empty exactly when the former scores above the latter |
| Percentiles.WindowForAnyPercentages | clouda_lab/dataset_selection.py:304-338 | for any percentages the selection fails exactly when one of them indexes outside the list from both ends, and is otherwise the contiguous run of rows between the two cuts |
| Percentiles.WindowIsSorted | clouda_lab/dataset_selection.py:304-323 | whatever the percentages, the window's rows are rows of the input, by score and then by id |
| Percentiles.WindowToTheTop | clouda_lab/dataset_selection.py:304-323 | up to percentage 100 it is not empty and ends with the top row |
| Percentiles.WindowCanBeEmpty | clouda_lab/dataset_selection.py:304-323 | two rows and a range of percentages whose window is empty |
| Checkpoints.LoadCheckpoint | pdfword/checkpoints.py:32-68 | for each non-zero page number the last row that fits; nothing from a missing or unreadable file |
| Checkpoints.RoundTripIffWellKeyed | pdfword/checkpoints.py:18-68 | saving and loading returns the same results if and only if each is filed under its own page number and none is 0 |
| Checkpoints.PageZeroIsLost | pdfword/checkpoints.py:52-54 | a result numbered 0 is lost |
| Checkpoints.RetryFileHoldsKept | pdfword/checkpoints.py:71-86 | the file of a prepared retry loads as exactly the results that had not failed |
| Checkpoints.CheckpointFile.PrepareFailedPageRetry | pdfword/checkpoints.py:71-86 | reports in ascending order exactly the pages without a text score, with one below the threshold, or whose engine failed, and leaves exactly the others in the file |
| PageResume.Conversion.ProcessPages | pdfword/ocr_pipeline.py:272-592 | what one attempt evaluates, writes and returns, wherever it is cancelled (before a page, or within one that rereads) or dies, and when its closing message raises |
| PageResume.Conversion.Convert | pdfword/conversion_service.py:386-475 | an attempt starts from what the checkpoint holds, after the selection is validated |
| PageResume.Validate | pdfword/ocr_pipeline.py:258-270 | an accepted selection is not empty and within the document |
| PageResume.SelectionIsKept | pdfword/ocr_pipeline.py:258-270 | a list of pages, or the pages from a first to a last, is accepted exactly if it is not empty and within the document, and then as it stands; and when each error arises |
| PageResume.MissingBoundNamesNothing | pdfword/ocr_pipeline.py:258-262 | a missing bound is the error exactly if no list and not both bounds are given |
| PageResume.CheckpointAfter | pdfword/ocr_pipeline.py:561-564 | after an attempt the file holds what it held and the pages completed, no more |
| PageResume.ResumeReturnsUnlessRaised | pdfword/ocr_pipeline.py:272-592 | after any history of attempts and retries, an attempt that is neither cancelled nor dies returns one result for each page asked for, the k-th with the page number asked for at place k, except that it raises exactly when a status is shown, no page is pending, some page is for review, and every selected page that runs the self-review is already checkpointed |
| PageResume.ResumeEqualsUninterrupted | pdfword/ocr_pipeline.py:272-592 | such an attempt ends as one uninterrupted attempt on a fresh job does if and only if that is not so or no selected page runs the self-review |
| PageResume.ResumeCanRaiseForEver | pdfword/ocr_pipeline.py:571-592 | a one-page job whose uninterrupted attempt returns, whose process died after the checkpoint, and of which every later attempt that shows a status raises or dies, unless a retry is prepared |
| PageResume.ReturnedResultsAreRight | pdfword/ocr_pipeline.py:571-592 | whatever is returned after any history is one result for each page asked for, in that order, each the evaluation of its page |
| PageResume.EvaluationsAreCounted | pdfword/ocr_pipeline.py:303-453 | over any history of attempts and retries a page has been evaluated once if the checkpoint has it, plus once for each attempt that was cancelled or died over it, plus once for each retry that forgot it |
| PageResume.HistoryStepCounts | pdfword/checkpoints.py:71-86 | the same for one step, an attempt or a retry with a threshold |
| PageResume.StepCounts | pdfword/ocr_pipeline.py:303-453 | the same for one attempt; a checkpointed page is not evaluated again and its result does not change; a page selected twice is evaluated once |
| PageResume.RetryReevaluatesFailed | pdfword/checkpoints.py:71-86 | an attempt that gets through its pages after a retry was prepared evaluates exactly the selected pages that had failed or were missing, and returns the kept results as they were |

## Left out

Not modelled:

- The user interface, command lines, HTTP, Firebase, Redis, PDF, DOCX and image libraries and file publication: input and output over libraries.
- SQL text, schema migration, sessions and audit rows: one job row and one log of usage events stand for the database; each guarded update is one atomic step.
- `update_conversion` and the direct status writes of `execute_conversion`: they bypass the state machine.
- `claim_guest_job`: it checks in a deferred transaction, so an atomic step would claim too much.
- The columns of a job row that no guard reads (error message, scores, file type, costs), and `extra` fields other than `claim_token` and `last_heartbeat`.
- How far the day's total that the local gate reads can lag behind: the lag is a number in `BudgetHolds`.
- Timestamps as text: ISO strings in UTC are numbers here, with the same order.
- Floating-point rounding, NaN and infinities, except as cost estimates: money, times, scores and ratios are reals.
- The rates of `analyze_sample`, its normalized second pass, and the special values of CER and WER for an empty reference: expressions over the modelled counts.
- The Arabic-aware error classifiers, the hardness score, the seeded hash, page evaluation, and the character classes of Python's string methods: parameters of the models.
- The order of dictionary items and of the substitution tuple where the source sorts for presentation, and the arbitrary order in which reconciliation lists outstanding issues.
- `splitlines` is modelled as cutting at every line-break character, which differs only by blank lines, and those are dropped.
- Rationale texts, balance counts, and the wording of progress and status messages; that the closing message can raise is modelled.
- Page numbers that are not integers, which `process_pdf` rejects: page numbers are integers by type.
- Checkpoint fields that change type in JSON (tuples become lists), and a payload whose top level is not a mapping.
- `top_n` and `limit` sampling, quotas of `select_rows`, document splits: no loop or state of interest.
- The trust gate's table, routing scores, quality heuristics and dataclass validators: easy members.

Weaker than the source, on purpose:

- BudgetLedger.Budget.LocalCloudAttemptAllowed: an infinite estimate under no positive limit is allowed and reserves infinity in the source; here it is allowed and reserves nothing, since no limit looks at it.
- PageResume.Conversion.ProcessPages: evaluating a page is a function of its number. Within one call that is no restriction, since a page is evaluated at most once; over a history it means that every attempt would get the same result for a page.
- Protection.IsProtected: a text value carries its stripped and case-folded marker; computing that marker is not part of this model.
