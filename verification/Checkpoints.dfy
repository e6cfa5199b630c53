/**
 The checkpoint file of a conversion job: completed pages by number, written whole and atomically
 after every page, and read back tolerantly.
 */
module Checkpoints {
  import opened Options
  import opened Sorting

  /** The values of `route_used` that the page loop tells apart. */
  datatype Route = PendingModel | ReviewRequired | OtherRoute

  /** `content` stands for the fields that no operation reads. */
  datatype PageResult = PageResult(pageNo: int, modelUsed: string, textScore: Option<real>, route: Route, content: int)

  type Results = map<int, PageResult>

  /** A row of the file: not a mapping, or one that does not fit a page result, or one that does. */
  datatype Row = NotARecord | Incompatible | Record(result: PageResult)

  datatype File = Missing | Unreadable | Rows(rows: seq<Row>)

  // ---------- Keys in order ----------

  predicate IsLeast(m: int, keys: set<int>) {
    m in keys && forall k :: k in keys ==> m <= k
  }

  lemma AnyMember<T>(s: set<T>) returns (x: T)
    requires |s| > 0
    ensures x in s
  {
    x :| x in s;
  }

  lemma {:induction false} LeastExists(keys: set<int>)
    requires |keys| > 0
    ensures exists m :: IsLeast(m, keys)
  {
    var x := AnyMember(keys);
    var rest := keys - {x};
    assert keys == rest + {x};
    if |rest| == 0 {
      assert IsLeast(x, keys);
    } else {
      LeastExists(rest);
      var m :| IsLeast(m, rest);
      assert IsLeast(if m <= x then m else x, keys);
    }
  }

  /** `sorted(keys)`. */
  function SortedKeys(keys: set<int>): seq<int> {
    if |keys| == 0 then []
    else
      LeastExists(keys);
      var m :| IsLeast(m, keys);
      [m] + SortedKeys(keys - {m})
  }

  lemma {:induction false} SortedKeysMeans(keys: set<int>)
    ensures |SortedKeys(keys)| == |keys| && Increasing(SortedKeys(keys))
    ensures forall k :: k in SortedKeys(keys) <==> k in keys
  {
    if |keys| == 0 {
    } else {
      LeastExists(keys);
      var m :| IsLeast(m, keys) && SortedKeys(keys) == [m] + SortedKeys(keys - {m});
      SortedKeysMeans(keys - {m});
      hide SortedKeys;
      var rest := SortedKeys(keys - {m});
      forall k | 0 <= k < |rest| ensures m < rest[k] {
        assert rest[k] in rest;
      }
    }
  }

  // ---------- Saving and loading ----------

  /** `save_checkpoint`: one row a page, pages ascending. */
  function Saved(results: Results): seq<Row> {
    SortedKeysMeans(results.Keys);
    var pages := SortedKeys(results.Keys);
    assert forall k :: 0 <= k < |pages| ==> pages[k] in pages;
    seq(|pages|, k requires 0 <= k < |pages| => Record(results[pages[k]]))
  }

  /** What loading recovers: per page number other than 0, the last row that fits. */
  function Recovered(rows: seq<Row>): Results {
    if rows == [] then map[]
    else
      var before, last := Recovered(rows[..|rows| - 1]), rows[|rows| - 1];
      if last.Record? && last.result.pageNo != 0 then before[last.result.pageNo := last.result] else before
  }

  function Existing(file: File): Results {
    if file.Rows? then Recovered(file.rows) else map[]
  }

  method LoadCheckpoint(file: File) returns (recovered: Results)
    ensures recovered == Existing(file)
  {
    recovered := map[];
    if !file.Rows? {
      return;
    }
    for k := 0 to |file.rows|
      invariant recovered == Recovered(file.rows[..k])
    {
      var row := file.rows[k];
      assert file.rows[..k + 1][..k] == file.rows[..k];
      if !row.Record? || row.result.pageNo == 0 {
        continue;
      }
      recovered := recovered[row.result.pageNo := row.result];
    }
    assert file.rows[..|file.rows|] == file.rows;
  }

  /** Every result is filed under its own page number, and no page is number 0. */
  ghost predicate WellKeyed(results: Results) {
    forall p :: p in results ==> results[p].pageNo == p && p != 0
  }

  lemma {:induction false} RecoveredIsWellKeyed(rows: seq<Row>)
    ensures WellKeyed(Recovered(rows))
  {
    if rows == [] {
    } else {
      RecoveredIsWellKeyed(rows[..|rows| - 1]);
    }
  }

  /** Rows with pairwise different page numbers are all recovered. */
  lemma {:induction false} DistinctRowsRecovered(rows: seq<Row>)
    requires forall k :: 0 <= k < |rows| ==> rows[k].Record? && rows[k].result.pageNo != 0
    requires forall i, j :: 0 <= i < j < |rows| ==> rows[i].result.pageNo != rows[j].result.pageNo
    ensures forall k :: 0 <= k < |rows| ==>
              rows[k].result.pageNo in Recovered(rows) && Recovered(rows)[rows[k].result.pageNo] == rows[k].result
    ensures forall p :: p in Recovered(rows) ==> exists k :: 0 <= k < |rows| && rows[k].result.pageNo == p
  {
    if rows == [] {
    } else {
      var n := |rows| - 1;
      DistinctRowsRecovered(rows[..n]);
      assert forall k :: 0 <= k < n ==> rows[..n][k] == rows[k];
    }
  }

  lemma SavedRows(results: Results)
    ensures var pages := SortedKeys(results.Keys);
            && |Saved(results)| == |pages| && Increasing(pages)
            && (forall p :: p in results <==> p in pages)
            && forall k :: 0 <= k < |pages| ==> pages[k] in results && Saved(results)[k] == Record(results[pages[k]])
  {
    SortedKeysMeans(results.Keys);
  }

  lemma SavedComesBack(results: Results)
    requires WellKeyed(results)
    ensures Recovered(Saved(results)) == results
  {
    hide SortedKeys, Saved, Recovered;
    SavedRows(results);
    var rows, pages := Saved(results), SortedKeys(results.Keys);
    assert forall k :: 0 <= k < |rows| ==> rows[k].result.pageNo == pages[k] != 0;
    DistinctRowsRecovered(rows);
    var back := Recovered(rows);
    forall p ensures p in back <==> p in results
             ensures p in results ==> p in back && back[p] == results[p]
    {
      if p in results {
        var k :| 0 <= k < |pages| && pages[k] == p;
        assert rows[k].result == results[p];
      }
    }
    assert back.Keys == results.Keys;
  }

  /** Saving and loading gives the same results back exactly when they are filed under their own
      page numbers, none of them 0. */
  lemma RoundTripIffWellKeyed(results: Results)
    ensures Existing(Rows(Saved(results))) == results <==> WellKeyed(results)
  {
    RecoveredIsWellKeyed(Saved(results));
    if WellKeyed(results) {
      SavedComesBack(results);
    }
  }

  /** A result numbered 0, or filed under another page's number, is lost or moves. */
  lemma PageZeroIsLost(results: Results, page: PageResult)
    requires page.pageNo == 0 && results == map[0 := page]
    ensures Existing(Rows(Saved(results))) == map[]
  {
    SavedRows(results);
    var rows, pages := Saved(results), SortedKeys(results.Keys);
    assert 0 in pages;
    assert forall k :: 0 <= k < |pages| ==> pages[k] == 0;
    assert |rows| == 1;
    assert Recovered(rows[..0]) == map[];
  }

  // ---------- Retrying failed pages ----------

  predicate Failed(result: PageResult, threshold: real) {
    result.textScore.None? || result.textScore.value < threshold || "failed:" <= result.modelUsed
  }

  /** A result to be done again: it has no text score, or one below the threshold, or says that its
      engine failed. */
  ghost predicate NotGoodEnough(result: PageResult, threshold: real) {
    || result.textScore == None
    || (result.textScore.Some? && threshold > result.textScore.value)
    || (|result.modelUsed| >= 7 && result.modelUsed[..7] == "failed:")
  }

  lemma FailedExactly(result: PageResult, threshold: real)
    ensures Failed(result, threshold) <==> NotGoodEnough(result, threshold)
  {
    assert "failed:" <= result.modelUsed <==> |result.modelUsed| >= 7 && result.modelUsed[..7] == "failed:";
  }

  /** The results a retry keeps. */
  function Kept(results: Results, threshold: real): Results {
    map p | p in results && !Failed(results[p], threshold) :: results[p]
  }

  /** The file after a retry has been prepared. */
  function RetryFile(file: File, threshold: real): File {
    Rows(Saved(Kept(Existing(file), threshold)))
  }

  lemma RetryFileHoldsKept(file: File, threshold: real)
    ensures Existing(RetryFile(file, threshold)) == Kept(Existing(file), threshold)
  {
    hide Saved, Existing;
    LoadedIsWellKeyed(file);
    RoundTripIffWellKeyed(Kept(Existing(file), threshold));
  }

  class CheckpointFile {
    var file: File

    constructor ()
      ensures file == Missing
    {
      file := Missing;
    }

    method Save(results: Results)
      modifies this
      ensures file == Rows(Saved(results))
    {
      file := Rows(Saved(results));
    }

    /** Splits the completed pages: the failed ones are reported in ascending order and forgotten,
        the others are what the file holds from then on. */
    method PrepareFailedPageRetry(threshold: real) returns (failed: seq<int>)
      modifies this
      ensures forall p :: p in failed <==> p in old(Existing(file)) && NotGoodEnough(old(Existing(file))[p], threshold)
      ensures Increasing(failed)
      ensures Existing(file) == map p | p in old(Existing(file)) && p !in failed :: old(Existing(file))[p]
      ensures file == RetryFile(old(file), threshold)
    {
      var results := LoadCheckpoint(file);
      var failedPages := set p | p in results && Failed(results[p], threshold);
      var successful := map p | p in results && p !in failedPages :: results[p];
      forall p | p in results ensures Failed(results[p], threshold) <==> NotGoodEnough(results[p], threshold) {
        FailedExactly(results[p], threshold);
      }
      hide Saved, Existing, SortedKeys, NotGoodEnough, Failed;
      assert successful == Kept(results, threshold);
      RetryFileHoldsKept(file, threshold);
      Save(successful);
      failed := SortedKeys(failedPages);
      SortedKeysMeans(failedPages);
    }
  }

  lemma LoadedIsWellKeyed(file: File)
    ensures WellKeyed(Existing(file))
  {
    if file.Rows? {
      RecoveredIsWellKeyed(file.rows);
    }
  }
}
