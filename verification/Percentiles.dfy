/**
 Interpolated percentiles: the summary of a group of error rates, and the selection of rows
 between two percentiles.  Numbers are reals, without rounding.
 */
module Percentiles {
  import opened Options
  import opened Sorting

  // ---------- Interpolation ----------

  function Rank(pct: real, n: nat): real {
    (pct / 100.0) * ((n - 1) as real)
  }

  /** `int(x)`: truncation towards zero. */
  function Truncate(x: real): int {
    if x >= 0.0 then x.Floor else -((-x).Floor)
  }

  /** Python indexing: a negative index counts from the end. */
  function At(values: seq<real>, i: int): Option<real> {
    if 0 <= i < |values| then Some(values[i])
    else if -|values| <= i < 0 then Some(values[|values| + i])
    else None
  }

  function Between(a: real, b: real, fraction: real): real {
    a + (b - a) * fraction
  }

  /** `_percentile_value`; None where the source's indexing fails. */
  function PercentileValue(values: seq<real>, pct: real): Option<real> {
    if values == [] then Some(0.0)
    else
      var rank := Rank(pct, |values|);
      var lower := Truncate(rank);
      var upper := if lower + 1 <= |values| - 1 then lower + 1 else |values| - 1;
      var fraction := rank - lower as real;
      match (At(values, lower), At(values, upper))
      case (Some(a), Some(b)) => Some(Between(a, b, fraction))
      case _ => None
  }

  /** `_percentile`, whose callers ask for fixed percentages only. */
  function Percentile(sortedValues: seq<real>, pct: real): real
    requires 0.0 <= pct <= 100.0
  {
    if sortedValues == [] then 0.0
    else if |sortedValues| == 1 then sortedValues[0]
    else
      RankInRange(pct, |sortedValues|);
      var rank := Rank(pct, |sortedValues|);
      var lower := rank.Floor;
      var upper := if lower + 1 <= |sortedValues| - 1 then lower + 1 else |sortedValues| - 1;
      var fraction := rank - lower as real;
      Between(sortedValues[lower], sortedValues[upper], fraction)
  }

  lemma ProductMonotone(f: real, g: real, x: real)
    requires x >= 0.0 && f <= g
    ensures f * x <= g * x
  {
    assert (g - f) * x >= 0.0;
    assert g * x == (f + (g - f)) * x == f * x + (g - f) * x;
  }

  lemma ProductStrict(x: real, y: real, m: real)
    requires m > 0.0
    ensures x < y ==> x * m < y * m
  {
    if x < y {
      assert (y - x) * m > 0.0;
      assert (y - x) * m == y * m - x * m;
    }
  }

  lemma RankMonotone(p: real, q: real, n: nat)
    requires p <= q && n >= 1
    ensures Rank(p, n) <= Rank(q, n)
  {
    ProductMonotone(p / 100.0, q / 100.0, (n - 1) as real);
  }

  lemma RankInRange(pct: real, n: nat)
    requires 0.0 <= pct <= 100.0 && n >= 1
    ensures 0.0 <= Rank(pct, n) <= (n - 1) as real
    ensures 0 <= Rank(pct, n).Floor <= n - 1
    ensures pct == 100.0 ==> Rank(pct, n) == (n - 1) as real
    ensures pct == 0.0 ==> Rank(pct, n) == 0.0
  {
    RankMonotone(0.0, pct, n);
    RankMonotone(pct, 100.0, n);
  }

  lemma BetweenBounds(a: real, b: real, f: real)
    requires a <= b && 0.0 <= f <= 1.0
    ensures a <= Between(a, b, f) <= b
    ensures f == 0.0 || a == b ==> Between(a, b, f) == a
    ensures a < b && 0.0 < f ==> a < Between(a, b, f)
    ensures a < b && f < 1.0 ==> Between(a, b, f) < b
  {
    BetweenMonotone(a, b, 0.0, f);
    BetweenMonotone(a, b, f, 1.0);
    BetweenEnds(a, b, f);
  }

  lemma BetweenEnds(a: real, b: real, f: real)
    ensures Between(a, b, 0.0) == a && Between(a, b, 1.0) == b && Between(a, a, f) == a
  {
  }

  lemma BetweenMonotone(a: real, b: real, f: real, g: real)
    requires a <= b && f <= g
    ensures Between(a, b, f) <= Between(a, b, g)
    ensures a < b && f < g ==> Between(a, b, f) < Between(a, b, g)
  {
    var gap, step := b - a, g - f;
    assert gap * step >= 0.0;
    assert gap > 0.0 && step > 0.0 ==> gap * step > 0.0;
    assert gap * g == gap * (f + step) == gap * f + gap * step;
  }

  // ---------- The percentile of an ascending list ----------

  /** The interpolated value at a rank, for a rank within the list. */
  function AtRank(values: seq<real>, rank: real): real
    requires values != [] && 0.0 <= rank <= (|values| - 1) as real
  {
    var lower := rank.Floor;
    var upper := if lower + 1 <= |values| - 1 then lower + 1 else |values| - 1;
    Between(values[lower], values[upper], rank - lower as real)
  }

  /** Both forms are interpolation at the rank; the special case of one element changes nothing. */
  lemma FormsAgree(values: seq<real>, pct: real)
    requires values != [] && 0.0 <= pct <= 100.0
    ensures 0.0 <= Rank(pct, |values|) <= (|values| - 1) as real
    ensures PercentileValue(values, pct) == Some(Percentile(values, pct))
    ensures Percentile(values, pct) == AtRank(values, Rank(pct, |values|))
  {
    RankInRange(pct, |values|);
  }

  lemma AtRankBounds(values: seq<real>, rank: real)
    requires values != [] && Ascending(values) && 0.0 <= rank <= (|values| - 1) as real
    ensures values[rank.Floor] <= AtRank(values, rank)
    ensures rank.Floor + 1 < |values| ==> AtRank(values, rank) <= values[rank.Floor + 1]
    ensures rank.Floor + 1 == |values| ==> AtRank(values, rank) == values[rank.Floor]
  {
    var lower := rank.Floor;
    var upper := if lower + 1 <= |values| - 1 then lower + 1 else |values| - 1;
    BetweenBounds(values[lower], values[upper], rank - lower as real);
  }

  lemma AtRankMonotone(values: seq<real>, x: real, y: real)
    requires values != [] && Ascending(values) && 0.0 <= x <= y <= (|values| - 1) as real
    ensures AtRank(values, x) <= AtRank(values, y)
  {
    AtRankBounds(values, x);
    AtRankBounds(values, y);
    if x.Floor == y.Floor {
      var lower := x.Floor;
      var upper := if lower + 1 <= |values| - 1 then lower + 1 else |values| - 1;
      BetweenMonotone(values[lower], values[upper], x - lower as real, y - lower as real);
    } else {
      assert x.Floor + 1 <= y.Floor;
    }
  }

  /** Percentiles stay within the list and grow with the percentage; 0 and 100 are its ends. */
  lemma PercentileIsMonotone(values: seq<real>, p: real, q: real)
    requires values != [] && Ascending(values) && 0.0 <= p <= q <= 100.0
    ensures values[0] <= Percentile(values, p) <= Percentile(values, q) <= values[|values| - 1]
    ensures q == 100.0 ==> Percentile(values, q) == values[|values| - 1]
    ensures p == 0.0 ==> Percentile(values, p) == values[0]
  {
    var n := |values|;
    FormsAgree(values, p);
    FormsAgree(values, q);
    RankInRange(p, n);
    RankInRange(q, n);
    RankMonotone(p, q, n);
    AtRankMonotone(values, 0.0, Rank(p, n));
    AtRankMonotone(values, Rank(p, n), Rank(q, n));
    AtRankMonotone(values, Rank(q, n), (n - 1) as real);
    AtRankBounds(values, (n - 1) as real);
    EndsOfTheList(values);
  }

  lemma EndsOfTheList(values: seq<real>)
    requires values != []
    ensures AtRank(values, 0.0) == values[0]
    ensures AtRank(values, (|values| - 1) as real) == values[|values| - 1]
  {
  }

  // ---------- The value at every percentage ----------

  lemma BetweenIsWeighted(a: real, b: real, f: real)
    ensures Between(a, b, f) == Weighted(a, b, f)
  {
    assert (b - a) * f == b * f - a * f;
    assert (1.0 - f) * a == a - a * f;
  }

  /** The mean of two values, the second weighted by w. */
  function Weighted(a: real, b: real, w: real): real {
    (1.0 - w) * a + w * b
  }

  /** Between the ranks of two neighbours, the value is their mean weighted by how near they are. */
  lemma ValueBetweenRanks(values: seq<real>, pct: real, k: nat)
    requires k + 1 < |values| && k as real <= Rank(pct, |values|) <= (k + 1) as real
    ensures PercentileValue(values, pct) == Some(Weighted(values[k], values[k + 1], Rank(pct, |values|) - k as real))
  {
    var rank := Rank(pct, |values|);
    hide Rank;
    if rank == (k + 1) as real {
      assert Truncate(rank) == k + 1;
      BetweenEnds(values[k + 1], values[if k + 2 <= |values| - 1 then k + 2 else |values| - 1], 0.0);
      assert PercentileValue(values, pct) == Some(values[k + 1]);
      assert rank - k as real == 1.0;
      hide PercentileValue;
      assert Weighted(values[k], values[k + 1], 1.0) == values[k + 1];
    } else {
      assert Truncate(rank) == k;
      BetweenIsWeighted(values[k], values[k + 1], rank - k as real);
    }
  }

  /** Below the first rank, by less than one, the first two values are extrapolated; from the last rank
      on, by less than one, it is the last value; and without values it is zero. */
  lemma ValueOffTheEnds(values: seq<real>, pct: real)
    ensures values == [] ==> PercentileValue(values, pct) == Some(0.0)
    ensures values == [] && 0.0 <= pct <= 100.0 ==> Percentile(values, pct) == 0.0
    ensures |values| >= 2 && -1.0 < Rank(pct, |values|) <= 0.0 ==>
              var rank := Rank(pct, |values|);
              PercentileValue(values, pct) == Some(Weighted(values[0], values[1], rank))
    ensures |values| >= 1 && (|values| - 1) as real <= Rank(pct, |values|) < |values| as real ==>
              PercentileValue(values, pct) == Some(values[|values| - 1])
  {
    if values != [] {
      var n, rank := |values|, Rank(pct, |values|);
      hide Rank;
      if n >= 2 && -1.0 < rank <= 0.0 {
        assert Truncate(rank) == 0;
        BetweenIsWeighted(values[0], values[1], rank);
      }
      if (n - 1) as real <= rank < n as real {
        assert rank.Floor == n - 1;
        BetweenEnds(values[n - 1], values[n - 1], rank - (n - 1) as real);
      }
    }
  }

  /** Further below, the indexes count from the end: the value extrapolates from the k-th last on to its
      successor, which for the last is the first. */
  lemma ValueFromTheEnd(values: seq<real>, pct: real, k: nat)
    requires 1 <= k <= |values| && -((k + 1) as real) < Rank(pct, |values|) <= -(k as real)
    ensures var rank := Rank(pct, |values|);
            var successor := if k == 1 then values[0] else values[|values| - k + 1];
            PercentileValue(values, pct) == Some(Weighted(values[|values| - k], successor, rank + k as real))
  {
    var n, rank := |values|, Rank(pct, |values|);
    hide Rank;
    var lower := 0 - k;
    assert Truncate(rank) == lower && rank - lower as real == rank + k as real;
    var upper := if lower + 1 <= n - 1 then lower + 1 else n - 1;
    assert At(values, lower) == Some(values[n - k]);
    assert At(values, upper) == Some(if k == 1 then values[0] else values[n - k + 1]);
    BetweenIsWeighted(values[n - k], if k == 1 then values[0] else values[n - k + 1], rank + k as real);
  }

  // ---------- Group summaries ----------

  datatype Summary = Summary(count: nat, mean: real, p50: real, p90: real, p95: real, max: real)

  function Total(values: seq<real>): real {
    if values == [] then 0.0 else Total(values[..|values| - 1]) + values[|values| - 1]
  }

  function LessOrEqual(): (real, real) -> bool {
    (a: real, b: real) => a <= b
  }

  /** `_group_summary`, the error-rate columns; the mean of no values fails, so groups have some. */
  function GroupSummary(rates: seq<real>): Summary
    requires rates != []
  {
    var cers := Sort(rates, LessOrEqual());
    SortPermutes(rates, LessOrEqual());
    Summary(|rates|, Total(rates) / |rates| as real,
            Percentile(cers, 50.0), Percentile(cers, 90.0), Percentile(cers, 95.0), cers[|cers| - 1])
  }

  /** The columns of a summary are ordered, and every rate of the group and their mean lie between
      a lowest rate and the reported maximum, both attained. */
  lemma SummaryIsOrdered(rates: seq<real>) returns (least: real)
    requires rates != []
    ensures var s := GroupSummary(rates);
            && least in rates && s.max in rates
            && (forall x :: x in rates ==> least <= x <= s.max)
            && least <= s.p50 <= s.p90 <= s.p95 <= s.max
            && least <= s.mean <= s.max
  {
    var cers := Sort(rates, LessOrEqual());
    SortedRates(rates);
    hide *;
    least := cers[0];
    var most := cers[|cers| - 1];
    SummaryColumns(rates);
    EndsBound(cers);
    SummaryPercentiles(cers, 50.0, 90.0, 95.0);
    TotalBounds(rates, least, most);
    MeanBounds(Total(rates), |rates|, least, most);
  }

  lemma SortedRates(rates: seq<real>)
    ensures var cers := Sort(rates, LessOrEqual());
            |cers| == |rates| && Ascending(cers) && forall x :: x in cers <==> x in rates
  {
    SortSorts(rates, LessOrEqual());
    SortPermutes(rates, LessOrEqual());
    SortMembers(rates, LessOrEqual());
    SortedIsAscending(Sort(rates, LessOrEqual()));
  }

  lemma SummaryColumns(rates: seq<real>)
    requires rates != []
    ensures var s := GroupSummary(rates);
            var cers := Sort(rates, LessOrEqual());
            && |cers| == |rates|
            && s.mean == Total(rates) / |rates| as real && s.max == cers[|cers| - 1]
            && s.p50 == Percentile(cers, 50.0) && s.p90 == Percentile(cers, 90.0) && s.p95 == Percentile(cers, 95.0)
  {
    SortPermutes(rates, LessOrEqual());
    hide Sort, Percentile, Total;
  }

  lemma EndsBound(values: seq<real>)
    requires values != [] && Ascending(values)
    ensures values[0] in values && values[|values| - 1] in values
    ensures forall x :: x in values ==> values[0] <= x <= values[|values| - 1]
  {
  }

  lemma SummaryPercentiles(values: seq<real>, p: real, q: real, r: real)
    requires values != [] && Ascending(values) && 0.0 <= p <= q <= r <= 100.0
    ensures values[0] <= Percentile(values, p) <= Percentile(values, q) <= Percentile(values, r) <= values[|values| - 1]
  {
    PercentileIsMonotone(values, p, q);
    PercentileIsMonotone(values, q, r);
  }

  lemma SortedIsAscending(values: seq<real>)
    requires SortedBy(values, LessOrEqual())
    ensures Ascending(values)
  {
    forall i, j | 0 <= i <= j < |values| ensures values[i] <= values[j] {
      if i < j {
        assert LessOrEqual()(values[i], values[j]);
      }
    }
  }

  lemma {:induction false} TotalBounds(values: seq<real>, low: real, high: real)
    requires forall x :: x in values ==> low <= x <= high
    ensures low * |values| as real <= Total(values) <= high * |values| as real
  {
    if values == [] {
    } else {
      var n := |values| - 1;
      assert forall x :: x in values[..n] ==> x in values;
      TotalBounds(values[..n], low, high);
      assert values[n] in values;
      OneMore(low, n);
      OneMore(high, n);
    }
  }

  lemma OneMore(x: real, n: nat)
    ensures x * (n + 1) as real == x * n as real + x
  {
    assert (n + 1) as real == n as real + 1.0;
  }

  lemma MeanBounds(total: real, n: nat, low: real, high: real)
    requires n > 0 && low * n as real <= total <= high * n as real
    ensures low <= total / n as real <= high
  {
    var mean := total / n as real;
    assert mean * n as real == total;
    ProductStrict(mean, low, n as real);
    ProductStrict(high, mean, n as real);
  }

  // ---------- Selecting rows between two percentiles ----------

  datatype Row = Row(id: int, score: real)

  predicate RowsBefore(a: Row, b: Row) {
    a.score < b.score || (a.score == b.score && a.id <= b.id)
  }

  function Scores(rows: seq<Row>): (scores: seq<real>)
    ensures |scores| == |rows| && forall k :: 0 <= k < |rows| ==> scores[k] == rows[k].score
  {
    seq(|rows|, k requires 0 <= k < |rows| => rows[k].score)
  }

  function Within(rows: seq<Row>, low: real, high: real): seq<Row> {
    if rows == [] then []
    else
      var n := |rows| - 1;
      Within(rows[..n], low, high) + if low <= rows[n].score <= high then [rows[n]] else []
  }

  /** The percentile window; None where the source's indexing fails. */
  function PercentileWindow(rows: seq<Row>, low: real, high: real): Option<seq<Row>> {
    var scored := Sort(rows, RowsBefore);
    if scored == [] then Some([])
    else
      match (PercentileValue(Scores(scored), low), PercentileValue(Scores(scored), high))
      case (Some(lowCut), Some(highCut)) => Some(Within(scored, lowCut, highCut))
      case _ => None
  }

  function Ceiling(x: real): int {
    if x.Floor as real == x then x.Floor else x.Floor + 1
  }

  /** No score lies strictly between the cut and the row it interpolates towards: comparing with
      the interpolated cut is comparing with a row of the list. */
  lemma CutsAreRows(values: seq<real>, rank: real, k: nat)
    requires values != [] && Ascending(values) && 0.0 <= rank <= (|values| - 1) as real && k < |values|
    ensures 0 <= rank.Floor <= Ceiling(rank) < |values|
    ensures AtRank(values, rank) <= values[k] <==> values[Ceiling(rank)] <= values[k]
    ensures values[k] <= AtRank(values, rank) <==> values[k] <= values[rank.Floor]
  {
    var lower := rank.Floor;
    var upper := if lower + 1 <= |values| - 1 then lower + 1 else |values| - 1;
    var f := rank - lower as real;
    BetweenBounds(values[lower], values[upper], f);
    if f > 0.0 {
      assert upper == lower + 1 == Ceiling(rank);
    } else {
      assert Ceiling(rank) == lower;
    }
  }

  /** The rows whose scores lie within the bounds are those of one run. */
  ghost predicate IsRun(rows: seq<Row>, low: real, high: real, from: nat, to: nat) {
    && from <= to <= |rows|
    && forall k :: 0 <= k < |rows| ==> (low <= rows[k].score <= high <==> from <= k < to)
  }

  lemma RunGrows(rows: seq<Row>, row: Row, low: real, high: real, from: nat, to: nat)
    requires Ascending(Scores(rows + [row])) && IsRun(rows, low, high, from, to)
    ensures !(low <= row.score <= high) ==> IsRun(rows + [row], low, high, from, to)
    ensures low <= row.score <= high && from == to ==> IsRun(rows + [row], low, high, |rows|, |rows| + 1)
    ensures low <= row.score <= high && from < to ==> to == |rows| && IsRun(rows + [row], low, high, from, to + 1)
  {
    var all := rows + [row];
    assert all[|rows|] == row && forall k :: 0 <= k < |rows| ==> all[k] == rows[k];
    if low <= row.score <= high && from < to {
      assert all[from].score <= all[|rows| - 1].score <= all[|rows|].score;
    }
  }

  lemma WithinAppend(rows: seq<Row>, row: Row, low: real, high: real)
    ensures Within([], low, high) == []
    ensures Within(rows + [row], low, high) == Within(rows, low, high) + if low <= row.score <= high then [row] else []
  {
    assert (rows + [row])[..|rows|] == rows;
  }

  lemma RunStep(rows: seq<Row>, row: Row, low: real, high: real, from: nat, to: nat)
    returns (from': nat, to': nat)
    requires Ascending(Scores(rows + [row]))
    requires IsRun(rows, low, high, from, to) && Within(rows, low, high) == rows[from..to]
    ensures IsRun(rows + [row], low, high, from', to') && Within(rows + [row], low, high) == (rows + [row])[from'..to']
  {
    RunMeans(rows, low, high, from, to);
    hide Within, IsRun, Ascending;
    WithinAppend(rows, row, low, high);
    RunGrows(rows, row, low, high, from, to);
    from', to' := from, to;
    if low <= row.score <= high {
      if from == to {
        from' := |rows|;
      }
      to' := |rows| + 1;
    }
  }

  lemma {:induction false} WithinIsRun(rows: seq<Row>, low: real, high: real) returns (from: nat, to: nat)
    requires Ascending(Scores(rows))
    ensures IsRun(rows, low, high, from, to) && Within(rows, low, high) == rows[from..to]
  {
    if rows == [] {
      from, to := 0, 0;
    } else {
      var n := |rows| - 1;
      assert Ascending(Scores(rows[..n]));
      hide *;
      from, to := WithinIsRun(rows[..n], low, high);
      assert rows == rows[..n] + [rows[n]];
      from, to := RunStep(rows[..n], rows[n], low, high, from, to);
    }
  }

  lemma ScoredAscending(rows: seq<Row>)
    ensures Ascending(Scores(Sort(rows, RowsBefore)))
    ensures |Sort(rows, RowsBefore)| == |rows|
  {
    SortSorts(rows, RowsBefore);
    SortPermutes(rows, RowsBefore);
    var scored := Sort(rows, RowsBefore);
    forall i, j | 0 <= i <= j < |scored| ensures scored[i].score <= scored[j].score {
      if i < j {
        assert RowsBefore(scored[i], scored[j]);
      }
    }
  }

  /** For percentages within the scale the window is a contiguous run of the sorted rows: those
      that score at least the row at the rounded-up low rank and at most the row at the
      rounded-down high rank.  So it is empty exactly when the former outscores the latter. */
  lemma WindowIsARun(rows: seq<Row>, low: real, high: real) returns (from: nat, to: nat)
    requires rows != [] && 0.0 <= low <= 100.0 && 0.0 <= high <= 100.0
    ensures var scored := Sort(rows, RowsBefore);
            var a := Ceiling(Rank(low, |rows|));
            var b := Rank(high, |rows|).Floor;
            && |scored| == |rows| && 0 <= a < |rows| && 0 <= b < |rows|
            && from <= to <= |rows|
            && PercentileWindow(rows, low, high) == Some(scored[from..to])
            && (forall k :: 0 <= k < |rows| ==>
                  (from <= k < to <==> scored[a].score <= scored[k].score <= scored[b].score))
            && (from == to <==> scored[a].score > scored[b].score)
  {
    hide Sort, AtRank, Rank, Percentile, PercentileValue, Within, Ceiling, Ascending, IsRun, PercentileWindow;
    var scored := Sort(rows, RowsBefore);
    ScoredAscending(rows);
    var values := Scores(scored);
    WindowCuts(rows, low, high);
    var lowRank, highRank := Rank(low, |rows|), Rank(high, |rows|);
    var lowCut, highCut := AtRank(values, lowRank), AtRank(values, highRank);
    from, to := WithinIsRun(scored, lowCut, highCut);
    RunMeans(scored, lowCut, highCut, from, to);
    CutsAreRows(values, lowRank, 0);
    CutsAreRows(values, highRank, 0);
    var a, b := Ceiling(lowRank), highRank.Floor;
    forall k | 0 <= k < |rows| ensures from <= k < to <==> scored[a].score <= scored[k].score <= scored[b].score {
      CutsAreRows(values, lowRank, k);
      CutsAreRows(values, highRank, k);
    }
    assert from <= a < to <==> scored[a].score <= scored[b].score;
    assert from < to ==> scored[a].score <= scored[from].score;
  }

  lemma RunMeans(rows: seq<Row>, low: real, high: real, from: nat, to: nat)
    requires IsRun(rows, low, high, from, to)
    ensures from <= to <= |rows|
    ensures forall k :: 0 <= k < |rows| ==> (low <= rows[k].score <= high <==> from <= k < to)
  {
  }

  lemma WindowCuts(rows: seq<Row>, low: real, high: real)
    requires rows != [] && 0.0 <= low <= 100.0 && 0.0 <= high <= 100.0
    ensures var scored := Sort(rows, RowsBefore);
            var values := Scores(scored);
            && |scored| == |rows|
            && 0.0 <= Rank(low, |rows|) <= (|rows| - 1) as real && 0.0 <= Rank(high, |rows|) <= (|rows| - 1) as real
            && PercentileWindow(rows, low, high)
               == Some(Within(scored, AtRank(values, Rank(low, |rows|)), AtRank(values, Rank(high, |rows|))))
  {
    hide Sort, AtRank, Rank, Percentile, PercentileValue, Within;
    var scored := Sort(rows, RowsBefore);
    ScoredAscending(rows);
    FormsAgree(Scores(scored), low);
    FormsAgree(Scores(scored), high);
  }

  /** Whatever the percentages, the window's rows are rows of the input, by score and, on a tie, by id. */
  lemma WindowIsSorted(rows: seq<Row>, low: real, high: real)
    requires PercentileWindow(rows, low, high).Some?
    ensures var window := PercentileWindow(rows, low, high).value;
            && multiset(window) <= multiset(rows)
            && forall i, j :: 0 <= i < j < |window| ==>
                 && window[i].score <= window[j].score
                 && (window[i].score == window[j].score ==> window[i].id <= window[j].id)
  {
    var scored := Sort(rows, RowsBefore);
    SortSorts(rows, RowsBefore);
    SortPermutes(rows, RowsBefore);
    if rows != [] {
      hide Sort, PercentileValue, RowsBefore, PercentileWindow;
      var from, to := WindowForAnyPercentages(rows, low, high);
      PartOfOrder(scored, from, to);
    } else {
      assert |scored| == 0;
    }
  }

  lemma PartOfOrder(rows: seq<Row>, from: nat, to: nat)
    requires SortedBy(rows, RowsBefore) && from <= to <= |rows|
    ensures var part := rows[from..to];
            && multiset(part) <= multiset(rows)
            && forall i, j :: 0 <= i < j < |part| ==>
                 && part[i].score <= part[j].score && (part[i].score == part[j].score ==> part[i].id <= part[j].id)
  {
    assert rows == rows[..from] + rows[from..to] + rows[to..];
    forall i, j | 0 <= i < j < to - from ensures RowsBefore(rows[from..to][i], rows[from..to][j]) {
      assert RowsBefore(rows[from + i], rows[from + j]);
    }
  }

  /** Up to percentage 100 the window of some rows has the top row in it. */
  lemma WindowToTheTop(rows: seq<Row>, low: real, high: real)
    requires rows != [] && 0.0 <= low <= 100.0 && high == 100.0
    ensures |Sort(rows, RowsBefore)| == |rows|
    ensures var window := PercentileWindow(rows, low, high);
            && window.Some? && window.value != []
            && window.value[|window.value| - 1] == Sort(rows, RowsBefore)[|rows| - 1]
  {
    hide Sort, PercentileWindow, Rank, Ceiling;
    ScoredAscending(rows);
    var scored := Sort(rows, RowsBefore);
    var from, to := WindowIsARun(rows, low, high);
    RankInRange(high, |rows|);
    var a, b := Ceiling(Rank(low, |rows|)), Rank(high, |rows|).Floor;
    assert b == |rows| - 1;
    assert scored[a].score <= scored[b].score;
    assert from <= b < to;
  }

  /** A percentage whose rank, cut to an integer, is an index of a list of length n, from either end. */
  predicate Indexes(pct: real, n: nat) {
    0 <= Truncate(Rank(pct, n)) + n < 2 * n
  }

  lemma ValueWhereIndexed(values: seq<real>, pct: real)
    requires values != []
    ensures PercentileValue(values, pct).Some? <==> Indexes(pct, |values|)
  {
    hide Rank, Truncate;
  }

  /** Any percentages are accepted as a range.  The selection fails exactly if one of them points
      outside the list; otherwise it is a contiguous run of the sorted rows, those between the two
      cuts. */
  lemma WindowForAnyPercentages(rows: seq<Row>, low: real, high: real) returns (from: nat, to: nat)
    requires rows != []
    ensures var scored := Sort(rows, RowsBefore);
            var window := PercentileWindow(rows, low, high);
            var lowCut, highCut := PercentileValue(Scores(scored), low), PercentileValue(Scores(scored), high);
            && |scored| == |rows| && from <= to <= |rows|
            && (window.None? <==> !Indexes(low, |rows|) || !Indexes(high, |rows|))
            && (window.Some? ==>
                  && lowCut.Some? && highCut.Some? && window.value == scored[from..to]
                  && forall k :: 0 <= k < |rows| ==>
                       (from <= k < to <==> lowCut.value <= scored[k].score <= highCut.value))
  {
    hide Sort, PercentileValue, Within, Indexes, IsRun;
    var scored := Sort(rows, RowsBefore);
    ScoredAscending(rows);
    ValueWhereIndexed(Scores(scored), low);
    ValueWhereIndexed(Scores(scored), high);
    from, to := 0, 0;
    var lowCut, highCut := PercentileValue(Scores(scored), low), PercentileValue(Scores(scored), high);
    if lowCut.Some? && highCut.Some? {
      from, to := WithinIsRun(scored, lowCut.value, highCut.value);
      RunMeans(scored, lowCut.value, highCut.value, from, to);
    }
  }

  /** A window between two percentages can be empty although there are rows: two rows, and a
      range that contains neither rank. */
  lemma WindowCanBeEmpty(rows: seq<Row>, low: real, high: real)
    requires rows == [Row(1, 0.0), Row(2, 10.0)] && low == 40.0 && high == 60.0
    ensures PercentileWindow(rows, low, high) == Some([])
  {
    var from, to := WindowIsARun(rows, low, high);
    assert Sort(rows[1..], RowsBefore) == [rows[1]];
    assert Sort(rows, RowsBefore) == rows;
    assert Rank(low, 2) == 0.4 && Rank(high, 2) == 0.6;
  }
}
