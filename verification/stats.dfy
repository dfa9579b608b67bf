/** The aggregations of `stats_summary` (api/app/main.py:89-119): counts by
    result, mean duration of completed runs per branch, and the latest run
    per branch, each a fold over the rows the query reads. */
module Stats {
  import opened Models
  import opened Ingestion
  import opened Listing

  // ---------------------------------------------------------------------
  // counts_by_result

  /** The number of rows with result `res`. */
  function CountOf<K>(rows: seq<Row<K>>, res: RunResult): nat {
    if |rows| == 0 then 0
    else CountOf(rows[..|rows| - 1], res) + (if rows[|rows| - 1].rec.result == res then 1 else 0)
  }

  /** `SELECT result, count(*) GROUP BY result`, folded into a map: a result
      appears exactly when some row has it, with its positive count. */
  function CountsByResult<K>(rows: seq<Row<K>>): (m: map<RunResult, nat>)
    ensures forall res :: res in m <==> exists i :: 0 <= i < |rows| && rows[i].rec.result == res
    ensures forall res :: res in m ==> m[res] == CountOf(rows, res) && m[res] > 0
    ensures forall res :: res !in m ==> CountOf(rows, res) == 0
  {
    if |rows| == 0 then map[]
    else
      var m := CountsByResult(rows[..|rows| - 1]);
      var res := rows[|rows| - 1].rec.result;
      assert forall i :: 0 <= i < |rows| - 1 ==> rows[..|rows| - 1][i] == rows[i];
      m[res := (if res in m then m[res] else 0) + 1]
  }

  function CountOr0(m: map<RunResult, nat>, res: RunResult): nat {
    if res in m then m[res] else 0
  }

  /** The sum of all counts in the map. */
  function Total(m: map<RunResult, nat>): nat {
    CountOr0(m, Success) + CountOr0(m, Failed) + CountOr0(m, Canceled) + CountOr0(m, Running)
  }

  lemma {:induction false} CountsPartitionRows<K>(rows: seq<Row<K>>)
    ensures CountOf(rows, Success) + CountOf(rows, Failed) + CountOf(rows, Canceled) + CountOf(rows, Running) == |rows|
  {
    if |rows| > 0 {
      CountsPartitionRows(rows[..|rows| - 1]);
    }
  }

  /** Every row is counted exactly once: the counts add up to the rows. */
  lemma CountsSumToRows<K>(rows: seq<Row<K>>)
    ensures Total(CountsByResult(rows)) == |rows|
  {
    CountsPartitionRows(rows);
  }

  predicate Distinct<K(==)>(rows: seq<Row<K>>) {
    forall i, j :: 0 <= i < j < |rows| ==> rows[i] != rows[j]
  }

  /** The rows of `rows` with result `res`, as a set. */
  ghost function WithResult<K>(rows: seq<Row<K>>, res: RunResult): set<Row<K>> {
    set r | r in rows && r.rec.result == res
  }

  lemma WithResultStep<K>(rows: seq<Row<K>>, res: RunResult)
    requires |rows| > 0
    ensures var last := rows[|rows| - 1];
      WithResult(rows, res) ==
        WithResult(rows[..|rows| - 1], res) + (if last.rec.result == res then {last} else {})
  {
    assert rows == rows[..|rows| - 1] + [rows[|rows| - 1]];
  }

  lemma LastNotEarlier<K>(rows: seq<Row<K>>)
    requires |rows| > 0 && Distinct(rows)
    ensures rows[|rows| - 1] !in rows[..|rows| - 1]
  {
    var prefix := rows[..|rows| - 1];
    forall i | 0 <= i < |prefix| ensures prefix[i] != rows[|rows| - 1] {
      assert prefix[i] == rows[i];
    }
  }

  /** Counting a duplicate-free sequence of rows is counting the set of its
      rows. */
  lemma {:induction false} CountOfIsSetSize<K>(rows: seq<Row<K>>, res: RunResult)
    requires Distinct(rows)
    ensures CountOf(rows, res) == |WithResult(rows, res)|
  {
    if |rows| > 0 {
      var prefix := rows[..|rows| - 1];
      assert Distinct(prefix) by {
        forall i, j | 0 <= i < j < |prefix| ensures prefix[i] != prefix[j] {
          assert prefix[i] == rows[i] && prefix[j] == rows[j];
        }
      }
      CountOfIsSetSize(prefix, res);
      WithResultStep(rows, res);
      LastNotEarlier(rows);
    }
  }

  // ---------------------------------------------------------------------
  // avg_duration_seconds_by_branch

  /** The durations of the runs of `branch` that have an end, in row order. */
  function CompletedDurations<K>(rows: seq<Row<K>>, branch: string): (ds: seq<int>)
    ensures |ds| > 0 <==> exists i :: 0 <= i < |rows| && rows[i].rec.branch == branch && rows[i].rec.endTime.Some?
  {
    if |rows| == 0 then []
    else
      var last := rows[|rows| - 1];
      assert forall i :: 0 <= i < |rows| - 1 ==> rows[..|rows| - 1][i] == rows[i];
      CompletedDurations(rows[..|rows| - 1], branch)
        + (if last.rec.branch == branch && last.rec.endTime.Some? then [Duration(last.rec).value] else [])
  }

  function Sum(xs: seq<int>): int {
    if |xs| == 0 then 0 else Sum(xs[..|xs| - 1]) + xs[|xs| - 1]
  }

  /** The arithmetic mean of `count` values adding up to `sum`. */
  function Mean(sum: int, count: nat): real
    requires count > 0
  {
    sum as real / count as real
  }

  /** One pass keeping a (sum, count) pair per branch over the completed
      runs; branches without a completed run get no pair. */
  function DurationTotals<K>(rows: seq<Row<K>>): map<string, (int, nat)> {
    if |rows| == 0 then map[]
    else
      var last := rows[|rows| - 1];
      var m := DurationTotals(rows[..|rows| - 1]);
      match Duration(last.rec)
      case None => m
      case Some(d) =>
        var b := last.rec.branch;
        var t := if b in m then m[b] else (0, 0);
        m[b := (t.0 + d, t.1 + 1)]
  }

  /** One step of `CompletedDurations`: the last row adds its duration to its
      own branch only, and only when it has ended. */
  lemma CompletedStep<K>(rows: seq<Row<K>>, b: string)
    requires |rows| > 0
    ensures var last := rows[|rows| - 1];
      var ds := CompletedDurations(rows[..|rows| - 1], b);
      if last.rec.branch == b && last.rec.endTime.Some?
      then CompletedDurations(rows, b) == ds + [Duration(last.rec).value]
      else CompletedDurations(rows, b) == ds
  {
  }

  lemma SumAppend(xs: seq<int>, x: int)
    ensures Sum(xs + [x]) == Sum(xs) + x
  {
    assert (xs + [x])[..|xs|] == xs;
  }

  /** The one-pass totals agree with summing each branch's completed
      durations separately. */
  lemma {:induction false} DurationTotalsPerBranch<K>(rows: seq<Row<K>>)
    ensures forall b :: b in DurationTotals(rows) <==> |CompletedDurations(rows, b)| > 0
    ensures forall b :: b in DurationTotals(rows) ==>
              DurationTotals(rows)[b] == (Sum(CompletedDurations(rows, b)), |CompletedDurations(rows, b)|)
  {
    if |rows| > 0 {
      var prefix := rows[..|rows| - 1];
      var last := rows[|rows| - 1];
      DurationTotalsPerBranch(prefix);
      var m := DurationTotals(prefix);
      var m' := DurationTotals(rows);
      forall b
        ensures b in m' <==> |CompletedDurations(rows, b)| > 0
        ensures b in m' ==> m'[b] == (Sum(CompletedDurations(rows, b)), |CompletedDurations(rows, b)|)
      {
        CompletedStep(rows, b);
        var ds := CompletedDurations(prefix, b);
        if last.rec.branch == b && last.rec.endTime.Some? {
          SumAppend(ds, Duration(last.rec).value);
        }
      }
    }
  }

  /** `SELECT branch, avg(end_time - start_time) WHERE end_time IS NOT NULL
      GROUP BY branch`: exactly the branches with a completed run, each with
      the mean of its completed runs' durations. */
  function AvgDurationByBranch<K>(rows: seq<Row<K>>): (m: map<string, real>)
    ensures forall b :: b in m <==> exists i :: 0 <= i < |rows| && rows[i].rec.branch == b && rows[i].rec.endTime.Some?
    ensures forall b :: b in m ==>
              var ds := CompletedDurations(rows, b);
              |ds| > 0 && m[b] == Mean(Sum(ds), |ds|)
  {
    var totals := DurationTotals(rows);
    DurationTotalsPerBranch(rows);
    map b | b in totals :: Mean(totals[b].0, totals[b].1)
  }

  lemma {:induction false} CompletedDurationsNonNegative<K>(rows: seq<Row<K>>, b: string)
    requires forall i :: 0 <= i < |rows| ==> RecordOk(rows[i].rec)
    ensures forall k :: 0 <= k < |CompletedDurations(rows, b)| ==> CompletedDurations(rows, b)[k] >= 0
  {
    if |rows| > 0 {
      CompletedDurationsNonNegative(rows[..|rows| - 1], b);
    }
  }

  lemma {:induction false} SumNonNegative(xs: seq<int>)
    requires forall k :: 0 <= k < |xs| ==> xs[k] >= 0
    ensures Sum(xs) >= 0
  {
    if |xs| > 0 {
      SumNonNegative(xs[..|xs| - 1]);
    }
  }

  /** Stored runs never end before they start, so no branch averages to a
      negative duration. */
  lemma AvgDurationNonNegative<K>(rows: seq<Row<K>>)
    requires forall i :: 0 <= i < |rows| ==> RecordOk(rows[i].rec)
    ensures forall b :: b in AvgDurationByBranch(rows) ==> AvgDurationByBranch(rows)[b] >= 0.0
  {
    var m := AvgDurationByBranch(rows);
    forall b | b in m ensures m[b] >= 0.0 {
      var ds := CompletedDurations(rows, b);
      CompletedDurationsNonNegative(rows, b);
      SumNonNegative(ds);
      MeanNonNegative(Sum(ds), |ds|);
    }
  }

  lemma MeanNonNegative(sum: int, count: nat)
    requires sum >= 0 && count > 0
    ensures Mean(sum, count) >= 0.0
  {
  }

  // ---------------------------------------------------------------------
  // latest_run_by_branch

  /** Position `i` holds the first row of branch `b` in `ordered`. */
  predicate FirstOfBranch<K>(ordered: seq<Row<K>>, i: int, b: string) {
    && 0 <= i < |ordered| && ordered[i].rec.branch == b
    && forall j :: 0 <= j < i ==> ordered[j].rec.branch != b
  }

  /** The loop over the ordered rows that keeps the first row seen for each
      branch: exactly the branches present, each with a row of its own. */
  function FirstPerBranch<K>(ordered: seq<Row<K>>): (m: map<string, Row<K>>)
    ensures forall b :: b in m <==> exists i :: 0 <= i < |ordered| && ordered[i].rec.branch == b
    ensures forall b :: b in m ==> m[b].rec.branch == b
  {
    if |ordered| == 0 then map[]
    else
      var prefix := ordered[..|ordered| - 1];
      var row := ordered[|ordered| - 1];
      var m := FirstPerBranch(prefix);
      assert forall i :: 0 <= i < |ordered| - 1 ==> prefix[i] == ordered[i];
      if row.rec.branch in m then m else m[row.rec.branch := row]
  }

  /** The row kept for each branch is the first row of that branch in the
      order the loop reads. */
  lemma {:induction false} FirstPerBranchKeepsFirst<K>(ordered: seq<Row<K>>)
    ensures forall b :: b in FirstPerBranch(ordered) ==>
              exists i :: FirstOfBranch(ordered, i, b) && ordered[i] == FirstPerBranch(ordered)[b]
  {
    if |ordered| > 0 {
      var prefix := ordered[..|ordered| - 1];
      var row := ordered[|ordered| - 1];
      FirstPerBranchKeepsFirst(prefix);
      var m := FirstPerBranch(prefix);
      var m' := FirstPerBranch(ordered);
      forall b | b in m'
        ensures exists i :: FirstOfBranch(ordered, i, b) && ordered[i] == m'[b]
      {
        if b in m {
          var i :| FirstOfBranch(prefix, i, b) && prefix[i] == m[b];
          assert forall j :: 0 <= j < i ==> prefix[j] == ordered[j];
          assert FirstOfBranch(ordered, i, b);
        } else {
          var i := |ordered| - 1;
          assert forall j :: 0 <= j < i ==> prefix[j] == ordered[j];
          assert FirstOfBranch(ordered, i, b);
        }
      }
    }
  }

  /** Within each branch, rows come latest first. Both the `(branch,
      start_time DESC)` order of the query and a plain `start_time DESC`
      order have this property. */
  predicate LatestFirstWithinBranch<K>(ordered: seq<Row<K>>) {
    forall i, j :: 0 <= i < j < |ordered| && ordered[i].rec.branch == ordered[j].rec.branch ==>
      Start(ordered[j]) <= Start(ordered[i])
  }

  /** Over rows ordered latest first within each branch, the row kept for a
      branch starts no earlier than any row of that branch. */
  lemma LatestRunIsLatest<K>(ordered: seq<Row<K>>)
    requires LatestFirstWithinBranch(ordered)
    ensures forall b, i :: b in FirstPerBranch(ordered) && 0 <= i < |ordered| && ordered[i].rec.branch == b ==>
              Start(ordered[i]) <= Start(FirstPerBranch(ordered)[b])
  {
    var m := FirstPerBranch(ordered);
    FirstPerBranchKeepsFirst(ordered);
    forall b, i | b in m && 0 <= i < |ordered| && ordered[i].rec.branch == b
      ensures Start(ordered[i]) <= Start(m[b])
    {
      var i0 :| FirstOfBranch(ordered, i0, b) && ordered[i0] == m[b];
      assert ordered[i].rec.branch == b;
      assert i0 <= i;
      if i0 < i {
        assert ordered[i0].rec.branch == ordered[i].rec.branch;
      }
    }
  }

  // ---------------------------------------------------------------------
  // stats_summary

  datatype Summary<K> = Summary(
    countsByResult: map<RunResult, nat>,
    avgDurationSecondsByBranch: map<string, real>,
    latestRunByBranch: map<string, Row<K>>)

  /** `scan` lists every row of `rows` exactly once. */
  ghost predicate Enumerates<K(!new)>(scan: seq<Row<K>>, rows: set<Row<K>>) {
    && Distinct(scan)
    && |scan| == |rows|
    && (forall r :: r in rows <==> r in scan)
  }

  lemma ScanFilter<K(!new)>(scan: seq<Row<K>>, rows: set<Row<K>>, res: RunResult)
    requires forall r :: r in rows <==> r in scan
    ensures WithResult(scan, res) == set r | r in rows && r.rec.result == res
  {
  }

  /** Counting over a scan of the table counts the table's distinct rows. */
  lemma CountsOverScan<K(!new)>(scan: seq<Row<K>>, rows: set<Row<K>>)
    requires Enumerates(scan, rows)
    ensures forall res :: res in CountsByResult(scan) <==> exists r :: r in rows && r.rec.result == res
    ensures forall res :: res in CountsByResult(scan) ==>
              CountsByResult(scan)[res] == |set r | r in rows && r.rec.result == res|
    ensures Total(CountsByResult(scan)) == |rows|
  {
    var counts := CountsByResult(scan);
    forall res ensures res in counts <==> exists r :: r in rows && r.rec.result == res {
      if r :| r in rows && r.rec.result == res {
        assert r in scan;
      }
    }
    forall res | res in counts ensures counts[res] == |set r | r in rows && r.rec.result == res| {
      CountOfIsSetSize(scan, res);
      ScanFilter(scan, rows, res);
    }
    CountsSumToRows(scan);
  }

  /** Averaging over a scan of the table covers exactly the branches with a
      completed row. */
  lemma AvgOverScan<K(!new)>(scan: seq<Row<K>>, rows: set<Row<K>>)
    requires Enumerates(scan, rows)
    ensures forall b :: b in AvgDurationByBranch(scan) <==>
              exists r :: r in rows && r.rec.branch == b && r.rec.endTime.Some?
  {
    var avg := AvgDurationByBranch(scan);
    forall b ensures b in avg <==> exists r :: r in rows && r.rec.branch == b && r.rec.endTime.Some? {
      if r :| r in rows && r.rec.branch == b && r.rec.endTime.Some? {
        assert r in scan;
      }
    }
  }

  /** Over a scan ordered latest first within each branch, the first row per
      branch is a row of the table that starts no earlier than any other row
      of its branch. */
  lemma LatestOverScan<K(!new)>(scan: seq<Row<K>>, rows: set<Row<K>>)
    requires Enumerates(scan, rows) && LatestFirstWithinBranch(scan)
    ensures forall b :: b in FirstPerBranch(scan) <==> exists r :: r in rows && r.rec.branch == b
    ensures forall b :: b in FirstPerBranch(scan) ==>
              && FirstPerBranch(scan)[b] in rows
              && FirstPerBranch(scan)[b].rec.branch == b
              && forall r :: r in rows && r.rec.branch == b ==> Start(r) <= Start(FirstPerBranch(scan)[b])
  {
    var latest := FirstPerBranch(scan);
    FirstPerBranchKeepsFirst(scan);
    LatestRunIsLatest(scan);
    forall b ensures b in latest <==> exists r :: r in rows && r.rec.branch == b {
      if r :| r in rows && r.rec.branch == b {
        assert r in scan;
      }
    }
    forall b | b in latest
      ensures latest[b] in rows
      ensures forall r :: r in rows && r.rec.branch == b ==> Start(r) <= Start(latest[b])
    {
      var i :| FirstOfBranch(scan, i, b) && scan[i] == latest[b];
      forall r | r in rows && r.rec.branch == b ensures Start(r) <= Start(latest[b]) {
        var j :| 0 <= j < |scan| && scan[j] == r;
      }
    }
  }

  /** `stats_summary` over the whole table. */
  method StatsSummary<K(==, !new)>(s: Store<K>) returns (summary: Summary<K>)
    // counts_by_result: the results present, each with its number of rows
    ensures forall res :: res in summary.countsByResult <==> exists r :: r in s.rows.Values && r.rec.result == res
    ensures forall res :: res in summary.countsByResult ==>
              summary.countsByResult[res] == |set r | r in s.rows.Values && r.rec.result == res|
    ensures Inv(s) ==> Total(summary.countsByResult) == |s.rows|
    // avg_duration_seconds_by_branch: the branches with a completed run, each
    // with the mean duration of its completed runs
    ensures forall b :: b in summary.avgDurationSecondsByBranch <==>
              exists r :: r in s.rows.Values && r.rec.branch == b && r.rec.endTime.Some?
    ensures exists scan :: Enumerates(scan, s.rows.Values) && summary.avgDurationSecondsByBranch == AvgDurationByBranch(scan)
    ensures Inv(s) ==> forall b :: b in summary.avgDurationSecondsByBranch ==> summary.avgDurationSecondsByBranch[b] >= 0.0
    // latest_run_by_branch: the branches present, each with one of its rows
    // that starts no earlier than any other row of the branch
    ensures forall b :: b in summary.latestRunByBranch <==> exists r :: r in s.rows.Values && r.rec.branch == b
    ensures forall b :: b in summary.latestRunByBranch ==>
              && summary.latestRunByBranch[b] in s.rows.Values
              && summary.latestRunByBranch[b].rec.branch == b
              && forall r :: r in s.rows.Values && r.rec.branch == b ==> Start(r) <= Start(summary.latestRunByBranch[b])
  {
    var rows := s.rows.Values;
    var scan := TakeLatest(rows, |rows|);
    assert Enumerates(scan, rows);
    assert LatestFirstWithinBranch(scan);
    CountsOverScan(scan, rows);
    AvgOverScan(scan, rows);
    LatestOverScan(scan, rows);
    if Inv(s) {
      RowCount(s.rows);
      assert forall i :: 0 <= i < |scan| ==> RecordOk(scan[i].rec);
      AvgDurationNonNegative(scan);
    }
    summary := Summary(CountsByResult(scan), AvgDurationByBranch(scan), FirstPerBranch(scan));
  }
}
