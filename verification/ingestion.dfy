/** The ingestion upsert of `ingest_events` (api/app/main.py:39-67): the
    table as a map from key to row plus the id sequence, the per-report
    `INSERT ... ON CONFLICT (key) DO UPDATE`, the batch that commits once,
    and the optional `uq_build_branch` constraint (api/app/models.py:40). */
module Ingestion {
  import opened Wrappers
  import opened Models
  import opened Identity

  /** A stored run: the surrogate id the table assigned, the key it is stored
      under, and every other column. */
  datatype Row<K> = Row(id: nat, key: K, rec: Record)

  /** The table: one row per key, plus the next value of the id sequence. */
  datatype Store<K> = Store(rows: map<K, Row<K>>, nextId: nat)

  /** A fresh table: no rows, and a sequence whose first value is 1. */
  function EmptyStore<K(==, !new)>(): (s: Store<K>)
    ensures Inv(s) && |s.rows| == 0 && s.nextId == 1
  {
    Store(map[], 1)
  }

  /** What the table guarantees: each row sits under its own key, its id was
      drawn from the sequence, it never ends before it starts, and no two rows
      share an id (the primary key). */
  predicate Inv<K(==, !new)>(s: Store<K>) {
    && (forall k :: k in s.rows ==> s.rows[k].key == k && s.rows[k].id < s.nextId && RecordOk(s.rows[k].rec))
    && (forall k1, k2 :: k1 in s.rows && k2 in s.rows && k1 != k2 ==> s.rows[k1].id != s.rows[k2].id)
  }

  /** Under the invariant there is at most one row per key. */
  lemma OneRowPerKey<K(!new)>(s: Store<K>)
    requires Inv(s)
    ensures forall k1, k2 :: k1 in s.rows && k2 in s.rows && k1 != k2 ==> s.rows[k1].key != s.rows[k2].key
  {
  }

  /** Distinct ids make the rows, as a set, as many as the keys. */
  lemma {:induction false} RowCount<K(!new)>(m: map<K, Row<K>>)
    requires forall k1, k2 :: k1 in m && k2 in m && k1 != k2 ==> m[k1].id != m[k2].id
    ensures |m.Values| == |m|
    decreases |m|
  {
    if |m| > 0 {
      var k :| k in m;
      var m' := m - {k};
      assert m'.Keys == m.Keys - {k};
      RowCount(m');
      forall v | v in m.Values ensures v in m'.Values + {m[k]} {
        var kv :| kv in m && m[kv] == v;
        if kv != k {
          assert m'[kv] == v;
        }
      }
      forall v | v in m'.Values + {m[k]} ensures v in m.Values {
        if v in m'.Values {
          var kv :| kv in m' && m'[kv] == v;
          assert m[kv] == v;
        }
      }
      assert m.Values == m'.Values + {m[k]};
      assert m[k] !in m'.Values by {
        forall kv | kv in m' ensures m'[kv] != m[k] {
          assert m[kv].id != m[k].id;
        }
      }
    }
  }

  /** One `INSERT ... ON CONFLICT (key) DO UPDATE SET <all values>
      RETURNING row` against the table, keyed by `keyOf`. The id default is
      drawn from the sequence whether or not the key conflicts. */
  function Upsert<K(==, !new)>(s: Store<K>, keyOf: Report -> K, rep: Report): (out: (Store<K>, Row<K>))
    requires Valid(rep)
    // the row is returned as it now stands in the table
    ensures keyOf(rep) in out.0.rows && out.0.rows[keyOf(rep)] == out.1
    // every non-id column carries the incoming values
    ensures out.1.key == keyOf(rep) && out.1.rec == ToRecord(rep)
    // a present key keeps its id and the row count
    ensures keyOf(rep) in s.rows ==> out.1.id == s.rows[keyOf(rep)].id && |out.0.rows| == |s.rows|
    // an absent key adds exactly one row, with an id no other row has
    ensures keyOf(rep) !in s.rows ==> |out.0.rows| == |s.rows| + 1
    ensures keyOf(rep) !in s.rows && Inv(s) ==> forall k :: k in s.rows ==> s.rows[k].id != out.1.id
    // nothing else changes
    ensures forall k :: k != keyOf(rep) ==> (k in out.0.rows <==> k in s.rows)
    ensures forall k :: k != keyOf(rep) && k in s.rows ==> out.0.rows[k] == s.rows[k]
    ensures out.0.nextId == s.nextId + 1
    ensures Inv(s) ==> Inv(out.0)
  {
    var k := keyOf(rep);
    var id := if k in s.rows then s.rows[k].id else s.nextId;
    var row := Row(id, k, ToRecord(rep));
    (Store(s.rows[k := row], s.nextId + 1), row)
  }

  predicate AllValid(batch: seq<Report>) {
    forall i :: 0 <= i < |batch| ==> Valid(batch[i])
  }

  /** The last report of the batch that has key `k`, if any. */
  function LastWithKey<K(==, !new)>(keyOf: Report -> K, batch: seq<Report>, k: K): (r: Option<Report>)
    ensures r.None? <==> forall i :: 0 <= i < |batch| ==> keyOf(batch[i]) != k
    ensures r.Some? ==> exists i :: && 0 <= i < |batch| && batch[i] == r.value && keyOf(batch[i]) == k
                                    && forall j :: i < j < |batch| ==> keyOf(batch[j]) != k
  {
    if |batch| == 0 then None
    else
      var later := LastWithKey(keyOf, batch[1..], k);
      if later.Some? then
        assert forall j :: 1 <= j < |batch| ==> batch[j] == batch[1..][j - 1];
        later
      else if keyOf(batch[0]) == k then
        assert forall j :: 1 <= j < |batch| ==> batch[j] == batch[1..][j - 1];
        Some(batch[0])
      else
        assert forall j :: 1 <= j < |batch| ==> batch[j] == batch[1..][j - 1];
        None
  }

  /** The upsert loop of `ingest_events`, as a left fold: one upsert per
      report, in order, each returning its row. */
  function UpsertAll<K(==, !new)>(s: Store<K>, keyOf: Report -> K, batch: seq<Report>): (out: (Store<K>, seq<Row<K>>))
    requires AllValid(batch)
    ensures |out.1| == |batch|
    ensures out.0.nextId == s.nextId + |batch|
    ensures Inv(s) ==> Inv(out.0)
    // no row goes away, and every report's key has a row
    ensures forall k :: k in s.rows ==> k in out.0.rows
    ensures forall i :: 0 <= i < |batch| ==> keyOf(batch[i]) in out.0.rows
    decreases |batch|
  {
    if |batch| == 0 then (s, [])
    else
      var (s1, row) := Upsert(s, keyOf, batch[0]);
      TailValid(batch);
      var (s2, rows) := UpsertAll(s1, keyOf, batch[1..]);
      (s2, [row] + rows)
  }

  /** The rows after a batch are the rows before plus one per key the batch
      did not find. */
  lemma {:induction false} BatchKeysWritten<K(!new)>(s: Store<K>, keyOf: Report -> K, batch: seq<Report>)
    requires AllValid(batch)
    ensures forall k :: k in UpsertAll(s, keyOf, batch).0.rows <==> k in s.rows || LastWithKey(keyOf, batch, k).Some?
    decreases |batch|
  {
    if |batch| > 0 {
      TailValid(batch);
      BatchKeysWritten(Upsert(s, keyOf, batch[0]).0, keyOf, batch[1..]);
    }
  }

  lemma TailValid(batch: seq<Report>)
    requires |batch| > 0 && AllValid(batch)
    ensures AllValid(batch[1..])
  {
    assert forall j :: 1 <= j < |batch| ==> batch[j] == batch[1..][j - 1];
  }

  /** A row keeps its id through a batch once it has one. */
  lemma {:induction false} BatchKeepsIds<K(!new)>(s: Store<K>, keyOf: Report -> K, batch: seq<Report>)
    requires AllValid(batch)
    ensures var out := UpsertAll(s, keyOf, batch);
      forall k :: k in s.rows ==> out.0.rows[k].id == s.rows[k].id
    decreases |batch|
  {
    if |batch| > 0 {
      TailValid(batch);
      BatchKeepsIds(Upsert(s, keyOf, batch[0]).0, keyOf, batch[1..]);
    }
  }

  /** Each report's output carries that report's values and the id its key
      holds at the end of the batch. */
  lemma {:induction false} BatchOutputs<K(!new)>(s: Store<K>, keyOf: Report -> K, batch: seq<Report>)
    requires AllValid(batch)
    ensures var out := UpsertAll(s, keyOf, batch);
      forall i :: 0 <= i < |batch| ==>
        out.1[i] == Row(out.0.rows[keyOf(batch[i])].id, keyOf(batch[i]), ToRecord(batch[i]))
    decreases |batch|
  {
    if |batch| > 0 {
      TailValid(batch);
      var s1 := Upsert(s, keyOf, batch[0]).0;
      BatchOutputs(s1, keyOf, batch[1..]);
      BatchKeepsIds(s1, keyOf, batch[1..]);
      assert forall j :: 1 <= j < |batch| ==> batch[j] == batch[1..][j - 1];
    }
  }

  /** After a batch, key `k` holds the values of the batch's last report
      with that key, or its old row when the batch has none. */
  lemma {:induction false} BatchFinalRow<K(!new)>(s: Store<K>, keyOf: Report -> K, batch: seq<Report>, k: K)
    requires AllValid(batch)
    requires k in UpsertAll(s, keyOf, batch).0.rows
    ensures var out := UpsertAll(s, keyOf, batch);
      match LastWithKey(keyOf, batch, k)
      case Some(r) => Valid(r) && out.0.rows[k].rec == ToRecord(r)
      case None => k in s.rows && out.0.rows[k] == s.rows[k]
    decreases |batch|
  {
    if |batch| > 0 {
      TailValid(batch);
      var s1 := Upsert(s, keyOf, batch[0]).0;
      BatchFinalRow(s1, keyOf, batch[1..], k);
      var later := LastWithKey(keyOf, batch[1..], k);
      if later.Some? {
        assert LastWithKey(keyOf, batch, k) == later;
      } else if keyOf(batch[0]) == k {
        assert LastWithKey(keyOf, batch, k) == Some(batch[0]);
      } else {
        assert LastWithKey(keyOf, batch, k) == None;
      }
    }
  }

  /** After a batch, a key it wrote holds the values of the last report with
      that key; every other row is as it was. */
  lemma BatchFinalRows<K(!new)>(s: Store<K>, keyOf: Report -> K, batch: seq<Report>)
    requires AllValid(batch)
    ensures var out := UpsertAll(s, keyOf, batch);
      forall k :: k in out.0.rows ==>
        match LastWithKey(keyOf, batch, k)
        case Some(r) => Valid(r) && out.0.rows[k].rec == ToRecord(r)
        case None => k in s.rows && out.0.rows[k] == s.rows[k]
  {
    var out := UpsertAll(s, keyOf, batch);
    forall k | k in out.0.rows
      ensures match LastWithKey(keyOf, batch, k)
              case Some(r) => Valid(r) && out.0.rows[k].rec == ToRecord(r)
              case None => k in s.rows && out.0.rows[k] == s.rows[k]
    {
      BatchFinalRow(s, keyOf, batch, k);
    }
  }

  /** Reports with the same key in one batch come back with the same id, and
      the last of them is what the table keeps. */
  lemma RepeatedKeyInBatch<K(!new)>(s: Store<K>, keyOf: Report -> K, batch: seq<Report>, i: nat, j: nat)
    requires AllValid(batch)
    requires i < j < |batch| && keyOf(batch[i]) == keyOf(batch[j])
    requires forall l :: j < l < |batch| ==> keyOf(batch[l]) != keyOf(batch[j])
    ensures var out := UpsertAll(s, keyOf, batch);
      && out.1[i].id == out.1[j].id
      && out.0.rows[keyOf(batch[j])].rec == ToRecord(batch[j])
  {
    BatchOutputs(s, keyOf, batch);
    BatchFinalRows(s, keyOf, batch);
    var k := keyOf(batch[j]);
    var last := LastWithKey(keyOf, batch, k);
    var i0 :| && 0 <= i0 < |batch| && batch[i0] == last.value && keyOf(batch[i0]) == k
              && forall l :: i0 < l < |batch| ==> keyOf(batch[l]) != k;
    assert i0 == j;
  }

  /** A key written by the batch ends up with the same row whether the batch
      runs once or twice. */
  lemma ReingestRow<K(!new)>(s: Store<K>, keyOf: Report -> K, batch: seq<Report>, k: K)
    requires Inv(s) && AllValid(batch)
    ensures var first := UpsertAll(s, keyOf, batch).0;
      var second := UpsertAll(first, keyOf, batch).0;
      k in first.rows ==> k in second.rows && second.rows[k] == first.rows[k]
  {
    var first := UpsertAll(s, keyOf, batch).0;
    var second := UpsertAll(first, keyOf, batch).0;
    if k !in first.rows {
      return;
    }
    BatchKeepsIds(first, keyOf, batch);
    BatchFinalRows(s, keyOf, batch);
    BatchFinalRows(first, keyOf, batch);
    assert k in second.rows;
    match LastWithKey(keyOf, batch, k)
    case Some(r) =>
    case None =>
    assert Inv(first) && Inv(second);
    assert second.rows[k] == first.rows[k];
  }

  /** Running the batch again adds no key. */
  lemma ReingestKey<K(!new)>(s: Store<K>, keyOf: Report -> K, batch: seq<Report>, k: K)
    requires AllValid(batch)
    ensures var first := UpsertAll(s, keyOf, batch).0;
      k in UpsertAll(first, keyOf, batch).0.rows <==> k in first.rows
  {
    BatchKeysWritten(s, keyOf, batch);
    BatchKeysWritten(UpsertAll(s, keyOf, batch).0, keyOf, batch);
  }

  lemma ReingestKeepsRows<K(!new)>(s: Store<K>, keyOf: Report -> K, batch: seq<Report>)
    requires Inv(s) && AllValid(batch)
    ensures var first := UpsertAll(s, keyOf, batch).0;
      UpsertAll(first, keyOf, batch).0.rows == first.rows
  {
    var first := UpsertAll(s, keyOf, batch).0;
    var s1, s2 := first.rows, UpsertAll(first, keyOf, batch).0.rows;
    forall k ensures (k in s2 <==> k in s1) && (k in s2 ==> s2[k] == s1[k]) {
      ReingestKey(s, keyOf, batch, k);
      if k in s1 {
        ReingestRow(s, keyOf, batch, k);
      }
    }
    assert s2 == s1;
  }

  /** Ingesting the same batch a second time returns the same rows, ids
      included, and leaves every row of the table as it was. */
  lemma ReingestIdempotent<K(!new)>(s: Store<K>, keyOf: Report -> K, batch: seq<Report>)
    requires Inv(s) && AllValid(batch)
    ensures var first := UpsertAll(s, keyOf, batch);
      var second := UpsertAll(first.0, keyOf, batch);
      second.0.rows == first.0.rows && second.1 == first.1
  {
    var first := UpsertAll(s, keyOf, batch);
    var second := UpsertAll(first.0, keyOf, batch);
    ReingestKeepsRows(s, keyOf, batch);
    BatchOutputs(s, keyOf, batch);
    BatchOutputs(first.0, keyOf, batch);
    assert |second.1| == |first.1|;
    forall i | 0 <= i < |batch| ensures second.1[i] == first.1[i] {
      assert second.1[i] == first.1[i];
    }
  }

  /** The request body: one report, or a list of reports. */
  datatype Payload = Single(report: Report) | Batch(reports: seq<Report>)

  /** The reports of a request, in order; a single report is a batch of one. */
  function Runs(p: Payload): seq<Report> {
    match p
    case Single(r) => [r]
    case Batch(rs) => rs
  }

  /** Each entry of `fs` is a report of `batch` with the error it fails with. */
  predicate FailuresSound(batch: seq<Report>, fs: seq<(nat, ValidationError)>) {
    forall k :: 0 <= k < |fs| ==> fs[k].0 < |batch| && Validate(batch[fs[k].0]) == Err(fs[k].1)
  }

  /** Every report of `batch` that fails validation has an entry in `fs`. */
  predicate FailuresComplete(batch: seq<Report>, fs: seq<(nat, ValidationError)>) {
    forall i :: 0 <= i < |batch| && !Valid(batch[i]) ==> exists k :: 0 <= k < |fs| && fs[k].0 == i
  }

  /** The entries of `fs` are in increasing batch order. */
  predicate FailuresOrdered(fs: seq<(nat, ValidationError)>) {
    forall k1, k2 :: 0 <= k1 < k2 < |fs| ==> fs[k1].0 < fs[k2].0
  }

  /** `fs` lists exactly the reports of `batch` that fail validation, each
      with its error, in batch order. */
  predicate ListsFailures(batch: seq<Report>, fs: seq<(nat, ValidationError)>) {
    FailuresSound(batch, fs) && FailuresComplete(batch, fs) && FailuresOrdered(fs)
  }

  /** Every report of the batch that fails validation, with its error, in
      batch order: the request is refused with all of them at once. */
  function Failures(batch: seq<Report>): (fs: seq<(nat, ValidationError)>)
    ensures ListsFailures(batch, fs)
    ensures |fs| == 0 <==> AllValid(batch)
  {
    if |batch| == 0 then []
    else
      var fs := Failures(batch[..|batch| - 1]);
      FailuresExtend(batch, fs);
      FailuresSnoc(batch, fs)
  }

  /** The failures of a batch from those of all but its last report: the
      last one's is appended when it fails. */
  function FailuresSnoc(batch: seq<Report>, fs: seq<(nat, ValidationError)>): seq<(nat, ValidationError)>
    requires |batch| > 0
  {
    var n := |batch| - 1;
    var v := Validate(batch[n]);
    if v.Ok? then fs else fs + [(n, v.error)]
  }

  /** The step of `Failures`. */
  lemma FailuresExtend(batch: seq<Report>, fs: seq<(nat, ValidationError)>)
    requires |batch| > 0
    requires ListsFailures(batch[..|batch| - 1], fs)
    requires |fs| == 0 <==> AllValid(batch[..|batch| - 1])
    ensures ListsFailures(batch, FailuresSnoc(batch, fs))
    ensures |FailuresSnoc(batch, fs)| == 0 <==> AllValid(batch)
  {
    SnocSound(batch, fs);
    SnocComplete(batch, fs);
    SnocOrdered(batch, fs);
    AllValidSnoc(batch);
  }

  /** Appending the last report's failure keeps every entry a real failure. */
  lemma SnocSound(batch: seq<Report>, fs: seq<(nat, ValidationError)>)
    requires |batch| > 0 && FailuresSound(batch[..|batch| - 1], fs)
    ensures FailuresSound(batch, FailuresSnoc(batch, fs))
  {
    var pre := batch[..|batch| - 1];
    var fs' := FailuresSnoc(batch, fs);
    forall k | 0 <= k < |fs'|
      ensures fs'[k].0 < |batch| && Validate(batch[fs'[k].0]) == Err(fs'[k].1)
    {
      if k < |fs| {
        assert fs'[k] == fs[k];
        assert pre[fs[k].0] == batch[fs[k].0];
      }
    }
  }

  /** Appending the last report's failure misses no failing report. */
  lemma SnocComplete(batch: seq<Report>, fs: seq<(nat, ValidationError)>)
    requires |batch| > 0 && FailuresComplete(batch[..|batch| - 1], fs)
    ensures FailuresComplete(batch, FailuresSnoc(batch, fs))
  {
    var n := |batch| - 1;
    var pre := batch[..n];
    var fs' := FailuresSnoc(batch, fs);
    forall i | 0 <= i < |batch| && !Valid(batch[i])
      ensures exists k :: 0 <= k < |fs'| && fs'[k].0 == i
    {
      if i < n {
        assert pre[i] == batch[i];
        var k :| 0 <= k < |fs| && fs[k].0 == i;
        assert fs'[k] == fs[k];
      } else {
        assert Validate(batch[n]).Err?;
        assert fs'[|fs|].0 == n;
      }
    }
  }

  /** Appending the last report's failure keeps the entries in batch order. */
  lemma SnocOrdered(batch: seq<Report>, fs: seq<(nat, ValidationError)>)
    requires |batch| > 0 && FailuresOrdered(fs)
    requires forall k :: 0 <= k < |fs| ==> fs[k].0 < |batch| - 1
    ensures FailuresOrdered(FailuresSnoc(batch, fs))
  {
    var fs' := FailuresSnoc(batch, fs);
    assert forall k :: 0 <= k < |fs| ==> fs'[k] == fs[k];
  }

  /** A batch is valid iff all but its last report are, and the last one is. */
  lemma AllValidSnoc(batch: seq<Report>)
    requires |batch| > 0
    ensures AllValid(batch) <==> AllValid(batch[..|batch| - 1]) && Valid(batch[|batch| - 1])
  {
    var n := |batch| - 1;
    var pre := batch[..n];
    if AllValid(pre) && Valid(batch[n]) {
      forall i | 0 <= i < |batch|
        ensures Valid(batch[i])
      {
        if i < n {
          assert Valid(pre[i]);
        }
      }
    }
  }

  /** The unique constraints of the table the upsert runs against: the key
      alone, or the key and `uq_build_branch` on (build_id, branch). */
  datatype Schema = KeyUnique | KeyAndBuildBranchUnique

  datatype IngestError =
    | Invalid(failures: seq<(nat, ValidationError)>)
    | BuildBranchTaken(index: nat)
    | IdsExhausted(index: nat)

  /** The largest value of the `id` column's sequence: `id` is a 32-bit
      `SERIAL`, whose sequence runs from 1 to 2^31 - 1. */
  const MaxId: nat := 0x7fff_ffff

  /** How many more ids the sequence can hand out from `nextId`. */
  function IdsLeft(nextId: nat): nat {
    if nextId <= MaxId then MaxId + 1 - nextId else 0
  }

  /** Writing `rec` under key `k` would give a second row the build id and
      branch of another row. */
  predicate BuildBranchClash<K(==, !new)>(rows: map<K, Row<K>>, k: K, rec: Record) {
    exists k' :: k' in rows && k' != k && rows[k'].rec.buildId == rec.buildId && rows[k'].rec.branch == rec.branch
  }

  predicate BuildBranchUnique<K(==, !new)>(s: Store<K>) {
    forall k1, k2 :: k1 in s.rows && k2 in s.rows && k1 != k2 ==>
      s.rows[k1].rec.buildId != s.rows[k2].rec.buildId || s.rows[k1].rec.branch != s.rows[k2].rec.branch
  }

  /** The upsert of report `j` clashes on (build_id, branch) with the table as
      the reports before it left it. */
  predicate ClashAt<K(==, !new)>(s: Store<K>, keyOf: Report -> K, batch: seq<Report>, j: nat)
    requires j < |batch|
  {
    && AllValid(batch[..j + 1])
    && (assert forall i :: 0 <= i < j ==> batch[..j][i] == batch[..j + 1][i];
        BuildBranchClash(UpsertAll(s, keyOf, batch[..j]).0.rows, keyOf(batch[j]), ToRecord(batch[j])))
  }

  /** Clashes of a batch are the clashes of its tail, one place later, run
      against the table its first upsert leaves. */
  lemma ClashAtShift<K(!new)>(s: Store<K>, keyOf: Report -> K, batch: seq<Report>)
    requires |batch| > 0 && AllValid(batch)
    ensures ClashAt(s, keyOf, batch, 0) == BuildBranchClash(s.rows, keyOf(batch[0]), ToRecord(batch[0]))
    ensures forall j :: 0 <= j < |batch| - 1 ==>
              ClashAt(s, keyOf, batch, j + 1) == ClashAt(Upsert(s, keyOf, batch[0]).0, keyOf, batch[1..], j)
  {
    assert batch[..1] == [batch[0]];
    assert batch[..0] == [];
    forall j | 0 <= j < |batch| - 1
      ensures ClashAt(s, keyOf, batch, j + 1) == ClashAt(Upsert(s, keyOf, batch[0]).0, keyOf, batch[1..], j)
    {
      ClashAtShiftOne(s, keyOf, batch, j);
    }
  }

  /** One position of `ClashAtShift`. */
  lemma ClashAtShiftOne<K(!new)>(s: Store<K>, keyOf: Report -> K, batch: seq<Report>, j: nat)
    requires j + 1 < |batch| && Valid(batch[0])
    ensures ClashAt(s, keyOf, batch, j + 1) == ClashAt(Upsert(s, keyOf, batch[0]).0, keyOf, batch[1..], j)
  {
    var s1 := Upsert(s, keyOf, batch[0]).0;
    var pre, tpre := batch[..j + 1], batch[1..][..j];
    assert pre[0] == batch[0] && pre[1..] == tpre;
    assert batch[..j + 2][1..] == batch[1..][..j + 1];
    assert batch[1..][j] == batch[j + 1];
    AllValidCons(batch[..j + 2]);
    if AllValid(pre) {
      assert UpsertAll(s, keyOf, pre).0 == UpsertAll(s1, keyOf, tpre).0;
    }
  }

  /** A non-empty batch is valid iff its first report and its tail are. */
  lemma AllValidCons(batch: seq<Report>)
    requires |batch| > 0
    ensures AllValid(batch) <==> Valid(batch[0]) && AllValid(batch[1..])
  {
    if Valid(batch[0]) && AllValid(batch[1..]) {
      forall i | 0 <= i < |batch|
        ensures Valid(batch[i])
      {
        if i > 0 {
          assert batch[i] == batch[1..][i - 1];
        }
      }
    }
  }

  /** The first upsert of the batch that `uq_build_branch` refuses: it
      clashes, and none before it does; none at all when nothing clashes. */
  function FirstClash<K(==, !new)>(s: Store<K>, keyOf: Report -> K, batch: seq<Report>): (r: Option<nat>)
    requires AllValid(batch)
    ensures r.Some? ==> r.value < |batch| && ClashAt(s, keyOf, batch, r.value)
    ensures forall j :: 0 <= j < |batch| && (r.None? || j < r.value) ==> !ClashAt(s, keyOf, batch, j)
    ensures r.None? && BuildBranchUnique(s) ==> BuildBranchUnique(UpsertAll(s, keyOf, batch).0)
    decreases |batch|
  {
    if |batch| == 0 then None
    else if BuildBranchClash(s.rows, keyOf(batch[0]), ToRecord(batch[0])) then
      ClashAtShift(s, keyOf, batch);
      Some(0)
    else
      TailValid(batch);
      var t := FirstClash(Upsert(s, keyOf, batch[0]).0, keyOf, batch[1..]);
      FirstClashShifted(s, keyOf, batch, t);
      if t.Some? then Some(t.value + 1) else None
  }

  /** The step of `FirstClash`: when the first upsert does not clash, the
      first clash of the tail, one place later, is the first clash of the
      batch. */
  lemma FirstClashShifted<K(!new)>(s: Store<K>, keyOf: Report -> K, batch: seq<Report>, t: Option<nat>)
    requires |batch| > 0 && AllValid(batch)
    requires !BuildBranchClash(s.rows, keyOf(batch[0]), ToRecord(batch[0]))
    requires var s1 := Upsert(s, keyOf, batch[0]).0;
      && (t.Some? ==> t.value < |batch| - 1 && ClashAt(s1, keyOf, batch[1..], t.value))
      && (forall j :: 0 <= j < |batch| - 1 && (t.None? || j < t.value) ==> !ClashAt(s1, keyOf, batch[1..], j))
    ensures var r := if t.Some? then Some(t.value + 1) else None;
      && (r.Some? ==> r.value < |batch| && ClashAt(s, keyOf, batch, r.value))
      && (forall j :: 0 <= j < |batch| && (r.None? || j < r.value) ==> !ClashAt(s, keyOf, batch, j))
  {
    ClashAtShift(s, keyOf, batch);
    var r := if t.Some? then Some(t.value + 1) else None;
    forall j | 0 <= j < |batch| && (r.None? || j < r.value)
      ensures !ClashAt(s, keyOf, batch, j)
    {
      if j > 0 {
        assert !ClashAt(Upsert(s, keyOf, batch[0]).0, keyOf, batch[1..], j - 1);
      }
    }
  }

  /** `ingest_events`. The whole request body is validated first, and every
      failing report is reported. Then the upserts run in order and commit
      together. An upsert fails when the id sequence is exhausted, or when
      `uq_build_branch` is declared and the upsert clashes with it. A failure
      rolls back every row; the ids drawn so far stay drawn. On success each
      output is the committed row of its report's key: the response is built
      after the commit, from reloaded rows. */
  function Ingest<K(==, !new)>(s: Store<K>, keyOf: Report -> K, schema: Schema, p: Payload)
    : (out: (Store<K>, Result<seq<Row<K>>, IngestError>))
    // all or nothing
    ensures out.1.Err? ==> out.0.rows == s.rows
    // validation
    ensures (out.1.Err? && out.1.error.Invalid?) <==> !AllValid(Runs(p))
    ensures out.1.Err? && out.1.error.Invalid? ==> out.0 == s && out.1.error.failures == Failures(Runs(p))
    // a uq_build_branch refusal is the first upsert that clashes
    ensures out.1.Err? && out.1.error.BuildBranchTaken? ==>
              var i := out.1.error.index;
              && schema == KeyAndBuildBranchUnique && AllValid(Runs(p))
              && i < |Runs(p)| && i < IdsLeft(s.nextId) && out.0.nextId == s.nextId + i + 1
              && ClashAt(s, keyOf, Runs(p), i)
              && forall j :: 0 <= j < i ==> !ClashAt(s, keyOf, Runs(p), j)
    // exhaustion is the first upsert that finds no id left
    ensures out.1.Err? && out.1.error.IdsExhausted? ==>
              var i := out.1.error.index;
              && AllValid(Runs(p))
              && i < |Runs(p)| && i == IdsLeft(s.nextId) && out.0.nextId == s.nextId + i
              && (schema == KeyAndBuildBranchUnique ==> forall j :: 0 <= j < i ==> !ClashAt(s, keyOf, Runs(p), j))
    // success: the batch fold, with nothing refused
    ensures out.1.Ok? ==>
              && AllValid(Runs(p)) && out.0 == UpsertAll(s, keyOf, Runs(p)).0
              && |Runs(p)| <= IdsLeft(s.nextId)
              && (schema == KeyAndBuildBranchUnique ==> forall j :: 0 <= j < |Runs(p)| ==> !ClashAt(s, keyOf, Runs(p), j))
    // one output per report, in order: the committed row of its key
    ensures out.1.Ok? ==>
              && |out.1.value| == |Runs(p)|
              && forall i :: 0 <= i < |Runs(p)| ==>
                   keyOf(Runs(p)[i]) in out.0.rows && out.1.value[i] == out.0.rows[keyOf(Runs(p)[i])]
    ensures Inv(s) ==> Inv(out.0)
    ensures out.1.Ok? && schema == KeyAndBuildBranchUnique && BuildBranchUnique(s) ==> BuildBranchUnique(out.0)
  {
    var runs := Runs(p);
    var fs := Failures(runs);
    if |fs| > 0 then (s, Err(Invalid(fs)))
    else
      var left := IdsLeft(s.nextId);
      var clash := if schema == KeyAndBuildBranchUnique then FirstClash(s, keyOf, runs) else None;
      if clash.Some? && clash.value < left then
        (Store(s.rows, s.nextId + clash.value + 1), Err(BuildBranchTaken(clash.value)))
      else if |runs| > left then
        (Store(s.rows, s.nextId + left), Err(IdsExhausted(left)))
      else
        var s' := UpsertAll(s, keyOf, runs).0;
        (s', Ok(Committed(s', keyOf, runs)))
  }

  /** The rows the response is built from: for each report, the row its key
      holds in the committed table. */
  function Committed<K(==, !new)>(t: Store<K>, keyOf: Report -> K, runs: seq<Report>): seq<Row<K>>
    requires forall i :: 0 <= i < |runs| ==> keyOf(runs[i]) in t.rows
  {
    seq(|runs|, i requires 0 <= i < |runs| => t.rows[keyOf(runs[i])])
  }

  /** On success each output carries the values of the batch's last report
      with the same key, so reports sharing a key come back identical. */
  lemma IngestReturnsLastValues<K(!new)>(s: Store<K>, keyOf: Report -> K, schema: Schema, p: Payload)
    ensures var out := Ingest(s, keyOf, schema, p);
      out.1.Ok? ==>
        forall i :: 0 <= i < |Runs(p)| ==>
          && LastWithKey(keyOf, Runs(p), keyOf(Runs(p)[i])).Some?
          && out.1.value[i].rec == ToRecord(LastWithKey(keyOf, Runs(p), keyOf(Runs(p)[i])).value)
  {
    var out := Ingest(s, keyOf, schema, p);
    if out.1.Ok? {
      var runs := Runs(p);
      forall i | 0 <= i < |runs|
        ensures && LastWithKey(keyOf, runs, keyOf(runs[i])).Some?
                && out.1.value[i].rec == ToRecord(LastWithKey(keyOf, runs, keyOf(runs[i])).value)
      {
        BatchFinalRow(s, keyOf, runs, keyOf(runs[i]));
      }
    }
  }

  /** Posting the same body twice: when both succeed, the second response
      repeats the first, ids included, and the table's rows do not change.
      Against a key-only table the second succeeds whenever the first did and
      the sequence has ids left for it. */
  lemma ReingestSameResponse<K(!new)>(s: Store<K>, keyOf: Report -> K, schema: Schema, p: Payload)
    requires Inv(s)
    ensures var first := Ingest(s, keyOf, schema, p);
      var second := Ingest(first.0, keyOf, schema, p);
      first.1.Ok? && second.1.Ok? ==> second.0.rows == first.0.rows && second.1 == first.1
    ensures var first := Ingest(s, keyOf, schema, p);
      var second := Ingest(first.0, keyOf, schema, p);
      first.1.Ok? && schema == KeyUnique && |Runs(p)| <= IdsLeft(first.0.nextId) ==> second.1.Ok?
  {
    var first := Ingest(s, keyOf, schema, p);
    var second := Ingest(first.0, keyOf, schema, p);
    if first.1.Ok? && second.1.Ok? {
      ReingestKeepsRows(s, keyOf, Runs(p));
      assert second.1.value == first.1.value;
    }
  }

  /** With the natural key, every row sits under its own (build_id, branch). */
  predicate NaturallyKeyed(s: Store<(string, string)>) {
    forall k :: k in s.rows ==> k == (s.rows[k].rec.buildId, s.rows[k].rec.branch)
  }

  /** Keyed by (build_id, branch), `uq_build_branch` never refuses an upsert:
      the two constraints only conflict when the key is something else. */
  lemma {:induction false} NaturalKeyNeverClashes(s: Store<(string, string)>, batch: seq<Report>)
    requires NaturallyKeyed(s) && AllValid(batch)
    ensures FirstClash(s, NaturalKey, batch) == None
    decreases |batch|
  {
    if |batch| > 0 {
      var k := NaturalKey(batch[0]);
      var rec := ToRecord(batch[0]);
      assert !BuildBranchClash(s.rows, k, rec) by {
        forall k' | k' in s.rows && k' != k
          ensures s.rows[k'].rec.buildId != rec.buildId || s.rows[k'].rec.branch != rec.branch
        {
          assert k' == (s.rows[k'].rec.buildId, s.rows[k'].rec.branch);
        }
      }
      var s1 := Upsert(s, NaturalKey, batch[0]).0;
      assert NaturallyKeyed(s1);
      TailValid(batch);
      NaturalKeyNeverClashes(s1, batch[1..]);
    }
  }

  /** A one-report batch is one upsert, and its committed row is the row
      that upsert returns. */
  lemma UpsertOne<K(!new)>(s: Store<K>, keyOf: Report -> K, r: Report)
    requires Valid(r)
    ensures var up := Upsert(s, keyOf, r);
      && AllValid([r]) && UpsertAll(s, keyOf, [r]) == (up.0, [up.1])
      && Committed(up.0, keyOf, [r]) == [up.1]
  {
    var up := Upsert(s, keyOf, r);
    assert [r][1..] == [];
    assert UpsertAll(up.0, keyOf, []) == (up.0, []);
    assert [up.1] + [] == [up.1];
  }

  /** Ingesting a single valid report against a key-only table is one upsert,
      unless the sequence has no id left. */
  lemma IngestSingle<K(!new)>(s: Store<K>, keyOf: Report -> K, r: Report)
    requires Valid(r)
    ensures var up := Upsert(s, keyOf, r);
      Ingest(s, keyOf, KeyUnique, Single(r)) ==
        if s.nextId <= MaxId then (up.0, Ok([up.1]))
        else (s, Err(IdsExhausted(0)))
  {
    assert Runs(Single(r)) == [r];
    UpsertOne(s, keyOf, r);
    assert |Failures([r])| == 0;
  }

  /** Keyed by digest, two reports of one build on one branch whose digests
      differ (a `running` report and then its `success`, say) become two rows
      with two ids. */
  lemma ReReportAppendsUnderHashKey(hash: string -> string, a: Report, b: Report)
    requires Valid(a) && Valid(b)
    requires HashKey(hash, a) != HashKey(hash, b)
    ensures var keyOf := r => HashKey(hash, r);
      var s1 := Ingest(EmptyStore(), keyOf, KeyUnique, Single(a)).0;
      var out := Ingest(s1, keyOf, KeyUnique, Single(b));
      && out.1.Ok? && |out.0.rows| == 2
      && out.0.rows[HashKey(hash, a)].id != out.0.rows[HashKey(hash, b)].id
  {
    var keyOf := r => HashKey(hash, r);
    var e := EmptyStore<string>();
    IngestSingle(e, keyOf, a);
    var s1 := Upsert(e, keyOf, a).0;
    IngestSingle(s1, keyOf, b);
    var s2 := Upsert(s1, keyOf, b).0;
    assert Inv(s2);
  }

  /** Ingesting a single valid report against a table that also declares
      `uq_build_branch`: refused when its build and branch belong to another
      row, otherwise one upsert, unless the sequence has no id left. */
  lemma IngestSingleChecked<K(!new)>(s: Store<K>, keyOf: Report -> K, r: Report)
    requires Valid(r)
    ensures var up := Upsert(s, keyOf, r);
      Ingest(s, keyOf, KeyAndBuildBranchUnique, Single(r)) ==
        if MaxId < s.nextId then (s, Err(IdsExhausted(0)))
        else if BuildBranchClash(s.rows, keyOf(r), ToRecord(r))
        then (Store(s.rows, s.nextId + 1), Err(BuildBranchTaken(0)))
        else (up.0, Ok([up.1]))
  {
    assert Runs(Single(r)) == [r];
    UpsertOne(s, keyOf, r);
    assert |Failures([r])| == 0;
    assert [r][1..] == [];
    var up := Upsert(s, keyOf, r);
    assert FirstClash(up.0, keyOf, []) == None;
    if MaxId < s.nextId {
      assert IdsLeft(s.nextId) == 0;
    } else if BuildBranchClash(s.rows, keyOf(r), ToRecord(r)) {
      assert FirstClash(s, keyOf, [r]) == Some(0);
      assert IdsLeft(s.nextId) > 0;
    } else {
      assert FirstClash(s, keyOf, [r]) == None;
      assert IdsLeft(s.nextId) > 0;
    }
  }

  /** With `uq_build_branch` declared as well, the second of those reports is
      refused and the table keeps only the first. */
  lemma ReReportRefusedUnderBothConstraints(hash: string -> string, a: Report, b: Report)
    requires Valid(a) && Valid(b)
    requires a.buildId == b.buildId && a.branch == b.branch
    requires HashKey(hash, a) != HashKey(hash, b)
    ensures var keyOf := r => HashKey(hash, r);
      var s1 := Ingest(EmptyStore(), keyOf, KeyAndBuildBranchUnique, Single(a)).0;
      var out := Ingest(s1, keyOf, KeyAndBuildBranchUnique, Single(b));
      out.1 == Err(BuildBranchTaken(0)) && out.0.rows == s1.rows
  {
    var keyOf := r => HashKey(hash, r);
    var e := EmptyStore<string>();
    IngestSingleChecked(e, keyOf, a);
    var s1 := Upsert(e, keyOf, a).0;
    IngestSingleChecked(s1, keyOf, b);
    assert HashKey(hash, a) in s1.rows;
    assert BuildBranchClash(s1.rows, HashKey(hash, b), ToRecord(b));
  }

  /** Keyed by (build_id, branch), the second report overwrites the first in
      place: one row, the first report's id, the second report's values. */
  lemma ReReportUpdatesUnderNaturalKey(a: Report, b: Report)
    requires Valid(a) && Valid(b)
    requires a.buildId == b.buildId && a.branch == b.branch
    ensures var first := Ingest(EmptyStore(), NaturalKey, KeyUnique, Single(a));
      var second := Ingest(first.0, NaturalKey, KeyUnique, Single(b));
      && first.1.Ok? && second.1.Ok? && |second.0.rows| == 1
      && second.1.value[0].id == first.1.value[0].id && second.1.value[0].rec == ToRecord(b)
  {
    var e := EmptyStore<(string, string)>();
    IngestSingle(e, NaturalKey, a);
    var s1 := Upsert(e, NaturalKey, a).0;
    IngestSingle(s1, NaturalKey, b);
    assert NaturalKey(a) == NaturalKey(b);
  }
}
