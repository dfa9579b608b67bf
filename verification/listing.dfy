/** The read path `list_events` (api/app/main.py:77-80): the stored runs
    ordered by start time, latest first, at most 100 of them. */
module Listing {
  import opened Models
  import opened Ingestion

  /** The fixed window `list_events` returns. */
  const ListLimit: nat := 100

  function Start<K>(r: Row<K>): int {
    r.rec.startTime
  }

  function Min(a: nat, b: nat): nat {
    if a <= b then a else b
  }

  /** Every non-empty set of rows has a row that starts no earlier than any
      other. */
  lemma {:induction false} LatestExists<K>(rows: set<Row<K>>)
    requires rows != {}
    ensures exists m :: m in rows && forall x :: x in rows ==> Start(x) <= Start(m)
    decreases |rows|
  {
    var r :| r in rows;
    var rest := rows - {r};
    if rest != {} {
      LatestExists(rest);
      var m :| m in rest && forall x :: x in rest ==> Start(x) <= Start(m);
      if Start(r) > Start(m) {
        assert forall x :: x in rows ==> Start(x) <= Start(r);
      } else {
        assert forall x :: x in rows ==> Start(x) <= Start(m);
      }
    } else {
      assert rows == {r};
    }
  }

  /** Part way through the selection: `out` holds distinct rows of `rows`,
      latest first, `remaining` holds the rest, and nothing remaining starts
      later than anything taken. */
  predicate Progress<K(==)>(rows: set<Row<K>>, remaining: set<Row<K>>, out: seq<Row<K>>) {
    && remaining <= rows
    && |remaining| + |out| == |rows|
    && (forall i :: 0 <= i < |out| ==> out[i] in rows && out[i] !in remaining)
    && (forall r :: r in rows ==> r in remaining || r in out)
    && (forall i, j :: 0 <= i < j < |out| ==> out[i] != out[j])
    && (forall i, j :: 0 <= i < j < |out| ==> Start(out[j]) <= Start(out[i]))
    && (forall r, i :: r in remaining && 0 <= i < |out| ==> Start(r) <= Start(out[i]))
  }

  /** Taking a latest remaining row keeps the selection in progress. */
  lemma ProgressStep<K>(rows: set<Row<K>>, remaining: set<Row<K>>, out: seq<Row<K>>, m: Row<K>)
    requires Progress(rows, remaining, out)
    requires m in remaining && forall x :: x in remaining ==> Start(x) <= Start(m)
    ensures Progress(rows, remaining - {m}, out + [m])
  {
    assert forall i :: 0 <= i < |out| ==> out[i] != m;
    assert |remaining - {m}| == |remaining| - 1;
    var out' := out + [m];
    assert forall i :: 0 <= i < |out| ==> out'[i] == out[i];
  }

  /** `ORDER BY start_time DESC LIMIT limit` over a set of rows: up to
      `limit` distinct rows, latest first, and no row left out starts later
      than one that was taken. Rows with equal start times may come in any
      order. */
  method TakeLatest<K(==)>(rows: set<Row<K>>, limit: nat) returns (out: seq<Row<K>>)
    ensures |out| == Min(limit, |rows|)
    ensures forall i :: 0 <= i < |out| ==> out[i] in rows
    ensures forall i, j :: 0 <= i < j < |out| ==> out[i] != out[j]
    ensures forall i, j :: 0 <= i < j < |out| ==> Start(out[j]) <= Start(out[i])
    ensures forall r, i :: r in rows && r !in out && 0 <= i < |out| ==> Start(r) <= Start(out[i])
    ensures |rows| <= limit ==> forall r :: r in rows ==> r in out
  {
    var remaining := rows;
    out := [];
    while |out| < limit && remaining != {}
      invariant |out| <= limit
      invariant Progress(rows, remaining, out)
      decreases |remaining|
    {
      LatestExists(remaining);
      var m :| m in remaining && forall x :: x in remaining ==> Start(x) <= Start(m);
      ProgressStep(rows, remaining, out, m);
      out := out + [m];
      remaining := remaining - {m};
    }
  }

  /** `list_events`: the 100 latest runs of the table, latest first. */
  method ListEvents<K(==, !new)>(s: Store<K>) returns (page: seq<Row<K>>)
    ensures Inv(s) ==> |page| == Min(ListLimit, |s.rows|)
    ensures forall i :: 0 <= i < |page| ==> page[i] in s.rows.Values
    ensures forall i, j :: 0 <= i < j < |page| ==> page[i] != page[j]
    ensures forall i, j :: 0 <= i < j < |page| ==> Start(page[j]) <= Start(page[i])
    ensures forall r, i :: r in s.rows.Values && r !in page && 0 <= i < |page| ==> Start(r) <= Start(page[i])
  {
    page := TakeLatest(s.rows.Values, ListLimit);
    if Inv(s) {
      RowCount(s.rows);
    }
  }
}
