/** The pipeline-run data model: the closed result enum, timezone-aware
    timestamps, the inbound run report with its validation, the stored
    columns of a run and the derived duration (api/app/models.py). */
module Models {
  import opened Wrappers

  /** The four outcomes a run may report; nothing else is accepted. */
  datatype RunResult = Success | Failed | Canceled | Running

  /** Every result value, in declaration order. */
  const AllResults: seq<RunResult> := [Success, Failed, Canceled, Running]

  /** The text tag of a result, as it travels in JSON and in the key input. */
  function ResultTag(r: RunResult): string {
    match r
    case Success => "success"
    case Failed => "failed"
    case Canceled => "canceled"
    case Running => "running"
  }

  /** Decoding of a JSON `result` string: only the four tags are accepted. */
  function ParseResult(s: string): (r: Option<RunResult>)
    ensures r.Some? ==> ResultTag(r.value) == s
    ensures r.None? ==> forall x :: ResultTag(x) != s
  {
    if s == "success" then Some(Success)
    else if s == "failed" then Some(Failed)
    else if s == "canceled" then Some(Canceled)
    else if s == "running" then Some(Running)
    else None
  }

  /** The enum is closed: exactly four distinct values, each with its own tag,
      and decoding a tag gives back its value. */
  lemma ResultIsClosed()
    ensures |AllResults| == 4
    ensures forall r :: r in AllResults
    ensures forall i, j :: 0 <= i < j < |AllResults| ==> AllResults[i] != AllResults[j]
    ensures forall r :: ParseResult(ResultTag(r)) == Some(r)
  {
    forall r ensures r in AllResults && ParseResult(ResultTag(r)) == Some(r) {
      match r
      case Success => assert AllResults[0] == r;
      case Failed => assert AllResults[1] == r;
      case Canceled => assert AllResults[2] == r;
      case Running => assert AllResults[3] == r;
    }
  }

  /** A wall-clock reading in seconds together with its UTC offset in seconds,
      if it has one. A reading without an offset is a naive datetime. */
  datatype Timestamp = Timestamp(local: int, offset: Option<int>)

  predicate Aware(t: Timestamp) {
    t.offset.Some?
  }

  /** The instant a timezone-aware reading denotes, in seconds since the epoch. */
  function Instant(t: Timestamp): int
    requires Aware(t)
  {
    t.local - t.offset.value
  }

  /** An inbound run report (a `PipelineRunBase` plus the four metadata
      fields the ingestion code reads from it). */
  datatype Report = Report(
    buildId: string,
    branch: string,
    result: RunResult,
    startTime: Timestamp,
    endTime: Option<Timestamp>,
    repoName: Option<string>,
    commitSha: Option<string>,
    runner: Option<string>,
    workflow: Option<string>)

  datatype TimeField = StartTime | EndTime

  datatype ValidationError =
    | NaiveTimestamp(field: TimeField)
    | EndBeforeStart

  /** The data-model invariants a report must satisfy: both timestamps carry
      an offset, and a run never ends before it starts. */
  predicate Valid(r: Report) {
    && Aware(r.startTime)
    && (r.endTime.Some? ==> Aware(r.endTime.value) && Instant(r.startTime) <= Instant(r.endTime.value))
  }

  /** `validate_times`: the start is checked for an offset first, then the end,
      then the order of the two instants. */
  function Validate(r: Report): (v: Result<Report, ValidationError>)
    ensures v.Ok? <==> Valid(r)
    ensures v.Ok? ==> v.value == r
    ensures v == Err(NaiveTimestamp(StartTime)) <==> !Aware(r.startTime)
    ensures v == Err(NaiveTimestamp(EndTime)) <==>
              Aware(r.startTime) && r.endTime.Some? && !Aware(r.endTime.value)
    ensures v == Err(EndBeforeStart) <==>
              && Aware(r.startTime) && r.endTime.Some? && Aware(r.endTime.value)
              && Instant(r.endTime.value) < Instant(r.startTime)
  {
    if !Aware(r.startTime) then Err(NaiveTimestamp(StartTime))
    else if r.endTime.Some? && !Aware(r.endTime.value) then Err(NaiveTimestamp(EndTime))
    else if r.endTime.Some? && Instant(r.endTime.value) < Instant(r.startTime) then Err(EndBeforeStart)
    else Ok(r)
  }

  /** A run that ends at the very instant it starts is accepted, whatever the
      offsets its two readings are written in. */
  lemma EqualEndAccepted(r: Report)
    requires Aware(r.startTime) && r.endTime.Some? && Aware(r.endTime.value)
    requires Instant(r.endTime.value) == Instant(r.startTime)
    ensures Validate(r) == Ok(r)
  {
  }

  /** Without an end time only the start's offset is checked. */
  lemma NoEndOnlyStartChecked(r: Report)
    requires r.endTime.None?
    ensures Validate(r).Ok? <==> Aware(r.startTime)
  {
  }

  /** The columns of a stored run other than its surrogate id and its key.
      The timestamp columns are taken to be offset-aware: they store the
      instant and read back an aware value, so the model stores the
      instant. */
  datatype Record = Record(
    buildId: string,
    branch: string,
    result: RunResult,
    startTime: int,
    endTime: Option<int>,
    repoName: Option<string>,
    commitSha: Option<string>,
    runner: Option<string>,
    workflow: Option<string>)

  /** A stored run never ends before it starts. */
  predicate RecordOk(rec: Record) {
    rec.endTime.Some? ==> rec.startTime <= rec.endTime.value
  }

  /** The stored columns of a validated report. */
  function ToRecord(r: Report): (rec: Record)
    requires Valid(r)
    ensures RecordOk(rec)
    ensures rec.startTime == Instant(r.startTime)
    ensures rec.endTime.None? <==> r.endTime.None?
    ensures rec.endTime.Some? ==> rec.endTime.value == Instant(r.endTime.value)
  {
    Record(r.buildId, r.branch, r.result, Instant(r.startTime),
           if r.endTime.Some? then Some(Instant(r.endTime.value)) else None,
           r.repoName, r.commitSha, r.runner, r.workflow)
  }

  /** `duration_seconds`: the derived duration of a stored run, never itself
      stored. It is absent exactly when the run has no end, and a stored run
      never has a negative duration. */
  function Duration(rec: Record): (d: Option<int>)
    ensures d.None? <==> rec.endTime.None?
    ensures RecordOk(rec) && d.Some? ==> d.value >= 0
  {
    if rec.endTime.Some? then Some(rec.endTime.value - rec.startTime) else None
  }

  /** The duration read back for a validated report is its end instant minus
      its start instant, and never negative. */
  lemma DurationOfValidReport(r: Report)
    requires Valid(r)
    ensures Duration(ToRecord(r)).None? <==> r.endTime.None?
    ensures r.endTime.Some? ==>
              && Duration(ToRecord(r)) == Some(Instant(r.endTime.value) - Instant(r.startTime))
              && Instant(r.endTime.value) - Instant(r.startTime) >= 0
  {
  }
}
