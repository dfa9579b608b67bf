# CI/CD pipeline-run collector, modelled in Dafny

The system collects reports of CI/CD pipeline runs and serves them back.
A report names a build, a branch, a result, a start and an optional end.
The service does three things with them:

- `POST /events` ingests one report or a list of them. Each report gets an idempotency key: the SHA-256 digest of its nine key fields joined by `|`. Each report is then upserted on that key with `INSERT ... ON CONFLICT (idempotency_key) DO UPDATE`, and the whole batch commits once.
- `GET /events` lists up to 100 runs, those that started last, latest first.
- `GET /stats/summary` reports three aggregates: the number of runs per result, the mean duration per branch over runs that have ended, and the latest run per branch.

The project models the data model and these three operations as pure Dafny functions and methods over an immutable table. It proves what the code promises about them.

- `wrappers.dfy`: `Option` and `Result`.
- `models.dfy`:
  - the closed `Result` enum;
  - timezone-aware timestamps;
  - the report and its `validate_times` check;
  - the stored columns;
  - the derived `duration_seconds`.
- `identity.dfy`:
  - the canonical key input;
  - decimal rendering of timestamps with their UTC offset;
  - `Join`/`Split` on `|`;
  - the key functions. The digest is a `hash: string -> string` parameter about which nothing is assumed. `NaturalKey` is the (build_id, branch) key named by the endpoint's description and by `uq_build_branch`.
- `ingestion.dfy`:
  - the table, as a map from key to row plus the id sequence;
  - one upsert;
  - the batch fold;
  - payload handling;
  - validation of the whole body before any write, reporting every failing report;
  - exhaustion of the 32-bit id sequence;
  - the optional `uq_build_branch` constraint, which refuses a batch rather than merging it.

  The key function `keyOf` is a parameter of every operation. The same theorems therefore cover the digest key that `main.py` uses and the natural key.
- `listing.dfy`: `ORDER BY start_time DESC LIMIT 100` as a selection from the set of rows.
- `stats.dfy`: the three aggregations of `stats_summary` as folds over a scan of the table, and the summary method.

Timestamps are `Timestamp(local, offset)` in whole seconds. A reading without an offset is naive. The instant of a timestamp is `local - offset`. The schema the service runs against is not given by the code: `api/app/models.py` lacks columns that `main.py` writes, and the tests use a table named `pipeline_runs`. The model assumes offset-aware (`timestamptz`) columns, which store the instant and read back aware values, so it stores the instant. The key input uses the timestamp's text, offset included.

Where the code and its own descriptions disagree, or the code leaves a choice open, the model follows the code:

- The latest-run query orders each branch's rows by start time alone, with no tie-break, so the model promises only "a row of the branch that starts no earlier than any other".
- The endpoint's description says "Upserts on (build_id, branch)". The code upserts on the digest of nine fields. `ReReportAppendsUnderHashKey` and `ReReportUpdatesUnderNaturalKey` show where the two differ.
- `api/app/models.py` as written declares no `idempotency_key`, `repo_name`, `commit_sha`, `runner` or `workflow` fields, but `main.py` reads and writes them. The model follows `main.py`: the four metadata fields are optional strings, and the key column is the upsert's conflict target.

## Model

| member | source | states |
|---|---|---|
| Models.ParseResult | api/app/models.py:9-13 | a text decodes to a result exactly when it is one of the four tags, and to the result with that tag |
| Models.ResultIsClosed | api/app/models.py:9-13 | there are exactly four distinct results, and decoding a result's tag gives that result back |
| Models.Validate | api/app/models.py:25-36 | a report is accepted iff both timestamps carry an offset and the end instant is not before the start instant; the accepted value is the report itself; a naive start is reported first, then a naive end, then end before start, each exactly when it applies |
| Models.EqualEndAccepted | api/app/models.py:34-35 | the order check is strict: a run ending at the instant it starts is accepted, whatever offsets its readings use |
| Models.NoEndOnlyStartChecked | api/app/models.py:30-32 | without an end time only the start's offset is checked |
| Models.ToRecord | api/app/models.py:39-42 | a stored run holds the instants of the report's readings and never ends before it starts |
| Models.Duration | api/app/models.py:48-53 | the duration is absent exactly when the end is, and never negative for a stored run |
| Models.DurationOfValidReport | api/app/models.py:48-53 | for a validated report the duration is its end instant minus its start instant, and at least zero |
| Identity.IsoRoundTrip | api/app/main.py:49-50 | the timestamp text is read back to the same local reading and offset |
| Identity.ParseIntText | api/app/main.py:49-50 | the signed decimal reading at the front of the text is read back exactly, and reading stops where its digits end |
| Identity.IsoTextInjective | api/app/main.py:49-50 | two timestamps have the same text iff they agree on both reading and offset |
| Identity.IsoTextShape | api/app/main.py:49-50 | a timestamp's text is non-empty and contains no separator |
| Identity.SplitJoin | api/app/main.py:48-52 | splitting the separator-joined fields gives the fields back when no field contains the separator |
| Identity.SameFieldsSameKey | api/app/main.py:48-53 | reports agreeing on the nine key fields get the same key input and the same digest under any hash |
| Identity.KeyInputExact | api/app/main.py:48-52 | for reports whose text fields have no separator, equal key inputs hold iff the nine key fields agree, metadata taken up to `or ''` |
| Identity.BarInFieldsCollides | api/app/main.py:48-52 | the separator is not escaped: moving it from the end of the build id to the start of the branch gives a different report with the same key input and digest |
| Identity.EmptyMetadataLikeAbsent | api/app/main.py:51 | an empty metadata value and an absent one give the same key input |
| Identity.KeyInputSeesStartOffset | api/app/main.py:49 | changing a report's start reading or offset changes its key input, even when other fields contain the separator |
| Identity.SameInstantDifferentKeyInput | api/app/main.py:49 | 10:00 UTC and 12:00 UTC+2 are one instant but give two different key inputs; whether their digests differ depends on the hash, about which nothing is assumed |
| Ingestion.EmptyStore | api/app/models.py:39-42 | the empty table satisfies the table invariant, and its `SERIAL` sequence starts at 1 |
| Ingestion.OneRowPerKey | api/app/main.py:57-58 | under the invariant no two rows share a key |
| Ingestion.Upsert | api/app/main.py:54-63 | the returned row is the row now stored under the report's key, with the report's values; a present key keeps its id and row count; an absent key adds one row with a fresh id; no other row changes; the sequence advances by one either way; the invariant is preserved |
| Ingestion.LastWithKey | api/app/main.py:46-64 | finds the last report of the batch with a given key, or none exactly when no report has that key |
| Ingestion.UpsertAll | api/app/main.py:46-64 | one output per report; the sequence advances once per report; no row disappears; every report's key has a row; the invariant is preserved |
| Ingestion.BatchKeysWritten | api/app/main.py:46-64 | after a batch the table's keys are the old keys plus the keys of the batch's reports, and no others |
| Ingestion.BatchKeepsIds | api/app/main.py:54-63 | a row keeps its id through a batch once it has one |
| Ingestion.BatchOutputs | api/app/main.py:54-64 | the row each statement's `RETURNING` gives back, as it stands when the statement runs, carries its report's values and the id its key still holds at the end of the batch |
| Ingestion.BatchFinalRows | api/app/main.py:57-60 | a key the batch wrote holds the values of the batch's last report with that key; every other row is unchanged |
| Ingestion.BatchFinalRow | api/app/main.py:57-60 | one key after a batch: the values of the batch's last report with that key, or its old row when the batch has none |
| Ingestion.RepeatedKeyInBatch | api/app/main.py:46-64 | reports sharing a key within one batch get the same id, and the table keeps the last one's values |
| Ingestion.ReingestIdempotent | tests/test_api_integration.py:68-71 | ingesting the same batch again returns the same rows, ids included, and leaves every row of the table as it was |
| Ingestion.ReingestKeepsRows | tests/test_api_integration.py:68-69 | a second run of the same batch leaves the table's rows exactly as the first run left them |
| Ingestion.Failures | api/app/main.py:39-43 | lists exactly the reports of the body that fail validation, each with its error, in increasing position; the list is empty exactly when every report is valid |
| Ingestion.ClashAtShift | api/app/main.py:46-64 | a clash at position j+1 of a batch is a clash at position j of its tail, run against the table the first upsert leaves |
| Ingestion.FirstClash | api/app/models.py:40 | the result is an upsert that clashes on (build_id, branch) with the table the earlier upserts left, and no earlier upsert clashes; none exactly when no upsert clashes, and then a table unique on that pair stays unique |
| Ingestion.Ingest | api/app/main.py:39-67 | the request is refused for validation exactly when some report is invalid, with every failure listed and the table untouched; a `uq_build_branch` refusal names the first clashing upsert, none before it clashing; exhaustion names the first upsert the 32-bit sequence has no id for; every refusal keeps every row, and the sequence keeps the ids drawn; success means no upsert clashed and the ids sufficed, the table is the batch fold, and output i is the committed row under report i's key; the invariant and build/branch uniqueness are preserved |
| Ingestion.IngestReturnsLastValues | api/app/main.py:63-67 | on success each output carries the values of the batch's last report with its key, so reports sharing a key come back identical |
| Ingestion.ReingestSameResponse | tests/test_api_integration.py:68-71 | when posting the same body twice succeeds both times, the second response equals the first, ids included, and no row changes; against a key-only table the second post succeeds whenever the first did and ids remain |
| Ingestion.NaturalKeyNeverClashes | api/app/models.py:40 | keyed by (build_id, branch), `uq_build_branch` never refuses an upsert |
| Ingestion.IngestSingle | api/app/main.py:43 | ingesting one valid report is one upsert returning a one-row list, or is refused when the sequence has no id left |
| Ingestion.IngestSingleChecked | api/app/models.py:40 | with `uq_build_branch` declared, one valid report is refused when the sequence has no id left, else refused exactly when another row already has its build and branch, and is otherwise one upsert |
| Ingestion.ReReportAppendsUnderHashKey | api/app/main.py:48-63 | two reports of one build and branch with different digests (a `running` report and then its `success`) become two rows with two ids |
| Ingestion.ReReportRefusedUnderBothConstraints | api/app/models.py:40 | with `uq_build_branch` declared as well, the second of those reports is refused and the table keeps only the first |
| Ingestion.ReReportUpdatesUnderNaturalKey | api/app/main.py:37 | upserting on (build_id, branch) as described, the second report overwrites the first in place and keeps its id |
| Listing.TakeLatest | api/app/main.py:78 | returns min(limit, rows) distinct rows of the set, latest start first; no row left out starts later than a returned one; with enough room every row is returned |
| Listing.ListEvents | api/app/main.py:77-80 | returns min(100, rows) distinct stored runs, latest start first, and none of the rest starts later than a returned one |
| Stats.CountsByResult | api/app/main.py:90-92 | a result appears exactly when some row has it, with its positive number of rows |
| Stats.CountsSumToRows | api/app/main.py:90-92 | the per-result counts add up to the number of rows |
| Stats.CountOfIsSetSize | api/app/main.py:113 | over a scan listing each row once, a result's count is the number of distinct rows with that result |
| Stats.CountsOverScan | api/app/main.py:90-92 | counting over a scan that lists each stored row once gives, for exactly the results present, the number of distinct rows with that result, and the counts add up to the table size |
| Stats.CompletedDurations | api/app/main.py:97-100 | a branch has completed durations exactly when some row of that branch has an end |
| Stats.DurationTotalsPerBranch | api/app/main.py:93-102 | the one-pass per-branch (sum, count) totals are exactly the sum and number of each branch's completed durations, for exactly the branches that have some |
| Stats.AvgDurationByBranch | api/app/main.py:93-102 | exactly the branches with a completed run appear, each with the mean of its completed runs' durations |
| Stats.AvgOverScan | api/app/main.py:93-102 | averaging over a scan of the table covers exactly the branches that have a row with an end |
| Stats.AvgDurationNonNegative | api/app/main.py:96-98 | when no stored run ends before it starts, no branch averages to a negative duration |
| Stats.FirstPerBranch | api/app/main.py:108-110 | exactly the branches present appear, each with a row of that branch |
| Stats.FirstPerBranchKeepsFirst | api/app/main.py:108-110 | the row kept for each branch is the first row of that branch in the order the loop reads |
| Stats.LatestRunIsLatest | api/app/main.py:104-110 | over rows ordered latest first within each branch, the row kept for a branch starts no earlier than any row of that branch |
| Stats.LatestOverScan | api/app/main.py:104-110 | over a scan ordered latest first within each branch, the kept row is a stored row of its branch that starts no earlier than any other row of the branch |
| Stats.StatsSummary | api/app/main.py:89-119 | counts per result are the numbers of distinct stored runs with that result and add up to the table size; averages appear exactly for the branches with a completed run, are the per-branch means over one scan of the table, and are non-negative; the latest run per branch is a stored run of that branch starting no earlier than any other |

## Left out

- The HTTP layer is not modelled: FastAPI routing, status codes, CORS, the app metadata and the health check (api/app/main.py:13-28 and 122-133). They carry no logic of the core.
- Database session handling, `api/app/db.py` and `init_db` are not part of this model. The table is a value; the upsert is a function on it.
- SHA-256 is not modelled. The digest is a parameter `hash`, and no property assumes it is injective.
- Concurrency is not modelled: two requests racing on one key, and the atomicity of `ON CONFLICT` under concurrent inserts. Each call runs alone against one table state.
- Floating point is not modelled. Timestamps are whole seconds, durations are integers, and the mean is an exact rational. `total_seconds()` and `extract(epoch ...)` would round microseconds.
- JSON decoding and pydantic coercion are not modelled, nor the computed `duration_seconds` field in the output.
- Models.Duration: gives whole seconds rather than the float from `total_seconds()`, because timestamps are modelled at one-second resolution.
- Identity.IsoText: renders a timestamp as its local reading in decimal seconds followed by a signed offset, not as a calendar date. It keeps the two features of `isoformat()` the key depends on: the offset is spelled out, and the text contains no `|`.
- Models.ResultTag: is the bare tag. Depending on the Python version, formatting a `str` enum member in an f-string may give `Result.success` instead. That adds the same prefix to every tag and changes none of the key properties.
- Listing.TakeLatest: rows with equal start times may come in any order, because the query breaks no ties. The same holds for `Stats.StatsSummary` on the latest run per branch.
- Stats.StatsSummary: builds all three aggregates from one scan of the table ordered by start time. The code runs three queries, and its latest-run query orders by (branch, start_time desc). `LatestRunIsLatest` covers any order that is latest first within each branch, and both orders are.
- Ingestion.Ingest: on a `uq_build_branch` refusal, the ids drawn by the failed batch stay drawn, because sequences are not rolled back. The model advances the sequence by the number of upserts attempted. The error that the database raises is a value here.
- Ingestion.Ingest: does not refuse text fields that contain a NUL character, which PostgreSQL text columns reject before the commit, nor text that UTF-8 cannot encode (a lone surrogate, which JSON decoding lets through and `encode("utf-8")` rejects when the key is computed), because the model's strings carry no encoding or driver limits and a Dafny `char` cannot hold a surrogate.
- Ingestion.Upsert: draws an id without an upper bound. The 32-bit limit of the `SERIAL` sequence is checked once per batch by `Ingest`, which refuses the first upsert with no id left.
- Ingestion.Failures: lists each failing report with one error, the first `validate_times` raises. The error body pydantic builds, with its locations and messages, is not modelled.
- Models.ToRecord: stores the instant, assuming offset-aware columns. A plain `datetime` field, as `api/app/models.py:22-23` declares, would map to `timestamp without time zone`. Rows would then read back naive, and re-validating them for a response (`PipelineRunRead` inherits `validate_times`) would fail after the commit and on every read. Under a daylight-saving session zone the stored readings would also order and subtract differently from the instants. Neither is modelled.
- Ingestion.ReingestIdempotent: states that the rows and the returned rows are unchanged, not the whole table value. The id sequence advances by one per upsert, conflict or not, as a PostgreSQL sequence does, so a second run moves `nextId` even though it changes no row.
