# Clinical ETL service: cleaning, validation and job lifecycle

A Dafny model of the core of the clinical data ETL service. The service accepts an ETL job
for a CSV file of clinical measurements. It extracts the rows, cleans them (`transform_data`),
validates the cleaned batch (`validate_data`) and loads it. Throughout, it keeps the job's
record in an in-memory registry that status and detail endpoints read.

- `wrappers.dfy` (`Wrappers`): `Option` and `Result`.
- `cleaning.dfy` (`Cleaning`): rows and frames, and `transform_data` and `validate_data`.
  These are pure functions, each with lemmas that state what it guarantees. A frame is a
  `seq` of rows. A raw row has an `Option` per column. Timestamp parsing is an abstract
  partial function. Values and quality scores are `real`; timestamps are integers.
- `jobs.dfy` (`Jobs`): the `jobs` dictionary as a `map<string, Job>` field of the class
  `JobRegistry`. Job submission and the two lookups are methods on it. So are the
  single-field writes the pipeline makes to one entry. Each such write also appends itself
  to the ghost field `log`, a sequence of `Write`s. `Replay` applies writes to a record, and
  `Entries`, `ProgressValues`, `StatusValues` and `MessageValues` read the entries written
  and the values written to each field. The ghost field `submitted` keeps each entry as it
  was submitted. The invariant `Valid` says that every entry equals its submitted record
  with that entry's logged writes replayed. So no entry can change without its write being
  logged.
- `pipeline.dfy` (`Pipeline`): `etl_pipeline` as methods that update one registry entry
  step by step. The `Stop` datatype says where a run ends. `ExtractWrites` and the functions
  for the later steps give the exact sequence of writes a run makes to its entry for each
  stopping point. Each method's contract says that it appends exactly those writes to the
  registry's `log`, and that the entry ends as `Ending` says. Lemmas then prove what those
  writes amount to. The progress values written are `ProgressFrom`'s increasing milestones.
  The status is written once, with a terminal value. The messages are those of the steps
  `StagesFrom` lists, then the closing message. Replaying the writes gives `Ending`.
  Reading the CSV file, the dtype checks and the database load are collaborators passed in
  as `Steps`, and each of them may fail. The clock is the `now` field of `Steps`. Every
  method keeps the registry's `Valid`.

The code has no `pending` job state: a job is `running` from the moment it is submitted.
Rows with a missing cell or an unparseable timestamp are dropped, not kept with a note. The
code computes no outlier scores and no participant, study, aggregation or quality-report
summaries, so the model has none of these.

## Model

| member | source | states |
|---|---|---|
| Cleaning.DropMissing | etl-service/src/data_processing.py:70 | a row is kept exactly when it is in the frame and no column of it is missing; each kept row occurs as often as in the frame; the kept rows keep their order (a subsequence of the frame) |
| Cleaning.CoerceTimestamps | etl-service/src/data_processing.py:73-74 | every output row is a complete input row with its timestamp parsed; every input row whose timestamp parses appears in the output |
| Cleaning.CoerceTimestampsAppend | etl-service/src/data_processing.py:73-74 | converting two frames joined is converting each and joining the results, so rows keep their order and count |
| Cleaning.CoerceTimestampsOne | etl-service/src/data_processing.py:73-74 | one complete row gives exactly one typed row, made from it, when its timestamp parses, and none otherwise |
| Cleaning.SortByQuality | etl-service/src/data_processing.py:88 | the result is in descending quality-score order and is a permutation (same multiset) of the input |
| Cleaning.DropDuplicateKeys | etl-service/src/data_processing.py:88 | every kept row is an input row whose pair has not been kept before; no two kept rows share a (participant_id, measurement_type) pair; the kept pairs are exactly the input's pairs |
| Cleaning.DropDuplicateKeysKeepsBest | etl-service/src/data_processing.py:88 | on a frame in descending quality order, the row kept for a pair scores at least as high as every row with that pair |
| Cleaning.DropDuplicateKeysKeepsFirst | etl-service/src/data_processing.py:88 | `keep='first'`: every kept row is, at some position, the first row of the frame with its pair; the kept rows are a subsequence of the frame, in its order |
| Cleaning.DropDuplicateKeysKeepsOrder | etl-service/src/data_processing.py:88 | dropping duplicates keeps a sorted frame sorted |
| Cleaning.TransformDataCleans | etl-service/src/data_processing.py:69-89 | `transform_data` (`Cleaning.TransformData`): every output row comes from a raw row with all columns present and a timestamp that parses; at most one row per pair; every pair of such a raw row is kept |
| Cleaning.TransformDataKeepsBest | etl-service/src/data_processing.py:88 | for each surviving pair, the kept row's quality score is the maximum over that pair's surviving raw rows (which tied row is kept is left open) |
| Cleaning.TransformDataSorted | etl-service/src/data_processing.py:88 | the cleaned frame is in descending quality-score order |
| Cleaning.All | etl-service/src/data_processing.py:109-111 | `all(...)` of a row-wise check is true exactly when every row passes it |
| Cleaning.Group | etl-service/src/data_processing.py:112 | a measurement type's group holds exactly the rows of that type, in frame order (a subsequence of the frame) |
| Cleaning.UnitsConsistentMeans | etl-service/src/data_processing.py:112-113 | every groupby group having one unique unit is equivalent to any two rows of one measurement type sharing a unit |
| Cleaning.ValidateDataMeans | etl-service/src/data_processing.py:91-116 | `validate_data` (`Cleaning.ValidateData`) is true exactly when all values are non-negative, all scores lie in [0, 1], no timestamp is after now and each measurement type uses one unit; an empty batch validates |
| Jobs.JobRegistry.constructor | etl-service/src/main.py:13 | the registry starts empty, with no writes logged, and `Valid` |
| Jobs.JobRegistry.SubmitJob | etl-service/src/main.py:43-68 | a known id is rejected with 400 and the registry is unchanged; otherwise exactly one entry is added under the id (running, progress 0, "Job started", the request's filename and studyId), the other entries are unchanged, and the response echoes the id as running; no field write is logged; `Valid` is kept |
| Jobs.SubmitKeepsConsistent | etl-service/src/main.py:46-57 | adding a new entry under an unused id, recorded as submitted, keeps every entry equal to its submitted record with its logged writes replayed |
| Jobs.WriteKeepsConsistent | etl-service/src/data_processing.py:130-156 | applying one field write to an existing entry and logging it keeps every entry equal to its submitted record with its logged writes replayed |
| Jobs.JobRegistry.GetJobStatus | etl-service/src/main.py:75-84 | fails with 404 exactly when the id is unknown; otherwise returns the stored status, progress and message |
| Jobs.JobRegistry.GetJobDetails | etl-service/src/main.py:91-94 | fails with 404 exactly when the id is unknown; otherwise returns the stored record |
| Jobs.JobRegistry.SetMessage | etl-service/src/data_processing.py:130 | only the message of that one entry changes, and exactly that write is appended to the log; `Valid` is kept |
| Jobs.JobRegistry.SetProgress | etl-service/src/data_processing.py:132 | only the progress of that one entry changes, and exactly that write is appended to the log; `Valid` is kept |
| Jobs.JobRegistry.SetStatus | etl-service/src/data_processing.py:141 | only the status of that one entry changes, and exactly that write is appended to the log; `Valid` is kept |
| Pipeline.FailureMessageIsNotValidationMessage | etl-service/src/data_processing.py:142-155 | a message with the failure prefix is never the validation-failure message |
| Pipeline.EndingOfRun | etl-service/src/data_processing.py:129-156 | a run changes only status, progress and message; it ends at progress 100 and is not running; it completes, with the success message, exactly when no step raises and the batch is valid; it carries "Data validation failed" exactly when the batch is rejected; every other failure message starts with "ETL process failed: " |
| Pipeline.ProgressIncreases | etl-service/src/data_processing.py:130-156 | the progress values `ProgressFrom` lists for a run are milestones from 25, 50, 75, 100, strictly increasing, ending with 100 |
| Pipeline.WritesOfRun | etl-service/src/data_processing.py:129-156 | the writes of a run all go to its entry; their progress values are `ProgressFrom`'s increasing milestones; the status is written exactly once, with a terminal value, so the entry stays running until then; the messages are one per step started, in `StagesFrom` order, then the closing message; replayed on the starting record they leave `Ending`'s record |
| Pipeline.ExtractWritesMean | etl-service/src/data_processing.py:129-156 | the same facts for the writes from the extract step on, given the facts for the transform step |
| Pipeline.TransformWritesMean | etl-service/src/data_processing.py:134-156 | the same facts for the writes from the transform step on |
| Pipeline.ValidateWritesMean | etl-service/src/data_processing.py:138-156 | the same facts for the writes from the validate step on, including the rejection branch |
| Pipeline.LoadWritesMean | etl-service/src/data_processing.py:147-156 | the same facts for the writes of the load step |
| Pipeline.ClosingMeans | etl-service/src/data_processing.py:141-156 | the closing writes (on failure status, message, progress; on success progress, status, message) write progress 100, the terminal status and the last message once each, and replayed they leave `Ending`'s record |
| Pipeline.StepsOfRun | etl-service/src/data_processing.py:138-148 | a run starts a non-empty prefix of extract, transform, validate, load; the load step is started exactly when the file is read and cleaned and the batch is valid; the run stops at validation exactly when the batch is rejected |
| Pipeline.RecordFailure | etl-service/src/data_processing.py:153-156 | the entry becomes failed at progress 100 with the prefixed error text; the writes logged are status, message, progress in that order; no other entry changes; `Valid` is kept |
| Pipeline.RecordRejection | etl-service/src/data_processing.py:140-144 | the entry becomes failed at progress 100 with "Data validation failed"; the writes logged are status, message, progress in that order; no other entry changes; `Valid` is kept |
| Pipeline.LoadAndFinish | etl-service/src/data_processing.py:147-156 | the writes appended to the log are exactly `LoadWrites` for the load outcome (loading message, then the failure writes or progress 100, completed and the success message); the entry ends as `Ending` says; no other entry changes; `Valid` is kept |
| Pipeline.ValidateAndLoad | etl-service/src/data_processing.py:138-152 | the writes appended to the log are exactly `ValidateWrites` for where validation and load stop; the entry ends as `Ending` says; no other entry changes; `Valid` is kept |
| Pipeline.TransformAndLoad | etl-service/src/data_processing.py:134-152 | the writes appended to the log are exactly `TransformWrites` from the transform step on; the entry ends as `Ending` says; no other entry changes; `Valid` is kept |
| Pipeline.EtlPipeline | etl-service/src/data_processing.py:125-156 | the writes appended to the log are exactly `ExtractWrites` for where `RunStop` says the run stops, so `WritesOfRun` applies to them; the job's entry ends as `Ending` says; no other entry changes and no entry is added or removed; `Valid` is kept |

## Left out

- Reading the CSV file (`extract_data`): an abstract `readCsv` applied to the data directory plus the file name. It returns rows or an error text, and file formats are not modelled.
- Loading into the database (`load_data`, a no-op in the code): an abstract `loadFault` that is either absent or an error text.
- The `convert_dtypes` dtype assertions and missing-column errors of `transform_data`: an abstract `typingFault`. Rows that get past it are already typed.
- The date formats `pd.to_datetime` accepts, and time zones: an abstract parser from a timestamp cell to an optional integer.
- Wall-clock time (`pd.Timestamp.now`): the `now` parameter.
- Floating point: values and quality scores are `real`, and the code only compares them. NaN cannot reach validation, because `dropna` has already removed missing cells.
- CSV columns beyond the eight named ones: `dropna` would also drop rows with a missing cell in an extra column, but rows here have exactly the eight columns.
- Sort ties: the cleaned frame keeps one of several rows with equal top quality score. Which one pandas keeps is not specified, so no lemma depends on it.
- `asyncio` delays, `asyncio.create_task` and the `tasks` set. `SubmitJob` adds the entry but does not start the pipeline, and `EtlPipeline` models one run on its own.
- Concurrent pipelines on the shared dictionary: not modelled. Each run writes only its own entry, which `EtlPipeline`'s frame states.
- FastAPI, pydantic and uvicorn plumbing, and the health endpoint.
- Status strings are the `Status` datatype (`running`, `completed`, `failed`).
- The optional `progress` and `message` of a status response are always present, because every stored record has them.
- The message of a raised exception (`str(e)`) is the error text the abstract step returns.
