/**
 * The ETL pipeline run for one job: extract, transform, validate and load, with the job's
 * registry entry updated after each step and a terminal status written at the end.
 */
module Pipeline {
  import opened Wrappers
  import opened Cleaning
  import opened Jobs

  /** The directory the extract step reads the submitted file from. */
  const DataDir := "/app/data/"

  const ExtractingMessage := "Extracting data"
  const TransformingMessage := "Transforming data"
  const ValidatingMessage := "Validating data"
  const LoadingMessage := "Loading data into database"
  const ValidationFailedMessage := "Data validation failed"
  const CompletedMessage := "ETL process completed successfully"
  const FailurePrefix := "ETL process failed: "

  /**
   * What the pipeline's collaborators do on one run. `readCsv` is the CSV reader applied to a
   * path (an error carries the text of the exception it raises); `parse` is the datetime
   * conversion of one timestamp cell; `typingFault` is the error `transform_data` raises, if any
   * (a failed dtype assertion or a missing column); `now` is the wall-clock time validation
   * compares against; `loadFault` is the error raised by the database load, if any.
   */
  datatype Steps = Steps(
    readCsv: string -> Result<seq<RawRow>, string>,
    parse: TimestampParser,
    typingFault: Option<string>,
    now: int,
    loadFault: Option<string>)

  /** The file is read, typed and cleaned without an exception. */
  predicate Cleaned(filename: string, env: Steps)
  {
    env.readCsv(DataDir + filename).Ok? && env.typingFault.None?
  }

  /** The cleaned batch of a run that gets that far. */
  function CleanBatch(filename: string, env: Steps): seq<Row>
    requires Cleaned(filename, env)
  {
    TransformData(env.readCsv(DataDir + filename).value, env.parse)
  }

  /** The run reaches validation and the cleaned batch is rejected. */
  predicate RejectedByValidation(filename: string, env: Steps)
  {
    Cleaned(filename, env) && !ValidBatch(CleanBatch(filename, env), env.now)
  }

  /** No step raises and the cleaned batch passes validation. */
  predicate RunSucceeds(filename: string, env: Steps)
  {
    Cleaned(filename, env) && ValidBatch(CleanBatch(filename, env), env.now) && env.loadFault.None?
  }

  /** `s` starts with the prefix of the messages of runs that raised. */
  predicate IsFailureMessage(s: string)
  {
    FailurePrefix <= s
  }

  /** A message built from the failure prefix is never the validation-failure message. */
  lemma FailureMessageIsNotValidationMessage(e: string)
    ensures FailurePrefix + e != ValidationFailedMessage
  {
    assert (FailurePrefix + e)[0] == 'E' && ValidationFailedMessage[0] == 'D';
  }

  // ---------------------------------------------------------------------------
  // Where a run stops, and what it leaves behind
  // ---------------------------------------------------------------------------

  /**
   * Where a run of `etl_pipeline` ends: in the step that raised (with the text of the error),
   * with the batch rejected by validation, or at the end of the load step.
   */
  datatype Stop =
    | ExtractFailed(error: string)
    | TransformFailed(error: string)
    | Rejected
    | LoadFailed(error: string)
    | Finished

  /** Where a run that reaches the load step stops. */
  function LoadOutcome(env: Steps): Stop
  {
    if env.loadFault.Some? then LoadFailed(env.loadFault.value) else Finished
  }

  /** Where a run that reaches validation with the cleaned batch `data` stops. */
  function LoadStop(data: seq<Row>, env: Steps): Stop
  {
    if !ValidateData(data, env.now) then Rejected else LoadOutcome(env)
  }

  /** Where a run that has extracted the rows `raw` stops. */
  function TransformStop(raw: seq<RawRow>, env: Steps): Stop
  {
    if env.typingFault.Some? then TransformFailed(env.typingFault.value)
    else LoadStop(TransformData(raw, env.parse), env)
  }

  /** Where a run on `filename` stops. */
  function RunStop(filename: string, env: Steps): Stop
  {
    match env.readCsv(DataDir + filename)
    case Err(e) => ExtractFailed(e)
    case Ok(raw) => TransformStop(raw, env)
  }

  /** The terminal status of a run that stops at `stop`. */
  function FinalStatus(stop: Stop): Status
  {
    if stop.Finished? then Completed else Failed
  }

  /** The last message a run that stops at `stop` writes. */
  function FinalMessage(stop: Stop): string
  {
    match stop
    case Rejected => ValidationFailedMessage
    case Finished => CompletedMessage
    case _ => FailurePrefix + stop.error
  }

  /** The job record a run that stops at `stop` leaves behind, given the record it started from. */
  function Ending(job: Job, stop: Stop): Job
  {
    job.(status := FinalStatus(stop), message := FinalMessage(stop), progress := 100)
  }

  /**
   * What a run leaves in the job's record: only status, progress and message change; the run
   * always ends terminal at progress 100; it completes, with the success message, exactly when
   * no step raises and the batch is valid; the validation-failure message appears exactly when
   * the batch is rejected; every other failure carries the failure prefix.
   */
  lemma EndingOfRun(job: Job, filename: string, env: Steps)
    ensures var r := Ending(job, RunStop(filename, env));
      && r == job.(status := r.status, progress := r.progress, message := r.message)
      && r.progress == 100 && r.status != Running
      && (r.status == Completed <==> RunSucceeds(filename, env))
      && (r.status == Completed ==> r.message == CompletedMessage)
      && (r.message == ValidationFailedMessage <==> RejectedByValidation(filename, env))
      && (r.status == Failed && !RejectedByValidation(filename, env) ==> IsFailureMessage(r.message))
  {
    var stop := RunStop(filename, env);
    if Cleaned(filename, env) {
      ValidateDataMeans(CleanBatch(filename, env), env.now);
    }
    if stop.ExtractFailed? || stop.TransformFailed? || stop.LoadFailed? {
      FailureMessageIsNotValidationMessage(stop.error);
    }
  }

  // ---------------------------------------------------------------------------
  // The writes of a run
  // ---------------------------------------------------------------------------

  /** The four steps of a run, in the order the pipeline takes them. */
  datatype Stage = Extract | Transform | Validate | Load

  const AllStages := [Extract, Transform, Validate, Load]

  /** The message written when step `s` starts. */
  function StageMessage(s: Stage): string
  {
    match s
    case Extract => ExtractingMessage
    case Transform => TransformingMessage
    case Validate => ValidatingMessage
    case Load => LoadingMessage
  }

  /** The messages written when the steps `stages` start, in order. */
  function StageMessages(stages: seq<Stage>): seq<string>
    decreases |stages|
  {
    if |stages| == 0 then [] else [StageMessage(stages[0])] + StageMessages(stages[1..])
  }

  /** The writes of `RecordFailure` and `RecordRejection`, whose message is `m`. */
  function FailureWrites(jobId: string, m: string): seq<Write>
  {
    [StatusWrite(jobId, Failed), MessageWrite(jobId, m), ProgressWrite(jobId, 100)]
  }

  /** The writes that close a load that succeeds. */
  function CompletionWrites(jobId: string): seq<Write>
  {
    [ProgressWrite(jobId, 100), StatusWrite(jobId, Completed), MessageWrite(jobId, CompletedMessage)]
  }

  /** The writes of the load step, and of the run's end, for a run that stops at `stop`. */
  function LoadWrites(jobId: string, stop: Stop): seq<Write>
  {
    [MessageWrite(jobId, LoadingMessage)] +
      if stop.LoadFailed? then FailureWrites(jobId, FailurePrefix + stop.error) else CompletionWrites(jobId)
  }

  /** The writes of the validate step and those after it. */
  function ValidateWrites(jobId: string, stop: Stop): seq<Write>
  {
    [MessageWrite(jobId, ValidatingMessage)] +
      if stop.Rejected? then FailureWrites(jobId, ValidationFailedMessage)
      else [ProgressWrite(jobId, 75)] + LoadWrites(jobId, stop)
  }

  /** The writes of the transform step and those after it. */
  function TransformWrites(jobId: string, stop: Stop): seq<Write>
  {
    [MessageWrite(jobId, TransformingMessage)] +
      if stop.TransformFailed? then FailureWrites(jobId, FailurePrefix + stop.error)
      else [ProgressWrite(jobId, 50)] + ValidateWrites(jobId, stop)
  }

  /** The writes of the extract step and those after it: all the writes of a run. */
  function ExtractWrites(jobId: string, stop: Stop): seq<Write>
  {
    [MessageWrite(jobId, ExtractingMessage)] +
      if stop.ExtractFailed? then FailureWrites(jobId, FailurePrefix + stop.error)
      else [ProgressWrite(jobId, 25)] + TransformWrites(jobId, stop)
  }

  /** The progress values a run that stops at `stop` writes from the start of step `from` on. */
  function ProgressFrom(stop: Stop, from: Stage): seq<int>
  {
    var load := [100];
    var validate := if stop.Rejected? then [100] else [75] + load;
    var transform := if stop.TransformFailed? then [100] else [50] + validate;
    var extract := if stop.ExtractFailed? then [100] else [25] + transform;
    match from
    case Extract => extract
    case Transform => transform
    case Validate => validate
    case Load => load
  }

  /** The steps a run that stops at `stop` starts from step `from` on. */
  function StagesFrom(stop: Stop, from: Stage): seq<Stage>
  {
    var load := [Load];
    var validate := [Validate] + (if stop.Rejected? then [] else load);
    var transform := [Transform] + (if stop.TransformFailed? then [] else validate);
    var extract := [Extract] + (if stop.ExtractFailed? then [] else transform);
    match from
    case Extract => extract
    case Transform => transform
    case Validate => validate
    case Load => load
  }

  /** The writes that end a run that stops at `stop`. */
  function Closing(jobId: string, stop: Stop): seq<Write>
  {
    if stop.Finished? then CompletionWrites(jobId) else FailureWrites(jobId, FinalMessage(stop))
  }

  /**
   * The closing writes go to entry `jobId`, write progress 100 and the terminal status once each,
   * end with the run's last message, and leave what `Ending` says.
   */
  lemma ClosingMeans(job: Job, jobId: string, stop: Stop)
    ensures var ws := Closing(jobId, stop);
      && Entries(ws) == {jobId}
      && ProgressValues(ws) == [100]
      && StatusValues(ws) == [FinalStatus(stop)]
      && MessageValues(ws) == [FinalMessage(stop)]
      && Replay(job, ws) == Ending(job, stop)
  {
    var ws := Closing(jobId, stop);
    assert ws == [ws[0]] + ([ws[1]] + ([ws[2]] + []));
    ConsWrites(job, ws[0], [ws[1]] + ([ws[2]] + []));
    ConsWrites(ApplyWrite(job, ws[0]), ws[1], [ws[2]] + []);
    ConsWrites(ApplyWrite(ApplyWrite(job, ws[0]), ws[1]), ws[2], []);
  }

  /**
   * The writes of a step the run goes on from: the step's message, the progress value `p`, then
   * the writes `next` of the following steps.
   */
  lemma PassStep(job: Job, jobId: string, m: string, p: int, next: seq<Write>)
    ensures var ws := [MessageWrite(jobId, m)] + ([ProgressWrite(jobId, p)] + next);
      && ProgressValues(ws) == [p] + ProgressValues(next)
      && StatusValues(ws) == StatusValues(next)
      && MessageValues(ws) == [m] + MessageValues(next)
      && Replay(job, ws) == Replay(job.(message := m, progress := p), next)
  {
  }

  /** The writes of the step the run stops in: the step's message, then the closing writes. */
  lemma StopStep(job: Job, jobId: string, m: string, stop: Stop)
    ensures var ws := [MessageWrite(jobId, m)] + Closing(jobId, stop);
      && Entries(ws) == {jobId}
      && ProgressValues(ws) == [100]
      && StatusValues(ws) == [FinalStatus(stop)]
      && MessageValues(ws) == [m, FinalMessage(stop)]
      && Replay(job, ws) == Ending(job, stop)
  {
    ConsWrites(job, MessageWrite(jobId, m), Closing(jobId, stop));
    ClosingMeans(job.(message := m), jobId, stop);
  }

  /**
   * The writes `ws` of a run that stops at `stop` go to entry `jobId` only; their progress values
   * are `progress`; they write the status exactly once, with the run's terminal status; their
   * messages are those of the steps `stages`, in order, then the run's last message; and replayed
   * on `job` they leave what `Ending` says.
   */
  predicate Describes(ws: seq<Write>, job: Job, jobId: string, stop: Stop, progress: seq<int>, stages: seq<Stage>)
  {
    && Entries(ws) == {jobId}
    && ProgressValues(ws) == progress
    && StatusValues(ws) == [FinalStatus(stop)]
    && MessageValues(ws) == StageMessages(stages) + [FinalMessage(stop)]
    && Replay(job, ws) == Ending(job, stop)
  }

  /** A run's end overwrites the message and progress it started from. */
  lemma EndingForgets(job: Job, m: string, p: int, stop: Stop)
    ensures Ending(job.(message := m, progress := p), stop) == Ending(job, stop)
  {
  }

  /** A run that goes on past a step writes that step's milestone and starts the next step. */
  lemma GoOn(stop: Stop)
    ensures !stop.ExtractFailed? ==>
      && ProgressFrom(stop, Extract) == [25] + ProgressFrom(stop, Transform)
      && StagesFrom(stop, Extract) == [Extract] + StagesFrom(stop, Transform)
    ensures !stop.ExtractFailed? && !stop.TransformFailed? ==>
      && ProgressFrom(stop, Transform) == [50] + ProgressFrom(stop, Validate)
      && StagesFrom(stop, Transform) == [Transform] + StagesFrom(stop, Validate)
    ensures (stop.LoadFailed? || stop.Finished?) ==>
      && ProgressFrom(stop, Validate) == [75] + ProgressFrom(stop, Load)
      && StagesFrom(stop, Validate) == [Validate] + StagesFrom(stop, Load)
  {
  }

  /** The step messages of `[s] + rest` are that of `s`, then those of `rest`. */
  lemma ConsStages(s: Stage, rest: seq<Stage>)
    ensures StageMessages([s] + rest) == [StageMessage(s)] + StageMessages(rest)
  {
  }

  /**
   * A step `s` the run goes on from: its message and milestone `p` in front of writes `next` that
   * describe the rest of the run from the record those two leave.
   */
  lemma DescribesStep(ws: seq<Write>, next: seq<Write>, job: Job, jobId: string, s: Stage, p: int,
                      stop: Stop, progress: seq<int>, stages: seq<Stage>)
    requires ws == [MessageWrite(jobId, StageMessage(s))] + ([ProgressWrite(jobId, p)] + next)
    requires Describes(next, job.(message := StageMessage(s), progress := p), jobId, stop, progress, stages)
    ensures Describes(ws, job, jobId, stop, [p] + progress, [s] + stages)
  {
  }

  /** The writes of the load step, for a run that reaches it. */
  lemma LoadWritesMean(job: Job, jobId: string, stop: Stop)
    requires stop.LoadFailed? || stop.Finished?
    ensures Describes(LoadWrites(jobId, stop), job, jobId, stop, ProgressFrom(stop, Load), StagesFrom(stop, Load))
  {
    assert LoadWrites(jobId, stop) == [MessageWrite(jobId, LoadingMessage)] + Closing(jobId, stop);
    StopStep(job, jobId, LoadingMessage, stop);
  }

  /** The writes from the validate step on, for a run that reaches it. */
  lemma ValidateWritesMean(job: Job, jobId: string, stop: Stop)
    requires stop.Rejected? || stop.LoadFailed? || stop.Finished?
    ensures Describes(ValidateWrites(jobId, stop), job, jobId, stop, ProgressFrom(stop, Validate), StagesFrom(stop, Validate))
  {
    if stop.Rejected? {
      assert ValidateWrites(jobId, stop) == [MessageWrite(jobId, ValidatingMessage)] + Closing(jobId, stop);
      StopStep(job, jobId, ValidatingMessage, stop);
    } else {
      LoadWritesMean(job.(message := ValidatingMessage, progress := 75), jobId, stop);
      GoOn(stop);
      DescribesStep(ValidateWrites(jobId, stop), LoadWrites(jobId, stop), job, jobId, Validate, 75,
        stop, ProgressFrom(stop, Load), StagesFrom(stop, Load));
    }
  }

  /** The writes from the transform step on, for a run that reaches it. */
  lemma TransformWritesMean(job: Job, jobId: string, stop: Stop)
    requires !stop.ExtractFailed?
    ensures Describes(TransformWrites(jobId, stop), job, jobId, stop, ProgressFrom(stop, Transform), StagesFrom(stop, Transform))
  {
    if stop.TransformFailed? {
      assert TransformWrites(jobId, stop) == [MessageWrite(jobId, TransformingMessage)] + Closing(jobId, stop);
      StopStep(job, jobId, TransformingMessage, stop);
    } else {
      ValidateWritesMean(job.(message := TransformingMessage, progress := 50), jobId, stop);
      GoOn(stop);
      DescribesStep(TransformWrites(jobId, stop), ValidateWrites(jobId, stop), job, jobId, Transform, 50,
        stop, ProgressFrom(stop, Validate), StagesFrom(stop, Validate));
    }
  }

  /** All the writes of a run. */
  lemma ExtractWritesMean(job: Job, jobId: string, stop: Stop)
    ensures Describes(ExtractWrites(jobId, stop), job, jobId, stop, ProgressFrom(stop, Extract), StagesFrom(stop, Extract))
  {
    if stop.ExtractFailed? {
      assert ExtractWrites(jobId, stop) == [MessageWrite(jobId, ExtractingMessage)] + Closing(jobId, stop);
      StopStep(job, jobId, ExtractingMessage, stop);
    } else {
      TransformWritesMean(job.(message := ExtractingMessage, progress := 25), jobId, stop);
      GoOn(stop);
      DescribesStep(ExtractWrites(jobId, stop), TransformWrites(jobId, stop), job, jobId, Extract, 25,
        stop, ProgressFrom(stop, Transform), StagesFrom(stop, Transform));
    }
  }

  /** The progress values a run may write, in increasing order. */
  const Milestones := [25, 50, 75, 100]

  /** Progress values written by a run: each a milestone, each larger than the one before, the last 100. */
  predicate ProgressWrites(written: seq<int>)
  {
    && |written| >= 1
    && (forall i :: 0 <= i < |written| ==> written[i] in Milestones)
    && (forall i, j :: 0 <= i < j < |written| ==> written[i] < written[j])
    && written[|written| - 1] == 100
  }

  /** Every run writes increasing milestones ending with 100. */
  lemma ProgressIncreases(stop: Stop)
    ensures ProgressWrites(ProgressFrom(stop, Extract))
  {
  }

  /**
   * What the writes of a whole run say: all go to the run's entry; the progress values written
   * are increasing milestones ending with 100; the entry's status is written exactly once, with a
   * terminal status (so it stays running until then); the messages are one per step started, in
   * order, then the run's last message; replayed on the submitted record they leave the record
   * `Ending` describes.
   */
  lemma WritesOfRun(job: Job, jobId: string, stop: Stop)
    ensures var ws := ExtractWrites(jobId, stop);
      && Entries(ws) == {jobId}
      && ProgressValues(ws) == ProgressFrom(stop, Extract) && ProgressWrites(ProgressValues(ws))
      && StatusValues(ws) == [FinalStatus(stop)] && FinalStatus(stop) != Running
      && MessageValues(ws) == StageMessages(StagesFrom(stop, Extract)) + [FinalMessage(stop)]
      && Replay(job, ws) == Ending(job, stop)
  {
    ExtractWritesMean(job, jobId, stop);
    ProgressIncreases(stop);
  }

  /** The steps started before stopping at `stop`: a non-empty prefix, reaching the load step exactly when the batch was valid. */
  lemma StagesOfStop(stop: Stop)
    ensures var reached := StagesFrom(stop, Extract);
      && 1 <= |reached| && reached <= AllStages
      && (Load in reached <==> stop.LoadFailed? || stop.Finished?)
  {
  }

  /**
   * Every run starts a prefix of the four steps, at least the extract step; the load step is
   * started exactly when the file is read and cleaned and the cleaned batch is valid, and the
   * run is rejected exactly when the cleaned batch is not valid.
   */
  lemma StepsOfRun(filename: string, env: Steps)
    ensures var reached := StagesFrom(RunStop(filename, env), Extract);
      && 1 <= |reached| && reached <= AllStages
      && (Load in reached <==> Cleaned(filename, env) && ValidBatch(CleanBatch(filename, env), env.now))
      && (RunStop(filename, env) == Rejected <==> RejectedByValidation(filename, env))
  {
    StagesOfStop(RunStop(filename, env));
    if Cleaned(filename, env) {
      ValidateDataMeans(CleanBatch(filename, env), env.now);
    }
  }

  // ---------------------------------------------------------------------------
  // etl_pipeline
  // ---------------------------------------------------------------------------

  /** Appending a step's message, its milestone and then `rest` appends the step's writes. */
  lemma GoOnWrites(log: seq<Write>, m: Write, p: Write, rest: seq<Write>)
    ensures log + [m] + [p] + rest == log + ([m] + ([p] + rest))
  {
  }

  /** The four single writes of a load that succeeds, appended one by one. */
  lemma FinishWrites(log: seq<Write>, m: Write, rest: seq<Write>)
    requires |rest| == 3
    ensures log + [m] + [rest[0]] + [rest[1]] + [rest[2]] == log + ([m] + rest)
  {
  }

  /**
   * The `except` branch of `etl_pipeline`: the entry is marked failed, its message becomes the
   * failure prefix followed by the error text, and its progress becomes 100, in that order.
   */
  method RecordFailure(registry: JobRegistry, jobId: string, error: string)
    requires jobId in registry.jobs
    modifies registry
    ensures registry.jobs.Keys == old(registry.jobs).Keys
    ensures registry.jobs[jobId] == old(registry.jobs[jobId]).(status := Failed, message := FailurePrefix + error, progress := 100)
    ensures forall k :: k in registry.jobs && k != jobId ==> registry.jobs[k] == old(registry.jobs[k])
    ensures registry.log == old(registry.log) + FailureWrites(jobId, FailurePrefix + error)
    ensures old(registry.Valid()) ==> registry.Valid()
  {
    registry.SetStatus(jobId, Failed);
    registry.SetMessage(jobId, FailurePrefix + error);
    registry.SetProgress(jobId, 100);
  }

  /**
   * The branch of `etl_pipeline` taken when validation fails: the entry is marked failed, its
   * message becomes the validation-failure message, and its progress becomes 100, in that order.
   */
  method RecordRejection(registry: JobRegistry, jobId: string)
    requires jobId in registry.jobs
    modifies registry
    ensures registry.jobs.Keys == old(registry.jobs).Keys
    ensures registry.jobs[jobId] == old(registry.jobs[jobId]).(status := Failed, message := ValidationFailedMessage, progress := 100)
    ensures forall k :: k in registry.jobs && k != jobId ==> registry.jobs[k] == old(registry.jobs[k])
    ensures registry.log == old(registry.log) + FailureWrites(jobId, ValidationFailedMessage)
    ensures old(registry.Valid()) ==> registry.Valid()
  {
    registry.SetStatus(jobId, Failed);
    registry.SetMessage(jobId, ValidationFailedMessage);
    registry.SetProgress(jobId, 100);
  }

  /** The load step of `etl_pipeline` and the writes that close a run that gets there. */
  method LoadAndFinish(registry: JobRegistry, jobId: string, env: Steps)
    requires jobId in registry.jobs
    modifies registry
    ensures registry.jobs.Keys == old(registry.jobs).Keys
    ensures registry.jobs[jobId] == Ending(old(registry.jobs[jobId]), LoadOutcome(env))
    ensures forall k :: k in registry.jobs && k != jobId ==> registry.jobs[k] == old(registry.jobs[k])
    ensures registry.log == old(registry.log) + LoadWrites(jobId, LoadOutcome(env))
    ensures old(registry.Valid()) ==> registry.Valid()
  {
    registry.SetMessage(jobId, LoadingMessage);
    if env.loadFault.Some? {
      RecordFailure(registry, jobId, env.loadFault.value);
      return;
    }
    registry.SetProgress(jobId, 100);

    registry.SetStatus(jobId, Completed);
    registry.SetMessage(jobId, CompletedMessage);
    FinishWrites(old(registry.log), MessageWrite(jobId, LoadingMessage), CompletionWrites(jobId));
  }

  /** The validate and load steps of `etl_pipeline`, on the cleaned batch `data`. */
  method ValidateAndLoad(registry: JobRegistry, jobId: string, data: seq<Row>, env: Steps)
    requires jobId in registry.jobs
    modifies registry
    ensures registry.jobs.Keys == old(registry.jobs).Keys
    ensures registry.jobs[jobId] == Ending(old(registry.jobs[jobId]), LoadStop(data, env))
    ensures forall k :: k in registry.jobs && k != jobId ==> registry.jobs[k] == old(registry.jobs[k])
    ensures registry.log == old(registry.log) + ValidateWrites(jobId, LoadStop(data, env))
    ensures old(registry.Valid()) ==> registry.Valid()
  {
    registry.SetMessage(jobId, ValidatingMessage);
    var isValid := ValidateData(data, env.now);
    if !isValid {
      RecordRejection(registry, jobId);
      return;
    }
    registry.SetProgress(jobId, 75);
    LoadAndFinish(registry, jobId, env);
    GoOnWrites(old(registry.log), MessageWrite(jobId, ValidatingMessage), ProgressWrite(jobId, 75),
      LoadWrites(jobId, LoadOutcome(env)));
  }

  /** The transform step of `etl_pipeline` and the steps after it, on the extracted rows `raw`. */
  method TransformAndLoad(registry: JobRegistry, jobId: string, raw: seq<RawRow>, env: Steps)
    requires jobId in registry.jobs
    modifies registry
    ensures registry.jobs.Keys == old(registry.jobs).Keys
    ensures registry.jobs[jobId] == Ending(old(registry.jobs[jobId]), TransformStop(raw, env))
    ensures forall k :: k in registry.jobs && k != jobId ==> registry.jobs[k] == old(registry.jobs[k])
    ensures registry.log == old(registry.log) + TransformWrites(jobId, TransformStop(raw, env))
    ensures old(registry.Valid()) ==> registry.Valid()
  {
    registry.SetMessage(jobId, TransformingMessage);
    if env.typingFault.Some? {
      RecordFailure(registry, jobId, env.typingFault.value);
      return;
    }
    var data := TransformData(raw, env.parse);
    registry.SetProgress(jobId, 50);
    ValidateAndLoad(registry, jobId, data, env);
    GoOnWrites(old(registry.log), MessageWrite(jobId, TransformingMessage), ProgressWrite(jobId, 50),
      ValidateWrites(jobId, LoadStop(data, env)));
  }

  /**
   * `etl_pipeline`: runs the steps in order, writing message and progress to the job's entry
   * as it goes and a terminal status at the end; no other entry changes. The writes it makes are
   * `ExtractWrites(jobId, RunStop(filename, env))`, and the entry ends as `Ending` says for
   * where `RunStop` says the run ends.
   */
  method EtlPipeline(filename: string, registry: JobRegistry, jobId: string, env: Steps)
    requires jobId in registry.jobs
    modifies registry
    ensures registry.jobs.Keys == old(registry.jobs).Keys
    ensures registry.jobs[jobId] == Ending(old(registry.jobs[jobId]), RunStop(filename, env))
    ensures forall k :: k in registry.jobs && k != jobId ==> registry.jobs[k] == old(registry.jobs[k])
    ensures registry.log == old(registry.log) + ExtractWrites(jobId, RunStop(filename, env))
    ensures old(registry.Valid()) ==> registry.Valid()
  {
    registry.SetMessage(jobId, ExtractingMessage);
    var extracted := env.readCsv(DataDir + filename);
    if extracted.Err? {
      RecordFailure(registry, jobId, extracted.error);
      return;
    }
    registry.SetProgress(jobId, 25);
    TransformAndLoad(registry, jobId, extracted.value, env);
    GoOnWrites(old(registry.log), MessageWrite(jobId, ExtractingMessage), ProgressWrite(jobId, 25),
      TransformWrites(jobId, TransformStop(extracted.value, env)));
  }
}
