/**
 * The ETL service's in-memory job registry: a dictionary from job id to job record, written by
 * job submission and by the pipeline, read by the status and detail endpoints.
 */
module Jobs {
  import opened Wrappers

  /** The `status` entry of a job record: "running", "completed" or "failed". */
  datatype Status = Running | Completed | Failed

  /** One job record of the registry, with the keys a submission stores. */
  datatype Job = Job(
    jobId: string,
    filename: string,
    studyId: Option<string>,
    status: Status,
    progress: int,
    message: string)

  /** The body of a job submission. */
  datatype JobRequest = JobRequest(jobId: string, filename: string, studyId: Option<string>)

  /** The answer to an accepted submission. */
  datatype JobResponse = JobResponse(jobId: string, status: Status, message: string)

  /** The answer to a status lookup. */
  datatype JobStatus = JobStatus(jobId: string, status: Status, progress: int, message: string)

  /** An HTTP error raised by an endpoint: its status code and detail text. */
  datatype HttpError = HttpError(statusCode: int, detail: string)

  const DuplicateJob := HttpError(400, "Job ID already exists")
  const JobNotFound := HttpError(404, "Job not found")

  /** One write to one field of one registry entry, as `jobs[job_id][field] = value`. */
  datatype Write =
    | MessageWrite(jobId: string, message: string)
    | ProgressWrite(jobId: string, progress: int)
    | StatusWrite(jobId: string, status: Status)

  /** The record `w` leaves when applied to `job` (the entry it names is the caller's concern). */
  function ApplyWrite(job: Job, w: Write): Job
  {
    match w
    case MessageWrite(_, m) => job.(message := m)
    case ProgressWrite(_, p) => job.(progress := p)
    case StatusWrite(_, s) => job.(status := s)
  }

  /** The record the writes `ws` leave when applied to `job` in order. */
  function Replay(job: Job, ws: seq<Write>): Job
    decreases |ws|
  {
    if |ws| == 0 then job else Replay(ApplyWrite(job, ws[0]), ws[1..])
  }

  /** The entries the writes `ws` go to. */
  function Entries(ws: seq<Write>): set<string>
    decreases |ws|
  {
    if |ws| == 0 then {} else {ws[0].jobId} + Entries(ws[1..])
  }

  /** The progress values among the writes `ws`, in order. */
  function ProgressValues(ws: seq<Write>): seq<int>
    decreases |ws|
  {
    if |ws| == 0 then []
    else (if ws[0].ProgressWrite? then [ws[0].progress] else []) + ProgressValues(ws[1..])
  }

  /** The status values among the writes `ws`, in order. */
  function StatusValues(ws: seq<Write>): seq<Status>
    decreases |ws|
  {
    if |ws| == 0 then []
    else (if ws[0].StatusWrite? then [ws[0].status] else []) + StatusValues(ws[1..])
  }

  /** The messages among the writes `ws`, in order. */
  function MessageValues(ws: seq<Write>): seq<string>
    decreases |ws|
  {
    if |ws| == 0 then []
    else (if ws[0].MessageWrite? then [ws[0].message] else []) + MessageValues(ws[1..])
  }

  /** Reading the writes `[w] + ws` is reading `w` and then `ws`. */
  lemma ConsWrites(job: Job, w: Write, ws: seq<Write>)
    ensures Replay(job, [w] + ws) == Replay(ApplyWrite(job, w), ws)
    ensures Entries([w] + ws) == {w.jobId} + Entries(ws)
    ensures ProgressValues([w] + ws) == (if w.ProgressWrite? then [w.progress] else []) + ProgressValues(ws)
    ensures StatusValues([w] + ws) == (if w.StatusWrite? then [w.status] else []) + StatusValues(ws)
    ensures MessageValues([w] + ws) == (if w.MessageWrite? then [w.message] else []) + MessageValues(ws)
  {
  }

  /** The record a submission stores: running, progress 0, message "Job started". */
  function InitialJob(req: JobRequest): Job
  {
    Job(req.jobId, req.filename, req.studyId, Running, 0, "Job started")
  }

  /** The writes among `ws` that go to entry `k`, in order. */
  function WritesTo(ws: seq<Write>, k: string): seq<Write>
    decreases |ws|
  {
    if |ws| == 0 then []
    else (if ws[0].jobId == k then [ws[0]] else []) + WritesTo(ws[1..], k)
  }

  /** The writes to entry `k` among `ws + [w]` are those among `ws`, then `w` if it goes to `k`. */
  lemma {:induction false} WritesToSnoc(ws: seq<Write>, w: Write, k: string)
    ensures WritesTo(ws + [w], k) == WritesTo(ws, k) + (if w.jobId == k then [w] else [])
    decreases |ws|
  {
    var last := if w.jobId == k then [w] else [];
    if |ws| == 0 {
      assert ws + [w] == [w] && [w][1..] == [];
      assert WritesTo([w], k) == last + WritesTo([], k);
    } else {
      var first := if ws[0].jobId == k then [ws[0]] else [];
      assert (ws + [w])[0] == ws[0];
      assert (ws + [w])[1..] == ws[1..] + [w];
      WritesToSnoc(ws[1..], w, k);
      calc {
        WritesTo(ws + [w], k);
        first + WritesTo(ws[1..] + [w], k);
        first + (WritesTo(ws[1..], k) + last);
        (first + WritesTo(ws[1..], k)) + last;
        WritesTo(ws, k) + last;
      }
    }
  }

  /** The entries `ws + [w]` writes are those `ws` writes and `w`'s. */
  lemma {:induction false} EntriesSnoc(ws: seq<Write>, w: Write)
    ensures Entries(ws + [w]) == Entries(ws) + {w.jobId}
    decreases |ws|
  {
    if |ws| == 0 {
      assert ws + [w] == [w];
    } else {
      assert (ws + [w])[1..] == ws[1..] + [w];
      EntriesSnoc(ws[1..], w);
    }
  }

  /** Replaying `ws + [w]` is replaying `ws` and then applying `w`. */
  lemma {:induction false} ReplaySnoc(job: Job, ws: seq<Write>, w: Write)
    ensures Replay(job, ws + [w]) == ApplyWrite(Replay(job, ws), w)
    decreases |ws|
  {
    if |ws| == 0 {
      assert ws + [w] == [w];
    } else {
      assert (ws + [w])[1..] == ws[1..] + [w];
      ReplaySnoc(ApplyWrite(job, ws[0]), ws[1..], w);
    }
  }

  /** No write goes to an entry that no write names. */
  lemma {:induction false} NoWritesTo(ws: seq<Write>, k: string)
    requires k !in Entries(ws)
    ensures WritesTo(ws, k) == []
    decreases |ws|
  {
    if |ws| != 0 {
      NoWritesTo(ws[1..], k);
    }
  }

  /**
   * The registry `jobs` agrees with the log: each entry is the record it was submitted with
   * (`submitted`) after the logged writes to it, and every logged write went to an entry.
   */
  ghost predicate Consistent(jobs: map<string, Job>, submitted: map<string, Job>, log: seq<Write>)
  {
    && submitted.Keys == jobs.Keys
    && Entries(log) <= jobs.Keys
    && forall k {:trigger WritesTo(log, k)} :: k in jobs ==> jobs[k] == Replay(submitted[k], WritesTo(log, k))
  }

  /** A new entry stored under an unused id keeps the registry consistent with the log. */
  lemma SubmitKeepsConsistent(jobs: map<string, Job>, submitted: map<string, Job>, log: seq<Write>, id: string, job: Job)
    requires Consistent(jobs, submitted, log) && id !in jobs
    ensures Consistent(jobs[id := job], submitted[id := job], log)
  {
    NoWritesTo(log, id);
  }

  /** Applying a write to the entry it names, and logging it, keeps the registry consistent. */
  lemma WriteKeepsConsistent(jobs: map<string, Job>, submitted: map<string, Job>, log: seq<Write>, w: Write)
    requires Consistent(jobs, submitted, log) && w.jobId in jobs
    ensures Consistent(jobs[w.jobId := ApplyWrite(jobs[w.jobId], w)], submitted, log + [w])
  {
    var jobs' := jobs[w.jobId := ApplyWrite(jobs[w.jobId], w)];
    forall k | k in jobs'
      ensures jobs'[k] == Replay(submitted[k], WritesTo(log + [w], k))
    {
      WritesToSnoc(log, w, k);
      if k == w.jobId {
        ReplaySnoc(submitted[k], WritesTo(log, k), w);
      } else {
        assert WritesTo(log, k) + [] == WritesTo(log, k);
      }
    }
    EntriesSnoc(log, w);
  }

  class JobRegistry {
    /** The `jobs` dictionary. */
    var jobs: map<string, Job>
    /** The field writes made to entries so far, oldest first. */
    ghost var log: seq<Write>
    /** The record each entry was stored with when its job was submitted. */
    ghost var submitted: map<string, Job>

    /** Every entry is its submitted record with the logged writes to it applied. */
    ghost predicate Valid()
      reads this
    {
      Consistent(jobs, submitted, log)
    }

    constructor ()
      ensures jobs == map[] && log == []
      ensures Valid()
    {
      jobs := map[];
      log := [];
      submitted := map[];
    }

    /**
     * `submit_job`: an id already present is rejected with 400 and nothing changes; otherwise
     * exactly one entry, keyed by the id, is added and the response echoes the id as running.
     * Starting the pipeline task is not part of this method (see Pipeline.EtlPipeline).
     */
    method SubmitJob(req: JobRequest) returns (r: Result<JobResponse, HttpError>)
      modifies this
      ensures req.jobId in old(jobs) ==> r == Err(DuplicateJob) && jobs == old(jobs)
      ensures req.jobId !in old(jobs) ==>
        && r == Ok(JobResponse(req.jobId, Running, "Job submitted successfully"))
        && jobs == old(jobs)[req.jobId := InitialJob(req)]
      ensures log == old(log)
      ensures old(Valid()) ==> Valid()
    {
      if req.jobId in jobs {
        return Err(DuplicateJob);
      }
      if Valid() {
        SubmitKeepsConsistent(jobs, submitted, log, req.jobId, InitialJob(req));
      }
      submitted := submitted[req.jobId := InitialJob(req)];
      jobs := jobs[req.jobId := InitialJob(req)];
      r := Ok(JobResponse(req.jobId, Running, "Job submitted successfully"));
    }

    /** `get_job_status`: 404 for an unknown id, else the stored status, progress and message. */
    method GetJobStatus(jobId: string) returns (r: Result<JobStatus, HttpError>)
      ensures r.Err? <==> jobId !in jobs
      ensures r.Err? ==> r.error == JobNotFound
      ensures r.Ok? ==>
        && r.value.jobId == jobId
        && r.value.status == jobs[jobId].status
        && r.value.progress == jobs[jobId].progress
        && r.value.message == jobs[jobId].message
    {
      if jobId !in jobs {
        return Err(JobNotFound);
      }
      var job := jobs[jobId];
      r := Ok(JobStatus(jobId, job.status, job.progress, job.message));
    }

    /** `get_job_details`: 404 for an unknown id, else the whole stored record. */
    method GetJobDetails(jobId: string) returns (r: Result<Job, HttpError>)
      ensures r.Err? <==> jobId !in jobs
      ensures r.Err? ==> r.error == JobNotFound
      ensures r.Ok? ==> r.value == jobs[jobId]
    {
      if jobId !in jobs {
        return Err(JobNotFound);
      }
      r := Ok(jobs[jobId]);
    }

    /** `jobs[job_id]['message'] = m`: only that field of that entry changes, and the write is logged. */
    method SetMessage(jobId: string, m: string)
      requires jobId in jobs
      modifies this
      ensures jobs.Keys == old(jobs).Keys && jobs[jobId] == old(jobs[jobId]).(message := m)
      ensures forall k :: k in jobs && k != jobId ==> jobs[k] == old(jobs[k])
      ensures log == old(log) + [MessageWrite(jobId, m)]
      ensures old(Valid()) ==> Valid()
    {
      if Valid() {
        WriteKeepsConsistent(jobs, submitted, log, MessageWrite(jobId, m));
      }
      jobs := jobs[jobId := jobs[jobId].(message := m)];
      log := log + [MessageWrite(jobId, m)];
    }

    /** `jobs[job_id]['progress'] = p`: only that field of that entry changes, and the write is logged. */
    method SetProgress(jobId: string, p: int)
      requires jobId in jobs
      modifies this
      ensures jobs.Keys == old(jobs).Keys && jobs[jobId] == old(jobs[jobId]).(progress := p)
      ensures forall k :: k in jobs && k != jobId ==> jobs[k] == old(jobs[k])
      ensures log == old(log) + [ProgressWrite(jobId, p)]
      ensures old(Valid()) ==> Valid()
    {
      if Valid() {
        WriteKeepsConsistent(jobs, submitted, log, ProgressWrite(jobId, p));
      }
      jobs := jobs[jobId := jobs[jobId].(progress := p)];
      log := log + [ProgressWrite(jobId, p)];
    }

    /** `jobs[job_id]['status'] = s`: only that field of that entry changes, and the write is logged. */
    method SetStatus(jobId: string, s: Status)
      requires jobId in jobs
      modifies this
      ensures jobs.Keys == old(jobs).Keys && jobs[jobId] == old(jobs[jobId]).(status := s)
      ensures forall k :: k in jobs && k != jobId ==> jobs[k] == old(jobs[k])
      ensures log == old(log) + [StatusWrite(jobId, s)]
      ensures old(Valid()) ==> Valid()
    {
      if Valid() {
        WriteKeepsConsistent(jobs, submitted, log, StatusWrite(jobId, s));
      }
      jobs := jobs[jobId := jobs[jobId].(status := s)];
      log := log + [StatusWrite(jobId, s)];
    }
  }
}
