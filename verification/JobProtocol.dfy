/** The research job protocol: API, queue, worker and database as steps over committed state
    (tradegraph/src/graph/tasks.py, tradegraph/apps/api/routers/jobs.py, tradegraph/src/core/celery_app.py).

    One job is followed. A step is one commit, or one point at which the worker can be lost. The
    worker's long transaction is invisible until `CommitRun`. Delivery is at least once: a lost worker
    leaves the message in flight, and `Redeliver` puts it back in the queue. */
module JobProtocol {
  import opened Helpers

  const MAX_ERROR_MESSAGE_LENGTH: nat := 2000

  datatype Status = Pending | Running | Succeeded | Failed
  datatype JobRow = JobRow(status: Status, progress: Option<string>, error: Option<string>, insufficient: bool)

  datatype Kind = Claim | Evidence | Link | Citation
  datatype ChainRow = ChainRow(run: nat, kind: Kind)

  /** Everything committed about the job. A report is known by the delivery that wrote it. */
  datatype Db = Db(job: Option<JobRow>, chain: seq<ChainRow>, reports: seq<nat>)

  /** The worker's open transaction: whether it inserts the job row itself, and its evidence rows. */
  datatype Txn = Txn(insertsJob: bool, chain: seq<ChainRow>)

  datatype Worker =
    | Idle
    | Received                                  // the task body has started
    | Read(found: bool)                         // short session: job read, not yet committed
    | SettingUp                                 // clients are being constructed
    | Opening                                   // inside the guarded block
    | Researching(txn: Txn)
    | Returned(txn: Txn, insufficient: bool)    // run_research returned, commit still to come
    | Committed
    | Failing(error: string)                    // exception caught, FAILED not yet committed
    | Raised(recorded: bool)                    // the exception leaves the task
    | Lost(settled: bool)                       // died; settled: after the commit that ended the job
    | Acked

  datatype Message = NotSent | Queued | InFlight | Gone
  datatype Deletion = NoDelete | Deleting(chain: seq<ChainRow>, reports: seq<nat>)

  /** A final commit, for the history. */
  datatype Record = Record(run: nat, chain: seq<ChainRow>, insufficient: bool, said: Option<string>)

  /** `said` is the current delivery's last committed progress text. `log`, `erased` and `deleted`
      are history: the final commits so far, how many of them the last delete removed, and whether
      any delete committed. */
  datatype State = State(
    created: bool, db: Db, message: Message, worker: Worker, run: nat, deletion: Deletion,
    said: Option<string>, log: seq<Record>, erased: nat, deleted: bool)

  datatype Step =
    | Create | Enqueue
    | Deliver | ReadJob | ReadRaises | CommitRunning | SetUp | SetUpRaises | OpenRun
    | Progress(text: string) | AddRow(kind: Kind) | FinishRun(insufficient: bool)
    | CommitRun(unheard: Option<string>)          // unheard: it committed, but the worker sees this exception
    | RunRaises(error: string) | CommitFailed | FailureCommitRaises | Ack
    | Crash | Redeliver
    | BeginDelete | CommitDelete | AbortDelete

  const INIT := State(false, Db(None, [], []), NotSent, Idle, 0, NoDelete, None, [], 0, false)

  predicate Terminal(db: Db) {
    db.job.Some? && (db.job.value.status.Succeeded? || db.job.value.status.Failed?)
  }

  /** The job row the transaction's rows refer to is there. */
  predicate ParentPresent(s: State, txn: Txn) {
    txn.insertsJob || s.db.job.Some?
  }

  /** The transaction holds a lock on the job row, so a delete of that row waits for it. */
  predicate HoldsJobRow(w: Worker) {
    || (w.Researching? && !w.txn.insertsJob && w.txn.chain != [])
    || (w.Returned? && !w.txn.insertsJob)
  }

  predicate Settled(w: Worker) { w.Committed? || (w.Raised? && w.recorded) }

  predicate Enabled(s: State, step: Step) {
    match step
    case Create => !s.created
    case Enqueue => s.created && s.message.NotSent?
    case Deliver => s.message.Queued? && (s.worker.Idle? || s.worker.Lost?)
    case ReadJob => s.worker.Received?
    case ReadRaises => s.worker.Received? || s.worker.Read?
    case CommitRunning => s.worker.Read?
    case SetUp => s.worker.SettingUp?
    case SetUpRaises => s.worker.SettingUp?
    case OpenRun => s.worker.Opening?
    case Progress(_) => s.worker.Researching?
    case AddRow(_) => s.worker.Researching? && ParentPresent(s, s.worker.txn)
    case FinishRun(_) => s.worker.Researching? && ParentPresent(s, s.worker.txn)
    case CommitRun(_) => s.worker.Returned? && (s.worker.txn.insertsJob <==> s.db.job.None?)
    case RunRaises(_) => s.worker.Opening? || s.worker.Researching? || s.worker.Returned?
    case CommitFailed => s.worker.Failing?
    case FailureCommitRaises => s.worker.Failing?
    case Ack => s.worker.Committed? || s.worker.Raised?
    case Crash => !s.worker.Idle? && !s.worker.Lost? && !s.worker.Acked?
    case Redeliver => s.worker.Lost? && s.message.InFlight?
    case BeginDelete => s.deletion.NoDelete? && Terminal(s.db)
    case CommitDelete =>
      && s.deletion.Deleting? && s.db.job.Some? && !HoldsJobRow(s.worker)
      && s.db.chain == s.deletion.chain && s.db.reports == s.deletion.reports
    case AbortDelete => s.deletion.Deleting?
  }

  function WithJob(s: State, row: JobRow): State {
    s.(db := s.db.(job := Some(row)))
  }

  /** The message, or its first 2000 characters when it has more. */
  function Truncated(error: string): (r: string)
    ensures r <= error && (r == error <==> |error| <= 2000) && (|error| > 2000 ==> |r| == 2000)
  {
    if |error| <= MAX_ERROR_MESSAGE_LENGTH then error else error[..MAX_ERROR_MESSAGE_LENGTH]
  }

  function Apply(s: State, step: Step): State
    requires Enabled(s, step)
  {
    match step
    case Create => WithJob(s, JobRow(Pending, None, None, false)).(created := true)
    case Enqueue => s.(message := Queued)
    case Deliver => s.(message := InFlight, worker := Received, run := s.run + 1, said := None)
    case ReadJob => s.(worker := Read(s.db.job.Some?))
    case ReadRaises => s.(worker := Raised(false))                 // before or while committing RUNNING
    case CommitRunning =>
      if !s.worker.found then s.(worker := SettingUp)
      else if s.db.job.None? then s.(worker := Raised(false))      // the row vanished under the update
      else
        var row := s.db.job.value.(status := Running, progress := Some("Starting research"));
        WithJob(s, row).(worker := SettingUp, said := row.progress)
    case SetUp => s.(worker := Opening)
    case SetUpRaises => s.(worker := Raised(false))
    case OpenRun => s.(worker := Researching(Txn(s.db.job.None?, [])))
    case Progress(text) =>
      if s.db.job.None? then s
      else WithJob(s, s.db.job.value.(progress := Some(text))).(said := Some(text))
    case AddRow(kind) =>
      s.(worker := Researching(s.worker.txn.(chain := s.worker.txn.chain + [ChainRow(s.run, kind)])))
    case FinishRun(insufficient) => s.(worker := Returned(s.worker.txn, insufficient))
    case CommitRun(unheard) =>
      var txn, flag := s.worker.txn, s.worker.insufficient;
      var row := if txn.insertsJob then JobRow(Succeeded, None, None, flag)
                 else s.db.job.value.(status := Succeeded, insufficient := s.db.job.value.insufficient || flag);
      s.(db := Db(Some(row), s.db.chain + txn.chain, s.db.reports + [s.run]),
         worker := if unheard.Some? then Failing(unheard.value) else Committed,
         log := s.log + [Record(s.run, txn.chain, flag, s.said)])
    case RunRaises(error) => s.(worker := Failing(error))
    case CommitFailed =>
      if s.db.job.None? then s.(worker := Raised(true))
      else WithJob(s, s.db.job.value.(status := Failed, error := Some(Truncated(s.worker.error)))).(worker := Raised(true))
    case FailureCommitRaises => s.(worker := Raised(false))
    case Ack => s.(worker := Acked, message := Gone)
    case Crash => s.(worker := Lost(Settled(s.worker)))
    case Redeliver => s.(message := Queued)
    case BeginDelete => s.(deletion := Deleting(s.db.chain, s.db.reports))
    case CommitDelete =>
      s.(db := Db(None, [], []), deletion := NoDelete, erased := |s.log|, deleted := true)
    case AbortDelete => s.(deletion := NoDelete)
  }

  /** A run of the whole system from the start. */
  ghost predicate Execution(states: seq<State>, steps: seq<Step>) {
    && |states| == |steps| + 1 && states[0] == INIT
    && forall i :: 0 <= i < |steps| ==> Enabled(states[i], steps[i]) && states[i + 1] == Apply(states[i], steps[i])
  }

  /** No delivery is repeated after the commit that ended the job, and no final commit raises although it
      committed: the worker may be lost anywhere, and is redelivered only when it had not committed
      SUCCEEDED or FAILED. Delivery exactly once is the special case with no `Redeliver` at all. */
  ghost predicate Clean(states: seq<State>, steps: seq<Step>) {
    && Execution(states, steps)
    && forall i :: 0 <= i < |steps| ==> CleanStep(states[i], steps[i])
  }

  predicate CleanStep(s: State, step: Step) {
    && (step.Redeliver? ==> s.worker.Lost? && !s.worker.settled)
    && (step.CommitRun? ==> step.unheard.None?)
  }
}
