/** What holds over every run of the research job protocol. */
module JobSafety {
  import opened Helpers
  import opened JobProtocol

  function Runs(log: seq<Record>): (r: seq<nat>)
    ensures |r| == |log| && forall i :: 0 <= i < |log| ==> r[i] == log[i].run
  {
    seq(|log|, i requires 0 <= i < |log| => log[i].run)
  }

  function Rows(log: seq<Record>): seq<ChainRow> {
    if log == [] then [] else Rows(log[..|log| - 1]) + log[|log| - 1].chain
  }

  /** The committed rows are those of the final commits that no delete removed. */
  ghost predicate HistoryOk(log: seq<Record>, erased: nat, db: Db) {
    && erased <= |log|
    && db.reports == Runs(log)[erased..]
    && db.chain == Rows(log[erased..])
    && (log == [] && db.job.Some? ==> db.job.value.status != Succeeded)
  }

  ghost predicate RecordsOk(log: seq<Record>) {
    && (forall i, j :: 0 <= i < j < |log| ==> log[i].run < log[j].run)
    && (forall i, k :: 0 <= i < |log| && 0 <= k < |log[i].chain| ==> log[i].chain[k].run == log[i].run)
  }

  ghost predicate WorkerOk(s: State) {
    && (forall i :: 0 <= i < |s.log| ==> s.log[i].run <= s.run)
    && (InProgress(s.worker) ==> forall i :: 0 <= i < |s.log| ==> s.log[i].run < s.run)
    && (s.worker.Researching? || s.worker.Returned? ==>
          forall k :: 0 <= k < |s.worker.txn.chain| ==> s.worker.txn.chain[k].run == s.run)
    && (!s.created ==> s.db.job.None? && s.message.NotSent? && s.worker.Idle? && s.deletion.NoDelete?)
    && (s.message.NotSent? ==> s.worker.Idle?)
    && (s.worker == Read(false) ==> s.db.job.None?)
    && (UnderWay(s.worker) && s.db.job.Some? ==>
          s.db.job.value.status.Running? || (s.worker.Failing? && s.db.job.value.status.Succeeded?))
  }

  /** True of every reachable state, however often the worker is lost and redelivered. */
  ghost predicate Inv(s: State) {
    HistoryOk(s.log, s.erased, s.db) && RecordsOk(s.log) && WorkerOk(s)
  }

  predicate InProgress(w: Worker) {
    w.Received? || w.Read? || w.SettingUp? || w.Opening? || w.Researching? || w.Returned?
  }

  /** The delivery has committed RUNNING, if there was a row to commit it to, and has not ended. */
  predicate UnderWay(w: Worker) {
    w.SettingUp? || w.Opening? || w.Researching? || w.Returned? || w.Failing?
  }

  lemma RowsAppend(log: seq<Record>, r: Record, from: nat)
    requires from <= |log|
    ensures Rows((log + [r])[from..]) == Rows(log[from..]) + r.chain
    ensures Runs(log + [r])[from..] == Runs(log)[from..] + [r.run]
  {
    assert (log + [r])[from..] == log[from..] + [r];
    assert Runs(log + [r]) == Runs(log) + [r.run];
    assert (log[from..] + [r])[..|log[from..]|] == log[from..];
  }

  lemma HistoryStep(s: State, step: Step)
    requires HistoryOk(s.log, s.erased, s.db) && Enabled(s, step)
    ensures var t := Apply(s, step); HistoryOk(t.log, t.erased, t.db)
  {
    if step.CommitRun? {
      var t := Apply(s, step);
      RowsAppend(s.log, t.log[|s.log|], s.erased);
    } else if step.CommitDelete? {
      assert s.log[|s.log|..] == [] && Runs(s.log)[|s.log|..] == [];
    } else {
      OtherSteps(s, step);
    }
  }

  lemma OtherSteps(s: State, step: Step)
    requires Enabled(s, step) && !step.CommitRun? && !step.CommitDelete?
    ensures var t := Apply(s, step);
            && t.log == s.log && t.erased == s.erased && t.db.chain == s.db.chain && t.db.reports == s.db.reports
            && (t.db.job.Some? && t.db.job.value.status.Succeeded? ==> s.db.job.Some? && s.db.job.value.status.Succeeded?)
  {
  }

  lemma RecordsStep(s: State, step: Step)
    requires RecordsOk(s.log) && WorkerOk(s) && Enabled(s, step)
    ensures RecordsOk(Apply(s, step).log)
  {
    if !step.CommitRun? && !step.CommitDelete? { OtherSteps(s, step); }
  }

  lemma WorkerStep(s: State, step: Step)
    requires WorkerOk(s) && Enabled(s, step)
    ensures WorkerOk(Apply(s, step))
  {
    if !step.CommitRun? && !step.CommitDelete? { OtherSteps(s, step); }
  }

  lemma InvStep(s: State, step: Step)
    requires Inv(s) && Enabled(s, step)
    ensures Inv(Apply(s, step))
  {
    hide HistoryOk, RecordsOk, WorkerOk, Apply;
    HistoryStep(s, step);
    RecordsStep(s, step);
    WorkerStep(s, step);
  }

  lemma {:induction false} Reachable(states: seq<State>, steps: seq<Step>, i: nat)
    requires Execution(states, steps) && i < |states|
    ensures Inv(states[i])
  {
    if i > 0 {
      Reachable(states, steps, i - 1);
      InvStep(states[i - 1], steps[i - 1]);
    }
  }

  // ---- What the steps alone say -----------------------------------------------------------------

  /** How many deliveries there were, which is the number of the latest one. */
  function Delivered(steps: seq<Step>): nat {
    if steps == [] then 0
    else Delivered(steps[..|steps| - 1]) + if steps[|steps| - 1].Deliver? then 1 else 0
  }

  /** The rows the latest delivery has added to its open transaction. */
  function OwnRows(steps: seq<Step>): seq<ChainRow> {
    if steps == [] then []
    else
      var before := steps[..|steps| - 1];
      match steps[|steps| - 1]
      case Deliver => []
      case AddRow(kind) => OwnRows(before) + [ChainRow(Delivered(before), kind)]
      case _ => OwnRows(before)
  }

  /** A final commit: the delivery that made it, and the rows that delivery had added. */
  datatype Final = Final(run: nat, rows: seq<ChainRow>)

  function Finals(steps: seq<Step>): seq<Final> {
    if steps == [] then []
    else
      var before := steps[..|steps| - 1];
      Finals(before) + if steps[|steps| - 1].CommitRun? then [Final(Delivered(before), OwnRows(before))] else []
  }

  /** The final commits since the last delete. */
  function Live(steps: seq<Step>): seq<Final> {
    if steps == [] then []
    else
      var before := steps[..|steps| - 1];
      match steps[|steps| - 1]
      case CommitDelete => []
      case CommitRun(_) => Live(before) + [Final(Delivered(before), OwnRows(before))]
      case _ => Live(before)
  }

  function FinalRuns(finals: seq<Final>): seq<nat> {
    if finals == [] then [] else FinalRuns(finals[..|finals| - 1]) + [finals[|finals| - 1].run]
  }

  function FinalRows(finals: seq<Final>): seq<ChainRow> {
    if finals == [] then [] else FinalRows(finals[..|finals| - 1]) + finals[|finals| - 1].rows
  }

  /** The state agrees with the steps that led to it. */
  ghost predicate Tracks(s: State, taken: seq<Step>) { TracksWorker(s, taken) && TracksCommits(s, taken) }

  ghost predicate TracksWorker(s: State, taken: seq<Step>) {
    && s.run == Delivered(taken)
    && (s.worker.Researching? || s.worker.Returned? ==> s.worker.txn.chain == OwnRows(taken))
    && (s.worker.Received? || s.worker.Read? || s.worker.SettingUp? || s.worker.Opening? ==> OwnRows(taken) == [])
  }

  ghost predicate TracksCommits(s: State, taken: seq<Step>) {
    && s.db.reports == FinalRuns(Live(taken)) && s.db.chain == FinalRows(Live(taken))
    && SameRecords(s.log, Finals(taken))
  }

  ghost predicate SameRecords(log: seq<Record>, finals: seq<Final>) {
    && |log| == |finals|
    && forall k :: 0 <= k < |log| ==> log[k].run == finals[k].run && log[k].chain == finals[k].rows
  }

  lemma RowsNext(taken: seq<Step>, step: Step)
    ensures Delivered(taken + [step]) == Delivered(taken) + if step.Deliver? then 1 else 0
    ensures OwnRows(taken + [step]) ==
              if step.Deliver? then []
              else if step.AddRow? then OwnRows(taken) + [ChainRow(Delivered(taken), step.kind)] else OwnRows(taken)
  {
    var more := taken + [step];
    assert more[..|more| - 1] == taken && more[|more| - 1] == step;
  }

  lemma WorkerTracked(s: State, taken: seq<Step>, step: Step)
    requires TracksWorker(s, taken) && Enabled(s, step)
    ensures TracksWorker(Apply(s, step), taken + [step])
  {
    hide Delivered, OwnRows;
    RowsNext(taken, step);
  }

  lemma FinalsNext(taken: seq<Step>, step: Step)
    ensures var more, f := taken + [step], Final(Delivered(taken), OwnRows(taken));
            && Finals(more) == Finals(taken) + (if step.CommitRun? then [f] else [])
            && Live(more) == if step.CommitDelete? then [] else Live(taken) + if step.CommitRun? then [f] else []
  {
    hide Delivered, OwnRows;
    var more := taken + [step];
    assert more[..|more| - 1] == taken && more[|more| - 1] == step;
  }

  lemma FinalsAppend(finals: seq<Final>, f: Final)
    ensures FinalRuns(finals + [f]) == FinalRuns(finals) + [f.run]
    ensures FinalRows(finals + [f]) == FinalRows(finals) + f.rows
    ensures FinalRuns([]) == [] && FinalRows([]) == []
  {
    assert (finals + [f])[..|finals|] == finals;
  }

  lemma CommitsTracked(s: State, taken: seq<Step>, step: Step)
    requires Tracks(s, taken) && Enabled(s, step)
    ensures TracksCommits(Apply(s, step), taken + [step])
  {
    hide OwnRows, Delivered, Finals, Live, FinalRuns, FinalRows;
    var f := Final(Delivered(taken), OwnRows(taken));
    FinalsNext(taken, step);
    FinalsAppend(Live(taken), f);
    if !step.CommitRun? && !step.CommitDelete? {
      OtherSteps(s, step);
      assert Live(taken) + [] == Live(taken) && Finals(taken) + [] == Finals(taken);
    }
  }

  lemma TracksStep(s: State, taken: seq<Step>, step: Step)
    requires Tracks(s, taken) && Enabled(s, step)
    ensures Tracks(Apply(s, step), taken + [step])
  {
    hide TracksWorker, TracksCommits, Apply, Enabled;
    assert TracksWorker(s, taken);
    WorkerTracked(s, taken, step);
    CommitsTracked(s, taken, step);
  }

  lemma {:induction false} Tracked(states: seq<State>, steps: seq<Step>, i: nat)
    requires Execution(states, steps) && i < |states|
    ensures Tracks(states[i], steps[..i])
  {
    if i > 0 {
      Tracked(states, steps, i - 1);
      TracksStep(states[i - 1], steps[..i - 1], steps[i - 1]);
      assert steps[..i] == steps[..i - 1] + [steps[i - 1]];
    }
  }

  /** Deliveries only ever commit for themselves and once: the runs of the final commits increase, and each
      one's rows carry its own number. */
  ghost predicate OwnOnce(finals: seq<Final>, latest: nat) {
    && (forall a, b :: 0 <= a < b < |finals| ==> finals[a].run < finals[b].run)
    && (forall a :: 0 <= a < |finals| ==> finals[a].run <= latest)
    && (forall a, k :: 0 <= a < |finals| && 0 <= k < |finals[a].rows| ==> finals[a].rows[k].run == finals[a].run)
  }

  lemma {:induction false} LiveIsLatest(steps: seq<Step>) returns (erased: nat)
    ensures erased <= |Finals(steps)| && Live(steps) == Finals(steps)[erased..]
    ensures (forall k :: 0 <= k < |steps| ==> !steps[k].CommitDelete?) ==> erased == 0
  {
    if steps == [] {
      erased := 0;
    } else {
      var n := |steps| - 1;
      erased := LiveIsLatest(steps[..n]);
      if steps[n].CommitDelete? { erased := |Finals(steps)|; }
    }
  }

  /** Crash safety: with worker losses and redeliveries anywhere, what is committed is exactly what the final
      commits since the last delete added, in order: each left its delivery's own rows, all of them, and one
      report. Nothing of a delivery that did not commit is ever visible, and no delivery commits twice. */
  lemma CrashSafety(states: seq<State>, steps: seq<Step>, i: nat)
    requires Execution(states, steps) && i < |states|
    ensures var s, live := states[i], Live(steps[..i]);
            && s.db.reports == FinalRuns(live) && s.db.chain == FinalRows(live)
            && OwnOnce(live, Delivered(steps[..i]))
            && ((forall k :: 0 <= k < i ==> !steps[k].CommitDelete?) ==> live == Finals(steps[..i]))
            && (Finals(steps[..i]) == [] ==>
                  s.db.chain == [] && s.db.reports == [] && (s.db.job.Some? ==> s.db.job.value.status != Succeeded))
  {
    hide Inv, Tracks, Live, Finals, FinalRuns, FinalRows, Delivered;
    Reachable(states, steps, i);
    Tracked(states, steps, i);
    var erased := LiveIsLatest(steps[..i]);
    CommittedIsLive(states[i], steps[..i], erased);
    assert (forall k :: 0 <= k < i ==> !steps[k].CommitDelete?) ==> forall k :: 0 <= k < i ==> !steps[..i][k].CommitDelete?;
  }

  lemma CommittedIsLive(s: State, taken: seq<Step>, erased: nat)
    requires Inv(s) && Tracks(s, taken) && erased <= |Finals(taken)| && Live(taken) == Finals(taken)[erased..]
    ensures s.db.reports == FinalRuns(Live(taken)) && s.db.chain == FinalRows(Live(taken))
    ensures OwnOnce(Live(taken), Delivered(taken))
    ensures Finals(taken) == [] ==>
              s.db.chain == [] && s.db.reports == [] && (s.db.job.Some? ==> s.db.job.value.status != Succeeded)
  {
    hide FinalRuns, FinalRows, Delivered, Finals, Live, Rows;
    RecordsAreOwn(s.log, Finals(taken), s.run);
    FinalsAppend([], Final(0, []));
  }

  lemma RecordsAreOwn(log: seq<Record>, finals: seq<Final>, latest: nat)
    requires RecordsOk(log) && SameRecords(log, finals) && forall k :: 0 <= k < |log| ==> log[k].run <= latest
    ensures forall from: nat :: from <= |finals| ==> OwnOnce(finals[from..], latest)
  {
  }

  // ---- Clean runs -------------------------------------------------------------------------------

  /** The committed state that one uninterrupted successful delivery leaves. */
  function EndState(r: Record): Db {
    Db(Some(JobRow(Succeeded, r.said, None, r.insufficient)), r.chain, [r.run])
  }

  /** A job as any delivery finds it: no result and no error yet. */
  ghost predicate Unfinished(s: State) {
    && s.db.job.Some? && s.db.chain == [] && s.db.reports == [] && s.log == []
    && s.db.job.value.error == None && !s.db.job.value.insufficient
    && !s.deleted && s.erased == 0 && s.deletion.NoDelete?
  }

  ghost predicate CleanInv(s: State) {
    if !s.created then s == INIT
    else
      match s.worker
      case Idle => Unfinished(s) && s.db.job.value.status.Pending? && !s.message.InFlight? && !s.message.Gone?
      case Received => Unended(s) && s.message.InFlight?
      case Read(found) => found && Unended(s) && s.message.InFlight?
      case SettingUp => ActiveJob(s)
      case Opening => ActiveJob(s)
      case Researching(txn) => ActiveJob(s) && !txn.insertsJob
      case Returned(txn, _) => ActiveJob(s) && !txn.insertsJob
      case Failing(_) => ActiveJob(s)
      case Committed => s.message.InFlight? && Finished(s, true)
      case Raised(recorded) => s.message.InFlight? && if recorded then Finished(s, false) else Unended(s)
      case Lost(settled) =>
        if settled then s.message.InFlight? && (Finished(s, true) || Finished(s, false))
        else Unended(s) && (s.message.InFlight? || s.message.Queued?)
      case Acked => s.message.Gone? && (Finished(s, true) || Finished(s, false) || Unended(s))
  }

  ghost predicate Unended(s: State) {
    Unfinished(s) && (s.db.job.value.status.Pending? || s.db.job.value.status.Running?)
  }

  ghost predicate ActiveJob(s: State) {
    Unfinished(s) && s.db.job.value.status.Running? && s.db.job.value.progress == s.said && s.message.InFlight?
  }

  /** The job ended with SUCCEEDED or FAILED, or was deleted after it. */
  ghost predicate Finished(s: State, success: bool) {
    && (s.deleted ==> s.db == Db(None, [], []) && s.deletion.NoDelete?)
    && (success ==> |s.log| == 1 && (!s.deleted ==> s.db == EndState(s.log[0])))
    && (!success ==>
          && s.log == [] && s.db.chain == [] && s.db.reports == []
          && (!s.deleted ==> s.db.job.Some? && s.db.job.value.status.Failed? && s.db.job.value.error.Some?))
  }

  lemma CleanInvStep(s: State, step: Step)
    requires CleanInv(s) && Enabled(s, step) && CleanStep(s, step)
    ensures CleanInv(Apply(s, step))
  {
  }

  lemma {:induction false} CleanReachable(states: seq<State>, steps: seq<Step>, i: nat)
    requires Clean(states, steps) && i < |states|
    ensures CleanInv(states[i])
  {
    if i > 0 {
      CleanReachable(states, steps, i - 1);
      CleanInvStep(states[i - 1], steps[i - 1]);
    }
  }

  /** How far the job is, as a client sees it: absent, PENDING, RUNNING, ended, deleted. */
  function Stage(s: State): (stage: nat)
    ensures stage <= 4
  {
    if s.db.job.None? then (if s.created then 4 else 0)
    else match s.db.job.value.status
         case Pending => 1
         case Running => 2
         case Succeeded => 3
         case Failed => 3
  }

  lemma CleanStageStep(s: State, step: Step)
    requires CleanInv(s) && Enabled(s, step) && CleanStep(s, step)
    ensures var t := Apply(s, step);
            && Stage(s) <= Stage(t) <= Stage(s) + 1
            && (Stage(s) >= 3 && (Stage(t) == 3 || Stage(s) == 4) ==> t.db == s.db)
  {
    hide CleanInv, Apply, Enabled, Stage;
    StageMoves(s, step);
    EndedStays(s, step);
  }

  lemma StageMoves(s: State, step: Step)
    requires CleanInv(s) && Enabled(s, step) && CleanStep(s, step)
    ensures Stage(s) <= Stage(Apply(s, step)) <= Stage(s) + 1
  {
  }

  lemma EndedStays(s: State, step: Step)
    requires CleanInv(s) && Enabled(s, step) && CleanStep(s, step)
    ensures var t := Apply(s, step); Stage(s) >= 3 && (Stage(t) == 3 || Stage(s) == 4) ==> t.db == s.db
  {
  }

  lemma DeletedIsEmpty(s: State)
    requires CleanInv(s)
    ensures Stage(s) == 4 ==> s.db == Db(None, [], [])
  {
  }

  /** Lifecycle: in a clean run the visible job only moves forward, one stage at a
      time, through PENDING, RUNNING, SUCCEEDED or FAILED, deleted; and once it has ended, only a
      delete changes anything committed about it. */
  lemma {:induction false} Lifecycle(states: seq<State>, steps: seq<Step>, i: nat, j: nat)
    requires Clean(states, steps) && i <= j < |states|
    ensures Stage(states[i]) <= Stage(states[j])
    ensures i < j ==> Stage(states[j]) <= Stage(states[j - 1]) + 1
    ensures Stage(states[i]) == 3 && Stage(states[j]) == 3 ==> states[j].db == states[i].db
    ensures Stage(states[i]) == 4 ==> states[j].db == Db(None, [], [])
    decreases j
  {
    hide CleanInv, Apply, Enabled, Stage;
    CleanReachable(states, steps, i);
    DeletedIsEmpty(states[i]);
    if i < j {
      Lifecycle(states, steps, i, j - 1);
      CleanReachable(states, steps, j - 1);
      CleanStageStep(states[j - 1], steps[j - 1]);
      CleanReachable(states, steps, j);
      DeletedIsEmpty(states[j]);
    }
  }

  /** SUCCEEDED is visible only as the complete result of one delivery: its rows, its single report,
      its last progress text and no error. Losses and redeliveries on the way leave no trace. */
  lemma SucceededIsOneRun(states: seq<State>, steps: seq<Step>, i: nat)
    requires Clean(states, steps) && i < |states|
    requires states[i].db.job.Some? && states[i].db.job.value.status.Succeeded?
    ensures |states[i].log| == 1 && states[i].db == EndState(states[i].log[0])
  {
    CleanReachable(states, steps, i);
  }

  /** A delete that was allowed never overlaps a delivery in progress. */
  lemma DeleteAfterWorker(states: seq<State>, steps: seq<Step>, i: nat)
    requires Clean(states, steps) && i < |states|
    ensures states[i].deletion.Deleting? || states[i].deleted ==>
              || states[i].worker.Committed? || states[i].worker == Raised(true)
              || states[i].worker == Lost(true) || states[i].worker.Acked?
  {
    CleanReachable(states, steps, i);
  }
}
