/** Over every run of the research job protocol, repeated deliveries included: exactly when a step takes the
    job back or leaves it without an end, when SUCCEEDED is the result of one delivery, and when a delivery
    overlaps a delete (tradegraph/src/graph/tasks.py:139-196, tradegraph/apps/api/routers/jobs.py:243-247). */
module JobExact {
  import opened Helpers
  import opened JobProtocol
  import opened JobSafety

  /** Exactly when a step takes the visible job back, over every run: a delivery commits RUNNING over
      an ended job, or commits its result after the job was deleted. */
  lemma RegressExactly(states: seq<State>, steps: seq<Step>, i: nat)
    requires Execution(states, steps) && i < |steps|
    ensures Stage(states[i + 1]) < Stage(states[i]) <==>
              || (steps[i].CommitRunning? && states[i].worker.found && Terminal(states[i].db))
              || (steps[i].CommitRun? && states[i].worker.txn.insertsJob)
  {
    hide Inv, Enabled, Apply, Stage;
    Reachable(states, steps, i);
    StageStep(states[i], steps[i]);
  }

  lemma StageStep(s: State, step: Step)
    requires Inv(s) && Enabled(s, step)
    ensures Stage(Apply(s, step)) < Stage(s) <==>
              || (step.CommitRunning? && s.worker.found && Terminal(s.db))
              || (step.CommitRun? && s.worker.txn.insertsJob)
  {
    hide HistoryOk, RecordsOk;
  }

  /** The step takes the job back, or changes an ended job other than by deleting it. */
  predicate Breaks(s: State, step: Step) {
    || (step.CommitRunning? && s.worker.Read? && s.worker.found && Terminal(s.db))
    || (step.CommitRun? && s.worker.Returned? && s.worker.txn.insertsJob)
    || (step.CommitFailed? && Terminal(s.db))
  }

  /** The visible job only moves forward, and once it has ended only a delete changes anything committed. */
  predicate Keeps(s: State, step: Step, t: State) {
    && Stage(s) <= Stage(t)
    && (Stage(s) == 3 && !step.CommitDelete? ==> t.db == s.db)
    && (Stage(s) == 4 ==> t.db == s.db)
  }

  lemma KeepsStep(s: State, step: Step, t: State)
    requires Inv(s) && Enabled(s, step) && t == Apply(s, step)
    ensures Keeps(s, step, t) <==> !Breaks(s, step)
  {
    hide HistoryOk, RecordsOk;
  }

  ghost predicate KeepsAt(states: seq<State>, steps: seq<Step>, i: nat)
    requires |states| == |steps| + 1 && i < |steps|
  {
    Keeps(states[i], steps[i], states[i + 1])
  }

  ghost predicate BreaksAt(states: seq<State>, steps: seq<Step>, i: nat)
    requires |states| == |steps| + 1 && i < |steps|
  {
    Breaks(states[i], steps[i])
  }

  /** Exactly when the lifecycle holds of a whole run, whatever is repeated or lost: when no delivery commits RUNNING
      over an ended job, none commits the result of a job that was deleted, and none commits FAILED over the
      success it had committed without hearing of it. */
  lemma LifecycleExactly(states: seq<State>, steps: seq<Step>)
    requires Execution(states, steps)
    ensures (forall i :: 0 <= i < |steps| ==> KeepsAt(states, steps, i)) <==>
            (forall i :: 0 <= i < |steps| ==> !BreaksAt(states, steps, i))
  {
    hide Inv, Enabled, Apply, Keeps, Breaks;
    forall i | 0 <= i < |steps| ensures KeepsAt(states, steps, i) <==> !BreaksAt(states, steps, i) {
      Reachable(states, steps, i);
      KeepsStep(states[i], steps[i], states[i + 1]);
    }
  }

  // ---- Ends -------------------------------------------------------------------------------------

  predicate Over(w: Worker) { w.Committed? || w.Raised? }

  /** The step records how the job ended. */
  predicate Records(step: Step) { step.CommitRun? || step.CommitFailed? }

  /** Exactly when a delivery that comes to its end, in whatever way, leaves the job ended or deleted: when it
      recorded the end, or the job was already there. Every other end writes nothing at all. */
  lemma EndsTerminal(states: seq<State>, steps: seq<Step>, i: nat)
    requires Execution(states, steps) && i < |steps|
    requires !Over(states[i].worker) && Over(states[i + 1].worker)
    ensures Stage(states[i + 1]) >= 3 <==> Records(steps[i]) || Stage(states[i]) >= 3
    ensures !Records(steps[i]) ==>
              && states[i + 1].db == states[i].db
              && (steps[i].ReadRaises? || steps[i].CommitRunning? || steps[i].SetUpRaises? || steps[i].FailureCommitRaises?)
    ensures Clean(states, steps) ==> (Stage(states[i + 1]) >= 3 <==> Records(steps[i]))
  {
    hide Inv, Enabled, Apply, CleanInv, Stage;
    Reachable(states, steps, i);
    EndStep(states[i], steps[i]);
    if Clean(states, steps) && !Records(steps[i]) {
      CleanReachable(states, steps, i);
      CleanEndStep(states[i], steps[i]);
    }
  }

  lemma EndStep(s: State, step: Step)
    requires Inv(s) && Enabled(s, step) && !Over(s.worker) && Over(Apply(s, step).worker)
    ensures Stage(Apply(s, step)) >= 3 <==> Records(step) || Stage(s) >= 3
    ensures !Records(step) ==>
              && Apply(s, step).db == s.db
              && (step.ReadRaises? || step.CommitRunning? || step.SetUpRaises? || step.FailureCommitRaises?)
  {
    hide HistoryOk, RecordsOk;
  }

  lemma CleanEndStep(s: State, step: Step)
    requires CleanInv(s) && Enabled(s, step) && !Over(s.worker) && Over(Apply(s, step).worker) && !Records(step)
    ensures Stage(s) < 3
  {
  }

  /** In a clean run a job is ended or deleted exactly from the first recorded end on. */
  lemma {:induction false} EndedExactly(states: seq<State>, steps: seq<Step>, i: nat)
    requires Clean(states, steps) && i < |states|
    ensures Stage(states[i]) >= 3 <==> exists k :: 0 <= k < i && Records(steps[k])
  {
    hide CleanInv, Enabled, Apply, Stage;
    if i == 0 {
      NotYet();
    } else {
      EndedExactly(states, steps, i - 1);
      CleanReachable(states, steps, i - 1);
      EndedStep(states[i - 1], steps[i - 1]);
    }
  }

  lemma NotYet()
    ensures Stage(INIT) == 0
  {
  }

  lemma EndedStep(s: State, step: Step)
    requires CleanInv(s) && Enabled(s, step) && CleanStep(s, step)
    ensures Stage(Apply(s, step)) >= 3 <==> Stage(s) >= 3 || Records(step)
  {
    hide CleanInv;
    CleanStageStep(s, step);
    if Records(step) { RecordedEnds(s, step); } else { OthersDoNotEnd(s, step); }
  }

  lemma RecordedEnds(s: State, step: Step)
    requires CleanInv(s) && Enabled(s, step) && Records(step)
    ensures Stage(Apply(s, step)) >= 3
  {
  }

  lemma OthersDoNotEnd(s: State, step: Step)
    requires CleanInv(s) && Enabled(s, step) && !Records(step)
    ensures Stage(s) < 3 ==> Stage(Apply(s, step)) < 3
  {
  }

  /** A message that was acknowledged without a recorded end is gone, and the job stays as it is for good: no
      step of anything is possible any more. */
  lemma UnrecordedIsForGood(states: seq<State>, steps: seq<Step>, i: nat)
    requires Clean(states, steps) && i < |states| && states[i].worker.Acked?
    ensures (exists k :: 0 <= k < i && Records(steps[k])) <==> Stage(states[i]) >= 3
    ensures Stage(states[i]) < 3 ==> i == |steps| && forall step :: !Enabled(states[i], step)
  {
    EndedExactly(states, steps, i);
    CleanReachable(states, steps, i);
    if Stage(states[i]) < 3 { StuckThere(states[i]); }
    if i < |steps| { assert Enabled(states[i], steps[i]); }
  }

  lemma StuckThere(s: State)
    requires CleanInv(s) && s.worker.Acked? && Stage(s) < 3
    ensures forall step :: !Enabled(s, step)
  {
  }

  // ---- One run's result -------------------------------------------------------------------------

  /** Exactly when a final commit leaves the state that one uninterrupted delivery leaves. */
  lemma OneRunAtCommit(states: seq<State>, steps: seq<Step>, i: nat)
    requires Execution(states, steps) && i < |steps| && steps[i].CommitRun?
    ensures var s, t := states[i], states[i + 1];
            && |t.log| == |s.log| + 1
            && (t.db == EndState(t.log[|s.log|]) <==>
                  && s.db.reports == [] && s.db.chain == []
                  && if s.worker.txn.insertsJob then s.said == None
                     else s.db.job.value.error == None && s.db.job.value.progress == s.said
                          && (s.db.job.value.insufficient ==> s.worker.insufficient))
  {
    var s := states[i];
    assert s.db.chain + s.worker.txn.chain == s.worker.txn.chain <==> s.db.chain == [] by {
      assert |s.db.chain + s.worker.txn.chain| == |s.db.chain| + |s.worker.txn.chain|;
    }
    assert s.db.reports + [s.run] == [s.run] <==> s.db.reports == [] by {
      assert |s.db.reports + [s.run]| == |s.db.reports| + 1;
    }
  }

  /** A visible SUCCEEDED, in any run, is what some final commit left, untouched since. */
  lemma {:induction false} SucceededSince(states: seq<State>, steps: seq<Step>, i: nat) returns (j: nat)
    requires Execution(states, steps) && i < |states|
    requires states[i].db.job.Some? && states[i].db.job.value.status.Succeeded?
    ensures j < i && steps[j].CommitRun? && states[j + 1].db == states[i].db && states[j + 1].log == states[i].log
  {
    hide Inv, Enabled, Apply;
    assert i > 0;
    j := i - 1;
    if !steps[i - 1].CommitRun? {
      Reachable(states, steps, i - 1);
      StaysSucceeded(states[i - 1], steps[i - 1]);
      j := SucceededSince(states, steps, i - 1);
    }
  }

  lemma StaysSucceeded(s: State, step: Step)
    requires Inv(s) && Enabled(s, step) && !step.CommitRun?
    requires var t := Apply(s, step); t.db.job.Some? && t.db.job.value.status.Succeeded?
    ensures Apply(s, step).db == s.db && Apply(s, step).log == s.log
  {
    hide HistoryOk, RecordsOk;
  }

  function Failures(steps: seq<Step>): nat {
    if steps == [] then 0
    else Failures(steps[..|steps| - 1]) + if steps[|steps| - 1].CommitFailed? then 1 else 0
  }

  /** How many ends were recorded. */
  function Ends(steps: seq<Step>): nat {
    if steps == [] then 0
    else Ends(steps[..|steps| - 1]) + if Records(steps[|steps| - 1]) then 1 else 0
  }

  /** What a job that was never deleted remembers of the ends recorded so far. */
  ghost predicate Remembers(s: State, taken: seq<Step>) {
    && Ends(taken) == |s.log| + Failures(taken)
    && (if s.created then s.db.job.Some? && RowRemembers(s, s.db.job.value, Failures(taken))
        else s.log == [] && Failures(taken) == 0)
    && s.worker != Read(false)
    && (s.worker.Researching? || s.worker.Returned? ==> !s.worker.txn.insertsJob)
  }

  ghost predicate RowRemembers(s: State, row: JobRow, failures: nat) {
    && (row.error == None <==> failures == 0)
    && (UnderWay(s.worker) ==> row.progress == s.said && s.said.Some?)
    && (forall k :: 0 <= k < |s.log| ==> s.log[k].said.Some?)
    && (s.log == [] ==> !row.insufficient)
    && (|s.log| == 1 ==> row.insufficient == s.log[0].insufficient)
    && (row.status.Succeeded? ==> s.log != [] && row.progress == s.log[|s.log| - 1].said)
  }

  lemma EndsNext(taken: seq<Step>, step: Step)
    ensures Ends(taken + [step]) == Ends(taken) + if Records(step) then 1 else 0
    ensures Failures(taken + [step]) == Failures(taken) + if step.CommitFailed? then 1 else 0
  {
    assert (taken + [step])[..|taken|] == taken;
  }

  lemma RemembersStep(s: State, taken: seq<Step>, step: Step)
    requires Inv(s) && Remembers(s, taken) && Enabled(s, step) && !Apply(s, step).deleted
    ensures Remembers(Apply(s, step), taken + [step])
  {
    hide HistoryOk, RecordsOk, Ends, Failures;
    EndsNext(taken, step);
  }

  lemma {:induction false} Remembered(states: seq<State>, steps: seq<Step>, i: nat)
    requires Execution(states, steps) && i < |states| && !states[i].deleted
    ensures Remembers(states[i], steps[..i])
  {
    hide Inv, Remembers, Enabled, Apply;
    if i == 0 {
      NothingToRemember();
    } else {
      StillNotDeleted(states[i - 1], steps[i - 1]);
      Remembered(states, steps, i - 1);
      Reachable(states, steps, i - 1);
      RemembersStep(states[i - 1], steps[..i - 1], steps[i - 1]);
      assert steps[..i] == steps[..i - 1] + [steps[i - 1]];
    }
  }

  lemma NothingToRemember()
    ensures Remembers(INIT, [])
  {
  }

  lemma StillNotDeleted(s: State, step: Step)
    requires Enabled(s, step)
    ensures !Apply(s, step).deleted ==> !s.deleted
  {
  }

  /** Exactly when a visible SUCCEEDED of a job that was never deleted is the whole result of one delivery,
      over every run: when no other end was recorded before, neither a success nor a failure. */
  lemma SucceededExactly(states: seq<State>, steps: seq<Step>, i: nat)
    requires Execution(states, steps) && i < |states| && !states[i].deleted
    requires states[i].db.job.Some? && states[i].db.job.value.status.Succeeded?
    ensures (|states[i].log| == 1 && states[i].db == EndState(states[i].log[0])) <==> Ends(steps[..i]) == 1
  {
    hide Ends, Failures;
    Remembered(states, steps, i);
    Reachable(states, steps, i);
    NotErased(states, steps, i);
    var s := states[i];
    if |s.log| == 1 {
      OneRecord(s.log);
      assert s.log[0..] == s.log && Runs(s.log)[0..] == Runs(s.log);
    }
  }

  lemma OneRecord(log: seq<Record>)
    requires |log| == 1
    ensures Rows(log) == log[0].chain && Runs(log) == [log[0].run]
  {
    assert Rows(log[..0]) == [];
  }

  lemma {:induction false} NotErased(states: seq<State>, steps: seq<Step>, i: nat)
    requires Execution(states, steps) && i < |states|
    ensures !states[i].deleted ==> states[i].erased == 0
  {
    if i > 0 { NotErased(states, steps, i - 1); }
  }

  // ---- Deletes ----------------------------------------------------------------------------------

  /** A delivery is in progress. */
  predicate Busy(w: Worker) { InProgress(w) || w.Failing? }

  /** A delivery is in progress while a delete is open or after one was committed. */
  predicate Overlap(s: State) { Busy(s.worker) && (s.deletion.Deleting? || s.deleted) }

  /** Exactly when a delivery and a delete begin to overlap, over every run: a delivery begins during or after a
      delete, or a delete is let in during a delivery, which has then not yet committed RUNNING, or has committed
      its success without hearing of it. */
  lemma OverlapBeginsExactly(states: seq<State>, steps: seq<Step>, i: nat)
    requires Execution(states, steps) && i < |steps|
    ensures !Overlap(states[i]) && Overlap(states[i + 1]) <==>
              || (steps[i].Deliver? && (states[i].deletion.Deleting? || states[i].deleted))
              || (steps[i].BeginDelete? && Busy(states[i].worker) && !states[i].deleted)
    ensures steps[i].BeginDelete? && Busy(states[i].worker) ==>
              states[i].worker.Received? || states[i].worker.Read? || states[i].worker.Failing?
  {
    hide Inv, Enabled, Apply, Overlap;
    Reachable(states, steps, i);
    OverlapStep(states[i], steps[i]);
  }

  lemma OverlapStep(s: State, step: Step)
    requires Inv(s) && Enabled(s, step)
    ensures !Overlap(s) && Overlap(Apply(s, step)) <==>
              || (step.Deliver? && (s.deletion.Deleting? || s.deleted))
              || (step.BeginDelete? && Busy(s.worker) && !s.deleted)
    ensures step.BeginDelete? && Busy(s.worker) ==> s.worker.Received? || s.worker.Read? || s.worker.Failing?
  {
    hide HistoryOk, RecordsOk;
  }
}
