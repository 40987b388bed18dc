/** Concrete runs of the research job protocol that show what a repeated delivery, or an exception outside the
    guarded block, can do (tradegraph/src/core/celery_app.py:36-37, tradegraph/src/graph/tasks.py:139-196). */
module JobRuns {
  import opened Helpers
  import opened JobProtocol
  import opened JobExact

  /** One claim with its evidence, link and citation, as the pipeline stores them. */
  function ClaimRows(run: nat): seq<ChainRow> {
    [ChainRow(run, Claim), ChainRow(run, Evidence), ChainRow(run, Link), ChainRow(run, Citation)]
  }

  lemma Extend(states: seq<State>, steps: seq<Step>, step: Step) returns (more: seq<State>, taken: seq<Step>)
    requires Execution(states, steps) && Enabled(states[|steps|], step)
    ensures Execution(more, taken) && |taken| == |steps| + 1 && states <= more
    ensures more[|taken|] == Apply(states[|steps|], step)
  {
    more, taken := states + [Apply(states[|steps|], step)], steps + [step];
  }

  /** A first delivery, up to the worker having the task. */
  lemma FirstDelivery() returns (states: seq<State>, steps: seq<Step>)
    ensures Execution(states, steps)
    ensures states[|steps|] == INIT.(created := true, message := InFlight, worker := Received, run := 1,
                                     db := Db(Some(JobRow(Pending, None, None, false)), [], []))
  {
    hide Execution;
    states, steps := [INIT], [];
    assert Execution(states, steps) by { Start(); }
    states, steps := Extend(states, steps, Create);
    states, steps := Extend(states, steps, Enqueue);
    states, steps := Extend(states, steps, Deliver);
  }

  lemma Start()
    ensures Execution([INIT], [])
  {
  }

  /** A delivery that adds one claim and succeeds, for a job that is there. */
  lemma SuccessfulDelivery(before: seq<State>, taken: seq<Step>) returns (states: seq<State>, steps: seq<Step>)
    requires Execution(before, taken) && before[|taken|].worker.Received? && before[|taken|].db.job.Some?
    ensures Execution(states, steps) && before <= states
    ensures var s, t := before[|taken|], states[|steps|];
            && t.worker.Committed? && t.message == s.message && t.run == s.run && t.deletion == s.deletion
            && t.db.job.Some? && t.db.job.value.status.Succeeded? && t.db.job.value.error == s.db.job.value.error
            && t.db.chain == s.db.chain + ClaimRows(s.run) && t.db.reports == s.db.reports + [s.run]
  {
    states, steps := OpenDelivery(before, taken);
    states, steps := CloseDelivery(states, steps);
  }

  lemma OpenDelivery(before: seq<State>, taken: seq<Step>) returns (states: seq<State>, steps: seq<Step>)
    requires Execution(before, taken) && before[|taken|].worker.Received? && before[|taken|].db.job.Some?
    ensures Execution(states, steps) && before <= states && |steps| > |taken|
    ensures var s, said := before[|taken|], Some("Starting research");
            states[|steps|] == s.(
              worker := Researching(Txn(false, [])), said := said,
              db := s.db.(job := Some(s.db.job.value.(status := Running, progress := said))))
  {
    hide Execution;
    states, steps := Extend(before, taken, ReadJob);
    states, steps := Extend(states, steps, CommitRunning);
    states, steps := Extend(states, steps, SetUp);
    states, steps := Extend(states, steps, OpenRun);
  }

  lemma CloseDelivery(before: seq<State>, taken: seq<Step>) returns (states: seq<State>, steps: seq<Step>)
    requires Execution(before, taken) && before[|taken|].worker == Researching(Txn(false, []))
    requires before[|taken|].db.job.Some?
    ensures Execution(states, steps) && before <= states
    ensures var s, t := before[|taken|], states[|steps|];
            && t.worker.Committed? && t.message == s.message && t.run == s.run && t.deletion == s.deletion
            && t.db.job.Some? && t.db.job.value.status.Succeeded? && t.db.job.value.error == s.db.job.value.error
            && t.db.chain == s.db.chain + ClaimRows(s.run) && t.db.reports == s.db.reports + [s.run]
            && |steps| > |taken|
  {
    hide Execution;
    states, steps := WriteClaim(before, taken);
    states, steps := Extend(states, steps, CommitRun(None));
  }

  /** The open transaction stores one claim, and the run returns. */
  lemma WriteClaim(before: seq<State>, taken: seq<Step>) returns (states: seq<State>, steps: seq<Step>)
    requires Execution(before, taken) && before[|taken|].worker == Researching(Txn(false, []))
    requires before[|taken|].db.job.Some?
    ensures Execution(states, steps) && before <= states && |steps| > |taken|
    ensures var s := before[|taken|]; states[|steps|] == s.(worker := Returned(Txn(false, ClaimRows(s.run)), false))
  {
    var run := before[|taken|].run;
    hide Execution;
    states, steps := Extend(before, taken, AddRow(Claim));
    states, steps := Extend(states, steps, AddRow(Evidence));
    states, steps := Extend(states, steps, AddRow(Link));
    states, steps := Extend(states, steps, AddRow(Citation));
    assert states[|steps|].worker.txn.chain == ClaimRows(run);
    states, steps := Extend(states, steps, FinishRun(false));
  }

  /** A delivery that succeeded, was lost before the acknowledgement, and was delivered again. */
  lemma DeliveredAgain() returns (states: seq<State>, steps: seq<Step>, i: nat)
    ensures Execution(states, steps) && i < |steps| && |states| == |steps| + 1
    ensures states[i].db == states[|steps|].db
    ensures var s := states[|steps|];
            && s.worker.Received? && s.run == 2 && s.message.InFlight? && s.deletion.NoDelete?
            && s.db.job.Some? && s.db.job.value.status.Succeeded?
            && s.db.chain == ClaimRows(1) && s.db.reports == [1]
  {
    states, steps := FirstDelivery();
    states, steps := SuccessfulDelivery(states, steps);
    hide Execution;
    i := |steps|;
    ghost var done := states;
    states, steps := Extend(states, steps, Crash);
    states, steps := Extend(states, steps, Redeliver);
    states, steps := Extend(states, steps, Deliver);
    assert done <= states && done[i] == states[i];
  }

  /** A worker lost between its final commit and the acknowledgement: the job goes back from SUCCEEDED
      to RUNNING, is researched again, and ends with two reports and both sets of rows. */
  lemma DoubleResult() returns (states: seq<State>, steps: seq<Step>, i: nat, j: nat)
    ensures Execution(states, steps) && i < j < |steps|
    ensures states[i].db.job.Some? && states[i].db.job.value.status.Succeeded?
    ensures states[j].db.job.Some? && states[j].db.job.value.status.Running?
    ensures states[|steps|].db.job.Some? && states[|steps|].db.job.value.status.Succeeded?
    ensures states[|steps|].db.reports == [1, 2]
    ensures states[|steps|].db.chain == ClaimRows(1) + ClaimRows(2)
  {
    states, steps, i := DeliveredAgain();
    ghost var done := states;
    states, steps := OpenDelivery(states, steps);
    j := |steps|;
    ghost var again := states;
    states, steps := CloseDelivery(states, steps);
    assert done <= again <= states && done[i] == states[i] && again[j] == states[j];
  }

  /** A FAILED commit followed by a worker loss before the acknowledgement: the second delivery succeeds, and
      the job shows SUCCEEDED together with the first one's error. */
  lemma OldErrorStays(error: string) returns (states: seq<State>, steps: seq<Step>, i: nat)
    ensures Execution(states, steps) && i < |steps|
    ensures states[i].db.job.Some? && states[i].db.job.value.status.Failed?
    ensures states[|steps|].db.job.Some? && states[|steps|].db.job.value.status.Succeeded?
    ensures states[|steps|].db.job.value.error == Some(Truncated(error))
  {
    hide Execution, Truncated;
    states, steps := FirstDelivery();
    states, steps := OpenDelivery(states, steps);
    states, steps := Extend(states, steps, RunRaises(error));
    states, steps := Extend(states, steps, CommitFailed);
    i := |steps|;
    ghost var done := states;
    states, steps := Extend(states, steps, Crash);
    states, steps := Extend(states, steps, Redeliver);
    states, steps := Extend(states, steps, Deliver);
    states, steps := SuccessfulDelivery(states, steps);
    assert done <= states && done[i] == states[i];
  }

  /** A final commit that is stored while the worker sees an exception: the failure path writes FAILED over a job
      that has its report and its rows, in a single delivery. */
  lemma LostAcknowledgement(error: string) returns (states: seq<State>, steps: seq<Step>)
    ensures Execution(states, steps) && states[|steps|].run == 1
    ensures var db := states[|steps|].db;
            && db.job.Some? && db.job.value.status.Failed? && db.job.value.error == Some(Truncated(error))
            && db.reports == [1] && db.chain == ClaimRows(1)
  {
    hide Execution, Truncated;
    states, steps := FirstDelivery();
    states, steps := OpenDelivery(states, steps);
    states, steps := WriteClaim(states, steps);
    states, steps := Extend(states, steps, CommitRun(Some(error)));
    states, steps := Extend(states, steps, CommitFailed);
  }

  /** The same loss after a success, and a delete that is let in before the redelivered task commits RUNNING. */
  lemma DeleteDuringDelivery() returns (states: seq<State>, steps: seq<Step>)
    ensures Execution(states, steps)
    ensures Overlap(states[|steps|]) && states[|steps|].worker.Received? && states[|steps|].deletion.Deleting?
  {
    var i: nat;
    states, steps, i := DeliveredAgain();
    states, steps := Extend(states, steps, BeginDelete);
  }

  /** The same loss with a delete before the redelivery: the deleted job row comes back. */
  lemma DeletedJobReturns() returns (states: seq<State>, steps: seq<Step>, i: nat)
    ensures Execution(states, steps) && i < |steps|
    ensures states[i].deleted && states[i].db == Db(None, [], [])
    ensures states[|steps|].db.job.Some? && states[|steps|].db.job.value.status.Succeeded?
  {
    hide Execution;
    states, steps := FirstDelivery();
    states, steps := SuccessfulDelivery(states, steps);
    states, steps := Extend(states, steps, Crash);
    states, steps := Extend(states, steps, BeginDelete);
    states, steps := Extend(states, steps, CommitDelete);
    i := |steps|;
    ghost var done := states;
    states, steps := Extend(states, steps, Redeliver);
    states, steps := Extend(states, steps, Deliver);
    states, steps := Rebirth(states, steps);
    assert done <= states && done[i] == states[i];
  }

  lemma Rebirth(before: seq<State>, taken: seq<Step>) returns (states: seq<State>, steps: seq<Step>)
    requires Execution(before, taken) && before[|taken|].worker.Received? && before[|taken|].db == Db(None, [], [])
    ensures Execution(states, steps) && before <= states && |steps| > |taken|
    ensures states[|steps|].db.job.Some? && states[|steps|].db.job.value.status.Succeeded?
  {
    hide Execution;
    states, steps := Extend(before, taken, ReadJob);
    states, steps := Extend(states, steps, CommitRunning);
    states, steps := Extend(states, steps, SetUp);
    states, steps := Extend(states, steps, OpenRun);
    states, steps := Extend(states, steps, FinishRun(true));
    states, steps := Extend(states, steps, CommitRun(None));
  }

  /** Setting up the clients raises: the message is gone and the job stays RUNNING for good, because no step
      of anything is possible any more. */
  lemma SetUpFailureSticks() returns (states: seq<State>, steps: seq<Step>)
    ensures Clean(states, steps) && |states| == |steps| + 1
    ensures states[|steps|].worker.Acked? && states[|steps|].message.Gone?
    ensures states[|steps|].db.job.Some? && states[|steps|].db.job.value.status.Running?
    ensures forall step :: !Enabled(states[|steps|], step)
  {
    hide Clean;
    states, steps := CleanDelivery();
    states, steps := ExtendClean(states, steps, ReadJob);
    states, steps := ExtendClean(states, steps, CommitRunning);
    states, steps := ExtendClean(states, steps, SetUpRaises);
    states, steps := ExtendClean(states, steps, Ack);
  }

  /** Reading the job, or committing RUNNING, raises: the job stays PENDING for good. */
  lemma ReadFailureSticks() returns (states: seq<State>, steps: seq<Step>)
    ensures Clean(states, steps) && |states| == |steps| + 1
    ensures states[|steps|].worker.Acked? && states[|steps|].message.Gone?
    ensures states[|steps|].db.job.Some? && states[|steps|].db.job.value.status.Pending?
    ensures forall step :: !Enabled(states[|steps|], step)
  {
    hide Clean;
    states, steps := CleanDelivery();
    states, steps := ExtendClean(states, steps, ReadRaises);
    states, steps := ExtendClean(states, steps, Ack);
  }

  lemma CleanDelivery() returns (states: seq<State>, steps: seq<Step>)
    ensures Clean(states, steps) && |states| == |steps| + 1
    ensures states[|steps|] == INIT.(created := true, message := InFlight, worker := Received, run := 1,
                                     db := Db(Some(JobRow(Pending, None, None, false)), [], []))
  {
    hide Clean;
    states, steps := [INIT], [];
    StartClean();
    states, steps := ExtendClean(states, steps, Create);
    states, steps := ExtendClean(states, steps, Enqueue);
    states, steps := ExtendClean(states, steps, Deliver);
  }

  lemma StartClean()
    ensures Clean([INIT], [])
  {
  }

  lemma ExtendClean(states: seq<State>, steps: seq<Step>, step: Step) returns (more: seq<State>, taken: seq<Step>)
    requires Clean(states, steps) && |states| == |steps| + 1 && Enabled(states[|steps|], step) && CleanStep(states[|steps|], step)
    ensures Clean(more, taken) && |taken| == |steps| + 1 && |more| == |taken| + 1
    ensures more[|taken|] == Apply(states[|steps|], step)
  {
    more, taken := states + [Apply(states[|steps|], step)], steps + [step];
  }
}
