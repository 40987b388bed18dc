/** One uninterrupted delivery, as the task's own code runs it (tradegraph/src/graph/tasks.py:107-196):
    two short commits around one long transaction, and the rollback path. It is the reference that
    every run with losses and redeliveries is compared with. */
module JobWorker {
  import opened Helpers
  import opened JobProtocol
  import opened JobSafety
  import opened JobExact

  /** What the research code does inside the long transaction. */
  datatype Event = Say(text: string) | Write(kind: Kind)
  datatype Fault = NoFault | AtRead | AtSetUp   // where an exception outside the guarded block strikes, if any
  /** How the guarded block ends: it commits, it raises, or its commit is stored and raises all the same. */
  datatype Ending = Returns(insufficient: bool) | Throws(error: string) | Unheard(insufficient: bool, error: string)

  function Said(first: string, script: seq<Event>): string {
    if script == [] then first
    else match script[|script| - 1]
         case Say(text) => text
         case Write(_) => Said(first, script[..|script| - 1])
  }

  function Written(run: nat, script: seq<Event>): seq<ChainRow> {
    if script == [] then []
    else match script[|script| - 1]
         case Say(_) => Written(run, script[..|script| - 1])
         case Write(kind) => Written(run, script[..|script| - 1]) + [ChainRow(run, kind)]
  }

  const STARTING := "Starting research"

  /** What one delivery leaves committed. */
  ghost predicate Leaves(before: Db, after: Db, run: nat, fault: Fault, script: seq<Event>, ending: Ending) {
    && (fault.AtRead? ==> after == before)
    && (before.job.Some? && fault.AtSetUp? ==>
          after == before.(job := Some(before.job.value.(status := Running, progress := Some(STARTING)))))
    && (before.job.Some? && fault.NoFault? ==>
          var said := before.job.value.(progress := Some(Said(STARTING, script)));
          match ending
          case Throws(error) => after == before.(job := Some(said.(status := Failed, error := Some(Truncated(error)))))
          case Returns(flag) =>
            after == Db(Some(said.(status := Succeeded, insufficient := said.insufficient || flag)),
                        before.chain + Written(run, script), before.reports + [run])
          case Unheard(flag, error) =>
            after == Db(Some(said.(status := Failed, insufficient := said.insufficient || flag, error := Some(Truncated(error)))),
                        before.chain + Written(run, script), before.reports + [run]))
    && (before.job.None? && !fault.NoFault? ==> after == before)
    && (before.job.None? && fault.NoFault? ==>
          match ending
          case Throws(_) => after == before
          case Returns(flag) =>
            after == Db(Some(JobRow(Succeeded, None, None, flag)), before.chain + Written(run, script), before.reports + [run])
          case Unheard(flag, error) =>
            after == Db(Some(JobRow(Failed, None, Some(Truncated(error)), flag)),
                        before.chain + Written(run, script), before.reports + [run]))
  }

  class Task {
    var db: Db   // what is committed

    constructor (db: Db)
      ensures this.db == db
    {
      this.db := db;
    }

    /** The progress callback: its own session, its own commit, nothing when the row is not visible. */
    method OnProgress(text: string)
      modifies this
      ensures db == if old(db).job.None? then old(db)
                    else old(db).(job := Some(old(db).job.value.(progress := Some(text))))
    {
      if db.job.Some? {
        var job := db.job.value;
        job := job.(progress := Some(text));
        db := db.(job := Some(job));
      }
    }

    /** Returns whether the exception left the task. A success adds the whole evidence chain and one
        report in one commit; a failure adds nothing but the status and the truncated message, and writes
        them over the success when its commit was stored unheard. */
    method RunResearchJob(run: nat, fault: Fault, script: seq<Event>, ending: Ending) returns (raised: bool)
      modifies this
      ensures raised <==> !fault.NoFault? || !ending.Returns?
      ensures Leaves(old(db), db, run, fault, script, ending)
    {
      if fault.AtRead? { return true; }
      if db.job.Some? {
        var job := db.job.value;
        job := job.(status := Running, progress := Some(STARTING));
        db := db.(job := Some(job));
      }
      if fault.AtSetUp? { return true; }
      var txn := Txn(db.job.None?, []);
      ghost var begun := db;
      for i := 0 to |script|
        invariant txn == Txn(begun.job.None?, Written(run, script[..i]))
        invariant db == if begun.job.None? then begun
                        else begun.(job := Some(begun.job.value.(progress := Some(Said(STARTING, script[..i])))))
      {
        assert script[..i + 1][..i] == script[..i];
        match script[i]
        case Say(text) => OnProgress(text);
        case Write(kind) => txn := txn.(chain := txn.chain + [ChainRow(run, kind)]);
      }
      assert script[..|script|] == script;
      if !ending.Throws? {
        var row := if txn.insertsJob then JobRow(Succeeded, None, None, ending.insufficient)
                   else db.job.value.(status := Succeeded, insufficient := db.job.value.insufficient || ending.insufficient);
        db := Db(Some(row), db.chain + txn.chain, db.reports + [run]);
      }
      if ending.Returns? { return false; }
      if db.job.Some? {
        var failed := db.job.value;
        failed := failed.(status := Failed, error := Some(Truncated(ending.error)));
        db := db.(job := Some(failed));
      }
      return true;
    }
  }

  /** What one uninterrupted successful delivery of a fresh job leaves is exactly an `EndState`. */
  method UninterruptedRun(run: nat, script: seq<Event>, insufficient: bool) returns (db: Db)
    ensures db == EndState(Record(run, Written(run, script), insufficient, Some(Said(STARTING, script))))
  {
    var task := new Task(Db(Some(JobRow(Pending, None, None, false)), [], []));
    var raised := task.RunResearchJob(run, NoFault, script, Returns(insufficient));
    db := task.db;
  }

  /** The committed state is that of one uninterrupted delivery of some script. */
  ghost predicate Uninterrupted(db: Db) {
    exists script: seq<Event>, run, insufficient ::
      db == EndState(Record(run, Written(run, script), insufficient, Some(Said(STARTING, script))))
  }

  /** Over every run: a visible SUCCEEDED of a job that was never deleted is the end state of one uninterrupted
      delivery exactly when no other end was recorded before it, however often the worker was lost and the
      message redelivered on the way. */
  lemma UninterruptedExactly(states: seq<State>, steps: seq<Step>, i: nat)
    requires Execution(states, steps) && i < |states| && !states[i].deleted
    requires states[i].db.job.Some? && states[i].db.job.value.status.Succeeded?
    ensures Uninterrupted(states[i].db) <==> Ends(steps[..i]) == 1
  {
    hide Execution, Ends, Failures, Written, Said;
    SucceededExactly(states, steps, i);
    Remembered(states, steps, i);
    Reachable(states, steps, i);
    var s := states[i];
    if |s.log| == 1 && s.db == EndState(s.log[0]) {
      var r := s.log[0];
      var script := Replay(r.run, r.chain, r.said.value);
      assert s.db == EndState(Record(r.run, Written(r.run, script), r.insufficient, Some(Said(STARTING, script))));
    }
    if Uninterrupted(s.db) {
      NotErased(states, steps, i);
      assert Runs(s.log)[0..] == Runs(s.log);
    }
  }

  /** In particular in every clean run. */
  lemma SameAsUninterrupted(states: seq<State>, steps: seq<Step>, i: nat)
    requires Clean(states, steps) && i < |states|
    requires states[i].db.job.Some? && states[i].db.job.value.status.Succeeded?
    ensures Uninterrupted(states[i].db)
  {
    hide Ends;
    CleanReachable(states, steps, i);
    SucceededIsOneRun(states, steps, i);
    SucceededExactly(states, steps, i);
    UninterruptedExactly(states, steps, i);
  }

  /** A script that writes the given rows and then says the given text. */
  lemma {:induction false} Replay(run: nat, rows: seq<ChainRow>, text: string) returns (script: seq<Event>)
    requires forall k :: 0 <= k < |rows| ==> rows[k].run == run
    ensures Written(run, script) == rows && Said(STARTING, script) == text
  {
    var writes := ReplayRows(run, rows);
    script := writes + [Say(text)];
    assert script[..|writes|] == writes;
  }

  lemma {:induction false} ReplayRows(run: nat, rows: seq<ChainRow>) returns (script: seq<Event>)
    requires forall k :: 0 <= k < |rows| ==> rows[k].run == run
    ensures Written(run, script) == rows
  {
    if rows == [] {
      script := [];
    } else {
      var n := |rows| - 1;
      var writes := ReplayRows(run, rows[..n]);
      script := writes + [Write(rows[n].kind)];
      assert script[..|writes|] == writes && rows == rows[..n] + [rows[n]];
    }
  }
}
