/** The worker's task and the job protocol agree: one delivery without a loss, taken step by step in the protocol, leaves
    what the task's own code leaves (tradegraph/src/graph/tasks.py:107-196). */
module JobDelivery {
  import opened Helpers
  import opened JobProtocol
  import opened JobWorker

  /** The state after the given steps, if each is enabled in its turn. */
  function After(s: State, steps: seq<Step>): Option<State> {
    if steps == [] then Some(s)
    else
      var n := |steps| - 1;
      var before := After(s, steps[..n]);
      if before.Some? && Enabled(before.value, steps[n]) then Some(Apply(before.value, steps[n])) else None
  }

  function BodySteps(script: seq<Event>): seq<Step> {
    if script == [] then []
    else
      var n := |script| - 1;
      BodySteps(script[..n]) + [match script[n] case Say(text) => Progress(text) case Write(kind) => AddRow(kind)]
  }

  function EndSteps(ending: Ending): seq<Step> {
    match ending
    case Returns(flag) => [FinishRun(flag), CommitRun(None)]
    case Throws(error) => [RunRaises(error), CommitFailed]
    case Unheard(flag, error) => [FinishRun(flag), CommitRun(Some(error)), CommitFailed]
  }

  function DeliverySteps(fault: Fault, script: seq<Event>, ending: Ending): seq<Step> {
    match fault
    case AtRead => [Deliver, ReadRaises, Ack]
    case AtSetUp => [Deliver, ReadJob, CommitRunning, SetUpRaises, Ack]
    case NoFault => [Deliver, ReadJob, CommitRunning, SetUp, OpenRun] + BodySteps(script) + EndSteps(ending) + [Ack]
  }

  lemma AfterNone(s: State)
    ensures After(s, []) == Some(s)
  {
  }

  lemma AfterSnoc(s: State, steps: seq<Step>, step: Step)
    requires After(s, steps).Some? && Enabled(After(s, steps).value, step)
    ensures After(s, steps + [step]) == Some(Apply(After(s, steps).value, step))
  {
    assert (steps + [step])[..|steps|] == steps;
  }

  lemma {:induction false} AfterConcat(s: State, a: seq<Step>, b: seq<Step>)
    requires After(s, a).Some?
    ensures After(s, a + b) == After(After(s, a).value, b)
  {
    hide Apply, Enabled;
    if b == [] {
      assert a + b == a;
    } else {
      var n := |b| - 1;
      AfterConcat(s, a, b[..n]);
      assert (a + b)[..|a + b| - 1] == a + b[..n] && (a + b)[|a + b| - 1] == b[n];
    }
  }

  /** One step more. */
  lemma Take(s: State, taken: seq<Step>, step: Step) returns (t: State, steps: seq<Step>)
    requires After(s, taken).Some? && Enabled(After(s, taken).value, step)
    ensures steps == taken + [step] && After(s, steps) == Some(t) && t == Apply(After(s, taken).value, step)
  {
    AfterSnoc(s, taken, step);
    t, steps := Apply(After(s, taken).value, step), taken + [step];
  }

  /** The worker in the guarded block, after the part of the script so far. */
  ghost predicate InBody(s: State, t: State, script: seq<Event>) {
    && t == s.(worker := Researching(Txn(s.db.job.None?, Written(s.run, script))),
               db := if s.db.job.None? then s.db else s.db.(job := Some(s.db.job.value.(progress := Some(Said(STARTING, script))))),
               said := t.said)
  }

  lemma {:induction false} BodyRuns(s: State, script: seq<Event>)
    requires s.worker == Researching(Txn(s.db.job.None?, []))
    requires s.db.job.Some? ==> s.db.job.value.progress == Some(STARTING)
    ensures var r := After(s, BodySteps(script)); r.Some? && InBody(s, r.value, script)
  {
    if script == [] {
      AfterNone(s);
    } else {
      var n := |script| - 1;
      BodyRuns(s, script[..n]);
      var t := After(s, BodySteps(script[..n])).value;
      var step := match script[n] case Say(text) => Progress(text) case Write(kind) => AddRow(kind);
      assert BodySteps(script) == BodySteps(script[..n]) + [step];
      hide BodySteps, After;
      AfterSnoc(s, BodySteps(script[..n]), step);
    }
  }

  /** From the queue into the guarded block. */
  lemma Opening(s: State)
    requires Enabled(s, Deliver)
    ensures var r := After(s, [Deliver, ReadJob, CommitRunning, SetUp, OpenRun]);
            && r.Some? && r.value.run == s.run + 1
            && r.value == s.(message := InFlight, run := s.run + 1, said := r.value.said,
                             worker := Researching(Txn(s.db.job.None?, [])),
                             db := if s.db.job.None? then s.db
                                   else s.db.(job := Some(s.db.job.value.(status := Running, progress := Some(STARTING)))))
  {
    hide After;
    AfterNone(s);
    var t, steps := Take(s, [], Deliver);
    t, steps := Take(s, steps, ReadJob);
    t, steps := Take(s, steps, CommitRunning);
    t, steps := Take(s, steps, SetUp);
    t, steps := Take(s, steps, OpenRun);
    assert steps == [Deliver, ReadJob, CommitRunning, SetUp, OpenRun];
  }

  /** From the guarded block to the acknowledgement, from a state `s` at its beginning that a database `before`
      became when RUNNING was committed. */
  lemma Closing(before: Db, s: State, script: seq<Event>, t: State, ending: Ending)
    requires InBody(s, t, script) && Begun(before, s.db)
    ensures Closed(before, s, After(t, EndSteps(ending) + [Ack]), script, ending)
  {
    match ending {
      case Returns(flag) => Committing(before, s, script, t, flag);
      case Throws(error) => Raising(before, s, script, t, error);
      case Unheard(flag, error) => CommittingUnheard(before, s, script, t, flag, error);
    }
  }

  ghost predicate Begun(before: Db, db: Db) {
    if before.job.None? then db == before
    else db == before.(job := Some(before.job.value.(status := Running, progress := Some(STARTING))))
  }

  ghost predicate Closed(before: Db, s: State, r: Option<State>, script: seq<Event>, ending: Ending) {
    && r.Some? && r.value.worker == Acked && r.value.message == Gone && r.value.deletion == s.deletion
    && Leaves(before, r.value.db, s.run, NoFault, script, ending)
  }

  /** The final commit of the guarded block, heard or not. */
  lemma FinalCommit(s: State, t: State, script: seq<Event>, flag: bool, unheard: Option<string>) returns (u: State)
    requires InBody(s, t, script)
    ensures After(t, [FinishRun(flag), CommitRun(unheard)]) == Some(u)
    ensures u == t.(worker := if unheard.Some? then Failing(unheard.value) else JobProtocol.Committed, db := u.db, log := u.log)
    ensures u.db == Db(Some(if s.db.job.None? then JobRow(Succeeded, None, None, flag)
                            else t.db.job.value.(status := Succeeded, insufficient := t.db.job.value.insufficient || flag)),
                       t.db.chain + Written(s.run, script), t.db.reports + [s.run])
  {
    hide After, Written, Said;
    AfterNone(t);
    var steps;
    u, steps := Take(t, [], FinishRun(flag));
    u, steps := Take(t, steps, CommitRun(unheard));
    assert steps == [FinishRun(flag), CommitRun(unheard)];
  }

  lemma Committing(before: Db, s: State, script: seq<Event>, t: State, flag: bool)
    requires InBody(s, t, script) && Begun(before, s.db)
    ensures Closed(before, s, After(t, EndSteps(Returns(flag)) + [Ack]), script, Returns(flag))
  {
    hide After, Written, Said, Truncated;
    var u := FinalCommit(s, t, script, flag, None);
    var v, steps := Take(t, [FinishRun(flag), CommitRun(None)], Ack);
    assert steps == EndSteps(Returns(flag)) + [Ack];
  }

  lemma Raising(before: Db, s: State, script: seq<Event>, t: State, error: string)
    requires InBody(s, t, script) && Begun(before, s.db)
    ensures Closed(before, s, After(t, EndSteps(Throws(error)) + [Ack]), script, Throws(error))
  {
    hide After, Written, Said, Truncated;
    AfterNone(t);
    var u, steps := Take(t, [], RunRaises(error));
    u, steps := Take(t, steps, CommitFailed);
    u, steps := Take(t, steps, Ack);
    assert steps == EndSteps(Throws(error)) + [Ack];
  }

  lemma CommittingUnheard(before: Db, s: State, script: seq<Event>, t: State, flag: bool, error: string)
    requires InBody(s, t, script) && Begun(before, s.db)
    ensures Closed(before, s, After(t, EndSteps(Unheard(flag, error)) + [Ack]), script, Unheard(flag, error))
  {
    hide After, Written, Said, Truncated;
    var u := FinalCommit(s, t, script, flag, Some(error));
    var v, steps := Take(t, [FinishRun(flag), CommitRun(Some(error))], CommitFailed);
    v, steps := Take(t, steps, Ack);
    assert steps == EndSteps(Unheard(flag, error)) + [Ack];
  }

  /** A delivery of the message, with a fault outside the guarded block or none, any script and any ending, is a sequence
      of protocol steps, each enabled in its turn whatever earlier deliveries left behind. It ends with the
      message acknowledged, touches no open delete, and leaves committed exactly what the task's code leaves. */
  lemma DeliveryIsTheTask(s: State, fault: Fault, script: seq<Event>, ending: Ending)
    requires Enabled(s, Deliver)
    ensures var r := After(s, DeliverySteps(fault, script, ending));
            && r.Some? && r.value.worker == Acked && r.value.message == Gone && r.value.deletion == s.deletion
            && Leaves(s.db, r.value.db, s.run + 1, fault, script, ending)
  {
    hide After, Leaves;
    match fault {
      case AtRead => FailsReading(s, script, ending);
      case AtSetUp => FailsSettingUp(s, script, ending);
      case NoFault =>
        var opening, body, closing := [Deliver, ReadJob, CommitRunning, SetUp, OpenRun], BodySteps(script), EndSteps(ending) + [Ack];
        Opening(s);
        var o := After(s, opening).value;
        BodyRuns(o, script);
        var t := After(o, body).value;
        Closing(s.db, o, script, t, ending);
        AfterConcat(s, opening, body);
        AfterConcat(s, opening + body, closing);
        assert DeliverySteps(fault, script, ending) == opening + body + closing;
    }
  }

  lemma FailsReading(s: State, script: seq<Event>, ending: Ending)
    requires Enabled(s, Deliver)
    ensures var r := After(s, DeliverySteps(AtRead, script, ending));
            && r.Some? && r.value.worker == Acked && r.value.message == Gone && r.value.deletion == s.deletion
            && Leaves(s.db, r.value.db, s.run + 1, AtRead, script, ending)
  {
    hide After;
    AfterNone(s);
    var t, steps := Take(s, [], Deliver);
    t, steps := Take(s, steps, ReadRaises);
    t, steps := Take(s, steps, Ack);
    assert steps == DeliverySteps(AtRead, script, ending);
  }

  lemma FailsSettingUp(s: State, script: seq<Event>, ending: Ending)
    requires Enabled(s, Deliver)
    ensures var r := After(s, DeliverySteps(AtSetUp, script, ending));
            && r.Some? && r.value.worker == Acked && r.value.message == Gone && r.value.deletion == s.deletion
            && Leaves(s.db, r.value.db, s.run + 1, AtSetUp, script, ending)
  {
    hide After;
    AfterNone(s);
    var t, steps := Take(s, [], Deliver);
    t, steps := Take(s, steps, ReadJob);
    t, steps := Take(s, steps, CommitRunning);
    t, steps := Take(s, steps, SetUpRaises);
    t, steps := Take(s, steps, Ack);
    assert steps == DeliverySteps(AtSetUp, script, ending);
  }
}
