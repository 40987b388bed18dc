/** The protocol and the rows: what an execution of the job protocol has committed is what a history of runs and
    deletes stores, with one run for every final commit and one delete for every committed delete
    (tradegraph/src/graph/tasks.py:139-196, tradegraph/src/graph/pipeline.py:137-375). */
module JobHistory {
  import opened Helpers
  import P = JobProtocol
  import S = JobSafety
  import opened Evidence
  import opened ClaimGate
  import opened EvidenceChain
  import opened ResearchRun
  import opened StoredRuns

  /** What a row is, without its contents. */
  datatype Mark = Chain(kind: P.Kind) | Report

  function MarkOf(row: Row): seq<Mark> {
    match row
    case JobRow => []
    case ClaimRow(_, _) => [Chain(P.Claim)]
    case EvidenceRow(_, _, _, _) => [Chain(P.Evidence)]
    case LinkRow(_, _) => [Chain(P.Link)]
    case CitationRow(_, _, _, _) => [Chain(P.Citation)]
    case ReportRow(_, _, _) => [Report]
  }

  function Marks(rows: seq<Row>): seq<Mark> {
    if rows == [] then [] else Marks(rows[..|rows| - 1]) + MarkOf(rows[|rows| - 1])
  }

  lemma MarksSnoc(rows: seq<Row>, row: Row)
    ensures Marks(rows + [row]) == Marks(rows) + MarkOf(row)
  {
    assert (rows + [row])[..|rows|] == rows;
  }

  // ---- What a run adds --------------------------------------------------------------------------

  lemma PairMarks(g: Gate, job: nat, claim: nat, index: int, position: nat, ve: Verified, j: Judgement)
    ensures var after := AddPair(g, job, claim, index, position, ve, j);
            && Marks(after.rows) == Marks(g.rows) + (if index in g.cache then [] else [Chain(P.Evidence)])
                                    + [Chain(P.Link), Chain(P.Citation)]
            && after.cache.Keys == g.cache.Keys + {index}
  {
    hide Marks;
    var after := AddPair(g, job, claim, index, position, ve, j);
    var row := EvidenceRowFor(job, ve);
    var rows := if index in g.cache then g.rows else g.rows + [row];
    var link, citation := LinkRow(claim, after.cache[index]), CitationRow(claim, after.cache[index], ve.source.payload.documentId, j);
    MarksSnoc(g.rows, row);
    MarksSnoc(rows, link);
    MarksSnoc(rows + [link], citation);
    assert after.rows == rows + [link] + [citation];
  }

  /** Two gates that have cached the same indices add rows of the same kinds. */
  lemma {:induction false} PairsMarks(g: Gate, h: Gate, job: nat, other: nat, claim: nat, second: nat, indices: seq<int>,
                                      verified: seq<Verified>, judge: Judge, c: nat, n: nat) returns (added: seq<Mark>)
    requires n <= |Resolved(indices, |verified|)| && g.cache.Keys == h.cache.Keys
    ensures var (a, b) := (AddPairs(g, job, claim, indices, verified, judge, c, n),
                           AddPairs(h, other, second, indices, verified, judge, c, n));
            && a.cache.Keys == b.cache.Keys
            && Marks(a.rows) == Marks(g.rows) + added && Marks(b.rows) == Marks(h.rows) + added
  {
    hide AddPair, Marks;
    if n == 0 {
      added := [];
    } else {
      var before := PairsMarks(g, h, job, other, claim, second, indices, verified, judge, c, n - 1);
      var a, b := AddPairs(g, job, claim, indices, verified, judge, c, n - 1), AddPairs(h, other, second, indices, verified, judge, c, n - 1);
      var position := Resolved(indices, |verified|)[n - 1];
      PairMarks(a, job, claim, indices[n - 1], position, verified[position], judge(c, n - 1));
      PairMarks(b, other, second, indices[n - 1], position, verified[position], judge(c, n - 1));
      added := before + (if indices[n - 1] in a.cache then [] else [Chain(P.Evidence)]) + [Chain(P.Link), Chain(P.Citation)];
    }
  }

  lemma {:induction false} ClaimsMarks(g: Gate, h: Gate, job: nat, other: nat, drafts: seq<Draft>, verified: seq<Verified>,
                                       judge: Judge) returns (added: seq<Mark>)
    requires g.cache.Keys == h.cache.Keys
    ensures var (a, b) := (AddClaims(g, job, drafts, verified, judge), AddClaims(h, other, drafts, verified, judge));
            && a.cache.Keys == b.cache.Keys
            && Marks(a.rows) == Marks(g.rows) + added && Marks(b.rows) == Marks(h.rows) + added
  {
    hide AddPairs, Marks;
    added := [];
    if drafts != [] {
      var c := |drafts| - 1;
      added := ClaimsMarks(g, h, job, other, drafts[..c], verified, judge);
      var a, b := AddClaims(g, job, drafts[..c], verified, judge), AddClaims(h, other, drafts[..c], verified, judge);
      var n := |Resolved(drafts[c].indices, |verified|)|;
      if n > 0 {
        var text := drafts[c].text;
        MarksSnoc(a.rows, ClaimRow(job, text));
        MarksSnoc(b.rows, ClaimRow(other, text));
        var more := PairsMarks(a.(rows := a.rows + [ClaimRow(job, text)]), b.(rows := b.rows + [ClaimRow(other, text)]),
                               job, other, |a.rows|, |b.rows|, drafts[c].indices, verified, judge, c, n);
        added := added + [Chain(P.Claim)] + more;
      }
    }
  }

  /** The kinds of rows a run stores, its report last, whatever was stored before. */
  function RunMarks(a: Answers): seq<Mark> { Marks(RowsAfter([JobRow], 0, a)) }

  lemma RunAdds(rows: seq<Row>, job: nat, a: Answers)
    ensures Marks(RowsAfter(rows, job, a)) == Marks(rows) + RunMarks(a)
  {
    hide Marks, AddClaims, FinalReport;
    var verified := AllKept(a.scripts);
    MarksSnoc([], JobRow);
    assert [] + [JobRow] == [JobRow];
    NoMarks();
    if verified == [] {
      MarksSnoc(rows, ReportRow(job, None, DECLARED_INSUFFICIENT));
      MarksSnoc([JobRow], ReportRow(0, None, DECLARED_INSUFFICIENT));
    } else {
      var added := ClaimsMarks(StartGate(rows), StartGate([JobRow]), job, 0, a.drafts, verified, a.judge);
      MarksSnoc(Run(rows, job, a.drafts, verified, a.judge).rows, ReportRow(job, Some(a.reportText), FinalReport(a)));
      MarksSnoc(Run([JobRow], 0, a.drafts, verified, a.judge).rows, ReportRow(0, Some(a.reportText), FinalReport(a)));
    }
  }

  lemma NoMarks()
    ensures Marks([]) == []
  {
  }

  // ---- What is present --------------------------------------------------------------------------

  /** The marks of the rows that were not removed. */
  function Present(rows: seq<Row>, gone: set<nat>): seq<Mark> {
    if rows == [] then []
    else
      var n := |rows| - 1;
      Present(rows[..n], gone) + if n in gone then [] else MarkOf(rows[n])
  }

  lemma {:induction false} PresentAppend(rows: seq<Row>, all: seq<Row>, gone: set<nat>) returns (added: seq<Mark>)
    requires rows <= all && forall i :: |rows| <= i < |all| ==> i !in gone
    ensures Present(all, gone) == Present(rows, gone) + added && Marks(all) == Marks(rows) + added
  {
    if |all| == |rows| {
      added := [];
      assert all == rows;
    } else {
      var n := |all| - 1;
      var before := PresentAppend(rows, all[..n], gone);
      added := before + MarkOf(all[n]);
    }
  }

  lemma {:induction false} PresentSame(rows: seq<Row>, gone: set<nat>, less: set<nat>)
    requires forall i :: 0 <= i < |rows| && !rows[i].JobRow? ==> (i in gone <==> i in less)
    ensures Present(rows, gone) == Present(rows, less)
  {
    if rows != [] { PresentSame(rows[..|rows| - 1], gone, less); }
  }

  lemma {:induction false} NothingPresent(rows: seq<Row>, gone: set<nat>)
    requires forall i: nat :: i < |rows| ==> i in gone
    ensures Present(rows, gone) == []
  {
    if rows != [] { NothingPresent(rows[..|rows| - 1], gone); }
  }

  // ---- Executions -------------------------------------------------------------------------------

  /** The history an execution stands for, when delivery `r` researches with the answers `answers(r)`. */
  function EventsOf(steps: seq<P.Step>, answers: nat -> Answers): seq<Event> {
    if steps == [] then []
    else
      var before := steps[..|steps| - 1];
      EventsOf(before, answers) +
        match steps[|steps| - 1]
        case Create => [Event.Create]
        case CommitRun(_) => [Again(0, answers(S.Delivered(before)))]
        case CommitDelete => [Delete(0)]
        case _ => []
  }

  function ChainMarks(rows: seq<P.ChainRow>): seq<Mark> {
    seq(|rows|, k requires 0 <= k < |rows| => Chain(rows[k].kind))
  }

  /** Every delivery that commits had added rows of exactly the kinds its run stores, and had found nothing exactly
      when its answers say so. */
  ghost predicate Driven(steps: seq<P.Step>, answers: nat -> Answers) {
    && (forall i :: 0 <= i < |steps| && steps[i].CommitRun? ==>
          ChainMarks(S.OwnRows(steps[..i])) + [Report] == RunMarks(answers(S.Delivered(steps[..i]))))
    && (forall i :: 0 <= i < |steps| && steps[i].FinishRun? ==>
          (steps[i].insufficient <==> Nothing(answers(S.Delivered(steps[..i])))))
  }

  function LiveMarks(finals: seq<S.Final>): seq<Mark> {
    if finals == [] then []
    else
      var n := |finals| - 1;
      LiveMarks(finals[..n]) + ChainMarks(finals[n].rows) + [Report]
  }

  ghost predicate SomeNothing(finals: seq<S.Final>, answers: nat -> Answers) {
    exists k :: 0 <= k < |finals| && Nothing(answers(finals[k].run))
  }

  /** All rows are of job 0. */
  ghost predicate OneJob(log: Log) {
    && (forall i: nat :: i < |log.rows| ==> JobOf(log.rows, i) == 0)
    && (log.rows != [] ==> log.rows[0].JobRow?)
    && (forall i: nat :: 0 < i < |log.rows| ==> !log.rows[i].JobRow?)
  }

  /** The database of the state is the one the history stores. */
  ghost predicate Agrees(s: P.State, taken: seq<P.Step>, answers: nat -> Answers, log: Log) {
    && Sound(log) && OneJob(log)
    && (s.created <==> log.rows != [])
    && (s.db.job.Some? <==> log.rows != [] && 0 !in log.gone)
    && Present(log.rows, log.gone) == LiveMarks(S.Live(taken))
    && (s.db.job.None? ==> S.Live(taken) == [])
    && (s.db.job.Some? ==> (s.db.job.value.insufficient <==> SomeNothing(S.Live(taken), answers)))
    && (s.worker.Returned? ==> (s.worker.insufficient <==> Nothing(answers(s.run))))
  }

  lemma RunOneJob(log: Log, a: Answers)
    requires Sound(log) && OneJob(log) && log.rows != []
    ensures OneJob(Next(log, Again(0, a))) && Sound(Next(log, Again(0, a)))
    ensures var after := Next(log, Again(0, a)); after.rows == RowsAfter(log.rows, 0, a) && after.gone == log.gone - {0}
  {
    hide RowsAfter, Within, ParentsFirst;
    RunKeepsConsistent(log.rows, 0, a);
    RunSound(log, 0, a);
    var after := RowsAfter(log.rows, 0, a);
    forall i: nat | i < |after| ensures JobOf(after, i) == 0 && (i > 0 ==> !after[i].JobRow?) {
      if i < |log.rows| {
        EarlierJob(log.rows, after, i);
      } else {
        LaterJob(after, i, |log.rows|);
      }
    }
  }

  lemma EarlierJob(rows: seq<Row>, all: seq<Row>, i: nat)
    requires Consistent(rows) && rows <= all && i < |rows|
    ensures JobOf(all, i) == JobOf(rows, i) && all[i] == rows[i]
  {
    RefersBack(rows, i);
  }

  lemma LaterJob(all: seq<Row>, i: nat, from: nat)
    requires Consistent(all) && OwnFrom(all, 0, from) && from <= i < |all|
    ensures JobOf(all, i) == 0 && !all[i].JobRow?
  {
    assert OwnRow(all[i], 0, from);
    RefersBack(all, i);
    if all[i].LinkRow? || all[i].CitationRow? { assert OwnRow(all[all[i].claim], 0, from); }
  }

  lemma RunPresent(log: Log, a: Answers)
    requires Sound(log) && OneJob(log) && log.rows != []
    ensures var after := Next(log, Again(0, a)); Present(after.rows, after.gone) == Present(log.rows, log.gone) + RunMarks(a)
  {
    hide RowsAfter, Consistent, Marks, Present;
    RunKeepsConsistent(log.rows, 0, a);
    RunAdds(log.rows, 0, a);
    var after := RowsAfter(log.rows, 0, a);
    var added := PresentAppend(log.rows, after, log.gone - {0});
    PresentSame(log.rows, log.gone, log.gone - {0});
    Cancel(Marks(log.rows), added, RunMarks(a));
  }

  lemma Cancel(before: seq<Mark>, x: seq<Mark>, y: seq<Mark>)
    requires before + x == before + y
    ensures x == y
  {
    assert (before + x)[|before|..] == x && (before + y)[|before|..] == y;
  }

  lemma DeletePresent(log: Log)
    requires Sound(log) && OneJob(log)
    ensures var after := Next(log, Delete(0));
            && Present(after.rows, after.gone) == [] && OneJob(after) && Sound(after)
            && (log.rows != [] ==> 0 in after.gone)
  {
    hide Consistent;
    DeleteSound(log, 0);
    NothingPresent(log.rows, Next(log, Delete(0)).gone);
  }

  lemma CreatePresent(log: Log)
    requires Sound(log) && log.rows == []
    ensures var after := Next(log, Event.Create);
            && Present(after.rows, after.gone) == [] && OneJob(after) && Sound(after) && 0 !in after.gone
  {
    CreateSound(log);
    assert [JobRow][..0] == [] && log.rows + [JobRow] == [JobRow];
  }

  // ---- One step ---------------------------------------------------------------------------------

  lemma LiveNext(taken: seq<P.Step>, step: P.Step, answers: nat -> Answers)
    ensures var (live, f) := (S.Live(taken), S.Final(S.Delivered(taken), S.OwnRows(taken)));
            && S.Live(taken + [step]) == (if step.CommitDelete? then [] else live + if step.CommitRun? then [f] else [])
            && LiveMarks(live + [f]) == LiveMarks(live) + ChainMarks(f.rows) + [Report]
            && (SomeNothing(live + [f], answers) <==> SomeNothing(live, answers) || Nothing(answers(f.run)))
            && LiveMarks([]) == [] && !SomeNothing([], answers)
  {
    hide Nothing, S.OwnRows, S.Delivered;
    var live, f := S.Live(taken), S.Final(S.Delivered(taken), S.OwnRows(taken));
    S.FinalsNext(taken, step);
    assert (live + [f])[..|live|] == live;
    if k :| 0 <= k < |live| && Nothing(answers(live[k].run)) { assert (live + [f])[k] == live[k]; }
    if Nothing(answers(f.run)) { assert (live + [f])[|live|] == f; }
  }

  lemma EventsNext(taken: seq<P.Step>, step: P.Step, answers: nat -> Answers)
    ensures var more := taken + [step];
            History(EventsOf(more, answers)) ==
              match step
              case Create => Next(History(EventsOf(taken, answers)), Event.Create)
              case CommitRun(_) => Next(History(EventsOf(taken, answers)), Again(0, answers(S.Delivered(taken))))
              case CommitDelete => Next(History(EventsOf(taken, answers)), Delete(0))
              case _ => History(EventsOf(taken, answers))
  {
    hide Next, S.Delivered;
    var more, events := taken + [step], EventsOf(taken, answers);
    assert more[..|taken|] == taken && more[|taken|] == step;
    assert events + [] == events;
    forall e: Event ensures History(events + [e]) == Next(History(events), e) { assert (events + [e])[..|events|] == events; }
  }

  lemma CommitAgrees(s: P.State, taken: seq<P.Step>, step: P.Step, answers: nat -> Answers, log: Log)
    requires Agrees(s, taken, answers, log) && S.Tracks(s, taken) && S.WorkerOk(s) && P.Enabled(s, step) && step.CommitRun?
    requires ChainMarks(S.OwnRows(taken)) + [Report] == RunMarks(answers(S.Delivered(taken)))
    ensures Agrees(P.Apply(s, step), taken + [step], answers, Next(log, Again(0, answers(S.Delivered(taken)))))
  {
    hide Sound, OneJob, RunMarks, ChainMarks, LiveMarks, SomeNothing, Nothing, Present, S.Live, S.OwnRows, S.Delivered, Next;
    var a := answers(S.Delivered(taken));
    RunOneJob(log, a);
    RunPresent(log, a);
    LiveNext(taken, step, answers);
    RowsGrow(log.rows, a);
  }

  lemma RowsGrow(rows: seq<Row>, a: Answers)
    ensures RowsAfter(rows, 0, a) != []
  {
  }

  lemma StepAgrees(s: P.State, taken: seq<P.Step>, step: P.Step, answers: nat -> Answers, log: Log, after: Log)
    requires Agrees(s, taken, answers, log) && S.Tracks(s, taken) && S.WorkerOk(s) && P.Enabled(s, step) && !step.CommitRun?
    requires step.FinishRun? ==> (step.insufficient <==> Nothing(answers(S.Delivered(taken))))
    requires after == match step
                      case Create => Next(log, Event.Create)
                      case CommitDelete => Next(log, Delete(0))
                      case _ => log
    ensures Agrees(P.Apply(s, step), taken + [step], answers, after)
  {
    hide Sound, OneJob, LiveMarks, SomeNothing, Nothing, Present, S.Live, S.OwnRows, S.Delivered, Next;
    LiveNext(taken, step, answers);
    assert S.Live(taken) + [] == S.Live(taken);
    if step.Create? { CreatePresent(log); CreatedRows(log); }
    if step.CommitDelete? { DeletePresent(log); DeletedRows(log); }
  }

  lemma CreatedRows(log: Log)
    ensures Next(log, Event.Create).rows != []
  {
  }

  lemma DeletedRows(log: Log)
    ensures Next(log, Delete(0)).rows == log.rows
  {
  }

  lemma {:induction false} ExecutionAgrees(states: seq<P.State>, steps: seq<P.Step>, answers: nat -> Answers, i: nat)
    requires P.Execution(states, steps) && Driven(steps, answers) && i < |states|
    ensures Agrees(states[i], steps[..i], answers, History(EventsOf(steps[..i], answers)))
  {
    hide Agrees, S.Tracks, S.Inv, P.Apply, P.Enabled, RunMarks, ChainMarks, Next, History, EventsOf;
    if i == 0 {
      assert steps[..0] == [];
      NothingAgrees(answers);
    } else {
      var n := i - 1;
      ExecutionAgrees(states, steps, answers, n);
      S.Tracked(states, steps, n);
      S.Reachable(states, steps, n);
      InvWorker(states[n]);
      assert steps[..i] == steps[..n] + [steps[n]];
      EventsNext(steps[..n], steps[n], answers);
      var log := History(EventsOf(steps[..n], answers));
      if steps[n].CommitRun? {
        CommitAgrees(states[n], steps[..n], steps[n], answers, log);
      } else {
        StepAgrees(states[n], steps[..n], steps[n], answers, log, History(EventsOf(steps[..i], answers)));
      }
    }
  }

  lemma InvWorker(s: P.State)
    requires S.Inv(s)
    ensures S.WorkerOk(s)
  {
  }

  lemma NothingAgrees(answers: nat -> Answers)
    ensures Agrees(P.INIT, [], answers, History(EventsOf([], answers)))
  {
    NothingSound();
  }

  /** What an execution has committed is what its history stores: the job row is present in both or in neither, the
      present rows are, kind for kind and in order, those of the final commits since the last delete, each
      followed by its report, and the flag says whether one of those runs found nothing. */
  lemma ExecutionIsHistory(states: seq<P.State>, steps: seq<P.Step>, answers: nat -> Answers, i: nat)
    requires P.Execution(states, steps) && Driven(steps, answers) && i < |states|
    ensures var s, log, live := states[i], History(EventsOf(steps[..i], answers)), S.Live(steps[..i]);
            && (s.db.job.Some? <==> log.rows != [] && 0 !in log.gone)
            && Present(log.rows, log.gone) == LiveMarks(live)
            && s.db.reports == S.FinalRuns(live) && s.db.chain == S.FinalRows(live)
            && (s.db.job.Some? ==> (s.db.job.value.insufficient <==> exists k :: 0 <= k < |live| && Nothing(answers(live[k].run))))
  {
    hide P.Execution, Driven, Present, LiveMarks, S.Live, S.FinalRuns, S.FinalRows, Nothing, History, EventsOf;
    ExecutionAgrees(states, steps, answers, i);
    S.CrashSafety(states, steps, i);
  }

  /** The kinds of rows two concrete runs store: nothing but the report, and one claim with all it needs. */
  lemma ConcreteMarks()
    ensures RunMarks(NothingFound()) == [Report]
    ensures RunMarks(OneClaim()) == [Chain(P.Claim), Chain(P.Evidence), Chain(P.Link), Chain(P.Citation), Report]
  {
    NothingMarks();
    ClaimMarks();
  }

  lemma NothingMarks()
    ensures RunMarks(NothingFound()) == [Report]
  {
    hide Marks;
    var a := NothingFound();
    assert a.scripts[..0] == [] && KeptIndices(a.scripts[0], 0) == [];
    assert AllKept(a.scripts) == [];
    MarksSnoc([], JobRow);
    MarksSnoc([JobRow], ReportRow(0, None, DECLARED_INSUFFICIENT));
    NoMarks();
    assert [] + [JobRow] == [JobRow];
  }

  lemma OneDraft(g: Gate, job: nat, draft: Draft, verified: seq<Verified>, judge: Judge)
    ensures AddClaims(g, job, [draft], verified, judge) == AddClaim(g, job, draft, verified, judge, 0)
  {
    hide AddClaim;
    assert [draft][..0] == [];
    assert AddClaims(g, job, [], verified, judge) == g;
  }

  /** A draft whose one index is 0 adds a claim and one pair. */
  lemma OnePair(g: Gate, job: nat, text: string, verified: seq<Verified>, judge: Judge)
    requires |verified| == 1
    ensures var claimed := g.(rows := g.rows + [ClaimRow(job, text)]);
            AddClaim(g, job, Draft(text, [0]), verified, judge, 0) == AddPair(claimed, job, |g.rows|, 0, 0, verified[0], judge(0, 0))
  {
    hide AddPair;
    assert [0][..0] == [];
    assert Resolved([0], 1) == [0];
    var claimed := g.(rows := g.rows + [ClaimRow(job, text)]);
    assert AddPairs(claimed, job, |g.rows|, [0], verified, judge, 0, 0) == claimed;
  }

  lemma ClaimMarks()
    ensures RunMarks(OneClaim()) == [Chain(P.Claim), Chain(P.Evidence), Chain(P.Link), Chain(P.Citation), Report]
  {
    hide Marks, AllKept, AddPair, AddClaims, AddClaim, FinalReport;
    OneClaimKept();
    var a := OneClaim();
    var verified, start, text := AllKept(a.scripts), StartGate([JobRow]), "Revenue grew.";
    OneDraft(start, 0, Draft(text, [0]), verified, a.judge);
    OnePair(start, 0, text, verified, a.judge);
    var claimed := start.(rows := start.rows + [ClaimRow(0, text)]);
    MarksSnoc([], JobRow);
    NoMarks();
    assert [] + [JobRow] == [JobRow];
    MarksSnoc([JobRow], ClaimRow(0, text));
    PairMarks(claimed, 0, 1, 0, 0, verified[0], a.judge(0, 0));
    var after := AddPair(claimed, 0, 1, 0, 0, verified[0], a.judge(0, 0));
    MarksSnoc(after.rows, ReportRow(0, Some(a.reportText), FinalReport(a)));
  }
}
