/** From research runs to deletes: over any mix of runs and deletes, all foreign keys hold and a delete never
    touches another job (tradegraph/src/graph/pipeline.py:137-375,
    tradegraph/apps/api/routers/jobs.py:231-310). */
module StoredRuns {
  import opened Helpers
  import opened Evidence
  import opened ClaimGate
  import opened EvidenceChain
  import opened ResearchRun
  import C = Cascade

  /** The ends of a link or citation are a claim and an evidence item of the same job. */
  ghost predicate SameJob(rows: seq<Row>, claim: nat, item: nat) {
    && claim < |rows| && item < |rows| && rows[claim].ClaimRow? && rows[item].EvidenceRow?
    && rows[claim].job == rows[item].job
  }

  ghost predicate Within(rows: seq<Row>) {
    && (forall i :: 0 <= i < |rows| && rows[i].LinkRow? ==> SameJob(rows, rows[i].claim, rows[i].item))
    && (forall i :: 0 <= i < |rows| && rows[i].CitationRow? ==> SameJob(rows, rows[i].claim, rows[i].item))
  }

  /** A row of this job that refers only to the job and to rows from `from` on. */
  predicate OwnRow(row: Row, job: nat, from: nat) {
    match row
    case JobRow => false
    case ClaimRow(j, _) => j == job
    case EvidenceRow(j, _, _, _) => j == job
    case LinkRow(c, e) => from <= c && from <= e
    case CitationRow(c, e, _, _) => from <= c && from <= e
    case ReportRow(j, _, _) => j == job
  }

  ghost predicate OwnFrom(rows: seq<Row>, job: nat, from: nat) {
    forall i :: from <= i < |rows| ==> OwnRow(rows[i], job, from)
  }

  ghost predicate CacheOwned(g: Gate, job: nat, from: nat) {
    forall i :: i in g.cache ==>
      from <= g.cache[i] < |g.rows| && g.rows[g.cache[i]].EvidenceRow? && g.rows[g.cache[i]].job == job
  }

  ghost predicate Owned(g: Gate, job: nat, from: nat) {
    Within(g.rows) && OwnFrom(g.rows, job, from) && CacheOwned(g, job, from)
  }

  lemma OneMoreRow(rows: seq<Row>, row: Row)
    requires Within(rows)
    requires row.LinkRow? || row.CitationRow? ==> SameJob(rows, row.claim, row.item)
    ensures Within(rows + [row])
  {
    var more := rows + [row];
    forall i | 0 <= i < |more| && (more[i].LinkRow? || more[i].CitationRow?)
      ensures SameJob(more, more[i].claim, more[i].item)
    {
      if i < |rows| { assert SameJob(rows, rows[i].claim, rows[i].item); }
    }
  }

  lemma PairOwned(g: Gate, job: nat, claim: nat, index: int, position: nat, ve: Verified, j: Judgement, from: nat)
    requires Owned(g, job, from) && from <= claim < |g.rows| && g.rows[claim].ClaimRow? && g.rows[claim].job == job
    ensures var after := AddPair(g, job, claim, index, position, ve, j); Owned(after, job, from) && g.rows <= after.rows
  {
    hide Within;
    var after := AddPair(g, job, claim, index, position, ve, j);
    OneMoreRow(g.rows, EvidenceRowFor(job, ve));
    var rows := if index in g.cache then g.rows else g.rows + [EvidenceRowFor(job, ve)];
    var item := after.cache[index];
    var link, citation := LinkRow(claim, item), CitationRow(claim, item, ve.source.payload.documentId, j);
    OneMoreRow(rows, link);
    assert SameJob(rows, claim, item) && SameJob(rows + [link], claim, item);
    OneMoreRow(rows + [link], citation);
    assert rows + [link] + [citation] == after.rows;
  }

  lemma {:induction false} PairsOwned(g: Gate, job: nat, claim: nat, indices: seq<int>, verified: seq<Verified>,
                                      judge: Judge, c: nat, n: nat, from: nat)
    requires n <= |Resolved(indices, |verified|)|
    requires Owned(g, job, from) && from <= claim < |g.rows| && g.rows[claim].ClaimRow? && g.rows[claim].job == job
    ensures var after := AddPairs(g, job, claim, indices, verified, judge, c, n); Owned(after, job, from) && g.rows <= after.rows
  {
    hide Owned, AddPair;
    if n > 0 {
      PairsOwned(g, job, claim, indices, verified, judge, c, n - 1, from);
      var before, position := AddPairs(g, job, claim, indices, verified, judge, c, n - 1), Resolved(indices, |verified|)[n - 1];
      PairOwned(before, job, claim, indices[n - 1], position, verified[position], judge(c, n - 1), from);
    }
  }

  lemma ClaimOwned(g: Gate, job: nat, text: string, from: nat)
    requires Owned(g, job, from)
    ensures Owned(g.(rows := g.rows + [ClaimRow(job, text)]), job, from)
  {
    hide Within;
    OneMoreRow(g.rows, ClaimRow(job, text));
  }

  lemma {:induction false} ClaimsOwned(g: Gate, job: nat, drafts: seq<Draft>, verified: seq<Verified>, judge: Judge, from: nat)
    requires Owned(g, job, from) && from <= |g.rows|
    ensures var after := AddClaims(g, job, drafts, verified, judge); Owned(after, job, from) && g.rows <= after.rows
  {
    hide Owned, AddPairs;
    if drafts != [] {
      var c := |drafts| - 1;
      ClaimsOwned(g, job, drafts[..c], verified, judge, from);
      var before := AddClaims(g, job, drafts[..c], verified, judge);
      ClaimOwned(before, job, drafts[c].text, from);
      PairsOwned(before.(rows := before.rows + [ClaimRow(job, drafts[c].text)]), job, |before.rows|, drafts[c].indices,
                 verified, judge, c, |Resolved(drafts[c].indices, |verified|)|, from);
    }
  }

  // ---- Runs -------------------------------------------------------------------------------------

  ghost predicate Consistent(rows: seq<Row>) { ParentsFirst(rows, 0) && Within(rows) }

  lemma RunKeepsConsistent(rows: seq<Row>, job: nat, a: Answers)
    requires Consistent(rows) && job < |rows| && rows[job].JobRow?
    ensures var after := RowsAfter(rows, job, a); Consistent(after) && rows <= after && OwnFrom(after, job, |rows|)
  {
    hide Within, OwnFrom, AddClaims, ParentsPresent, FinalReport;
    var after, verified := RowsAfter(rows, job, a), AllKept(a.scripts);
    OneReportLast(rows, job, a);
    forall i | 0 <= i < |after| ensures ParentsPresent(after[..i], after[i]) {
      if i < |rows| { assert after[..i] == rows[..i]; }
    }
    NothingOwned(rows, job);
    ClaimsOwned(StartGate(rows), job, a.drafts, verified, a.judge, |rows|);
    ReportOwned(rows, job, |rows|, ReportRow(job, None, DECLARED_INSUFFICIENT));
    ReportOwned(Run(rows, job, a.drafts, verified, a.judge).rows, job, |rows|, ReportRow(job, Some(a.reportText), FinalReport(a)));
  }

  lemma NothingOwned(rows: seq<Row>, job: nat)
    requires Within(rows)
    ensures Owned(StartGate(rows), job, |rows|)
  {
  }

  lemma ReportOwned(rows: seq<Row>, job: nat, from: nat, report: Row)
    requires Within(rows) && OwnFrom(rows, job, from) && report.ReportRow? && report.job == job
    ensures Within(rows + [report]) && OwnFrom(rows + [report], job, from)
  {
    hide Within;
    OneMoreRow(rows, report);
  }

  lemma JobAdded(rows: seq<Row>)
    requires Consistent(rows)
    ensures Consistent(rows + [JobRow])
  {
    OneMoreRow(rows, JobRow);
    var more := rows + [JobRow];
    forall i | 0 <= i < |more| ensures ParentsPresent(more[..i], more[i]) {
      if i < |rows| { assert more[..i] == rows[..i]; }
    }
  }

  // ---- Histories --------------------------------------------------------------------------------

  /** A new job without a run, a run that creates its job, a run for a job that was there once, whose row comes back
      if it was deleted, or the delete of a job. */
  datatype Event = Create | Fresh(answers: Answers) | Again(job: nat, answers: Answers) | Delete(job: nat)

  /** All rows ever added, and the numbers of those that were removed. */
  datatype Log = Log(rows: seq<Row>, gone: set<nat>)

  /** The job a row belongs to. */
  function JobOf(rows: seq<Row>, i: nat): nat
    requires i < |rows|
  {
    match rows[i]
    case JobRow => i
    case ClaimRow(job, _) => job
    case EvidenceRow(job, _, _, _) => job
    case LinkRow(c, _) => if c < |rows| && rows[c].ClaimRow? then rows[c].job else i
    case CitationRow(c, _, _, _) => if c < |rows| && rows[c].ClaimRow? then rows[c].job else i
    case ReportRow(job, _, _) => job
  }

  function Next(log: Log, e: Event): Log {
    match e
    case Create => Log(log.rows + [JobRow], log.gone)
    case Fresh(a) => Log(RowsAfter(log.rows + [JobRow], |log.rows|, a), log.gone)
    case Again(job, a) =>
      if job < |log.rows| && log.rows[job].JobRow? then Log(RowsAfter(log.rows, job, a), log.gone - {job}) else log
    case Delete(job) => Log(log.rows, log.gone + set i: nat | i < |log.rows| && JobOf(log.rows, i) == job)
  }

  function History(events: seq<Event>): Log {
    if events == [] then Log([], {}) else Next(History(events[..|events| - 1]), events[|events| - 1])
  }

  /** What a present row refers to is present. */
  ghost predicate Grounded(rows: seq<Row>, gone: set<nat>, i: nat)
    requires i < |rows|
  {
    match rows[i]
    case JobRow => true
    case ClaimRow(job, _) => job !in gone
    case EvidenceRow(job, _, _, _) => job !in gone
    case LinkRow(c, e) => c !in gone && e !in gone
    case CitationRow(c, e, _, _) => c !in gone && e !in gone
    case ReportRow(job, _, _) => job !in gone
  }

  ghost predicate Sound(log: Log) {
    && Consistent(log.rows)
    && (forall i :: i in log.gone ==> i < |log.rows|)
    && (forall i: nat :: i < |log.rows| && i !in log.gone ==> Grounded(log.rows, log.gone, i))
  }

  lemma RunSound(log: Log, job: nat, a: Answers)
    requires Sound(log) && job < |log.rows| && log.rows[job].JobRow?
    ensures Sound(Log(RowsAfter(log.rows, job, a), log.gone - {job}))
  {
    hide Consistent, RowsAfter;
    RunKeepsConsistent(log.rows, job, a);
    var after, gone := RowsAfter(log.rows, job, a), log.gone - {job};
    forall i: nat | i < |after| && i !in gone ensures Grounded(after, gone, i) {
      if i < |log.rows| {
        assert after[i] == log.rows[i];
        assert i != job ==> Grounded(log.rows, log.gone, i);
      } else {
        assert OwnRow(after[i], job, |log.rows|);
      }
    }
  }

  lemma CreateSound(log: Log)
    requires Sound(log)
    ensures Sound(Next(log, Create))
  {
    hide Consistent;
    var more := log.rows + [JobRow];
    JobAdded(log.rows);
    forall i: nat | i < |more| && i !in log.gone ensures Grounded(more, log.gone, i) {
      if i < |log.rows| { assert Grounded(log.rows, log.gone, i); }
    }
  }

  lemma FreshSound(log: Log, a: Answers)
    requires Sound(log)
    ensures Sound(Next(log, Fresh(a)))
  {
    hide Consistent, RowsAfter;
    var more := log.rows + [JobRow];
    CreateSound(log);
    RunSound(Log(more, log.gone), |log.rows|, a);
    assert log.gone - {|log.rows|} == log.gone;
  }

  lemma RefersBack(rows: seq<Row>, i: nat)
    requires Consistent(rows) && i < |rows|
    ensures match rows[i]
            case JobRow => true
            case LinkRow(c, e) => SameJob(rows, c, e)
            case CitationRow(c, e, _, _) => SameJob(rows, c, e)
            case _ => rows[i].job < |rows| && rows[rows[i].job].JobRow?
  {
    assert ParentsPresent(rows[..i], rows[i]);
  }

  lemma DeleteSound(log: Log, job: nat)
    requires Sound(log)
    ensures Sound(Next(log, Delete(job)))
  {
    hide Consistent;
    var after := Next(log, Delete(job));
    forall i: nat | i < |log.rows| && i !in after.gone ensures Grounded(log.rows, after.gone, i) {
      assert Grounded(log.rows, log.gone, i);
      RefersBack(log.rows, i);
    }
  }

  lemma {:induction false} HistorySound(events: seq<Event>)
    ensures Sound(History(events))
  {
    hide Sound, RowsAfter;
    if events == [] {
      NothingSound();
    } else {
      var n := |events| - 1;
      HistorySound(events[..n]);
      var log := History(events[..n]);
      match events[n]
      case Create => CreateSound(log);
      case Fresh(a) => FreshSound(log, a);
      case Again(job, a) => if job < |log.rows| && log.rows[job].JobRow? { RunSound(log, job, a); }
      case Delete(job) => DeleteSound(log, job);
    }
  }

  lemma NothingSound()
    ensures Sound(Log([], {}))
  {
  }

  // ---- The tables a delete sees -----------------------------------------------------------------

  predicate Here(log: Log, i: int) { 0 <= i < |log.rows| && i !in log.gone }

  function Jobs(log: Log, status: int -> C.Status): map<int, C.Status> {
    map i: int | 0 <= i < |log.rows| && Here(log, i) && log.rows[i].JobRow? :: status(i)
  }

  function Claims(log: Log): map<int, int> {
    map i: int | 0 <= i < |log.rows| && Here(log, i) && log.rows[i].ClaimRow? :: log.rows[i].job
  }

  function Items(log: Log): map<int, int> {
    map i: int | 0 <= i < |log.rows| && Here(log, i) && log.rows[i].EvidenceRow? :: log.rows[i].job
  }

  function Links(log: Log): set<(int, int)> {
    set i: int | 0 <= i < |log.rows| && Here(log, i) && log.rows[i].LinkRow? :: (log.rows[i].claim, log.rows[i].item)
  }

  function Citations(log: Log): map<int, (int, int)> {
    map i: int | 0 <= i < |log.rows| && Here(log, i) && log.rows[i].CitationRow? :: (log.rows[i].claim, log.rows[i].item)
  }

  function Reports(log: Log): map<int, int> {
    map i: int | 0 <= i < |log.rows| && Here(log, i) && log.rows[i].ReportRow? :: log.rows[i].job
  }

  function Stored(log: Log, status: int -> C.Status): C.Db {
    C.Db(Jobs(log, status), Claims(log), Items(log), Links(log), Citations(log), Reports(log), map[])
  }

  /** A present row belongs to a present job, and a link or citation to present ends of one job. */
  ghost predicate Rooted(log: Log, i: nat)
    requires i < |log.rows|
  {
    match log.rows[i]
    case JobRow => true
    case LinkRow(c, e) => Here(log, c) && Here(log, e) && SameJob(log.rows, c, e)
    case CitationRow(c, e, _, _) => Here(log, c) && Here(log, e) && SameJob(log.rows, c, e)
    case _ => Here(log, log.rows[i].job) && log.rows[log.rows[i].job].JobRow?
  }

  lemma PresentIsRooted(log: Log)
    requires Sound(log)
    ensures forall i: nat :: i < |log.rows| && Here(log, i) ==> Rooted(log, i)
  {
    hide Consistent;
    forall i: nat | i < |log.rows| && Here(log, i) ensures Rooted(log, i) {
      assert Grounded(log.rows, log.gone, i);
      RefersBack(log.rows, i);
    }
  }

  lemma JobsThere(log: Log, status: int -> C.Status)
    requires forall i: nat :: i < |log.rows| && Here(log, i) ==> Rooted(log, i)
    ensures forall c :: c in Claims(log) ==> Claims(log)[c] in Jobs(log, status)
    ensures forall e :: e in Items(log) ==> Items(log)[e] in Jobs(log, status)
    ensures forall r :: r in Reports(log) ==> Reports(log)[r] in Jobs(log, status)
  {
  }

  lemma EndsThere(log: Log)
    requires forall i: nat :: i < |log.rows| && Here(log, i) ==> Rooted(log, i)
    ensures forall l :: l in Links(log) ==> l.0 in Claims(log) && l.1 in Items(log) && Claims(log)[l.0] == Items(log)[l.1]
    ensures forall c :: c in Citations(log) ==>
              var l := Citations(log)[c]; l.0 in Claims(log) && l.1 in Items(log) && Claims(log)[l.0] == Items(log)[l.1]
  {
  }

  lemma StoredForeignKeys(log: Log, status: int -> C.Status)
    requires Sound(log)
    ensures C.ForeignKeys(Stored(log, status))
  {
    hide Sound, Jobs, Claims, Items, Links, Citations, Reports;
    PresentIsRooted(log);
    JobsThere(log, status);
    EndsThere(log);
  }

  lemma StoredWithin(log: Log, status: int -> C.Status, job: int)
    requires Sound(log) && C.ForeignKeys(Stored(log, status))
    ensures C.WithinJobs(Stored(log, status), job)
  {
    hide Sound, Jobs, Claims, Items, Links, Citations, Reports;
    PresentIsRooted(log);
    EndsThere(log);
  }

  /** Over any mix of runs and deletes: all foreign keys hold, and deleting any job leaves every row of every
      other job as it was. */
  lemma DeletingSparesOthers(events: seq<Event>, status: int -> C.Status, job: int)
    ensures var db := Stored(History(events), status);
            C.ForeignKeys(db) && C.OthersUntouched(db, job)
  {
    hide Sound, History, Stored, C.ForeignKeys, C.WithinJobs, C.OthersUntouched;
    HistorySound(events);
    StoredForeignKeys(History(events), status);
    StoredWithin(History(events), status, job);
    C.OthersUntouchedExactly(Stored(History(events), status), job);
  }

  /** A delete in such a history leaves exactly the tables the cascade leaves. */
  lemma DeleteIsCascade(events: seq<Event>, status: int -> C.Status, job: nat)
    ensures Stored(History(events + [Delete(job)]), status) == C.Cascaded(Stored(History(events), status), job)
  {
    hide Sound, Next, Stored, C.Cascaded;
    assert (events + [Delete(job)])[..|events|] == events;
    HistorySound(events);
    DeletedStored(History(events), status, job);
  }

  lemma DeletedStored(log: Log, status: int -> C.Status, job: nat)
    requires Sound(log)
    ensures Stored(Next(log, Delete(job)), status) == C.Cascaded(Stored(log, status), job)
  {
    hide Sound, Next, Jobs, Claims, Items, Links, Citations, Reports;
    PresentIsRooted(log);
    var after := Next(log, Delete(job));
    DeletedLeaves(log, job);
    OwnTables(log, after, status, job);
    LinkTable(log, after, status, job);
    CitationTable(log, after, status, job);
  }

  /** A delete leaves the present rows of the other jobs. */
  ghost predicate Leaves(log: Log, after: Log, job: nat) {
    && after.rows == log.rows
    && forall i: int :: Here(after, i) <==> Here(log, i) && JobOf(log.rows, i) != job
  }

  lemma DeletedLeaves(log: Log, job: nat)
    ensures Leaves(log, Next(log, Delete(job)), job)
  {
  }

  lemma JobsLeft(log: Log, after: Log, status: int -> C.Status, job: nat)
    requires Leaves(log, after, job)
    ensures Jobs(after, status) == Jobs(log, status) - {job}
  {
    assert forall i: int :: i in Jobs(after, status) <==> i in Jobs(log, status) && i != job;
  }

  lemma ClaimsLeft(log: Log, after: Log, job: nat)
    requires Leaves(log, after, job)
    ensures Claims(after) == Claims(log) - set c | c in Claims(log) && Claims(log)[c] == job
  {
    assert forall i: int :: i in Claims(after) <==> i in Claims(log) && Claims(log)[i] != job;
  }

  lemma ItemsLeft(log: Log, after: Log, job: nat)
    requires Leaves(log, after, job)
    ensures Items(after) == Items(log) - set e | e in Items(log) && Items(log)[e] == job
  {
    assert forall i: int :: i in Items(after) <==> i in Items(log) && Items(log)[i] != job;
  }

  lemma ReportsLeft(log: Log, after: Log, job: nat)
    requires Leaves(log, after, job)
    ensures Reports(after) == Reports(log) - set r | r in Reports(log) && Reports(log)[r] == job
  {
    assert forall i: int :: i in Reports(after) <==> i in Reports(log) && Reports(log)[i] != job;
  }

  lemma OwnTables(log: Log, after: Log, status: int -> C.Status, job: nat)
    requires Leaves(log, after, job)
    ensures var db, cascaded := Stored(after, status), C.Cascaded(Stored(log, status), job);
            && db.jobs == cascaded.jobs && db.claims == cascaded.claims && db.evidence == cascaded.evidence
            && db.reports == cascaded.reports
  {
    hide Jobs, Claims, Items, Reports, Links, Citations, Leaves;
    JobsLeft(log, after, status, job);
    ClaimsLeft(log, after, job);
    ItemsLeft(log, after, job);
    ReportsLeft(log, after, job);
  }

  lemma LinkTable(log: Log, after: Log, status: int -> C.Status, job: nat)
    requires Leaves(log, after, job)
    requires forall i: nat :: i < |log.rows| && Here(log, i) ==> Rooted(log, i)
    ensures Links(after) == C.Cascaded(Stored(log, status), job).links
  {
    hide Citations, Jobs, Reports;
    EndsThere(log);
    var db := Stored(log, status);
    forall l ensures l in Links(after) <==> l in Links(log) && Claims(log)[l.0] != job {
      if l in Links(log) && Claims(log)[l.0] != job {
        var i: int :| 0 <= i < |log.rows| && Here(log, i) && log.rows[i].LinkRow? && l == (log.rows[i].claim, log.rows[i].item);
        assert Here(after, i);
      }
      if l in Links(after) {
        var i: int :| 0 <= i < |log.rows| && Here(after, i) && log.rows[i].LinkRow? && l == (log.rows[i].claim, log.rows[i].item);
        assert Rooted(log, i);
      }
    }
    assert forall l :: l in Links(log) ==> (l in C.LinksOf(db, job) <==> Claims(log)[l.0] == job);
  }

  lemma CitationsLeft(log: Log, after: Log, job: nat)
    requires Leaves(log, after, job)
    requires forall i: nat :: i < |log.rows| && Here(log, i) ==> Rooted(log, i)
    ensures forall c :: c in Citations(log) ==> Citations(log)[c].0 in Claims(log)
    ensures forall c :: c in Citations(after) <==> c in Citations(log) && Claims(log)[Citations(log)[c].0] != job
    ensures forall c :: c in Citations(after) ==> Citations(after)[c] == Citations(log)[c]
  {
  }

  lemma CitationTable(log: Log, after: Log, status: int -> C.Status, job: nat)
    requires Leaves(log, after, job)
    requires forall i: nat :: i < |log.rows| && Here(log, i) ==> Rooted(log, i)
    ensures Citations(after) == C.Cascaded(Stored(log, status), job).citations
  {
    hide Links, Jobs, Reports, Claims, Items, Leaves, Here, Rooted;
    EndsThere(log);
    CitationsLeft(log, after, job);
    var db := Stored(log, status);
    var gone := C.CitationsOf(db, job);
    assert forall c :: c in gone <==> c in Citations(log) && Claims(log)[Citations(log)[c].0] == job;
    assert Citations(after) == Citations(log) - gone;
  }
}
