/** Deleting a finished job and everything built for it, row by row, children before parents
    (tradegraph/apps/api/routers/jobs.py:231-310), over the tables of tradegraph/src/models/orm.py:317-485.
    No foreign key cascades in the database, so every removal has to leave all of them satisfied. */
module Cascade {
  import opened Helpers

  type Id = int

  datatype Status = Pending | Running | AwaitingReview | Succeeded | Failed

  /** Tables by primary key. Claims, evidence items and reports hold their job; citations their claim
      and evidence item; an audit entry may have no job. */
  datatype Db = Db(
    jobs: map<Id, Status>, claims: map<Id, Id>, evidence: map<Id, Id>, links: set<(Id, Id)>,
    citations: map<Id, (Id, Id)>, reports: map<Id, Id>, audits: map<Id, Option<Id>>)

  datatype Row =
    | JobRow(id: Id) | ClaimRow(id: Id) | EvidenceRow(id: Id) | LinkRow(claim: Id, item: Id)
    | CitationRow(id: Id) | ReportRow(id: Id) | AuditRow(id: Id)

  predicate ForeignKeys(db: Db) {
    && (forall c :: c in db.claims ==> db.claims[c] in db.jobs)
    && (forall e :: e in db.evidence ==> db.evidence[e] in db.jobs)
    && (forall l :: l in db.links ==> l.0 in db.claims && l.1 in db.evidence)
    && (forall c :: c in db.citations ==> db.citations[c].0 in db.claims && db.citations[c].1 in db.evidence)
    && (forall r :: r in db.reports ==> db.reports[r] in db.jobs)
    && (forall a :: a in db.audits && db.audits[a].Some? ==> db.audits[a].value in db.jobs)
  }

  predicate Present(db: Db, row: Row) {
    match row
    case JobRow(id) => id in db.jobs
    case ClaimRow(id) => id in db.claims
    case EvidenceRow(id) => id in db.evidence
    case LinkRow(c, e) => (c, e) in db.links
    case CitationRow(id) => id in db.citations
    case ReportRow(id) => id in db.reports
    case AuditRow(id) => id in db.audits
  }

  /** Some other row refers to this one: removing it would violate a foreign key. */
  predicate Referenced(db: Db, row: Row) {
    match row
    case JobRow(id) =>
      || (exists c :: c in db.claims && db.claims[c] == id)
      || (exists e :: e in db.evidence && db.evidence[e] == id)
      || (exists r :: r in db.reports && db.reports[r] == id)
      || (exists a :: a in db.audits && db.audits[a] == Some(id))
    case ClaimRow(id) =>
      || (exists l :: l in db.links && l.0 == id)
      || (exists c :: c in db.citations && db.citations[c].0 == id)
    case EvidenceRow(id) =>
      || (exists l :: l in db.links && l.1 == id)
      || (exists c :: c in db.citations && db.citations[c].1 == id)
    case _ => false
  }

  function Remove(db: Db, row: Row): Db {
    match row
    case JobRow(id) => db.(jobs := db.jobs - {id})
    case ClaimRow(id) => db.(claims := db.claims - {id})
    case EvidenceRow(id) => db.(evidence := db.evidence - {id})
    case LinkRow(c, e) => db.(links := db.links - {(c, e)})
    case CitationRow(id) => db.(citations := db.citations - {id})
    case ReportRow(id) => db.(reports := db.reports - {id})
    case AuditRow(id) => db.(audits := db.audits - {id})
  }

  /** A row may go exactly when nothing refers to it. */
  lemma RemovableExactly(db: Db, row: Row)
    requires ForeignKeys(db) && Present(db, row)
    ensures ForeignKeys(Remove(db, row)) <==> !Referenced(db, row)
  {
    var after := Remove(db, row);
    if Referenced(db, row) {
      match row
      case JobRow(id) =>
        if c :| c in db.claims && db.claims[c] == id { assert c in after.claims; }
        else if e :| e in db.evidence && db.evidence[e] == id { assert e in after.evidence; }
        else if r :| r in db.reports && db.reports[r] == id { assert r in after.reports; }
        else { var a :| a in db.audits && db.audits[a] == Some(id); assert a in after.audits; }
      case ClaimRow(id) =>
        if l :| l in db.links && l.0 == id { assert l in after.links; }
        else { var c :| c in db.citations && db.citations[c].0 == id; assert c in after.citations; }
      case EvidenceRow(id) =>
        if l :| l in db.links && l.1 == id { assert l in after.links; }
        else { var c :| c in db.citations && db.citations[c].1 == id; assert c in after.citations; }
      case _ => assert false;
    }
  }

  class Session {
    var db: Db

    /** One row removal. The database refuses to drop a row that is still referred to. */
    method Delete(row: Row)
      requires ForeignKeys(db) && Present(db, row) && !Referenced(db, row)
      modifies this
      ensures db == Remove(old(db), row) && ForeignKeys(db)
    {
      RemovableExactly(db, row);
      db := Remove(db, row);
    }
  }

  function ClaimsOf(db: Db, job: Id): set<Id> { set c | c in db.claims && db.claims[c] == job }
  function EvidenceOf(db: Db, job: Id): set<Id> { set e | e in db.evidence && db.evidence[e] == job }
  function ReportsOf(db: Db, job: Id): set<Id> { set r | r in db.reports && db.reports[r] == job }
  function AuditsOf(db: Db, job: Id): set<Id> { set a | a in db.audits && db.audits[a] == Some(job) }

  /** The citations and links that touch the job at either end. */
  function CitationsOf(db: Db, job: Id): set<Id> {
    set c | c in db.citations && (db.citations[c].0 in ClaimsOf(db, job) || db.citations[c].1 in EvidenceOf(db, job))
  }
  function LinksOf(db: Db, job: Id): set<(Id, Id)> {
    set l | l in db.links && (l.0 in ClaimsOf(db, job) || l.1 in EvidenceOf(db, job))
  }

  function Cascaded(db: Db, job: Id): Db {
    Db(db.jobs - {job}, db.claims - ClaimsOf(db, job), db.evidence - EvidenceOf(db, job),
       db.links - LinksOf(db, job), db.citations - CitationsOf(db, job),
       db.reports - ReportsOf(db, job), db.audits - AuditsOf(db, job))
  }

  datatype Response = NoContent | NotFound | Conflict

  predicate Deletable(s: Status) { s.Succeeded? || s.Failed? }

  /** A job that is not there gives 404, and one that has not ended, or waits for review, 409. */
  ghost predicate Answers(jobs: map<Id, Status>, job: Id, response: Response) {
    && (response.NotFound? <==> job !in jobs)
    && (response.NoContent? <==> job in jobs && (jobs[job] == Succeeded || jobs[job] == Failed))
    && (response.Conflict? <==> job in jobs && (jobs[job] == Pending || jobs[job] == Running || jobs[job] == AwaitingReview))
  }

  method DeleteJob(session: Session, job: Id) returns (response: Response)
    requires ForeignKeys(session.db)
    modifies session
    ensures ForeignKeys(session.db)
    ensures Answers(old(session.db).jobs, job, response)
    ensures session.db == if response.NoContent? then Cascaded(old(session.db), job) else old(session.db)
  {
    if job !in session.db.jobs { return NotFound; }
    if !Deletable(session.db.jobs[job]) { return Conflict; }
    ghost var before := session.db;
    var claims, evidence := ClaimsOf(session.db, job), EvidenceOf(session.db, job);
    if claims != {} || evidence != {} {
      DeleteCitations(session, job);
      DeleteLinks(session, job);
    }
    assert session.db == before.(citations := before.citations - CitationsOf(before, job),
                                 links := before.links - LinksOf(before, job));
    DeleteClaims(session, job, claims);
    DeleteEvidence(session, job, evidence);
    DeleteReports(session, job);
    DeleteAudits(session, job);
    session.Delete(JobRow(job));
    return NoContent;
  }

  /** Rows come back from a query in no particular order. */
  method Pick(ids: set<Id>) returns (id: Id)
    requires ids != {}
    ensures id in ids
  {
    assert (forall x :: x !in ids) ==> ids == {};
    id :| id in ids;
  }

  method DeleteCitations(session: Session, job: Id)
    requires ForeignKeys(session.db)
    modifies session
    ensures ForeignKeys(session.db)
    ensures session.db == old(session.db).(citations := old(session.db).citations - CitationsOf(old(session.db), job))
  {
    ghost var before := session.db;
    var all := CitationsOf(session.db, job);
    var todo := all;
    while todo != {}
      invariant todo <= all && ForeignKeys(session.db)
      invariant session.db == before.(citations := before.citations - (all - todo))
      decreases |todo|
    {
      var c := Pick(todo);
      session.Delete(CitationRow(c));
      todo := todo - {c};
    }
  }

  method DeleteLinks(session: Session, job: Id)
    requires ForeignKeys(session.db)
    modifies session
    ensures ForeignKeys(session.db)
    ensures session.db == old(session.db).(links := old(session.db).links - LinksOf(old(session.db), job))
  {
    ghost var before := session.db;
    var all := LinksOf(session.db, job);
    var todo := all;
    while todo != {}
      invariant todo <= all && ForeignKeys(session.db)
      invariant session.db == before.(links := before.links - (all - todo))
      decreases |todo|
    {
      var l :| l in todo;
      session.Delete(LinkRow(l.0, l.1));
      todo := todo - {l};
    }
  }

  method DeleteClaims(session: Session, job: Id, claims: set<Id>)
    requires ForeignKeys(session.db) && claims == ClaimsOf(session.db, job)
    requires forall c :: c in claims ==> !Referenced(session.db, ClaimRow(c))
    modifies session
    ensures ForeignKeys(session.db)
    ensures session.db == old(session.db).(claims := old(session.db).claims - claims)
  {
    ghost var before := session.db;
    var todo := claims;
    while todo != {}
      invariant todo <= claims && ForeignKeys(session.db)
      invariant session.db == before.(claims := before.claims - (claims - todo))
      decreases |todo|
    {
      var c := Pick(todo);
      assert !Referenced(before, ClaimRow(c));
      session.Delete(ClaimRow(c));
      todo := todo - {c};
    }
  }

  method DeleteEvidence(session: Session, job: Id, evidence: set<Id>)
    requires ForeignKeys(session.db) && evidence == EvidenceOf(session.db, job)
    requires forall e :: e in evidence ==> !Referenced(session.db, EvidenceRow(e))
    modifies session
    ensures ForeignKeys(session.db)
    ensures session.db == old(session.db).(evidence := old(session.db).evidence - evidence)
  {
    ghost var before := session.db;
    var todo := evidence;
    while todo != {}
      invariant todo <= evidence && ForeignKeys(session.db)
      invariant session.db == before.(evidence := before.evidence - (evidence - todo))
      decreases |todo|
    {
      var e := Pick(todo);
      assert !Referenced(before, EvidenceRow(e));
      session.Delete(EvidenceRow(e));
      todo := todo - {e};
    }
  }

  method DeleteReports(session: Session, job: Id)
    requires ForeignKeys(session.db)
    modifies session
    ensures ForeignKeys(session.db)
    ensures session.db == old(session.db).(reports := old(session.db).reports - ReportsOf(old(session.db), job))
  {
    ghost var before := session.db;
    var all := ReportsOf(session.db, job);
    var todo := all;
    while todo != {}
      invariant todo <= all && ForeignKeys(session.db)
      invariant session.db == before.(reports := before.reports - (all - todo))
      decreases |todo|
    {
      var r := Pick(todo);
      session.Delete(ReportRow(r));
      todo := todo - {r};
    }
  }

  method DeleteAudits(session: Session, job: Id)
    requires ForeignKeys(session.db)
    modifies session
    ensures ForeignKeys(session.db)
    ensures session.db == old(session.db).(audits := old(session.db).audits - AuditsOf(old(session.db), job))
  {
    ghost var before := session.db;
    var all := AuditsOf(session.db, job);
    var todo := all;
    while todo != {}
      invariant todo <= all && ForeignKeys(session.db)
      invariant session.db == before.(audits := before.audits - (all - todo))
      decreases |todo|
    {
      var a := Pick(todo);
      session.Delete(AuditRow(a));
      todo := todo - {a};
    }
  }

  /** Nothing refers to the job, or to anything of the job, any more. */
  lemma NothingLeft(db: Db, job: Id)
    requires ForeignKeys(db)
    ensures var after := Cascaded(db, job);
            && !Present(after, JobRow(job)) && !Referenced(after, JobRow(job))
            && (forall c :: c in ClaimsOf(db, job) ==> !Present(after, ClaimRow(c)) && !Referenced(after, ClaimRow(c)))
            && (forall e :: e in EvidenceOf(db, job) ==> !Present(after, EvidenceRow(e)) && !Referenced(after, EvidenceRow(e)))
  {
  }

  /** The job a citation or link belongs to is its claim's. */
  ghost predicate WithinJobs(db: Db, job: Id)
    requires ForeignKeys(db)
  {
    && (forall c :: c in db.citations && db.claims[db.citations[c].0] != job ==> db.evidence[db.citations[c].1] != job)
    && (forall l :: l in db.links && db.claims[l.0] != job ==> db.evidence[l.1] != job)
  }

  /** Every row of every other job survives unchanged. */
  ghost predicate OthersUntouched(db: Db, job: Id)
    requires ForeignKeys(db)
  {
    var after := Cascaded(db, job);
    && (forall j :: j in db.jobs && j != job ==> j in after.jobs && after.jobs[j] == db.jobs[j])
    && (forall c :: c in db.claims && db.claims[c] != job ==> c in after.claims && after.claims[c] == db.claims[c])
    && (forall e :: e in db.evidence && db.evidence[e] != job ==> e in after.evidence && after.evidence[e] == db.evidence[e])
    && (forall r :: r in db.reports && db.reports[r] != job ==> r in after.reports && after.reports[r] == db.reports[r])
    && (forall a :: a in db.audits && db.audits[a] != Some(job) ==> a in after.audits && after.audits[a] == db.audits[a])
    && (forall l :: l in db.links && db.claims[l.0] != job ==> l in after.links)
    && (forall c :: c in db.citations && db.claims[db.citations[c].0] != job ==>
          c in after.citations && after.citations[c] == db.citations[c])
  }

  /** Other jobs are untouched exactly when no claim of theirs rests on this job's evidence. */
  lemma OthersUntouchedExactly(db: Db, job: Id)
    requires ForeignKeys(db)
    ensures OthersUntouched(db, job) <==> WithinJobs(db, job)
  {
    if OthersUntouched(db, job) {
      forall c | c in db.citations && db.claims[db.citations[c].0] != job ensures db.evidence[db.citations[c].1] != job {
        assert c in Cascaded(db, job).citations;
        assert c !in CitationsOf(db, job);
      }
      forall l | l in db.links && db.claims[l.0] != job ensures db.evidence[l.1] != job {
        assert l in Cascaded(db, job).links;
        assert l !in LinksOf(db, job);
      }
    }
  }
}
