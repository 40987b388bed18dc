/** What a client is shown of a job (tradegraph/apps/api/routers/jobs.py:105-174): the latest report and all claims with
    their citations. After repeated runs these need not belong together. */
module JobResponse {
  import opened Helpers
  import opened Evidence
  import opened ClaimGate
  import opened EvidenceChain
  import opened ResearchRun
  import opened StoredRuns

  datatype CitationView = CitationView(id: nat, judgement: Judgement, documentId: int, passage: string, summary: string)
  datatype ClaimView = ClaimView(id: nat, text: string, citations: seq<CitationView>)
  datatype Response = Response(report: Option<string>, claims: seq<ClaimView>)

  // ---- The queries ------------------------------------------------------------------------------

  predicate IsClaim(log: Log, job: nat, i: nat) {
    i < |log.rows| && i !in log.gone && log.rows[i].ClaimRow? && log.rows[i].job == job
  }

  /** The job's present claims among the first `n` rows. */
  function ClaimIds(log: Log, job: nat, n: nat): (r: seq<nat>)
    requires n <= |log.rows|
    ensures forall k :: 0 <= k < |r| ==> IsClaim(log, job, r[k])
  {
    if n == 0 then []
    else ClaimIds(log, job, n - 1) + if IsClaim(log, job, n - 1) then [n - 1] else []
  }

  /** The citation with what its evidence row adds; none when that row is not there, as the join demands. */
  function View(log: Log, i: nat): Option<CitationView> {
    if i < |log.rows| && i !in log.gone && log.rows[i].CitationRow? then
      var c := log.rows[i];
      if c.item < |log.rows| && c.item !in log.gone && log.rows[c.item].EvidenceRow?
      then Some(CitationView(i, c.judgement, c.documentId, log.rows[c.item].passage, log.rows[c.item].summary))
      else None
    else None
  }

  /** The views of the citations of one claim among the first `n` rows. */
  function Views(log: Log, claim: nat, n: nat): seq<CitationView>
    requires n <= |log.rows|
  {
    if n == 0 then []
    else
      Views(log, claim, n - 1) +
        if View(log, n - 1).Some? && log.rows[n - 1].claim == claim then [View(log, n - 1).value] else []
  }

  function ShownClaims(log: Log, job: nat): seq<ClaimView> {
    var ids := ClaimIds(log, job, |log.rows|);
    seq(|ids|, k requires 0 <= k < |ids| => ClaimView(ids[k], log.rows[ids[k]].text, Views(log, ids[k], |log.rows|)))
  }

  /** The citations of the given claims, grouped by claim in a dictionary. */
  method GroupCitations(log: Log, claims: seq<nat>) returns (byClaim: map<nat, seq<CitationView>>)
    ensures forall k :: 0 <= k < |claims| ==>
              Views(log, claims[k], |log.rows|) == if claims[k] in byClaim then byClaim[claims[k]] else []
  {
    hide View;
    byClaim := map[];
    for i := 0 to |log.rows|
      invariant forall k :: 0 <= k < |claims| ==> Views(log, claims[k], i) == if claims[k] in byClaim then byClaim[claims[k]] else []
    {
      var view := View(log, i);
      ViewIds(log, i);
      if view.Some? && log.rows[i].claim in claims {
        var claim := log.rows[i].claim;
        byClaim := byClaim[claim := (if claim in byClaim then byClaim[claim] else []) + [view.value]];
      }
    }
  }

  method LoadClaims(log: Log, job: nat) returns (shown: seq<ClaimView>)
    ensures shown == ShownClaims(log, job)
  {
    hide Views, IsClaim;
    var claims: seq<nat> := [];
    for i := 0 to |log.rows|
      invariant claims == ClaimIds(log, job, i)
    {
      if IsClaim(log, job, i) { claims := claims + [i]; }
    }
    if claims == [] { return []; }
    var byClaim := GroupCitations(log, claims);
    shown := [];
    for k := 0 to |claims|
      invariant shown == ShownClaims(log, job)[..k]
    {
      var c := claims[k];
      ClaimIsRow(log, job, c);
      shown := shown + [ClaimView(c, log.rows[c].text, if c in byClaim then byClaim[c] else [])];
    }
  }

  lemma ClaimIsRow(log: Log, job: nat, c: nat)
    requires IsClaim(log, job, c)
    ensures c < |log.rows| && log.rows[c].ClaimRow?
  {
  }

  /** The text of the job's latest present report. */
  function LatestReport(rows: seq<Row>, gone: set<nat>, job: nat): Option<string> {
    if rows == [] then None
    else
      var n := |rows| - 1;
      if n !in gone && rows[n].ReportRow? && rows[n].job == job then Some(rows[n].text) else LatestReport(rows[..n], gone, job)
  }

  method LoadJobResponse(log: Log, job: nat, succeeded: bool) returns (r: Response)
    ensures r == if succeeded then Response(LatestReport(log.rows, log.gone, job), ShownClaims(log, job)) else Response(None, [])
  {
    r := Response(None, []);
    if succeeded {
      var claims := LoadClaims(log, job);
      r := Response(LatestReport(log.rows, log.gone, job), claims);
    }
  }

  lemma {:induction false} ViewsMeaning(log: Log, claim: nat, n: nat)
    requires n <= |log.rows|
    ensures var views := Views(log, claim, n);
            && (forall k :: 0 <= k < |views| ==>
                  views[k].id < n && View(log, views[k].id) == Some(views[k]) && log.rows[views[k].id].claim == claim)
            && (forall k, l :: 0 <= k < l < |views| ==> views[k].id < views[l].id)
            && (forall i: nat :: i < n && View(log, i).Some? && log.rows[i].claim == claim ==> View(log, i).value in views)
  {
    hide View;
    if n > 0 { ViewsMeaning(log, claim, n - 1); ViewIds(log, n - 1); }
  }

  lemma ViewIds(log: Log, i: nat)
    ensures View(log, i).Some? ==> View(log, i).value.id == i && i < |log.rows| && log.rows[i].CitationRow?
  {
  }

  /** No citation is lost by the join or by the grouping: after any history, every present citation of the job's
      claims is shown, once, under its own claim, with the passage and summary of its evidence row. */
  lemma EveryCitationShown(events: seq<Event>, job: nat, i: nat)
    requires var log := History(events);
             i < |log.rows| && i !in log.gone && log.rows[i].CitationRow? && JobOf(log.rows, i) == job
    ensures var log := History(events);
            var c := log.rows[i];
            && c.claim in ClaimIds(log, job, |log.rows|) && c.item < |log.rows| && log.rows[c.item].EvidenceRow?
            && CitationView(i, c.judgement, c.documentId, log.rows[c.item].passage, log.rows[c.item].summary)
                 in Views(log, c.claim, |log.rows|)
  {
    hide History, Consistent;
    var log := History(events);
    HistorySound(events);
    RefersBack(log.rows, i);
    assert Grounded(log.rows, log.gone, i);
    ClaimListed(log, job, log.rows[i].claim, |log.rows|);
    ViewsMeaning(log, log.rows[i].claim, |log.rows|);
  }

  lemma {:induction false} ClaimListed(log: Log, job: nat, c: nat, n: nat)
    requires c < n <= |log.rows| && IsClaim(log, job, c)
    ensures c in ClaimIds(log, job, n)
  {
    if c < n - 1 { ClaimListed(log, job, c, n - 1); }
  }

  // ---- Claims by run ----------------------------------------------------------------------------

  /** The texts of the job's present claims, in stored order. */
  function Texts(rows: seq<Row>, gone: set<nat>, job: nat): seq<string> {
    if rows == [] then []
    else
      var n := |rows| - 1;
      Texts(rows[..n], gone, job) +
        if n !in gone && rows[n].ClaimRow? && rows[n].job == job then [rows[n].text] else []
  }

  lemma {:induction false} ShownTexts(log: Log, job: nat, n: nat)
    requires n <= |log.rows|
    ensures var ids := ClaimIds(log, job, n);
            Texts(log.rows[..n], log.gone, job) == seq(|ids|, k requires 0 <= k < |ids| => log.rows[ids[k]].text)
  {
    if n > 0 {
      ShownTexts(log, job, n - 1);
      assert log.rows[..n][..n - 1] == log.rows[..n - 1];
    }
  }

  /** The runs of a job since its last delete. */
  function RunsOf(events: seq<Event>, job: nat): seq<Answers> {
    if events == [] then []
    else
      var before, log := RunsOf(events[..|events| - 1], job), History(events[..|events| - 1]);
      match events[|events| - 1]
      case Create => before
      case Fresh(a) => if |log.rows| == job then before + [a] else before
      case Again(j, a) => if j == job && j < |log.rows| && log.rows[j].JobRow? then before + [a] else before
      case Delete(j) => if j == job then [] else before
  }

  /** The texts of the claims a run stores: those of its drafts with an index in range. */
  function StoredTexts(a: Answers): seq<string> { ResolvableTexts(a.drafts, |AllKept(a.scripts)|) }

  function AllTexts(runs: seq<Answers>): seq<string> {
    if runs == [] then [] else AllTexts(runs[..|runs| - 1]) + StoredTexts(runs[|runs| - 1])
  }

  /** Rows appended for one job show in that job's claims and in no other's. */
  lemma {:induction false} AppendedTexts(rows: seq<Row>, all: seq<Row>, gone: set<nat>, job: nat, other: nat) returns (added: seq<string>)
    requires rows <= all && OwnFrom(all, job, |rows|) && (forall i :: |rows| <= i < |all| ==> i !in gone)
    ensures ClaimTexts(all) == ClaimTexts(rows) + added
    ensures Texts(all, gone, other) == Texts(rows, gone, other) + if other == job then added else []
  {
    if |all| == |rows| {
      added := [];
      assert all == rows;
    } else {
      var n := |all| - 1;
      var before := AppendedTexts(rows, all[..n], gone, job, other);
      assert OwnRow(all[n], job, |rows|);
      added := before + if all[n].ClaimRow? then [all[n].text] else [];
    }
  }

  lemma {:induction false} AppendedReport(rows: seq<Row>, all: seq<Row>, gone: set<nat>, job: nat, other: nat)
    requires rows <= all && OwnFrom(all, job, |rows|) && other != job
    ensures LatestReport(all, gone, other) == LatestReport(rows, gone, other)
  {
    if |all| == |rows| {
      assert all == rows;
    } else {
      var n := |all| - 1;
      AppendedReport(rows, all[..n], gone, job, other);
      assert OwnRow(all[n], job, |rows|);
    }
  }

  lemma {:induction false} SameShown(rows: seq<Row>, gone: set<nat>, less: set<nat>, job: nat)
    requires forall i :: 0 <= i < |rows| && (rows[i].ClaimRow? || rows[i].ReportRow?) && rows[i].job == job ==> (i in gone <==> i in less)
    ensures Texts(rows, gone, job) == Texts(rows, less, job) && LatestReport(rows, gone, job) == LatestReport(rows, less, job)
  {
    if rows != [] { SameShown(rows[..|rows| - 1], gone, less, job); }
  }

  lemma {:induction false} NothingShown(rows: seq<Row>, gone: set<nat>, job: nat)
    requires forall i :: 0 <= i < |rows| && (rows[i].ClaimRow? || rows[i].ReportRow?) && rows[i].job == job ==> i in gone
    ensures Texts(rows, gone, job) == [] && LatestReport(rows, gone, job) == None
  {
    if rows != [] { NothingShown(rows[..|rows| - 1], gone, job); }
  }

  lemma RunTexts(rows: seq<Row>, job: nat, a: Answers)
    ensures ClaimTexts(RowsAfter(rows, job, a)) == ClaimTexts(rows) + StoredTexts(a)
  {
    hide ClaimTexts, AddClaims, FinalReport;
    var verified := AllKept(a.scripts);
    if verified == [] {
      ClaimTextsSnoc(rows, ReportRow(job, None, DECLARED_INSUFFICIENT));
      NothingResolvable(a.drafts);
    } else {
      ClaimRowsExactly(rows, job, a.drafts, verified, a.judge);
      ClaimTextsSnoc(Run(rows, job, a.drafts, verified, a.judge).rows, ReportRow(job, Some(a.reportText), FinalReport(a)));
    }
  }

  lemma {:induction false} NothingResolvable(drafts: seq<Draft>)
    ensures ResolvableTexts(drafts, 0) == []
  {
    if drafts != [] {
      NothingResolvable(drafts[..|drafts| - 1]);
      NothingResolved(drafts[|drafts| - 1].indices);
    }
  }

  lemma CancelTexts(before: seq<string>, x: seq<string>, y: seq<string>)
    requires before + x == before + y
    ensures x == y
  {
    assert (before + x)[|before|..] == x && (before + y)[|before|..] == y;
  }

  /** What the job shows: the claims of its runs, and the report of the latest of them. */
  ghost predicate Shows(log: Log, job: nat, runs: seq<Answers>) {
    && Texts(log.rows, log.gone, job) == AllTexts(runs)
    && LatestReport(log.rows, log.gone, job) == if runs == [] then None else Some(FinalReport(runs[|runs| - 1]))
  }

  lemma RunShows(log: Log, job: nat, a: Answers, other: nat, runs: seq<Answers>)
    requires Sound(log) && job < |log.rows| && log.rows[job].JobRow? && Shows(log, other, runs)
    ensures Shows(Log(RowsAfter(log.rows, job, a), log.gone - {job}), other, if other == job then runs + [a] else runs)
  {
    hide RowsAfter, Consistent, Texts, ClaimTexts, LatestReport, FinalReport, StoredTexts;
    RunKeepsConsistent(log.rows, job, a);
    var all, less := RowsAfter(log.rows, job, a), log.gone - {job};
    SameShown(log.rows, log.gone, less, other);
    var added := AppendedTexts(log.rows, all, less, job, other);
    RunTexts(log.rows, job, a);
    CancelTexts(ClaimTexts(log.rows), added, StoredTexts(a));
    if other == job {
      assert (runs + [a])[..|runs|] == runs;
      OneReportLast(log.rows, job, a);
      LatestIsLast(all, less, job);
    } else {
      AppendedReport(log.rows, all, less, job, other);
      assert Texts(log.rows, less, other) + [] == Texts(log.rows, less, other);
    }
  }

  lemma LatestIsLast(rows: seq<Row>, gone: set<nat>, job: nat)
    requires rows != [] && |rows| - 1 !in gone && rows[|rows| - 1].ReportRow? && rows[|rows| - 1].job == job
    ensures LatestReport(rows, gone, job) == Some(rows[|rows| - 1].text)
  {
  }

  lemma CreateShows(log: Log, other: nat, runs: seq<Answers>)
    requires Sound(log) && Shows(log, other, runs)
    ensures Shows(Log(log.rows + [JobRow], log.gone), other, runs)
  {
    var more := log.rows + [JobRow];
    assert more[..|log.rows|] == log.rows;
  }

  lemma DeleteShows(log: Log, job: nat, other: nat, runs: seq<Answers>)
    requires Sound(log) && Shows(log, other, runs)
    ensures Shows(Next(log, Delete(job)), other, if other == job then [] else runs)
  {
    hide Consistent;
    var after := Next(log, Delete(job));
    if other == job { NothingShown(log.rows, after.gone, other); } else { SameShown(log.rows, log.gone, after.gone, other); }
  }

  lemma {:induction false} HistoryShows(events: seq<Event>, job: nat)
    ensures Shows(History(events), job, RunsOf(events, job))
  {
    hide Sound, Shows, RowsAfter;
    if events == [] {
      NothingShows(job);
    } else {
      var n := |events| - 1;
      HistoryShows(events[..n], job);
      HistorySound(events[..n]);
      var log, runs := History(events[..n]), RunsOf(events[..n], job);
      match events[n]
      case Create => CreateShows(log, job, runs);
      case Fresh(a) =>
        CreateShows(log, job, runs);
        CreateSound(log);
        RunShows(Log(log.rows + [JobRow], log.gone), |log.rows|, a, job, runs);
        NotGone(log);
      case Again(j, a) => if j < |log.rows| && log.rows[j].JobRow? { RunShows(log, j, a, job, runs); }
      case Delete(j) => DeleteShows(log, j, job, runs);
    }
  }

  lemma NotGone(log: Log)
    requires Sound(log)
    ensures log.gone - {|log.rows|} == log.gone
  {
  }

  lemma NothingShows(job: nat)
    ensures Shows(Log([], {}), job, [])
  {
  }

  // ---- Report and claims ------------------------------------------------------------------------

  function Shown(log: Log, job: nat): Response { Response(LatestReport(log.rows, log.gone, job), ShownClaims(log, job)) }

  function ShownText(claims: seq<ClaimView>): seq<string> {
    seq(|claims|, k requires 0 <= k < |claims| => claims[k].text)
  }

  /** After any runs and deletes a client is shown the report of the job's latest run and the claims of all its runs
      since the last delete. */
  lemma ShownExactly(events: seq<Event>, job: nat)
    ensures var r, runs := Shown(History(events), job), RunsOf(events, job);
            && r.report == (if runs == [] then None else Some(FinalReport(runs[|runs| - 1])))
            && ShownText(r.claims) == AllTexts(runs)
  {
    hide Texts, LatestReport, FinalReport, AllTexts, History, RunsOf;
    HistoryShows(events, job);
    var log := History(events);
    ShownTexts(log, job, |log.rows|);
    assert log.rows[..|log.rows|] == log.rows;
  }

  lemma {:induction false} NoTexts(runs: seq<Answers>)
    ensures AllTexts(runs) == [] <==> forall k :: 0 <= k < |runs| ==> StoredTexts(runs[k]) == []
  {
    hide StoredTexts;
    if runs != [] {
      var n := |runs| - 1;
      NoTexts(runs[..n]);
      assert forall k :: 0 <= k < n ==> runs[..n][k] == runs[k];
    }
  }

  /** Exactly when the claims shown are those of the report's own run, in whatever order: when no earlier run since the
      last delete had a claim with an index in range. */
  lemma OwnClaimsExactly(events: seq<Event>, job: nat)
    requires RunsOf(events, job) != []
    ensures var r, runs := Shown(History(events), job), RunsOf(events, job);
            var last := |runs| - 1;
            multiset(ShownText(r.claims)) == multiset(StoredTexts(runs[last])) <==>
              forall k :: 0 <= k < last ==> StoredTexts(runs[k]) == []
  {
    hide Shown, History, RunsOf, StoredTexts, ShownText;
    var runs := RunsOf(events, job);
    var last := |runs| - 1;
    ShownExactly(events, job);
    NoTexts(runs[..last]);
    var earlier, own := AllTexts(runs[..last]), StoredTexts(runs[last]);
    assert multiset(earlier + own) == multiset(earlier) + multiset(own);
    assert |multiset(earlier)| == |earlier| && |multiset(own)| == |own| && |multiset(earlier + own)| == |earlier| + |own|;
    assert forall k :: 0 <= k < last ==> runs[..last][k] == runs[k];
  }
}
