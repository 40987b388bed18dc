/** A whole research run that no exception ends (tradegraph/src/graph/pipeline.py:101-375): the job row is
    reused or created, evidence is gathered, claims pass the gate, and one report row closes the run. */
module ResearchRun {
  import opened Helpers
  import opened Evidence
  import opened ClaimGate
  import opened EvidenceChain

  datatype Status = Pending | Running | Succeeded

  class ResearchJob {
    const id: nat
    var status: Status
    var insufficientEvidence: bool

    constructor (id: nat)
      ensures this.id == id && status == Running && !insufficientEvidence
    {
      this.id := id;
      status, insufficientEvidence := Running, false;
    }
  }

  /** Everything models and retriever answer during the run. */
  datatype Answers = Answers(scripts: seq<SubScript>, reportText: string, drafts: seq<Draft>, judge: Judge)

  datatype Outcome = Outcome(job: nat, report: string, insufficient: bool)

  const DECLARED_INSUFFICIENT: string :=
    "Evidence insufficient to answer this question within the current corpus and research budget. No verified evidence was found for any sub-question."

  function Descriptions(pairs: seq<Pair>): seq<string> {
    seq(|pairs|, i requires 0 <= i < |pairs| => pairs[i].description)
  }

  function Sections(lines: seq<string>, gaps: seq<string>, contradictions: seq<Pair>): seq<string> {
    [Join(" ", lines)]
    + (if gaps == [] then [] else ["Evidence gaps: " + Join("; ", gaps)])
    + (if contradictions == [] then [] else ["Contradictions found: " + Join("; ", Descriptions(contradictions))])
  }

  function Lines(a: Answers): seq<string> { ReportLines(a.drafts, |AllKept(a.scripts)|, a.judge) }

  function FinalReport(a: Answers): string {
    if AllKept(a.scripts) == [] || Lines(a) == [] then DECLARED_INSUFFICIENT
    else Join("\n\n", Sections(Lines(a), AllGaps(a.scripts), AllContradictions(a.scripts)))
  }

  /** The rows after a run on a session that holds `rows`. */
  function RowsAfter(rows: seq<Row>, job: nat, a: Answers): seq<Row> {
    var verified := AllKept(a.scripts);
    if verified == [] then rows + [ReportRow(job, None, DECLARED_INSUFFICIENT)]
    else Run(rows, job, a.drafts, verified, a.judge).rows + [ReportRow(job, Some(a.reportText), FinalReport(a))]
  }

  method AssembleReport(lines: seq<string>, gaps: seq<string>, contradictions: seq<Pair>) returns (text: string)
    ensures text == if lines == [] then DECLARED_INSUFFICIENT else Join("\n\n", Sections(lines, gaps, contradictions))
  {
    if lines == [] { return DECLARED_INSUFFICIENT; }
    var sections := [Join(" ", lines)];
    if gaps != [] { sections := sections + ["Evidence gaps: " + Join("; ", gaps)]; }
    if contradictions != [] {
      sections := sections + ["Contradictions found: " + Join("; ", Descriptions(contradictions))];
    }
    assert sections == Sections(lines, gaps, contradictions);
    text := Join("\n\n", sections);
  }

  /** The row the interface created beforehand is reused, whatever its flag says. */
  method GetOrCreate(session: Session, known: ResearchJob?) returns (job: ResearchJob)
    requires known != null ==> known.id < |session.rows| && session.rows[known.id].JobRow?
    modifies session, known
    ensures job.status == Running && job.id < |session.rows| && session.rows[job.id].JobRow?
    ensures known != null ==>
              job == known && session.rows == old(session.rows) && job.insufficientEvidence == old(known.insufficientEvidence)
    ensures known == null ==>
              fresh(job) && job.id == |old(session.rows)| && session.rows == old(session.rows) + [JobRow] && !job.insufficientEvidence
  {
    if known == null {
      var id := session.Add(JobRow);
      job := new ResearchJob(id);
    } else {
      job := known;
      job.status := Running;
    }
  }

  method RunResearch(session: Session, known: ResearchJob?, a: Answers) returns (job: ResearchJob, outcome: Outcome)
    requires known != null ==> known.id < |session.rows| && session.rows[known.id].JobRow?
    modifies session, known
    ensures if known != null then job == known else fresh(job) && job.id == |old(session.rows)|
    ensures session.rows == RowsAfter(old(session.rows) + if known == null then [JobRow] else [], job.id, a)
    ensures job.status == Succeeded
    ensures job.insufficientEvidence == FlagAfter(known != null && old(known.insufficientEvidence), a)
    ensures outcome == Outcome(job.id, FinalReport(a), job.insufficientEvidence)
  {
    hide AddClaims, ReportLines, AllKept, AllGaps, AllContradictions, Join, Sections, ParentsPresent, ParentsFirst;
    assert old(session.rows) + [] == old(session.rows);
    job := GetOrCreate(session, known);
    ghost var entry := session.rows;
    var verified, gaps, contradictions := Gather(a.scripts);
    if verified == [] {
      job.insufficientEvidence, job.status := true, Succeeded;
      CanReport(entry, job.id, None, DECLARED_INSUFFICIENT);
      var early := session.Add(ReportRow(job.id, None, DECLARED_INSUFFICIENT));
      outcome := Outcome(job.id, DECLARED_INSUFFICIENT, true);
    } else {
      var lines := ValidateClaims(session, job.id, a.drafts, verified, a.judge);
      if lines == [] { job.insufficientEvidence := true; }
      var text := AssembleReport(lines, gaps, contradictions);
      job.status := Succeeded;
      ChainWellFormed(entry, job.id, a.drafts, verified, a.judge);
      assert session.rows[job.id] == entry[job.id];
      CanReport(session.rows, job.id, Some(a.reportText), text);
      var report := session.Add(ReportRow(job.id, Some(a.reportText), text));
      outcome := Outcome(job.id, text, job.insufficientEvidence);
    }
  }

  lemma CanReport(rows: seq<Row>, job: nat, draft: Option<string>, text: string)
    requires job < |rows| && rows[job].JobRow?
    ensures ParentsPresent(rows, ReportRow(job, draft, text))
  {
  }

  // ---- What the rows and the report say ---------------------------------------------------------

  /** No row from number `from` on is a report. */
  ghost predicate NoReport(rows: seq<Row>, from: nat) {
    forall i :: from <= i < |rows| ==> !rows[i].ReportRow?
  }

  lemma {:induction false} PairsAddNoReport(g: Gate, job: nat, claim: nat, indices: seq<int>, verified: seq<Verified>,
                                            judge: Judge, c: nat, n: nat, from: nat)
    requires n <= |Resolved(indices, |verified|)| && NoReport(g.rows, from)
    ensures NoReport(AddPairs(g, job, claim, indices, verified, judge, c, n).rows, from)
  {
    if n > 0 { PairsAddNoReport(g, job, claim, indices, verified, judge, c, n - 1, from); }
  }

  lemma {:induction false} ClaimsAddNoReport(g: Gate, job: nat, drafts: seq<Draft>, verified: seq<Verified>, judge: Judge, from: nat)
    requires NoReport(g.rows, from)
    ensures NoReport(AddClaims(g, job, drafts, verified, judge).rows, from)
  {
    if drafts != [] {
      var c := |drafts| - 1;
      ClaimsAddNoReport(g, job, drafts[..c], verified, judge, from);
      var before := AddClaims(g, job, drafts[..c], verified, judge);
      var n := |Resolved(drafts[c].indices, |verified|)|;
      if n > 0 {
        PairsAddNoReport(before.(rows := before.rows + [ClaimRow(job, drafts[c].text)]), job, |before.rows|,
                         drafts[c].indices, verified, judge, c, n, from);
      }
    }
  }

  /** A run keeps every earlier row, adds exactly one report row, as its very last row, and adds every row
      after the rows its foreign keys name. */
  lemma OneReportLast(rows: seq<Row>, job: nat, a: Answers)
    requires job < |rows| && rows[job].JobRow?
    ensures var after := RowsAfter(rows, job, a);
            && rows <= after && |rows| < |after|
            && ParentsFirst(after, |rows|)
            && (forall i :: |rows| <= i < |after| ==> (after[i].ReportRow? <==> i == |after| - 1))
            && after[|after| - 1].job == job && after[|after| - 1].text == FinalReport(a)
            && after[|after| - 1].draft == if AllKept(a.scripts) == [] then None else Some(a.reportText)
  {
    hide AddClaims, FinalReport, ParentsPresent;
    var verified, after := AllKept(a.scripts), RowsAfter(rows, job, a);
    ChainWellFormed(rows, job, a.drafts, verified, a.judge);
    ClaimsAddNoReport(StartGate(rows), job, a.drafts, verified, a.judge, |rows|);
    LastReport(rows, job, a);
    forall i | |rows| <= i < |after| ensures ParentsPresent(after[..i], after[i]) {
      if i == |after| - 1 { JobStillThere(rows, after, job); }
      else { assert after[..i] == Run(rows, job, a.drafts, verified, a.judge).rows[..i]; }
    }
  }

  lemma LastReport(rows: seq<Row>, job: nat, a: Answers)
    ensures var after := RowsAfter(rows, job, a);
            |after| > 0 && after[|after| - 1].ReportRow? && after[|after| - 1].job == job && after[|after| - 1].text == FinalReport(a)
  {
  }

  lemma JobStillThere(rows: seq<Row>, after: seq<Row>, job: nat)
    requires job < |rows| && rows[job].JobRow? && rows <= after && |rows| < |after|
    requires after[|after| - 1].ReportRow? && after[|after| - 1].job == job
    ensures ParentsPresent(after[..|after| - 1], after[|after| - 1])
  {
    assert after[job] == rows[job];
  }

  ghost predicate Occurs(part: string, whole: string) {
    exists before: string, behind: string :: whole == before + part + behind
  }

  lemma OccursWithin(part: string, middle: string, before: string, behind: string)
    requires Occurs(part, middle)
    ensures Occurs(part, before + middle + behind)
  {
    var b: string, e: string :| middle == b + part + e;
    assert before + middle + behind == (before + b) + part + (e + behind);
  }

  lemma {:induction false} JoinedOccurs(separator: string, parts: seq<string>, k: nat)
    requires k < |parts|
    ensures Occurs(parts[k], Join(separator, parts))
  {
    var n := |parts| - 1;
    if k == n {
      var before := if n == 0 then "" else Join(separator, parts[..n]) + separator;
      assert Join(separator, parts) == before + parts[k] + "";
    } else {
      JoinedOccurs(separator, parts[..n], k);
      OccursWithin(parts[k], Join(separator, parts[..n]), "", separator + parts[n]);
      assert "" + Join(separator, parts[..n]) + (separator + parts[n]) == Join(separator, parts);
    }
  }

  lemma SectionOccurs(part: string, title: string, parts: seq<string>, separator: string, sections: seq<string>, s: nat, k: nat)
    requires k < |parts| && parts[k] == part
    requires s < |sections| && sections[s] == title + Join(separator, parts)
    ensures Occurs(part, Join("\n\n", sections))
  {
    JoinedOccurs(separator, parts, k);
    OccursWithin(part, Join(separator, parts), title, "");
    assert title + Join(separator, parts) + "" == sections[s];
    JoinedOccurs("\n\n", sections, s);
    OccursTrans(part, sections[s], Join("\n\n", sections));
  }

  lemma OccursTrans(a: string, b: string, c: string)
    requires Occurs(a, b) && Occurs(b, c)
    ensures Occurs(a, c)
  {
    var before: string, behind: string :| c == before + b + behind;
    OccursWithin(a, b, before, behind);
  }

  /** The report in full: the declaration of insufficiency when no evidence or no claim was left, and otherwise the
      lines one after another, then the gaps and the contradictions, each under its title and only if there are any. */
  lemma ReportText(a: Answers) returns (descriptions: seq<string>)
    ensures var pairs := AllContradictions(a.scripts);
            |descriptions| == |pairs| && forall i :: 0 <= i < |pairs| ==> descriptions[i] == pairs[i].description
    ensures FinalReport(a) ==
              if AllKept(a.scripts) == [] || ReportLines(a.drafts, |AllKept(a.scripts)|, a.judge) == [] then DECLARED_INSUFFICIENT
              else
                Join(" ", ReportLines(a.drafts, |AllKept(a.scripts)|, a.judge))
                + (if AllGaps(a.scripts) == [] then "" else "\n\nEvidence gaps: " + Join("; ", AllGaps(a.scripts)))
                + (if descriptions == [] then "" else "\n\nContradictions found: " + Join("; ", descriptions))
  {
    descriptions := Descriptions(AllContradictions(a.scripts));
    SectionsText(Lines(a), AllGaps(a.scripts), AllContradictions(a.scripts));
    hide Join, Sections, ReportLines, AllKept, AllGaps, AllContradictions;
  }

  lemma SectionsText(lines: seq<string>, gaps: seq<string>, pairs: seq<Pair>)
    ensures Join("\n\n", Sections(lines, gaps, pairs)) ==
              Join(" ", lines) + (if gaps == [] then "" else "\n\nEvidence gaps: " + Join("; ", gaps))
              + (if pairs == [] then "" else "\n\nContradictions found: " + Join("; ", Descriptions(pairs)))
  {
    var l, g, c := Join(" ", lines), Join("; ", gaps), Join("; ", Descriptions(pairs));
    var two := [l] + if gaps == [] then [] else ["Evidence gaps: " + g];
    JoinOne(l);
    if gaps != [] { JoinTwo([l], "Evidence gaps: ", g, "\n\nEvidence gaps: "); }
    if pairs != [] { JoinTwo(two, "Contradictions found: ", c, "\n\nContradictions found: "); }
    hide Join, Descriptions;
    assert [l] + [] == [l] && two + [] == two;
  }

  lemma JoinOne(s: string)
    ensures Join("\n\n", [s]) == s
  {
  }

  lemma JoinTwo(parts: seq<string>, title: string, s: string, apart: string)
    requires parts != [] && apart == "\n\n" + title
    ensures Join("\n\n", parts + [title + s]) == Join("\n\n", parts) + (apart + s)
  {
    JoinConcat("\n\n", parts, [title + s]);
    JoinOne(title + s);
    assert "\n\n" + (title + s) == apart + s;
    hide Join;
  }

  /** A report that is not the declaration of insufficiency shows the line of every surviving claim, every
      gap and every contradiction word for word; otherwise no claim survived. */
  lemma ReportShowsEverything(a: Answers)
    ensures var survivors, report := Survivors(a.drafts, |AllKept(a.scripts)|, a.judge), FinalReport(a);
            if AllKept(a.scripts) == [] || survivors == [] then report == DECLARED_INSUFFICIENT
            else
              && (forall c :: 0 <= c < |a.drafts| ==>
                    var line := ClaimLine(a.drafts[c], |AllKept(a.scripts)|, a.judge, c);
                    line.Some? ==> Occurs(line.value, report))
              && (forall g :: g in AllGaps(a.scripts) ==> Occurs(g, report))
              && (forall p :: p in AllContradictions(a.scripts) ==> Occurs(p.description, report))
  {
    hide Occurs, Join, ReportLines, Survivors, ClaimLine, AllKept, AllGaps, AllContradictions;
    var count, lines := |AllKept(a.scripts)|, Lines(a);
    ReportedExactly(a.drafts, count, a.judge);
    var gaps, pairs := AllGaps(a.scripts), AllContradictions(a.scripts);
    var sections := Sections(lines, gaps, pairs);
    var survivors := Survivors(a.drafts, count, a.judge);
    forall c | 0 <= c < |a.drafts| && ClaimLine(a.drafts[c], count, a.judge, c).Some?
      ensures Occurs(ClaimLine(a.drafts[c], count, a.judge, c).value, Join("\n\n", sections))
    {
      var i :| 0 <= i < |survivors| && survivors[i] == c;
      assert sections[0] == "" + Join(" ", lines);
      SectionOccurs(lines[i], "", lines, " ", sections, 0, i);
    }
    forall g | g in gaps ensures Occurs(g, Join("\n\n", sections)) {
      var i :| 0 <= i < |gaps| && gaps[i] == g;
      SectionOccurs(g, "Evidence gaps: ", gaps, "; ", sections, 1, i);
    }
    forall p | p in pairs ensures Occurs(p.description, Join("\n\n", sections)) {
      var i :| 0 <= i < |pairs| && pairs[i] == p;
      SectionOccurs(p.description, "Contradictions found: ", Descriptions(pairs), "; ", sections, |sections| - 1, i);
    }
  }

  /** The insufficiency flag a run ends with, from the flag the job row had on entry. */
  function FlagAfter(entry: bool, a: Answers): bool { entry || AllKept(a.scripts) == [] || Lines(a) == [] }

  /** The job's flag after runs over one job, the first of which creates its row. */
  function JobFlag(runs: seq<Answers>): bool {
    if runs == [] then false else FlagAfter(JobFlag(runs[..|runs| - 1]), runs[|runs| - 1])
  }

  /** No claim survived. */
  predicate Nothing(a: Answers) { Survivors(a.drafts, |AllKept(a.scripts)|, a.judge) == [] }

  lemma FlagSaysNothing(entry: bool, a: Answers)
    ensures FlagAfter(entry, a) <==> entry || Nothing(a)
  {
    ReportedExactly(a.drafts, |AllKept(a.scripts)|, a.judge);
    if AllKept(a.scripts) == [] { NoEvidenceNoSurvivor(a.drafts, a.judge); }
  }

  /** The flag remembers whether any run found nothing. */
  lemma {:induction false} FlagRemembers(runs: seq<Answers>)
    ensures JobFlag(runs) <==> exists k :: 0 <= k < |runs| && Nothing(runs[k])
  {
    hide Nothing, FlagAfter;
    if runs != [] {
      var n := |runs| - 1;
      FlagRemembers(runs[..n]);
      FlagSaysNothing(JobFlag(runs[..n]), runs[n]);
      if k :| 0 <= k < |runs| && Nothing(runs[k]) { assert k == n || Nothing(runs[..n][k]); }
      if k :| 0 <= k < n && Nothing(runs[..n][k]) { assert Nothing(runs[k]); }
    }
  }

  /** Runs over one job: after the last one the flag says what that run found, exactly when it found nothing or
      no earlier run did. Reuse of the row never resets it. */
  lemma FlagTruthfulExactly(runs: seq<Answers>)
    requires runs != []
    ensures var last := |runs| - 1;
            (JobFlag(runs) <==> Nothing(runs[last])) <==>
              (Nothing(runs[last]) || forall k :: 0 <= k < last ==> !Nothing(runs[k]))
  {
    hide Nothing, JobFlag;
    FlagRemembers(runs);
  }

  const ONE_HIT: Hit := Hit(7, Payload(1, 2, "Revenue was 10."))
  const ONE_ITEM: Extracted := Extracted(0, "Revenue was 10.", "revenue")

  /** A run whose one sub-question retrieves nothing. */
  function NothingFound(): Answers {
    Answers([SubScript("q", [], [], [], [], [])], "", [], (c, k) => Judgement(Accept, None, ""))
  }

  /** A run that keeps one item and accepts one claim. */
  function OneClaim(): Answers {
    Answers([SubScript("q", [ONE_HIT], [ONE_ITEM], [Decision(0, Supports)], [], [])], "",
            [Draft("Revenue grew.", [0])], (c, k) => Judgement(Accept, None, ""))
  }

  lemma OneClaimKept()
    ensures AllKept(OneClaim().scripts) == [Verified(ONE_ITEM, ONE_HIT)]
    ensures AllGaps(OneClaim().scripts) == [] && AllContradictions(OneClaim().scripts) == []
  {
    var s := OneClaim().scripts[0];
    assert OneClaim().scripts[..0] == [] && s.decisions[..0] == [];
    assert LastVerdict(s.decisions, 0) == Some(Supports);
    assert KeptIndices(s, 0) == [] && KeptIndices(s, 1) == [0];
    assert Kept(s) == [Verified(ONE_ITEM, ONE_HIT)];
  }

  lemma OneClaimLines()
    ensures Lines(OneClaim()) == ["Revenue grew."]
  {
    hide AllKept;
    OneClaimKept();
    var draft := OneClaim().drafts[0];
    assert OneClaim().drafts[..0] == [] && draft.indices[..0] == [];
    assert Resolved(draft.indices, 1) == [0];
    assert FateOf(draft.text, OneClaim().judge, 0, 1) == Fate(Some("Revenue grew."), false);
  }

  /** A job declared insufficient once and researched again with success: its report shows the claim, and its
      flag still says that the evidence is insufficient. */
  lemma StaleFlag()
    ensures Nothing(NothingFound()) && !Nothing(OneClaim())
    ensures var after := RowsAfter(RowsAfter([JobRow], 0, NothingFound()), 0, OneClaim());
            && JobFlag([NothingFound(), OneClaim()])
            && |after| > 0 && after[|after| - 1].ReportRow? && after[|after| - 1].text == "Revenue grew."
  {
    hide RowsAfter, FlagAfter, JobFlag, Nothing, NothingFound, OneClaim, FinalReport;
    NothingFoundFindsNothing();
    OneClaimFinds();
    var runs := [NothingFound(), OneClaim()];
    assert Nothing(runs[0]);
    FlagRemembers(runs);
    LastReport(RowsAfter([JobRow], 0, NothingFound()), 0, OneClaim());
  }

  lemma NothingFoundFindsNothing()
    ensures Nothing(NothingFound())
  {
  }

  lemma OneClaimFinds()
    ensures !Nothing(OneClaim()) && FinalReport(OneClaim()) == "Revenue grew."
  {
    hide AllKept, AllGaps, AllContradictions, ReportLines, Survivors;
    OneClaimKept();
    OneClaimLines();
    ReportedExactly(OneClaim().drafts, |AllKept(OneClaim().scripts)|, OneClaim().judge);
  }

  lemma {:induction false} NoEvidenceNoSurvivor(drafts: seq<Draft>, judge: Judge)
    ensures Survivors(drafts, 0, judge) == []
  {
    if drafts != [] {
      var c := |drafts| - 1;
      NoEvidenceNoSurvivor(drafts[..c], judge);
      NothingResolved(drafts[c].indices);
    }
  }

  lemma {:induction false} NothingResolved(indices: seq<int>)
    ensures Resolved(indices, 0) == []
  {
    if indices != [] { NothingResolved(indices[..|indices| - 1]); }
  }
}
