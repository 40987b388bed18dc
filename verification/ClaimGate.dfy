/** From claim drafts to stored rows and report lines (tradegraph/src/graph/pipeline.py:268-353): each
    claim's evidence indices are resolved, its evidence rows are created once and cached by index, every
    passage is judged, and the verdicts decide whether and how the claim is reported.

    A row's id is its position in the log of rows the session has added, so new ids are fresh. */
module ClaimGate {
  import opened Helpers
  import opened Evidence

  datatype CitationVerdict = Accept | Rewrite | Remove | Flag
  datatype Judgement = Judgement(verdict: CitationVerdict, rewritten: Option<string>, justification: string)

  /** The validator's answer to each (claim number, pair number). */
  type Judge = (nat, nat) -> Judgement

  datatype Draft = Draft(text: string, indices: seq<int>)

  datatype Row =
    | JobRow
    | ClaimRow(job: nat, text: string)
    | EvidenceRow(job: nat, chunkId: int, passage: string, summary: string)
    | LinkRow(claim: nat, item: nat)
    | CitationRow(claim: nat, item: nat, documentId: int, judgement: Judgement)
    | ReportRow(job: nat, draft: Option<string>, text: string)

  /** The rows this row's foreign keys name exist. */
  predicate ParentsPresent(rows: seq<Row>, row: Row) {
    match row
    case JobRow => true
    case ClaimRow(job, _) => job < |rows| && rows[job].JobRow?
    case EvidenceRow(job, _, _, _) => job < |rows| && rows[job].JobRow?
    case LinkRow(c, e) => c < |rows| && e < |rows| && rows[c].ClaimRow? && rows[e].EvidenceRow?
    case CitationRow(c, e, _, _) => c < |rows| && e < |rows| && rows[c].ClaimRow? && rows[e].EvidenceRow?
    case ReportRow(job, _, _) => job < |rows| && rows[job].JobRow?
  }

  class Session {
    var rows: seq<Row>

    constructor (rows: seq<Row>)
      ensures this.rows == rows
    {
      this.rows := rows;
    }

    /** Adding a row whose parents are missing would violate a foreign key. */
    method Add(row: Row) returns (id: nat)
      requires ParentsPresent(rows, row)
      modifies this
      ensures id == |old(rows)| && rows == old(rows) + [row]
    {
      id := |rows|;
      rows := rows + [row];
    }
  }

  // ---- Resolving indices ------------------------------------------------------------------------

  /** The in-range indices, in order. */
  function Resolved(indices: seq<int>, count: nat): (r: seq<nat>)
    ensures |r| <= |indices|
    ensures forall k :: 0 <= k < |r| ==> r[k] < count
  {
    if indices == [] then []
    else
      var before, last := Resolved(indices[..|indices| - 1], count), indices[|indices| - 1];
      if 0 <= last < count then before + [last] else before
  }

  method Cited(indices: seq<int>, verified: seq<Verified>) returns (cited: seq<Verified>)
    ensures |cited| == |Resolved(indices, |verified|)|
    ensures forall k :: 0 <= k < |cited| ==> cited[k] == verified[Resolved(indices, |verified|)[k]]
  {
    cited := [];
    for i := 0 to |indices|
      invariant |cited| == |Resolved(indices[..i], |verified|)|
      invariant forall k :: 0 <= k < |cited| ==> cited[k] == verified[Resolved(indices[..i], |verified|)[k]]
    {
      assert indices[..i + 1][..i] == indices[..i];
      if 0 <= indices[i] < |verified| {
        cited := cited + [verified[indices[i]]];
      }
    }
    assert indices[..|indices|] == indices;
  }

  // ---- The fate of one claim --------------------------------------------------------------------

  datatype Fate = Fate(accepted: Option<string>, flagged: bool)

  /** The fate after the first `n` judgements of claim `c`. */
  function FateOf(text: string, judge: Judge, c: nat, n: nat): Fate {
    if n == 0 then Fate(None, false)
    else
      var f, j := FateOf(text, judge, c, n - 1), judge(c, n - 1);
      if j.verdict.Accept? && f.accepted == None then f.(accepted := Some(text))
      else if j.verdict.Rewrite? && NonEmpty(j.rewritten) then f.(accepted := j.rewritten)
      else if j.verdict.Flag? then Fate(if f.accepted == None then Some(text) else f.accepted, true)
      else f
  }

  predicate NonEmpty(text: Option<string>) { text.Some? && text.value != "" }

  /** The line a claim contributes to the report, if any. */
  function Line(f: Fate): Option<string> {
    if !NonEmpty(f.accepted) then None
    else Some(if f.flagged then f.accepted.value + " [uncertain]" else f.accepted.value)
  }

  // ---- Rows -------------------------------------------------------------------------------------

  /** One judged pair: the rows it uses, the index it is filed under, the position of the evidence whose
      passage was judged, and the judgement. */
  datatype Placement = Placement(claim: nat, item: nat, citation: nat, index: int, position: nat, judgement: Judgement)

  datatype Gate = Gate(rows: seq<Row>, cache: map<int, nat>, placed: seq<Placement>)

  function EvidenceRowFor(job: nat, ve: Verified): Row {
    EvidenceRow(job, ve.source.payload.chunkId, ve.evidence.supportingText, ve.evidence.summary)
  }

  function AddPair(g: Gate, job: nat, claim: nat, index: int, position: nat, ve: Verified, j: Judgement): Gate {
    var rows := if index in g.cache then g.rows else g.rows + [EvidenceRowFor(job, ve)];
    var cache := if index in g.cache then g.cache else g.cache[index := |g.rows|];
    var item := cache[index];
    Gate(rows + [LinkRow(claim, item), CitationRow(claim, item, ve.source.payload.documentId, j)], cache,
         g.placed + [Placement(claim, item, |rows| + 1, index, position, j)])
  }

  /** The first `n` pairs of one claim: the k-th index is zipped with the k-th index in range. */
  function AddPairs(g: Gate, job: nat, claim: nat, indices: seq<int>, verified: seq<Verified>, judge: Judge, c: nat, n: nat): Gate
    requires n <= |Resolved(indices, |verified|)|
  {
    if n == 0 then g
    else
      var position := Resolved(indices, |verified|)[n - 1];
      AddPair(AddPairs(g, job, claim, indices, verified, judge, c, n - 1),
              job, claim, indices[n - 1], position, verified[position], judge(c, n - 1))
  }

  function AddClaim(g: Gate, job: nat, draft: Draft, verified: seq<Verified>, judge: Judge, c: nat): Gate {
    var n := |Resolved(draft.indices, |verified|)|;
    if n == 0 then g
    else AddPairs(g.(rows := g.rows + [ClaimRow(job, draft.text)]), job, |g.rows|, draft.indices, verified, judge, c, n)
  }

  function AddClaims(g: Gate, job: nat, drafts: seq<Draft>, verified: seq<Verified>, judge: Judge): Gate {
    if drafts == [] then g
    else
      var c := |drafts| - 1;
      AddClaim(AddClaims(g, job, drafts[..c], verified, judge), job, drafts[c], verified, judge, c)
  }

  function ClaimLine(draft: Draft, count: nat, judge: Judge, c: nat): Option<string> {
    Line(FateOf(draft.text, judge, c, |Resolved(draft.indices, count)|))
  }

  function ReportLines(drafts: seq<Draft>, count: nat, judge: Judge): seq<string> {
    if drafts == [] then []
    else
      var c := |drafts| - 1;
      var line := ClaimLine(drafts[c], count, judge, c);
      ReportLines(drafts[..c], count, judge) + if line.Some? then [line.value] else []
  }

  function StartGate(rows: seq<Row>): Gate { Gate(rows, map[], []) }

  /** The gate agrees with the session and with the cache of row ids. */
  ghost predicate InStep(g: Gate, rows: seq<Row>, cache: map<int, nat>, job: nat) {
    && rows == g.rows && cache == g.cache && CacheOk(g)
    && job < |rows| && rows[job].JobRow?
  }

  /** File one pair: its evidence row unless the index is cached, its link and its citation. */
  method FilePair(session: Session, cache: map<int, nat>, job: nat, claim: nat, index: int, ve: Verified,
                  decision: Judgement, ghost g: Gate, ghost position: nat)
    returns (newCache: map<int, nat>)
    requires InStep(g, session.rows, cache, job)
    requires claim < |session.rows| && session.rows[claim].ClaimRow?
    modifies session
    ensures InStep(AddPair(g, job, claim, index, position, ve, decision), session.rows, newCache, job)
    ensures claim < |session.rows| && session.rows[claim].ClaimRow?
  {
    newCache := cache;
    if index !in newCache {
      var row := session.Add(EvidenceRowFor(job, ve));
      newCache := newCache[index := row];
    }
    var item := newCache[index];
    var link := session.Add(LinkRow(claim, item));
    var citation := session.Add(CitationRow(claim, item, ve.source.payload.documentId, decision));
    assert session.rows == AddPair(g, job, claim, index, position, ve, decision).rows;
  }

  method ValidateClaim(session: Session, cache: map<int, nat>, job: nat, claim: nat, draft: Draft, c: nat,
                       verified: seq<Verified>, cited: seq<Verified>, judge: Judge, ghost entry: Gate)
    returns (newCache: map<int, nat>, line: Option<string>)
    requires InStep(entry, session.rows, cache, job)
    requires claim < |session.rows| && session.rows[claim].ClaimRow?
    requires |cited| == |Resolved(draft.indices, |verified|)|
    requires forall k :: 0 <= k < |cited| ==> cited[k] == verified[Resolved(draft.indices, |verified|)[k]]
    modifies session
    ensures InStep(AddPairs(entry, job, claim, draft.indices, verified, judge, c, |cited|), session.rows, newCache, job)
    ensures line == ClaimLine(draft, |verified|, judge, c)
  {
    hide InStep, AddPair;
    newCache := cache;
    ghost var gate := entry;
    var accepted: Option<string>, flagged := None, false;
    for k := 0 to |cited|
      invariant gate == AddPairs(entry, job, claim, draft.indices, verified, judge, c, k)
      invariant InStep(gate, session.rows, newCache, job)
      invariant claim < |session.rows| && session.rows[claim].ClaimRow?
      invariant Fate(accepted, flagged) == FateOf(draft.text, judge, c, k)
    {
      var decision := judge(c, k);
      ghost var position := Resolved(draft.indices, |verified|)[k];
      newCache := FilePair(session, newCache, job, claim, draft.indices[k], cited[k], decision, gate, position);
      gate := AddPair(gate, job, claim, draft.indices[k], position, cited[k], decision);
      if decision.verdict.Accept? && accepted == None {
        accepted := Some(draft.text);
      } else if decision.verdict.Rewrite? && NonEmpty(decision.rewritten) {
        accepted := decision.rewritten;
      } else if decision.verdict.Flag? {
        flagged := true;
        if accepted == None { accepted := Some(draft.text); }
      }
    }
    line := None;
    if NonEmpty(accepted) {
      line := Some(if flagged then accepted.value + " [uncertain]" else accepted.value);
    }
  }

  method ValidateClaims(session: Session, job: nat, drafts: seq<Draft>, verified: seq<Verified>, judge: Judge)
    returns (lines: seq<string>)
    requires job < |session.rows| && session.rows[job].JobRow?
    modifies session
    ensures session.rows == AddClaims(StartGate(old(session.rows)), job, drafts, verified, judge).rows
    ensures lines == ReportLines(drafts, |verified|, judge)
  {
    lines := [];
    var cache: map<int, nat> := map[];
    ghost var start := StartGate(session.rows);
    ghost var gate := start;
    for c := 0 to |drafts|
      invariant gate == AddClaims(start, job, drafts[..c], verified, judge)
      invariant InStep(gate, session.rows, cache, job)
      invariant lines == ReportLines(drafts[..c], |verified|, judge)
    {
      assert drafts[..c + 1][..c] == drafts[..c] && drafts[..c + 1][c] == drafts[c];
      var draft := drafts[c];
      var cited := Cited(draft.indices, verified);
      gate := AddClaim(gate, job, draft, verified, judge, c);
      if cited == [] {
        NoPairsNoLine(draft, |verified|, judge, c);
        continue;
      }
      ghost var before := session.rows;
      var claim := session.Add(ClaimRow(job, draft.text));
      var line: Option<string>;
      ghost var entry := AddClaims(start, job, drafts[..c], verified, judge).(rows := session.rows);
      cache, line := ValidateClaim(session, cache, job, claim, draft, c, verified, cited, judge, entry);
      if line.Some? { lines := lines + [line.value]; }
    }
    assert drafts[..|drafts|] == drafts;
  }

  /** Every cached id is an evidence row. */
  ghost predicate CacheOk(g: Gate) {
    forall i :: i in g.cache ==> g.cache[i] < |g.rows| && g.rows[g.cache[i]].EvidenceRow?
  }

  lemma NoPairsNoLine(draft: Draft, count: nat, judge: Judge, c: nat)
    requires Resolved(draft.indices, count) == []
    ensures ClaimLine(draft, count, judge, c) == None
  {
  }
}
