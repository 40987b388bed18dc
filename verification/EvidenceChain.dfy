/** What the claim gate guarantees about report lines and about the stored evidence chain
    (tradegraph/src/graph/pipeline.py:268-353). */
module EvidenceChain {
  import opened Helpers
  import opened Evidence
  import opened ClaimGate

  // ---- Report lines -----------------------------------------------------------------------------

  predicate Rewritten(j: Judgement) { j.verdict.Rewrite? && NonEmpty(j.rewritten) }

  ghost predicate SomeFlag(judge: Judge, c: nat, n: nat) {
    exists k :: 0 <= k < n && judge(c, k).verdict.Flag?
  }

  ghost predicate SomeAcceptOrFlag(judge: Judge, c: nat, n: nat) {
    exists k :: 0 <= k < n && (judge(c, k).verdict.Accept? || judge(c, k).verdict.Flag?)
  }

  /** Judgement `k` is the last non-empty rewrite among the first `n`. */
  ghost predicate LastRewrite(judge: Judge, c: nat, n: nat, k: nat) {
    k < n && Rewritten(judge(c, k)) && forall l :: k < l < n ==> !Rewritten(judge(c, l))
  }

  lemma {:induction false} FlaggedExactly(text: string, judge: Judge, c: nat, n: nat)
    ensures FateOf(text, judge, c, n).flagged <==> SomeFlag(judge, c, n)
  {
    if n > 0 {
      FlaggedExactly(text, judge, c, n - 1);
      assert SomeFlag(judge, c, n) <==> SomeFlag(judge, c, n - 1) || judge(c, n - 1).verdict.Flag?;
    }
  }

  lemma {:induction false} AcceptedWithoutRewrite(text: string, judge: Judge, c: nat, n: nat)
    requires forall k :: 0 <= k < n ==> !Rewritten(judge(c, k))
    ensures FateOf(text, judge, c, n).accepted == if SomeAcceptOrFlag(judge, c, n) then Some(text) else None
  {
    if n > 0 {
      AcceptedWithoutRewrite(text, judge, c, n - 1);
      var j := judge(c, n - 1);
      assert SomeAcceptOrFlag(judge, c, n) <==> SomeAcceptOrFlag(judge, c, n - 1) || j.verdict.Accept? || j.verdict.Flag?;
    }
  }

  lemma {:induction false} AcceptedAfterRewrite(text: string, judge: Judge, c: nat, n: nat, k: nat)
    requires LastRewrite(judge, c, n, k)
    ensures FateOf(text, judge, c, n).accepted == judge(c, k).rewritten
  {
    if k < n - 1 {
      assert LastRewrite(judge, c, n - 1, k);
      AcceptedAfterRewrite(text, judge, c, n - 1, k);
      assert !Rewritten(judge(c, n - 1));
    }
  }

  /** A claim's fate in closed form: it is flagged exactly when some passage was flagged; its text is the
      last non-empty rewrite, or else its own text when some passage was accepted or flagged, or else
      nothing. */
  lemma FateMeaning(text: string, judge: Judge, c: nat, n: nat)
    ensures FateOf(text, judge, c, n).flagged <==> SomeFlag(judge, c, n)
    ensures forall k :: LastRewrite(judge, c, n, k) ==> FateOf(text, judge, c, n).accepted == judge(c, k).rewritten
    ensures (forall k :: 0 <= k < n ==> !Rewritten(judge(c, k))) ==>
              FateOf(text, judge, c, n).accepted == if SomeAcceptOrFlag(judge, c, n) then Some(text) else None
  {
    hide FateOf;
    FlaggedExactly(text, judge, c, n);
    forall k: nat | LastRewrite(judge, c, n, k) ensures FateOf(text, judge, c, n).accepted == judge(c, k).rewritten {
      AcceptedAfterRewrite(text, judge, c, n, k);
    }
    if forall k :: 0 <= k < n ==> !Rewritten(judge(c, k)) { AcceptedWithoutRewrite(text, judge, c, n); }
  }

  /** The text a claim is left with after its judgements: the last rewrite that is not empty, else its own text when
      some passage was accepted or flagged, else none. */
  ghost predicate BaseText(text: string, judge: Judge, c: nat, n: nat, base: Option<string>) {
    if exists k :: 0 <= k < n && judge(c, k).verdict == Rewrite && judge(c, k).rewritten != None && judge(c, k).rewritten != Some("") then
      exists k :: 0 <= k < n && base == judge(c, k).rewritten && judge(c, k).verdict == Rewrite && base != None && base != Some("")
        && forall l :: k < l < n ==> judge(c, l).verdict != Rewrite || judge(c, l).rewritten == None || judge(c, l).rewritten == Some("")
    else if exists k :: 0 <= k < n && judge(c, k).verdict in {Accept, Flag} then base == Some(text)
    else base == None
  }

  lemma BaseIsAccepted(text: string, judge: Judge, c: nat, n: nat)
    ensures BaseText(text, judge, c, n, FateOf(text, judge, c, n).accepted)
  {
    hide FateOf;
    FateMeaning(text, judge, c, n);
    if exists k :: 0 <= k < n && Rewritten(judge(c, k)) {
      var k := LastRewriteIs(judge, c, n);
      assert LastRewrite(judge, c, n, k);
    } else {
      forall k | 0 <= k < n ensures !(judge(c, k).verdict == Rewrite && judge(c, k).rewritten != None && judge(c, k).rewritten != Some("")) {
        assert !Rewritten(judge(c, k));
      }
    }
  }

  lemma {:induction false} LastRewriteIs(judge: Judge, c: nat, n: nat) returns (k: nat)
    requires exists k :: 0 <= k < n && Rewritten(judge(c, k))
    ensures LastRewrite(judge, c, n, k)
  {
    if Rewritten(judge(c, n - 1)) {
      k := n - 1;
    } else {
      k := LastRewriteIs(judge, c, n - 1);
    }
  }

  /** A claim's line on its judgements alone: there is one exactly when it is left with a text that is not empty; and it
      is that text, marked as uncertain exactly when some passage was flagged. */
  lemma LineMeaning(draft: Draft, count: nat, judge: Judge, c: nat) returns (base: Option<string>)
    ensures var n := |Resolved(draft.indices, count)|;
            && BaseText(draft.text, judge, c, n, base)
            && ClaimLine(draft, count, judge, c) ==
                 if base == None || base == Some("") then None
                 else if exists k :: 0 <= k < n && judge(c, k).verdict == Flag then Some(base.value + " [uncertain]")
                 else base
  {
    var n := |Resolved(draft.indices, count)|;
    base := FateOf(draft.text, judge, c, n).accepted;
    BaseIsAccepted(draft.text, judge, c, n);
    FlaggedExactly(draft.text, judge, c, n);
  }

  /** Resolving indices keeps those in range, in order, and drops the others wherever they stand. */
  lemma {:induction false} ResolvedMeaning(a: seq<int>, b: seq<int>, count: nat)
    ensures Resolved(a + b, count) == Resolved(a, count) + Resolved(b, count)
    ensures |b| == 1 ==> Resolved(b, count) == if b[0] >= 0 && b[0] < count then [b[0]] else []
  {
    if b == [] {
      assert a + b == a;
    } else {
      var n := |b| - 1;
      ResolvedMeaning(a, b[..n], count);
      assert (a + b)[..|a + b| - 1] == a + b[..n] && (a + b)[|a + b| - 1] == b[n];
      if n == 0 { assert b[..0] == [] && Resolved([], count) == []; }
    }
  }

  /** A claim all of whose passages were judged REMOVE is in no report, flagged or not. */
  lemma RemovedNeverReported(draft: Draft, count: nat, judge: Judge, c: nat)
    requires forall k :: 0 <= k < |Resolved(draft.indices, count)| ==> judge(c, k).verdict.Remove?
    ensures ClaimLine(draft, count, judge, c) == None
  {
    FateMeaning(draft.text, judge, c, |Resolved(draft.indices, count)|);
  }

  function Survivors(drafts: seq<Draft>, count: nat, judge: Judge): (r: seq<nat>)
    ensures forall i :: 0 <= i < |r| ==> r[i] < |drafts|
  {
    if drafts == [] then []
    else
      var c := |drafts| - 1;
      Survivors(drafts[..c], count, judge) + if ClaimLine(drafts[c], count, judge, c).Some? then [c] else []
  }

  lemma {:induction false} SurvivorsInOrder(drafts: seq<Draft>, count: nat, judge: Judge)
    ensures Increasing(Survivors(drafts, count, judge))
  {
    hide ClaimLine;
    if drafts != [] { SurvivorsInOrder(drafts[..|drafts| - 1], count, judge); }
  }

  lemma {:induction false} SurvivorsExactly(drafts: seq<Draft>, count: nat, judge: Judge, c: nat)
    requires c < |drafts|
    ensures c in Survivors(drafts, count, judge) <==> ClaimLine(drafts[c], count, judge, c).Some?
  {
    hide ClaimLine;
    var n := |drafts| - 1;
    if c < n {
      SurvivorsExactly(drafts[..n], count, judge, c);
    } else {
      assert c !in Survivors(drafts[..n], count, judge);
    }
  }

  ghost predicate LinesOf(drafts: seq<Draft>, count: nat, judge: Judge, s: seq<nat>, lines: seq<string>) {
    && |lines| == |s|
    && forall i :: 0 <= i < |s| ==> s[i] < |drafts| && ClaimLine(drafts[s[i]], count, judge, s[i]) == Some(lines[i])
  }

  lemma {:induction false} LinesAt(drafts: seq<Draft>, count: nat, judge: Judge)
    ensures LinesOf(drafts, count, judge, Survivors(drafts, count, judge), ReportLines(drafts, count, judge))
  {
    hide ClaimLine;
    if drafts != [] {
      var c := |drafts| - 1;
      LinesAt(drafts[..c], count, judge);
      forall i | 0 <= i < c ensures drafts[..c][i] == drafts[i] {}
    }
  }

  /** The report's lines are those of exactly the claims that survive, in draft order. */
  lemma ReportedExactly(drafts: seq<Draft>, count: nat, judge: Judge)
    ensures var s, lines := Survivors(drafts, count, judge), ReportLines(drafts, count, judge);
            && |lines| == |s|
            && (forall i, j :: 0 <= i < j < |s| ==> s[i] < s[j])
            && (forall i :: 0 <= i < |s| ==> ClaimLine(drafts[s[i]], count, judge, s[i]) == Some(lines[i]))
            && (forall c :: 0 <= c < |drafts| ==> (c in s <==> ClaimLine(drafts[c], count, judge, c).Some?))
  {
    hide ClaimLine, Survivors, ReportLines;
    SurvivorsInOrder(drafts, count, judge);
    LinesAt(drafts, count, judge);
    forall c | 0 <= c < |drafts| ensures c in Survivors(drafts, count, judge) <==> ClaimLine(drafts[c], count, judge, c).Some? {
      SurvivorsExactly(drafts, count, judge, c);
    }
  }

  // ---- Rows -------------------------------------------------------------------------------------

  ghost predicate Has(placed: seq<Placement>, index: int) {
    exists t :: 0 <= t < |placed| && placed[t].index == index
  }

  /** Where the first pair filed under `index` was judged. */
  ghost function FirstPosition(placed: seq<Placement>, index: int): nat {
    if placed == [] then 0
    else
      var n := |placed| - 1;
      if Has(placed[..n], index) then FirstPosition(placed[..n], index) else placed[n].position
  }

  ghost predicate PlacedOk(g: Gate, job: nat, verified: seq<Verified>, p: Placement) {
    && p.index in g.cache && p.item == g.cache[p.index]
    && p.position < |verified| && FirstPosition(g.placed, p.index) < |verified|
    && p.item < |g.rows| && g.rows[p.item] == EvidenceRowFor(job, verified[FirstPosition(g.placed, p.index)])
    && 0 < p.citation < |g.rows| && g.rows[p.citation - 1] == LinkRow(p.claim, p.item)
    && g.rows[p.citation] == CitationRow(p.claim, p.item, verified[p.position].source.payload.documentId, p.judgement)
    && p.claim < |g.rows| && g.rows[p.claim].ClaimRow?
  }

  /** The evidence chain while claims are filed. */
  ghost predicate Filed(g: Gate, job: nat, verified: seq<Verified>) {
    && job < |g.rows| && g.rows[job].JobRow?
    && (forall i :: i in g.cache ==> g.cache[i] < |g.rows| && g.rows[g.cache[i]].EvidenceRow? && Has(g.placed, i))
    && (forall i, j :: i in g.cache && j in g.cache && i != j ==> g.cache[i] != g.cache[j])
    && (forall t :: 0 <= t < |g.placed| ==> PlacedOk(g, job, verified, g.placed[t]))
  }

  ghost predicate ParentsFirst(rows: seq<Row>, from: nat) {
    forall i :: from <= i < |rows| ==> ParentsPresent(rows[..i], rows[i])
  }

  lemma FirstPositionGrows(placed: seq<Placement>, p: Placement, index: int)
    requires Has(placed, index) || p.index == index
    ensures FirstPosition(placed + [p], index) == if Has(placed, index) then FirstPosition(placed, index) else p.position
    ensures Has(placed + [p], index)
  {
    assert (placed + [p])[..|placed|] == placed;
    assert (placed + [p])[|placed|] == p;
    if Has(placed, index) {
      var t :| 0 <= t < |placed| && placed[t].index == index;
      assert (placed + [p])[t].index == index;
    }
  }

  lemma AddPairFiled(g: Gate, job: nat, claim: nat, index: int, position: nat, verified: seq<Verified>, j: Judgement)
    requires Filed(g, job, verified) && position < |verified|
    requires claim < |g.rows| && g.rows[claim].ClaimRow?
    ensures var after := AddPair(g, job, claim, index, position, verified[position], j);
            Filed(after, job, verified) && g.rows <= after.rows
  {
    hide FirstPosition, Has;
    var after := AddPair(g, job, claim, index, position, verified[position], j);
    var p := after.placed[|g.placed|];
    assert after.placed == g.placed + [p];
    forall i | Has(g.placed, i) || i == index
      ensures Has(after.placed, i)
      ensures FirstPosition(after.placed, i) == if Has(g.placed, i) then FirstPosition(g.placed, i) else position
    {
      FirstPositionGrows(g.placed, p, i);
    }
    IndexKnown(g, job, verified, index);
    forall t | 0 <= t < |after.placed| ensures PlacedOk(after, job, verified, after.placed[t]) {
      if t < |g.placed| {
        assert PlacedOk(g, job, verified, g.placed[t]) && after.placed[t] == g.placed[t];
        PlacedIsThere(g.placed, t);
      }
    }
  }

  lemma PlacedIsThere(placed: seq<Placement>, t: nat)
    requires t < |placed|
    ensures Has(placed, placed[t].index)
  {
  }

  /** An index is cached exactly when a pair was filed under it, and its row is that of the first one. */
  lemma IndexKnown(g: Gate, job: nat, verified: seq<Verified>, index: int)
    requires Filed(g, job, verified)
    ensures Has(g.placed, index) <==> index in g.cache
    ensures index in g.cache ==>
              && FirstPosition(g.placed, index) < |verified| && g.cache[index] < |g.rows|
              && g.rows[g.cache[index]] == EvidenceRowFor(job, verified[FirstPosition(g.placed, index)])
  {
    hide FirstPosition;
    forall u | 0 <= u < |g.placed| && g.placed[u].index == index ensures PlacedOk(g, job, verified, g.placed[u]) {}
  }

  lemma AddPairParents(g: Gate, job: nat, claim: nat, index: int, position: nat, ve: Verified, j: Judgement, from: nat)
    requires ParentsFirst(g.rows, from) && job < |g.rows| && g.rows[job].JobRow?
    requires claim < |g.rows| && g.rows[claim].ClaimRow?
    requires index in g.cache ==> g.cache[index] < |g.rows| && g.rows[g.cache[index]].EvidenceRow?
    ensures ParentsFirst(AddPair(g, job, claim, index, position, ve, j).rows, from)
  {
    var after := AddPair(g, job, claim, index, position, ve, j);
    forall i | from <= i < |after.rows| ensures ParentsPresent(after.rows[..i], after.rows[i]) {
      if i < |g.rows| { assert after.rows[..i] == g.rows[..i]; }
    }
  }

  lemma {:induction false} AddPairsFiled(g: Gate, job: nat, claim: nat, indices: seq<int>, verified: seq<Verified>,
                                         judge: Judge, c: nat, n: nat, from: nat)
    requires n <= |Resolved(indices, |verified|)|
    requires Filed(g, job, verified) && ParentsFirst(g.rows, from)
    requires claim < |g.rows| && g.rows[claim].ClaimRow?
    ensures var after := AddPairs(g, job, claim, indices, verified, judge, c, n);
            Filed(after, job, verified) && ParentsFirst(after.rows, from) && g.rows <= after.rows
  {
    hide AddPair, PlacedOk, ParentsFirst;
    if n > 0 {
      AddPairsFiled(g, job, claim, indices, verified, judge, c, n - 1, from);
      var before, position := AddPairs(g, job, claim, indices, verified, judge, c, n - 1), Resolved(indices, |verified|)[n - 1];
      AddPairFiled(before, job, claim, indices[n - 1], position, verified, judge(c, n - 1));
      AddPairParents(before, job, claim, indices[n - 1], position, verified[position], judge(c, n - 1), from);
    }
  }

  lemma NewClaimFiled(g: Gate, job: nat, text: string, verified: seq<Verified>, from: nat)
    requires Filed(g, job, verified) && ParentsFirst(g.rows, from)
    ensures var after := g.(rows := g.rows + [ClaimRow(job, text)]);
            Filed(after, job, verified) && ParentsFirst(after.rows, from) && g.rows <= after.rows
  {
    var after := g.(rows := g.rows + [ClaimRow(job, text)]);
    forall t | 0 <= t < |after.placed| ensures PlacedOk(after, job, verified, after.placed[t]) {
      assert PlacedOk(g, job, verified, g.placed[t]);
    }
    forall i | from <= i < |after.rows| ensures ParentsPresent(after.rows[..i], after.rows[i]) {
      if i < |g.rows| { assert after.rows[..i] == g.rows[..i]; } else { assert after.rows[..i] == g.rows; }
    }
  }

  lemma {:induction false} AddClaimsFiled(g: Gate, job: nat, drafts: seq<Draft>, verified: seq<Verified>, judge: Judge, from: nat)
    requires Filed(g, job, verified) && ParentsFirst(g.rows, from)
    ensures var after := AddClaims(g, job, drafts, verified, judge);
            Filed(after, job, verified) && ParentsFirst(after.rows, from) && g.rows <= after.rows
  {
    if drafts != [] {
      var c := |drafts| - 1;
      AddClaimsFiled(g, job, drafts[..c], verified, judge, from);
      var before := AddClaims(g, job, drafts[..c], verified, judge);
      var n := |Resolved(drafts[c].indices, |verified|)|;
      if n > 0 {
        NewClaimFiled(before, job, drafts[c].text, verified, from);
        AddPairsFiled(before.(rows := before.rows + [ClaimRow(job, drafts[c].text)]), job, |before.rows|,
                      drafts[c].indices, verified, judge, c, n, from);
      }
    }
  }

  /** The gate after all claims of one run, started on a session whose rows are `rows`. */
  function Run(rows: seq<Row>, job: nat, drafts: seq<Draft>, verified: seq<Verified>, judge: Judge): Gate {
    AddClaims(StartGate(rows), job, drafts, verified, judge)
  }

  /** Every row's parents exist when it is added, nothing stored before changes, each index has at most
      one evidence row, and no two indices share one. */
  lemma ChainWellFormed(rows: seq<Row>, job: nat, drafts: seq<Draft>, verified: seq<Verified>, judge: Judge)
    requires job < |rows| && rows[job].JobRow?
    ensures var g := Run(rows, job, drafts, verified, judge);
            && rows <= g.rows
            && ParentsFirst(g.rows, |rows|)
            && (forall t :: 0 <= t < |g.placed| ==> PlacedOk(g, job, verified, g.placed[t]))
            && (forall t, u :: 0 <= t < u < |g.placed| ==>
                  (g.placed[t].item == g.placed[u].item <==> g.placed[t].index == g.placed[u].index))
  {
    AddClaimsFiled(StartGate(rows), job, drafts, verified, judge, |rows|);
    var g := Run(rows, job, drafts, verified, judge);
    forall t, u | 0 <= t < u < |g.placed|
      ensures g.placed[t].item == g.placed[u].item <==> g.placed[t].index == g.placed[u].index
    {
      assert PlacedOk(g, job, verified, g.placed[t]) && PlacedOk(g, job, verified, g.placed[u]);
    }
  }

  // ---- Claim rows -------------------------------------------------------------------------------

  function ClaimTexts(rows: seq<Row>): seq<string> {
    if rows == [] then []
    else
      var n := |rows| - 1;
      ClaimTexts(rows[..n]) + if rows[n].ClaimRow? then [rows[n].text] else []
  }

  /** The drafts with at least one index in range. */
  function ResolvableTexts(drafts: seq<Draft>, count: nat): seq<string> {
    if drafts == [] then []
    else
      var c := |drafts| - 1;
      ResolvableTexts(drafts[..c], count) + if Resolved(drafts[c].indices, count) == [] then [] else [drafts[c].text]
  }

  lemma ClaimTextsSnoc(rows: seq<Row>, row: Row)
    ensures ClaimTexts(rows + [row]) == ClaimTexts(rows) + if row.ClaimRow? then [row.text] else []
  {
    assert (rows + [row])[..|rows|] == rows;
  }

  lemma PairAddsNoClaim(g: Gate, job: nat, claim: nat, index: int, position: nat, ve: Verified, j: Judgement)
    ensures ClaimTexts(AddPair(g, job, claim, index, position, ve, j).rows) == ClaimTexts(g.rows)
  {
    hide ClaimTexts;
    var after := AddPair(g, job, claim, index, position, ve, j);
    var rows := if index in g.cache then g.rows else g.rows + [EvidenceRowFor(job, ve)];
    var link, citation := LinkRow(claim, after.cache[index]), CitationRow(claim, after.cache[index], ve.source.payload.documentId, j);
    ClaimTextsSnoc(g.rows, EvidenceRowFor(job, ve));
    ClaimTextsSnoc(rows, link);
    ClaimTextsSnoc(rows + [link], citation);
    assert after.rows == rows + [link] + [citation];
  }

  lemma {:induction false} PairsAddNoClaim(g: Gate, job: nat, claim: nat, indices: seq<int>, verified: seq<Verified>,
                                           judge: Judge, c: nat, n: nat)
    requires n <= |Resolved(indices, |verified|)|
    ensures ClaimTexts(AddPairs(g, job, claim, indices, verified, judge, c, n).rows) == ClaimTexts(g.rows)
  {
    hide AddPair, ClaimTexts;
    if n > 0 {
      PairsAddNoClaim(g, job, claim, indices, verified, judge, c, n - 1);
      var position := Resolved(indices, |verified|)[n - 1];
      PairAddsNoClaim(AddPairs(g, job, claim, indices, verified, judge, c, n - 1), job, claim, indices[n - 1], position,
                      verified[position], judge(c, n - 1));
    }
  }

  /** A claim row is added for exactly the drafts with an index in range, in draft order, with their text. */
  lemma {:induction false} ClaimRowsExactly(rows: seq<Row>, job: nat, drafts: seq<Draft>, verified: seq<Verified>, judge: Judge)
    ensures ClaimTexts(Run(rows, job, drafts, verified, judge).rows) == ClaimTexts(rows) + ResolvableTexts(drafts, |verified|)
  {
    hide ClaimTexts, AddPairs;
    if drafts != [] {
      var c := |drafts| - 1;
      ClaimRowsExactly(rows, job, drafts[..c], verified, judge);
      var before := Run(rows, job, drafts[..c], verified, judge);
      ClaimTextsSnoc(before.rows, ClaimRow(job, drafts[c].text));
      PairsAddNoClaim(before.(rows := before.rows + [ClaimRow(job, drafts[c].text)]), job, |before.rows|, drafts[c].indices,
                      verified, judge, c, |Resolved(drafts[c].indices, |verified|)|);
    } else {
      assert ClaimTexts(rows) + [] == ClaimTexts(rows);
    }
  }
}
