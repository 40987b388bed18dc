/** Which rows the claim gate stores: no link, citation or evidence row is there that does not belong to
    exactly one filed pair or index (tradegraph/src/graph/pipeline.py:286-319). */
module StoredRows {
  import opened Helpers
  import opened Evidence
  import opened ClaimGate
  import opened EvidenceChain

  datatype Kind = Link | Citation | EvidenceItem

  predicate Is(row: Row, kind: Kind) {
    match kind
    case Link => row.LinkRow?
    case Citation => row.CitationRow?
    case EvidenceItem => row.EvidenceRow?
  }

  /** The numbers of the rows of one kind, from row `from` on, in order. */
  function At(rows: seq<Row>, from: nat, kind: Kind): (r: seq<nat>)
    ensures forall k :: 0 <= k < |r| ==> from <= r[k] < |rows| && Is(rows[r[k]], kind)
  {
    if |rows| <= from then []
    else
      var n := |rows| - 1;
      At(rows[..n], from, kind) + if Is(rows[n], kind) then [n] else []
  }

  lemma {:induction false} AtInOrder(rows: seq<Row>, from: nat, kind: Kind)
    ensures Increasing(At(rows, from, kind))
  {
    if |rows| > from { AtInOrder(rows[..|rows| - 1], from, kind); }
  }

  lemma {:induction false} AtComplete(rows: seq<Row>, from: nat, kind: Kind, i: nat)
    requires from <= i < |rows| && Is(rows[i], kind)
    ensures i in At(rows, from, kind)
  {
    if i < |rows| - 1 { AtComplete(rows[..|rows| - 1], from, kind, i); }
  }

  lemma AtSnoc(rows: seq<Row>, row: Row, from: nat, kind: Kind)
    requires from <= |rows|
    ensures At(rows + [row], from, kind) == At(rows, from, kind) + if Is(row, kind) then [|rows|] else []
  {
    assert (rows + [row])[..|rows|] == rows;
  }

  function Citations(placed: seq<Placement>): seq<nat> {
    seq(|placed|, t requires 0 <= t < |placed| => placed[t].citation)
  }

  /** The evidence rows that pairs use, each once, in order of first use. */
  function Items(placed: seq<Placement>): seq<nat> {
    if placed == [] then []
    else
      var n := |placed| - 1;
      var before := Items(placed[..n]);
      if placed[n].item in before then before else before + [placed[n].item]
  }

  lemma {:induction false} ItemsMeaning(placed: seq<Placement>, x: nat)
    ensures x in Items(placed) <==> exists t :: 0 <= t < |placed| && placed[t].item == x
  {
    if placed != [] {
      var n := |placed| - 1;
      ItemsMeaning(placed[..n], x);
      ItemsMeaning(placed[..n], placed[n].item);
      if t :| 0 <= t < |placed| && placed[t].item == x { assert t == n || placed[..n][t] == placed[t]; }
    }
  }

  /** The rows stored so far are those of the pairs filed so far. */
  ghost predicate Traced(g: Gate, from: nat) {
    && from <= |g.rows|
    && At(g.rows, from, Citation) == Citations(g.placed)
    && LinksTraced(g, from)
    && At(g.rows, from, EvidenceItem) == Items(g.placed)
    && (forall i :: i in g.cache ==> from <= g.cache[i] < |g.rows| && g.cache[i] in Items(g.placed))
  }

  ghost predicate LinksTraced(g: Gate, from: nat) {
    && |At(g.rows, from, Link)| == |g.placed|
    && forall t :: 0 <= t < |g.placed| ==> At(g.rows, from, Link)[t] + 1 == g.placed[t].citation
  }

  lemma ItemsSnoc(placed: seq<Placement>, p: Placement)
    ensures Items(placed + [p]) == Items(placed) + if p.item in Items(placed) then [] else [p.item]
    ensures Citations(placed + [p]) == Citations(placed) + [p.citation]
  {
    assert (placed + [p])[..|placed|] == placed;
  }

  /** What adding one pair does to the rows of one kind. */
  lemma PairRows(g: Gate, job: nat, claim: nat, index: int, position: nat, ve: Verified, j: Judgement, from: nat, kind: Kind)
    requires from <= |g.rows|
    ensures var after := AddPair(g, job, claim, index, position, ve, j);
            var n := if index in g.cache then |g.rows| else |g.rows| + 1;
            At(after.rows, from, kind) == At(g.rows, from, kind) +
              match kind
              case Link => [n]
              case Citation => [n + 1]
              case EvidenceItem => if index in g.cache then [] else [|g.rows|]
  {
    hide At;
    var after := AddPair(g, job, claim, index, position, ve, j);
    var row := EvidenceRowFor(job, ve);
    var rows := if index in g.cache then g.rows else g.rows + [row];
    var item := after.cache[index];
    var link, citation := LinkRow(claim, item), CitationRow(claim, item, ve.source.payload.documentId, j);
    AtSnoc(g.rows, row, from, kind);
    AtSnoc(rows, link, from, kind);
    AtSnoc(rows + [link], citation, from, kind);
    assert after.rows == rows + [link] + [citation];
  }

  lemma PairTraced(g: Gate, job: nat, claim: nat, index: int, position: nat, ve: Verified, j: Judgement, from: nat)
    requires Traced(g, from)
    ensures Traced(AddPair(g, job, claim, index, position, ve, j), from)
  {
    hide At, Items, Citations;
    var after := AddPair(g, job, claim, index, position, ve, j);
    PairRows(g, job, claim, index, position, ve, j, from, Link);
    PairRows(g, job, claim, index, position, ve, j, from, Citation);
    PairRows(g, job, claim, index, position, ve, j, from, EvidenceItem);
    var p := after.placed[|g.placed|];
    assert after.placed == g.placed + [p];
    ItemsSnoc(g.placed, p);
    ItemsBelow(g, from);
    assert Items(after.placed) == Items(g.placed) + if index in g.cache then [] else [|g.rows|];
  }

  lemma ItemsBelow(g: Gate, from: nat)
    requires Traced(g, from)
    ensures |g.rows| !in Items(g.placed)
  {
  }

  lemma {:induction false} PairsTraced(g: Gate, job: nat, claim: nat, indices: seq<int>, verified: seq<Verified>,
                                       judge: Judge, c: nat, n: nat, from: nat)
    requires n <= |Resolved(indices, |verified|)| && Traced(g, from)
    ensures Traced(AddPairs(g, job, claim, indices, verified, judge, c, n), from)
  {
    hide Traced, AddPair;
    if n > 0 {
      PairsTraced(g, job, claim, indices, verified, judge, c, n - 1, from);
      var position := Resolved(indices, |verified|)[n - 1];
      PairTraced(AddPairs(g, job, claim, indices, verified, judge, c, n - 1), job, claim, indices[n - 1], position,
                 verified[position], judge(c, n - 1), from);
    }
  }

  lemma ClaimTraced(g: Gate, job: nat, text: string, from: nat)
    requires Traced(g, from)
    ensures Traced(g.(rows := g.rows + [ClaimRow(job, text)]), from)
  {
    hide At, Items, Citations;
    var row := ClaimRow(job, text);
    AtSnoc(g.rows, row, from, Link);
    AtSnoc(g.rows, row, from, Citation);
    AtSnoc(g.rows, row, from, EvidenceItem);
  }

  lemma {:induction false} ClaimsTraced(rows: seq<Row>, job: nat, drafts: seq<Draft>, verified: seq<Verified>, judge: Judge)
    ensures Traced(Run(rows, job, drafts, verified, judge), |rows|)
  {
    hide Traced, AddPairs;
    if drafts == [] {
      NothingTraced(rows);
    } else {
      var c := |drafts| - 1;
      ClaimsTraced(rows, job, drafts[..c], verified, judge);
      var before := Run(rows, job, drafts[..c], verified, judge);
      ClaimTraced(before, job, drafts[c].text, |rows|);
      PairsTraced(before.(rows := before.rows + [ClaimRow(job, drafts[c].text)]), job, |before.rows|, drafts[c].indices,
                  verified, judge, c, |Resolved(drafts[c].indices, |verified|)|, |rows|);
    }
  }

  lemma NothingTraced(rows: seq<Row>)
    ensures Traced(StartGate(rows), |rows|)
  {
  }

  // ---- Rows and pairs ---------------------------------------------------------------------------

  /** Row `i` is the citation, and the row before it the link, of pair `t`. */
  ghost predicate RowsOfPair(g: Gate, verified: seq<Verified>, i: nat, t: nat) {
    && t < |g.placed| && 0 < i < |g.rows| && i == g.placed[t].citation && g.placed[t].position < |verified|
    && g.rows[i - 1] == LinkRow(g.placed[t].claim, g.placed[t].item)
    && g.rows[i] == CitationRow(g.placed[t].claim, g.placed[t].item,
                                verified[g.placed[t].position].source.payload.documentId, g.placed[t].judgement)
  }

  /** The stored citations are, in order, those of the filed pairs, and the stored links the rows before them: the
      `t`-th of either belongs to pair `t` and to no other. */
  lemma CitationRowsExactly(rows: seq<Row>, job: nat, drafts: seq<Draft>, verified: seq<Verified>, judge: Judge)
    requires job < |rows| && rows[job].JobRow?
    ensures var g := Run(rows, job, drafts, verified, judge);
            var citations, links := At(g.rows, |rows|, Citation), At(g.rows, |rows|, Link);
            && |citations| == |links| == |g.placed| && Increasing(citations)
            && (forall t :: 0 <= t < |citations| ==> RowsOfPair(g, verified, citations[t], t) && links[t] == citations[t] - 1)
            && (forall i :: |rows| <= i < |g.rows| && g.rows[i].CitationRow? ==> i in citations)
            && (forall i :: |rows| <= i < |g.rows| && g.rows[i].LinkRow? ==> i in links)
  {
    hide At, Run, RowsOfPair;
    var g := Run(rows, job, drafts, verified, judge);
    ClaimsTraced(rows, job, drafts, verified, judge);
    AtMeaning(g.rows, |rows|, Citation);
    AtMeaning(g.rows, |rows|, Link);
    forall t | 0 <= t < |g.placed| ensures RowsOfPair(g, verified, g.placed[t].citation, t) {
      PairIsStored(rows, job, drafts, verified, judge, t);
    }
  }

  lemma AtMeaning(rows: seq<Row>, from: nat, kind: Kind)
    ensures Increasing(At(rows, from, kind))
    ensures forall i :: from <= i < |rows| && Is(rows[i], kind) ==> i in At(rows, from, kind)
  {
    AtInOrder(rows, from, kind);
    forall i | from <= i < |rows| && Is(rows[i], kind) ensures i in At(rows, from, kind) { AtComplete(rows, from, kind, i); }
  }

  lemma PairIsStored(rows: seq<Row>, job: nat, drafts: seq<Draft>, verified: seq<Verified>, judge: Judge, t: nat)
    requires job < |rows| && rows[job].JobRow? && t < |Run(rows, job, drafts, verified, judge).placed|
    ensures var g := Run(rows, job, drafts, verified, judge); RowsOfPair(g, verified, g.placed[t].citation, t)
  {
    hide Run, FirstPosition;
    var g := Run(rows, job, drafts, verified, judge);
    ChainWellFormed(rows, job, drafts, verified, judge);
    assert PlacedOk(g, job, verified, g.placed[t]);
  }

  /** Every stored evidence row is cited, and two citations rest on one row exactly when their pairs were filed
      under one index: each index has exactly one evidence row across all claims. */
  lemma EvidenceRowsExactly(rows: seq<Row>, job: nat, drafts: seq<Draft>, verified: seq<Verified>, judge: Judge)
    requires job < |rows| && rows[job].JobRow?
    ensures var g := Run(rows, job, drafts, verified, judge);
            && (forall i :: |rows| <= i < |g.rows| && g.rows[i].EvidenceRow? ==>
                  exists t :: 0 <= t < |g.placed| && g.placed[t].item == i)
            && (forall t :: 0 <= t < |g.placed| ==> |rows| <= g.placed[t].item < |g.rows| && g.rows[g.placed[t].item].EvidenceRow?)
            && (forall t, u :: 0 <= t < u < |g.placed| ==>
                  (g.placed[t].item == g.placed[u].item <==> g.placed[t].index == g.placed[u].index))
  {
    hide At, Run, FirstPosition;
    var g := Run(rows, job, drafts, verified, judge);
    ClaimsTraced(rows, job, drafts, verified, judge);
    ChainWellFormed(rows, job, drafts, verified, judge);
    forall i | |rows| <= i < |g.rows| && g.rows[i].EvidenceRow? ensures exists t :: 0 <= t < |g.placed| && g.placed[t].item == i {
      AtComplete(g.rows, |rows|, EvidenceItem, i);
      ItemsMeaning(g.placed, i);
    }
    forall t | 0 <= t < |g.placed| ensures |rows| <= g.placed[t].item < |g.rows| && g.rows[g.placed[t].item].EvidenceRow? {
      assert PlacedOk(g, job, verified, g.placed[t]);
    }
  }
}
