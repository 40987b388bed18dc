/** When the evidence row behind a citation holds the passage that was judged
    (tradegraph/src/graph/pipeline.py:271-319). The source zips a claim's indices, out-of-range ones
    included, with the evidence of the in-range ones only, so an index out of range shifts the pairing. */
module RowAgreement {
  import opened Helpers
  import opened Evidence
  import opened ClaimGate
  import opened EvidenceChain
  import opened StoredRows

  /** One pair of the zip: the claim's number, the index it is filed under, the position it was judged on,
      and which of the claim's pairs it is. */
  datatype Pairing = Pairing(claim: nat, index: int, position: nat, turn: nat)

  function Zipped(indices: seq<int>, count: nat, c: nat): seq<Pairing> {
    var r := Resolved(indices, count);
    seq(|r|, k requires 0 <= k < |r| => Pairing(c, indices[k], r[k], k))
  }

  function Pairings(drafts: seq<Draft>, count: nat): seq<Pairing> {
    if drafts == [] then []
    else Pairings(drafts[..|drafts| - 1], count) + Zipped(drafts[|drafts| - 1].indices, count, |drafts| - 1)
  }

  /** A pair filed with the judgement of its own turn. */
  predicate FiledAs(p: Placement, pairing: Pairing, judge: Judge) {
    p.index == pairing.index && p.position == pairing.position && p.judgement == judge(pairing.claim, pairing.turn)
  }

  /** The placements of one claim's pairs. */
  ghost predicate Block(block: seq<Placement>, claim: nat, zipped: seq<Pairing>, judge: Judge) {
    && |block| == |zipped|
    && forall k :: 0 <= k < |block| ==> block[k].claim == claim && FiledAs(block[k], zipped[k], judge)
  }

  lemma {:induction false} AddPairsPlaced(g: Gate, job: nat, claim: nat, indices: seq<int>, verified: seq<Verified>,
                                          judge: Judge, c: nat, n: nat) returns (block: seq<Placement>)
    requires n <= |Resolved(indices, |verified|)|
    ensures AddPairs(g, job, claim, indices, verified, judge, c, n).placed == g.placed + block
    ensures Block(block, claim, Zipped(indices, |verified|, c)[..n], judge)
  {
    if n == 0 {
      block := [];
    } else {
      var before := AddPairsPlaced(g, job, claim, indices, verified, judge, c, n - 1);
      var placed := AddPairs(g, job, claim, indices, verified, judge, c, n).placed;
      block := before + [placed[|placed| - 1]];
      assert Zipped(indices, |verified|, c)[..n] == Zipped(indices, |verified|, c)[..n - 1] + [Zipped(indices, |verified|, c)[n - 1]];
    }
  }

  /** The pairs that were filed are exactly the pairings of the drafts, each with the judgement of its turn,
      and two of them share a claim row exactly when they belong to the same draft. */
  ghost predicate Matches(placed: seq<Placement>, pairings: seq<Pairing>, judge: Judge) {
    && |placed| == |pairings|
    && (forall t :: 0 <= t < |placed| ==> FiledAs(placed[t], pairings[t], judge))
    && (forall t, u :: 0 <= t < u < |placed| ==>
          (placed[t].claim == placed[u].claim <==> pairings[t].claim == pairings[u].claim))
  }

  lemma {:induction false} PairingsBelow(drafts: seq<Draft>, count: nat, t: nat)
    requires t < |Pairings(drafts, count)|
    ensures Pairings(drafts, count)[t].claim < |drafts|
  {
    var before := drafts[..|drafts| - 1];
    if t < |Pairings(before, count)| { PairingsBelow(before, count, t); }
  }

  lemma {:induction false} PlacedMatches(rows: seq<Row>, job: nat, drafts: seq<Draft>, verified: seq<Verified>, judge: Judge)
    requires job < |rows| && rows[job].JobRow?
    ensures Matches(Run(rows, job, drafts, verified, judge).placed, Pairings(drafts, |verified|), judge)
  {
    if drafts != [] {
      var c := |drafts| - 1;
      PlacedMatches(rows, job, drafts[..c], verified, judge);
      OneMoreDraft(rows, job, drafts, verified, judge);
    }
  }

  lemma OneMoreDraft(rows: seq<Row>, job: nat, drafts: seq<Draft>, verified: seq<Verified>, judge: Judge)
    requires job < |rows| && rows[job].JobRow? && drafts != []
    requires Matches(Run(rows, job, drafts[..|drafts| - 1], verified, judge).placed, Pairings(drafts[..|drafts| - 1], |verified|), judge)
    ensures Matches(Run(rows, job, drafts, verified, judge).placed, Pairings(drafts, |verified|), judge)
  {
    hide *;
    var c := |drafts| - 1;
    var before := Run(rows, job, drafts[..c], verified, judge);
    var zipped := Zipped(drafts[c].indices, |verified|, c);
    ZippedMeaning(drafts[c].indices, |verified|, c);
    EarlierClaims(rows, job, drafts[..c], verified, judge);
    var block := LastDraftPlaced(rows, job, drafts, verified, judge);
    PairingsLast(drafts, |verified|);
    MatchesAppend(before.placed, Pairings(drafts[..c], |verified|), block, zipped, |before.rows|, c, judge);
  }

  lemma PairingsLast(drafts: seq<Draft>, count: nat)
    requires drafts != []
    ensures var c := |drafts| - 1;
            Pairings(drafts, count) == Pairings(drafts[..c], count) + Zipped(drafts[c].indices, count, c)
  {
  }

  lemma LastDraftPlaced(rows: seq<Row>, job: nat, drafts: seq<Draft>, verified: seq<Verified>, judge: Judge)
    returns (block: seq<Placement>)
    requires drafts != []
    ensures var c := |drafts| - 1;
            var before := Run(rows, job, drafts[..c], verified, judge);
            && Run(rows, job, drafts, verified, judge).placed == before.placed + block
            && Block(block, |before.rows|, Zipped(drafts[c].indices, |verified|, c), judge)
  {
    hide AddPairs;
    var c := |drafts| - 1;
    var before := Run(rows, job, drafts[..c], verified, judge);
    var zipped := Zipped(drafts[c].indices, |verified|, c);
    if zipped == [] {
      block := [];
    } else {
      var entry := before.(rows := before.rows + [ClaimRow(job, drafts[c].text)]);
      block := AddPairsPlaced(entry, job, |before.rows|, drafts[c].indices, verified, judge, c, |zipped|);
      assert zipped[..|zipped|] == zipped;
    }
  }

  lemma ZippedMeaning(indices: seq<int>, count: nat, c: nat)
    ensures |Zipped(indices, count, c)| == |Resolved(indices, count)|
    ensures forall k :: 0 <= k < |Zipped(indices, count, c)| ==> Zipped(indices, count, c)[k].claim == c
  {
  }

  lemma EarlierClaims(rows: seq<Row>, job: nat, drafts: seq<Draft>, verified: seq<Verified>, judge: Judge)
    requires job < |rows| && rows[job].JobRow?
    ensures var g := Run(rows, job, drafts, verified, judge);
            forall t :: 0 <= t < |g.placed| ==> g.placed[t].claim < |g.rows|
    ensures forall t :: 0 <= t < |Pairings(drafts, |verified|)| ==> Pairings(drafts, |verified|)[t].claim < |drafts|
  {
    ChainWellFormed(rows, job, drafts, verified, judge);
    forall t | 0 <= t < |Pairings(drafts, |verified|)| ensures Pairings(drafts, |verified|)[t].claim < |drafts| {
      PairingsBelow(drafts, |verified|, t);
    }
  }

  lemma MatchesAppend(placed: seq<Placement>, pairings: seq<Pairing>, block: seq<Placement>, zipped: seq<Pairing>, row: nat, c: nat,
                      judge: Judge)
    requires Matches(placed, pairings, judge) && Block(block, row, zipped, judge)
    requires forall t :: 0 <= t < |placed| ==> placed[t].claim < row
    requires forall t :: 0 <= t < |pairings| ==> pairings[t].claim < c
    requires forall k :: 0 <= k < |zipped| ==> zipped[k].claim == c
    ensures Matches(placed + block, pairings + zipped, judge)
  {
  }

  // ---- Agreement --------------------------------------------------------------------------------

  /** The stored citations are those of the pairings, in order: row for row the verdict of the pairing's own
      turn and the document of the passage that was judged in it. */
  lemma CitationOfPairing(rows: seq<Row>, job: nat, drafts: seq<Draft>, verified: seq<Verified>, judge: Judge)
    requires job < |rows| && rows[job].JobRow?
    ensures var g, pairings := Run(rows, job, drafts, verified, judge), Pairings(drafts, |verified|);
            var citations := At(g.rows, |rows|, Citation);
            && |citations| == |pairings| == |g.placed|
            && forall t :: 0 <= t < |citations| ==>
                 && pairings[t].position < |verified| && g.rows[citations[t]].CitationRow?
                 && g.rows[citations[t]].documentId == verified[pairings[t].position].source.payload.documentId
                 && g.rows[citations[t]].judgement == judge(pairings[t].claim, pairings[t].turn)
                 && g.rows[citations[t]].item == g.placed[t].item && g.rows[citations[t]].claim == g.placed[t].claim
  {
    hide Run, At, Pairings;
    PlacedMatches(rows, job, drafts, verified, judge);
    CitationRowsExactly(rows, job, drafts, verified, judge);
  }

  /** The row belongs to the job and holds the evidence's chunk, passage and summary. */
  ghost predicate Holds(row: Row, job: nat, ve: Verified) {
    && row.EvidenceRow? && row.job == job && row.chunkId == ve.source.payload.chunkId
    && row.passage == ve.evidence.supportingText && row.summary == ve.evidence.summary
  }

  lemma HoldsExactly(row: Row, job: nat, ve: Verified)
    ensures Holds(row, job, ve) <==> row == EvidenceRowFor(job, ve)
  {
  }

  /** Every stored citation's evidence row holds exactly the chunk, passage and summary of the evidence whose
      passage was judged for it. */
  ghost predicate Agreement(stored: seq<Row>, from: nat, pairings: seq<Pairing>, job: nat, verified: seq<Verified>) {
    var citations := At(stored, from, Citation);
    && |citations| == |pairings|
    && forall t :: 0 <= t < |citations| ==>
         && pairings[t].position < |verified| && stored[citations[t]].item < |stored|
         && Holds(stored[stored[citations[t]].item], job, verified[pairings[t].position])
  }

  /** No index is paired with two positions whose evidence rows would differ. */
  ghost predicate SameRows(pairings: seq<Pairing>, job: nat, verified: seq<Verified>) {
    forall t, u ::
      (&& 0 <= t < u < |pairings| && pairings[t].index == pairings[u].index
       && pairings[t].position < |verified| && pairings[u].position < |verified|)
      ==> EvidenceRowFor(job, verified[pairings[t].position]) == EvidenceRowFor(job, verified[pairings[u].position])
  }

  ghost predicate AllInRange(drafts: seq<Draft>, count: nat) {
    forall c, k :: 0 <= c < |drafts| && 0 <= k < |drafts[c].indices| ==> 0 <= drafts[c].indices[k] < count
  }

  lemma {:induction false} ResolvedInRange(indices: seq<int>, count: nat)
    requires forall k :: 0 <= k < |indices| ==> 0 <= indices[k] < count
    ensures Resolved(indices, count) == indices
  {
    if indices != [] {
      ResolvedInRange(indices[..|indices| - 1], count);
      assert indices[..|indices| - 1] + [indices[|indices| - 1]] == indices;
    }
  }

  lemma {:induction false} InRangePairings(drafts: seq<Draft>, count: nat)
    requires AllInRange(drafts, count)
    ensures forall t :: 0 <= t < |Pairings(drafts, count)| ==>
              Pairings(drafts, count)[t].index == Pairings(drafts, count)[t].position
  {
    if drafts != [] {
      var c := |drafts| - 1;
      assert forall d :: 0 <= d < c ==> drafts[..c][d] == drafts[d];
      InRangePairings(drafts[..c], count);
      ResolvedInRange(drafts[c].indices, count);
    }
  }

  lemma {:induction false} FirstPositionIs(placed: seq<Placement>, index: int) returns (first: nat)
    requires Has(placed, index)
    ensures first < |placed| && placed[first].index == index && placed[first].position == FirstPosition(placed, index)
    ensures forall u :: 0 <= u < first ==> placed[u].index != index
  {
    var n := |placed| - 1;
    if Has(placed[..n], index) {
      first := FirstPositionIs(placed[..n], index);
    } else {
      first := n;
      forall u | 0 <= u < n ensures placed[u].index != index { assert placed[..n][u] == placed[u]; }
    }
  }

  /** The evidence row behind citation `t` is that of the first pairing under the same index. */
  lemma RowOfFirst(rows: seq<Row>, job: nat, drafts: seq<Draft>, verified: seq<Verified>, judge: Judge, t: nat)
    returns (first: nat)
    requires job < |rows| && rows[job].JobRow? && t < |Pairings(drafts, |verified|)|
    ensures var g, pairings := Run(rows, job, drafts, verified, judge), Pairings(drafts, |verified|);
            && |g.placed| == |pairings| && first <= t && pairings[first].index == pairings[t].index
            && pairings[first].position < |verified| && pairings[t].position < |verified| && g.placed[t].item < |g.rows|
            && g.rows[g.placed[t].item] == EvidenceRowFor(job, verified[pairings[first].position])
  {
    hide Run, Pairings, FirstPosition;
    ChainWellFormed(rows, job, drafts, verified, judge);
    PlacedMatches(rows, job, drafts, verified, judge);
    var g := Run(rows, job, drafts, verified, judge);
    assert PlacedOk(g, job, verified, g.placed[t]);
    assert Has(g.placed, g.placed[t].index);
    first := FirstPositionIs(g.placed, g.placed[t].index);
    assert PlacedOk(g, job, verified, g.placed[first]);
  }

  /** Exactly when stored rows agree, for all evidence: when no index is paired with two positions whose
      evidence rows would differ. */
  lemma AgreementExactly(rows: seq<Row>, job: nat, drafts: seq<Draft>, verified: seq<Verified>, judge: Judge)
    requires job < |rows| && rows[job].JobRow?
    ensures var pairings := Pairings(drafts, |verified|);
            var stored := Run(rows, job, drafts, verified, judge).rows;
            Agreement(stored, |rows|, pairings, job, verified) <==> SameRows(pairings, job, verified)
  {
    hide Run, Pairings, At, EvidenceRowFor, Holds;
    forall row, ve ensures Holds(row, job, ve) <==> row == EvidenceRowFor(job, ve) { HoldsExactly(row, job, ve); }
    var g, pairings := Run(rows, job, drafts, verified, judge), Pairings(drafts, |verified|);
    CitationOfPairing(rows, job, drafts, verified, judge);
    EvidenceRowsExactly(rows, job, drafts, verified, judge);
    PlacedMatches(rows, job, drafts, verified, judge);
    if SameRows(pairings, job, verified) {
      forall t | 0 <= t < |pairings|
        ensures g.placed[t].item < |g.rows| && g.rows[g.placed[t].item] == EvidenceRowFor(job, verified[pairings[t].position])
      {
        var first := RowOfFirst(rows, job, drafts, verified, judge, t);
      }
    }
  }

  /** Row agreement: with all indices of all claims in range, every stored citation rests on the row of the
      very passage that was judged for it. */
  lemma InRangeAgrees(rows: seq<Row>, job: nat, drafts: seq<Draft>, verified: seq<Verified>, judge: Judge)
    requires job < |rows| && rows[job].JobRow?
    requires AllInRange(drafts, |verified|)
    ensures Agreement(Run(rows, job, drafts, verified, judge).rows, |rows|, Pairings(drafts, |verified|), job, verified)
  {
    hide Run, Pairings, Agreement;
    InRangePairings(drafts, |verified|);
    AgreementExactly(rows, job, drafts, verified, judge);
  }

  // ---- Keys of links ----------------------------------------------------------------------------

  /** No link row is stored twice: its key is the pair of claim and evidence item. */
  ghost predicate DistinctLinks(stored: seq<Row>, from: nat) {
    forall i, j :: from <= i < j < |stored| && stored[i].LinkRow? && stored[j].LinkRow? ==> stored[i] != stored[j]
  }

  ghost predicate NoRepeat(pairings: seq<Pairing>) {
    forall t, u :: 0 <= t < u < |pairings| ==>
      !(pairings[t].claim == pairings[u].claim && pairings[t].index == pairings[u].index)
  }

  /** The stored links have distinct keys, as the database demands, exactly when no claim repeats an index
      among those its zip uses. */
  lemma LinkKeysExactly(rows: seq<Row>, job: nat, drafts: seq<Draft>, verified: seq<Verified>, judge: Judge)
    requires job < |rows| && rows[job].JobRow?
    ensures DistinctLinks(Run(rows, job, drafts, verified, judge).rows, |rows|) <==> NoRepeat(Pairings(drafts, |verified|))
  {
    hide Run, Pairings, At, Matches, DistinctLinks, NoRepeat, DistinctPairs;
    var g, pairings := Run(rows, job, drafts, verified, judge), Pairings(drafts, |verified|);
    var links := At(g.rows, |rows|, Link);
    LinksOfPairs(rows, job, drafts, verified, judge);
    AtMeaning(g.rows, |rows|, Link);
    ByPosition(g.rows, |rows|, links);
    PairByPair(g.rows, links, g.placed);
    PlacedMatches(rows, job, drafts, verified, judge);
    EvidenceRowsExactly(rows, job, drafts, verified, judge);
    ByPairing(g.placed, pairings, judge);
  }

  ghost predicate DistinctPairs(placed: seq<Placement>) {
    forall t, u :: 0 <= t < u < |placed| ==> !(placed[t].claim == placed[u].claim && placed[t].item == placed[u].item)
  }

  lemma PairByPair(stored: seq<Row>, links: seq<nat>, placed: seq<Placement>)
    requires |links| == |placed|
    requires forall t :: 0 <= t < |links| ==> links[t] < |stored| && stored[links[t]] == LinkRow(placed[t].claim, placed[t].item)
    ensures DistinctPairs(placed) <==> forall t, u :: 0 <= t < u < |links| ==> stored[links[t]] != stored[links[u]]
  {
  }

  lemma ByPairing(placed: seq<Placement>, pairings: seq<Pairing>, judge: Judge)
    requires Matches(placed, pairings, judge)
    requires forall t, u :: 0 <= t < u < |placed| ==> (placed[t].item == placed[u].item <==> placed[t].index == placed[u].index)
    ensures DistinctPairs(placed) <==> NoRepeat(pairings)
  {
    assert forall t :: 0 <= t < |placed| ==> placed[t].index == pairings[t].index;
  }

  lemma LinksOfPairs(rows: seq<Row>, job: nat, drafts: seq<Draft>, verified: seq<Verified>, judge: Judge)
    requires job < |rows| && rows[job].JobRow?
    ensures var g := Run(rows, job, drafts, verified, judge);
            var links := At(g.rows, |rows|, Link);
            && |links| == |g.placed|
            && forall t :: 0 <= t < |links| ==> g.rows[links[t]] == LinkRow(g.placed[t].claim, g.placed[t].item)
  {
    hide Run, At;
    CitationRowsExactly(rows, job, drafts, verified, judge);
  }

  lemma ByPosition(stored: seq<Row>, from: nat, links: seq<nat>)
    requires Increasing(links) && forall t :: 0 <= t < |links| ==> from <= links[t] < |stored| && stored[links[t]].LinkRow?
    requires forall i :: from <= i < |stored| && stored[i].LinkRow? ==> i in links
    ensures DistinctLinks(stored, from) <==> forall t, u :: 0 <= t < u < |links| ==> stored[links[t]] != stored[links[u]]
  {
    if forall t, u :: 0 <= t < u < |links| ==> stored[links[t]] != stored[links[u]] {
      forall i, j | from <= i < j < |stored| && stored[i].LinkRow? && stored[j].LinkRow? ensures stored[i] != stored[j] {
        var t :| 0 <= t < |links| && links[t] == i;
        var u :| 0 <= u < |links| && links[u] == j;
      }
    }
  }

  lemma RepeatedPairings()
    ensures Pairings([Draft("a", [0, 0])], 1) == [Pairing(0, 0, 0, 0), Pairing(0, 0, 0, 1)]
  {
    hide Pairings, Resolved;
    var draft := Draft("a", [0, 0]);
    assert Resolved([], 1) == [] by { ResolvedNone(1); }
    ResolvedSnoc([], 0, 1);
    ResolvedSnoc([0], 0, 1);
    assert [] + [0] == [0] && [0] + [0] == [0, 0] && [draft][..0] == [];
    PairingsLast([draft], 1);
    PairingsNone(1);
  }

  /** A claim that repeats an index: the database refuses its second link. */
  lemma RepeatedIndex(judge: Judge, only: Verified)
    ensures !DistinctLinks(Run([JobRow], 0, [Draft("a", [0, 0])], [only], judge).rows, 1)
  {
    hide Run, Pairings, DistinctLinks;
    RepeatedPairings();
    var pairings := Pairings([Draft("a", [0, 0])], 1);
    assert !NoRepeat(pairings) by { assert pairings[0].index == pairings[1].index; }
    LinkKeysExactly([JobRow], 0, [Draft("a", [0, 0])], [only], judge);
  }

  lemma PairingsNone(count: nat)
    ensures Pairings([], count) == []
  {
  }

  // ---- A shifted zip ----------------------------------------------------------------------------

  function ShiftedDrafts(): seq<Draft> { [Draft("a", [5, 0, 1]), Draft("b", [0])] }

  lemma ResolvedNone(count: nat)
    ensures Resolved([], count) == []
  {
  }

  lemma ResolvedSnoc(before: seq<int>, last: int, count: nat)
    ensures Resolved(before + [last], count) == Resolved(before, count) + if 0 <= last < count then [last] else []
  {
    assert (before + [last])[..|before|] == before;
  }

  lemma ShiftedResolved()
    ensures Resolved([5, 0, 1], 2) == [0, 1] && Resolved([0], 2) == [0]
  {
    hide Resolved;
    assert Resolved([], 2) == [] by { ResolvedNone(2); }
    ResolvedSnoc([], 5, 2);
    ResolvedSnoc([5], 0, 2);
    ResolvedSnoc([5, 0], 1, 2);
    ResolvedSnoc([], 0, 2);
    assert [] + [5] == [5] && [5] + [0] == [5, 0] && [5, 0] + [1] == [5, 0, 1] && [] + [0] == [0];
  }

  lemma ShiftedPairings()
    ensures Pairings(ShiftedDrafts(), 2) == [Pairing(0, 5, 0, 0), Pairing(0, 0, 1, 1), Pairing(1, 0, 0, 0)]
  {
    hide Resolved;
    ShiftedResolved();
    var one, two := Draft("a", [5, 0, 1]), Draft("b", [0]);
    assert Zipped(one.indices, 2, 0) == [Pairing(0, 5, 0, 0), Pairing(0, 0, 1, 1)];
    assert Zipped(two.indices, 2, 1) == [Pairing(1, 0, 0, 0)];
    assert [one, two][..1] == [one] && [one][..0] == [];
    PairingsLast([one], 2);
    PairingsLast([one, two], 2);
  }

  /** An index out of range before two good ones, then a claim on the first item: the second claim's
      citation is filed under a row that holds the other item's passage. */
  lemma ShiftedPairing(judge: Judge, first: Verified, second: Verified)
    requires EvidenceRowFor(0, first) != EvidenceRowFor(0, second)
    ensures !Agreement(Run([JobRow], 0, ShiftedDrafts(), [first, second], judge).rows, 1, Pairings(ShiftedDrafts(), 2), 0, [first, second])
  {
    hide Run, Agreement, Pairings, ShiftedDrafts, EvidenceRowFor;
    ShiftedPairings();
    assert !SameRows(Pairings(ShiftedDrafts(), 2), 0, [first, second]) by {
      var p := Pairings(ShiftedDrafts(), 2);
      assert p[1].index == p[2].index && p[1].position == 1 && p[2].position == 0;
    }
    AgreementExactly([JobRow], 0, ShiftedDrafts(), [first, second], judge);
  }
}
