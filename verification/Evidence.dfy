/** Collecting verified evidence sub-question by sub-question
    (tradegraph/src/graph/pipeline.py:173-210, 378-458). Everything a model or the retriever returns is
    an arbitrary value of its schema, gathered in one script per sub-question. */
module Evidence {
  import opened Helpers

  datatype Payload = Payload(chunkId: int, documentId: int, text: string)
  datatype Hit = Hit(pointId: int, payload: Payload)
  datatype Extracted = Extracted(passageIndex: int, supportingText: string, summary: string)
  datatype Verdict = Supports | Partial | DoesNotSupport
  datatype Decision = Decision(evidenceIndex: int, verdict: Verdict)
  datatype Pair = Pair(a: int, b: int, description: string)

  /** An evidence item that survived verification, with the hit it came from. */
  datatype Verified = Verified(evidence: Extracted, source: Hit)

  datatype SubScript = SubScript(
    question: string, hits: seq<Hit>, items: seq<Extracted>, decisions: seq<Decision>,
    pairs: seq<Pair>, gaps: seq<string>)

  /** The verdict on item `i`: the verifier may speak of it several times, and the last word counts. */
  function LastVerdict(decisions: seq<Decision>, i: int): Option<Verdict> {
    if decisions == [] then None
    else
      var d := decisions[|decisions| - 1];
      if d.evidenceIndex == i then Some(d.verdict) else LastVerdict(decisions[..|decisions| - 1], i)
  }

  predicate Qualifies(s: SubScript, i: nat)
    requires i < |s.items|
  {
    && LastVerdict(s.decisions, i) in {Some(Supports), Some(Partial)}
    && 0 <= s.items[i].passageIndex < |s.hits|
  }

  /** The qualifying ones of the first `n` extracted items, in order. */
  function KeptIndices(s: SubScript, n: nat): (r: seq<nat>)
    requires n <= |s.items|
    ensures forall k :: 0 <= k < |r| ==> r[k] < n && Qualifies(s, r[k])
  {
    if n == 0 then []
    else KeptIndices(s, n - 1) + if Qualifies(s, n - 1) then [n - 1] else []
  }

  function Kept(s: SubScript): (r: seq<Verified>) {
    var indices := KeptIndices(s, |s.items|);
    seq(|indices|, k requires 0 <= k < |indices| =>
      Verified(s.items[indices[k]], s.hits[s.items[indices[k]].passageIndex]))
  }

  function Shifted(pairs: seq<Pair>, offset: nat): (r: seq<Pair>) {
    seq(|pairs|, i requires 0 <= i < |pairs| => Pair(pairs[i].a + offset, pairs[i].b + offset, pairs[i].description))
  }

  /** What one sub-question contributes besides its evidence. */
  function Contradictions(s: SubScript, offset: nat): seq<Pair> {
    if Kept(s) == [] then [] else Shifted(s.pairs, offset)
  }

  function Gaps(s: SubScript): seq<string> {
    if s.hits == [] then ["No retrieved evidence for: " + s.question]
    else if s.items == [] then ["No evidence extracted for: " + s.question]
    else if Kept(s) == [] then ["No verified evidence for: " + s.question]
    else s.gaps
  }

  method ResearchSubQuestion(s: SubScript, offset: nat)
    returns (kept: seq<Verified>, gaps: seq<string>, contradictions: seq<Pair>)
    ensures kept == Kept(s) && gaps == Gaps(s) && contradictions == Contradictions(s, offset)
  {
    if s.hits == [] {
      NothingKept(s, |s.items|);
      return [], ["No retrieved evidence for: " + s.question], [];
    }
    if s.items == [] {
      return [], ["No evidence extracted for: " + s.question], [];
    }
    var verdictByIndex: map<int, Verdict> := map[];
    for d := 0 to |s.decisions|
      invariant forall i: int :: LastVerdict(s.decisions[..d], i) == if i in verdictByIndex then Some(verdictByIndex[i]) else None
    {
      assert s.decisions[..d + 1][..d] == s.decisions[..d];
      verdictByIndex := verdictByIndex[s.decisions[d].evidenceIndex := s.decisions[d].verdict];
    }
    assert s.decisions[..|s.decisions|] == s.decisions;
    kept := [];
    for i := 0 to |s.items|
      invariant |kept| == |KeptIndices(s, i)|
      invariant forall k :: 0 <= k < |kept| ==>
                  var j := KeptIndices(s, i)[k];
                  kept[k] == Verified(s.items[j], s.hits[s.items[j].passageIndex])
    {
      var item := s.items[i];
      assert LastVerdict(s.decisions, i) == if i in verdictByIndex then Some(verdictByIndex[i]) else None;
      if i in verdictByIndex && verdictByIndex[i] in {Supports, Partial} && 0 <= item.passageIndex < |s.hits| {
        kept := kept + [Verified(item, s.hits[item.passageIndex])];
      }
    }
    assert kept == Kept(s);
    if kept == [] {
      return kept, ["No verified evidence for: " + s.question], [];
    }
    gaps, contradictions := s.gaps, [];
    for p := 0 to |s.pairs|
      invariant contradictions == Shifted(s.pairs, offset)[..p]
    {
      contradictions := contradictions + [Pair(s.pairs[p].a + offset, s.pairs[p].b + offset, s.pairs[p].description)];
    }
  }

  lemma {:induction false} NothingKept(s: SubScript, n: nat)
    requires s.hits == [] && n <= |s.items|
    ensures KeptIndices(s, n) == []
  {
    if n > 0 { NothingKept(s, n - 1); }
  }

  // ---- All sub-questions ------------------------------------------------------------------------

  function AllKept(scripts: seq<SubScript>): seq<Verified> {
    if scripts == [] then [] else AllKept(scripts[..|scripts| - 1]) + Kept(scripts[|scripts| - 1])
  }

  function AllGaps(scripts: seq<SubScript>): seq<string> {
    if scripts == [] then [] else AllGaps(scripts[..|scripts| - 1]) + Gaps(scripts[|scripts| - 1])
  }

  /** Each sub-question's pairs are shifted by the evidence kept before it. */
  function AllContradictions(scripts: seq<SubScript>): seq<Pair> {
    if scripts == [] then []
    else
      var before := scripts[..|scripts| - 1];
      AllContradictions(before) + Contradictions(scripts[|scripts| - 1], |AllKept(before)|)
  }

  method Gather(scripts: seq<SubScript>)
    returns (verified: seq<Verified>, gaps: seq<string>, contradictions: seq<Pair>)
    ensures verified == AllKept(scripts) && gaps == AllGaps(scripts) && contradictions == AllContradictions(scripts)
  {
    verified, gaps, contradictions := [], [], [];
    for i := 0 to |scripts|
      invariant verified == AllKept(scripts[..i])
      invariant gaps == AllGaps(scripts[..i])
      invariant contradictions == AllContradictions(scripts[..i])
    {
      assert scripts[..i + 1][..i] == scripts[..i];
      var subVerified, subGaps, subContradictions := ResearchSubQuestion(scripts[i], |verified|);
      verified := verified + subVerified;
      gaps := gaps + subGaps;
      contradictions := contradictions + subContradictions;
    }
    assert scripts[..|scripts|] == scripts;
  }

  /** The last decision that names item `i`, and what it says. */
  ghost predicate LastWord(decisions: seq<Decision>, i: int, d: nat, verdict: Verdict) {
    && d < |decisions| && decisions[d].evidenceIndex == i && decisions[d].verdict == verdict
    && forall e :: d < e < |decisions| ==> decisions[e].evidenceIndex != i
  }

  lemma {:induction false} LastVerdictMeaning(decisions: seq<Decision>, i: int, verdict: Verdict)
    ensures LastVerdict(decisions, i) == Some(verdict) <==> exists d :: LastWord(decisions, i, d, verdict)
  {
    if decisions != [] {
      var n := |decisions| - 1;
      LastVerdictMeaning(decisions[..n], i, verdict);
      if decisions[n].evidenceIndex == i {
        assert decisions[n].verdict == verdict ==> LastWord(decisions, i, n, verdict);
      } else {
        if d :| LastWord(decisions, i, d, verdict) { assert LastWord(decisions[..n], i, d, verdict); }
        if d :| LastWord(decisions[..n], i, d, verdict) { assert LastWord(decisions, i, d, verdict); }
      }
    }
  }

  /** The kept items are an ordered subsequence of the extracted ones: exactly those of which the last decision that
      names them says SUPPORTS or PARTIAL and whose passage number is in range, each with the hit it names. */
  lemma KeptMeaning(s: SubScript)
    ensures var indices := KeptIndices(s, |s.items|);
            && |Kept(s)| == |indices|
            && (forall k, l :: 0 <= k < l < |indices| ==> indices[k] < indices[l])
            && (forall i :: 0 <= i < |s.items| ==>
                  (i in indices <==>
                    && 0 <= s.items[i].passageIndex < |s.hits|
                    && exists d :: LastWord(s.decisions, i, d, Supports) || LastWord(s.decisions, i, d, Partial)))
            && (forall k :: 0 <= k < |indices| ==>
                  && indices[k] < |s.items| && 0 <= s.items[indices[k]].passageIndex < |s.hits|
                  && Kept(s)[k].evidence == s.items[indices[k]]
                  && Kept(s)[k].source == s.hits[s.items[indices[k]].passageIndex])
  {
    hide LastVerdict, LastWord;
    KeptIndicesMeaning(s, |s.items|);
    forall i | 0 <= i < |s.items|
      ensures i in KeptIndices(s, |s.items|) <==>
                && 0 <= s.items[i].passageIndex < |s.hits|
                && exists d :: LastWord(s.decisions, i, d, Supports) || LastWord(s.decisions, i, d, Partial)
    {
      LastVerdictMeaning(s.decisions, i, Supports);
      LastVerdictMeaning(s.decisions, i, Partial);
    }
  }

  lemma {:induction false} KeptIndicesMeaning(s: SubScript, n: nat)
    requires n <= |s.items|
    ensures var r := KeptIndices(s, n);
            && (forall k, l :: 0 <= k < l < |r| ==> r[k] < r[l])
            && (forall i :: 0 <= i < n ==> (i in r <==> Qualifies(s, i)))
  {
    if n > 0 { KeptIndicesMeaning(s, n - 1); }
  }

  lemma {:induction false} KeptStays(scripts: seq<SubScript>, j: nat)
    requires j < |scripts|
    ensures AllKept(scripts[..j]) + Kept(scripts[j]) <= AllKept(scripts)
    decreases |scripts|
  {
    var n := |scripts| - 1;
    if j < n {
      KeptStays(scripts[..n], j);
      assert scripts[..n][..j] == scripts[..j];
    }
  }

  lemma {:induction false} ContradictionsStay(scripts: seq<SubScript>, j: nat)
    requires j < |scripts|
    ensures AllContradictions(scripts[..j]) + Contradictions(scripts[j], |AllKept(scripts[..j])|) <= AllContradictions(scripts)
    decreases |scripts|
  {
    hide Contradictions, Kept;
    var n := |scripts| - 1;
    if j < n {
      ContradictionsStay(scripts[..n], j);
      assert scripts[..n][..j] == scripts[..j];
    }
  }

  /** Stable references: whatever later sub-questions add, pair `p` of sub-question `j` is in the final
      list with its description, and each of its ends that named an item of its own list still names
      that very item in the combined list the synthesizer is shown. */
  lemma StableReferences(scripts: seq<SubScript>, j: nat, p: nat)
    requires j < |scripts| && Kept(scripts[j]) != [] && p < |scripts[j].pairs|
    ensures var kept, pair, all := Kept(scripts[j]), scripts[j].pairs[p], AllKept(scripts);
            var at := |AllContradictions(scripts[..j])| + p;
            && at < |AllContradictions(scripts)|
            && var final := AllContradictions(scripts)[at];
            && final.description == pair.description
            && (0 <= pair.a < |kept| ==> 0 <= final.a < |all| && all[final.a] == kept[pair.a])
            && (0 <= pair.b < |kept| ==> 0 <= final.b < |all| && all[final.b] == kept[pair.b])
  {
    hide KeptIndices, Kept, AllKept, AllContradictions;
    KeptStays(scripts, j);
    ContradictionsStay(scripts, j);
    var offset, pairs := |AllKept(scripts[..j])|, scripts[j].pairs;
    PrefixAt(AllContradictions(scripts[..j]), Contradictions(scripts[j], offset), AllContradictions(scripts), p);
    assert Contradictions(scripts[j], offset) == Shifted(pairs, offset);
    if 0 <= pairs[p].a < |Kept(scripts[j])| {
      PrefixAt(AllKept(scripts[..j]), Kept(scripts[j]), AllKept(scripts), pairs[p].a);
    }
    if 0 <= pairs[p].b < |Kept(scripts[j])| {
      PrefixAt(AllKept(scripts[..j]), Kept(scripts[j]), AllKept(scripts), pairs[p].b);
    }
  }

  lemma PrefixAt<T>(a: seq<T>, b: seq<T>, all: seq<T>, i: nat)
    requires a + b <= all && i < |b|
    ensures |a| + i < |all| && all[|a| + i] == b[i]
  {
    assert (a + b)[|a| + i] == b[i];
  }

  // ---- Gaps -------------------------------------------------------------------------------------

  /** A sub-question without kept evidence reports one gap of its own, which quotes the question, and no
      contradiction; any other hands on exactly what the model found. */
  lemma GapsMeaning(s: SubScript, offset: nat)
    ensures Kept(s) == [] ==> Contradictions(s, offset) == [] && |Gaps(s)| == 1
    ensures s.hits == [] ==> Gaps(s) == ["No retrieved evidence for: " + s.question]
    ensures s.hits != [] && s.items == [] ==> Gaps(s) == ["No evidence extracted for: " + s.question]
    ensures s.hits != [] && s.items != [] && Kept(s) == [] ==> Gaps(s) == ["No verified evidence for: " + s.question]
    ensures Kept(s) != [] ==> Gaps(s) == s.gaps && |Contradictions(s, offset)| == |s.pairs|
  {
    if s.hits == [] { NothingKept(s, |s.items|); }
  }

  /** The gaps of every sub-question are handed on, in the order of the sub-questions, and nothing else is. */
  lemma {:induction false} AllGapsMeaning(scripts: seq<SubScript>, j: nat)
    requires j <= |scripts|
    ensures AllGaps(scripts) == AllGaps(scripts[..j]) + AllGaps(scripts[j..])
    ensures |scripts| == 1 ==> AllGaps(scripts) == Gaps(scripts[0])
    decreases |scripts|
  {
    hide Gaps;
    var n := |scripts| - 1;
    if j == |scripts| {
      assert scripts[..j] == scripts && scripts[j..] == [] && AllGaps([]) == [];
      if |scripts| == 1 { assert scripts[..0] == [] && [] + Gaps(scripts[0]) == Gaps(scripts[0]); }
    } else {
      AllGapsMeaning(scripts[..n], j);
      assert scripts[..n][..j] == scripts[..j] && scripts[..n][j..] == scripts[j..][..n - j];
      assert scripts[j..][|scripts| - j - 1] == scripts[n];
      if |scripts| == 1 { assert scripts[..0] == [] && [] + Gaps(scripts[0]) == Gaps(scripts[0]); }
    }
  }
}
