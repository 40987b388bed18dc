/** Hybrid search: two retrieval arms, fusion, the candidate cut and the optional reranker
    (tradegraph/src/rag/hybrid/retriever.py). Arms are what the vector store returned. */
module Retriever {
  import opened Helpers
  import opened Ranking
  import opened Fusion
  import opened FusionBounds
  import opened FusionDepth
  import R = Reranker

  const DENSE_TOP_K: nat := 50
  const SPARSE_TOP_K: nat := 50
  const RERANK_CANDIDATE_LIMIT: nat := 40

  datatype SearchResult<P> = SearchResult(id: Key, score: real, payload: P)
  datatype Outcome<P> = Found(results: seq<SearchResult<P>>) | Raised

  function Take<T>(s: seq<T>, n: nat): seq<T> {
    if n <= |s| then s[..n] else s
  }

  function Candidates<P>(dense: seq<Hit<P>>, sparse: seq<Hit<P>>, limit: nat): seq<Fused<P>> {
    Take(Fuse([dense, sparse], RRF_K), limit)
  }

  /** Map the reranker's passage numbers back to candidates, dropping numbers out of range. */
  function MapBack<P>(candidates: seq<Fused<P>>, reply: seq<R.Ranked>): seq<SearchResult<P>> {
    if reply == [] then []
    else
      var before, r := MapBack(candidates, reply[..|reply| - 1]), reply[|reply| - 1];
      if 0 <= r.index < |candidates|
      then before + [SearchResult(candidates[r.index].id, r.score, candidates[r.index].payload)]
      else before
  }

  /** `reranker` is the service's answer to the candidates, or None when no service is set. */
  function Search<P>(dense: seq<Hit<P>>, sparse: seq<Hit<P>>, reranker: Option<R.Response>,
                     limit: nat, topN: nat): Outcome<P> {
    var fused := Fuse([dense, sparse], RRF_K);
    if reranker.None? || fused == [] then
      var top := Take(fused, topN);
      Found(seq(|top|, i requires 0 <= i < |top| => SearchResult(top[i].id, top[i].score, top[i].payload)))
    else if reranker.value.Results? then
      Found(MapBack(Candidates(dense, sparse, limit), reranker.value.results))
    else Raised
  }

  ghost predicate FromAnArm<P>(dense: seq<Hit<P>>, sparse: seq<Hit<P>>, id: Key, payload: P) {
    Hit(id, payload) in dense || Hit(id, payload) in sparse
  }

  lemma FusedFromAnArm<P>(dense: seq<Hit<P>>, sparse: seq<Hit<P>>, i: nat)
    requires i < |Fuse([dense, sparse], RRF_K)|
    ensures var f := Fuse([dense, sparse], RRF_K)[i]; FromAnArm(dense, sparse, f.id, f.payload)
  {
    FuseAt([dense, sparse], RRF_K, i);
    FlattenPair(dense, sparse);
    var id, all := FusedOrder([dense, sparse], RRF_K)[i], dense + sparse;
    assert all[IndexOf(Ids(all), id)] == Hit(id, FirstPayload(all, id));
  }

  lemma {:induction false} MapBackAt<P>(candidates: seq<Fused<P>>, reply: seq<R.Ranked>)
    ensures |MapBack(candidates, reply)| <= |reply|
    ensures forall i :: 0 <= i < |MapBack(candidates, reply)| ==>
              exists j, n :: 0 <= j < |reply| && 0 <= n < |candidates| && reply[j].index == n
                && MapBack(candidates, reply)[i] == SearchResult(candidates[n].id, reply[j].score, candidates[n].payload)
  {
    if reply != [] {
      var before := reply[..|reply| - 1];
      MapBackAt(candidates, before);
      forall i | 0 <= i < |MapBack(candidates, reply)|
        ensures exists j, n :: 0 <= j < |reply| && 0 <= n < |candidates| && reply[j].index == n
                  && MapBack(candidates, reply)[i] == SearchResult(candidates[n].id, reply[j].score, candidates[n].payload)
      {
        if i < |MapBack(candidates, before)| {
          var j, n :| 0 <= j < |before| && 0 <= n < |candidates| && before[j].index == n
            && MapBack(candidates, before)[i] == SearchResult(candidates[n].id, before[j].score, candidates[n].payload);
          assert reply[j].index == n;
        } else {
          assert reply[|reply| - 1].index == reply[|reply| - 1].index;
        }
      }
    }
  }

  ghost predicate DistinctResults<P>(results: seq<SearchResult<P>>) {
    forall i, j :: 0 <= i < j < |results| ==> results[i].id != results[j].id
  }

  ghost predicate DistinctFused<P>(f: seq<Fused<P>>) {
    forall i, j :: 0 <= i < j < |f| ==> f[i].id != f[j].id
  }

  /** Passage numbers repeat only out of range. */
  ghost predicate DistinctInRange(reply: seq<R.Ranked>, n: nat) {
    forall i, j :: 0 <= i < j < |reply| && 0 <= reply[i].index < n ==> reply[i].index != reply[j].index
  }

  /** Whatever the service answers, results carry distinct points exactly when the answer names no
      candidate twice. */
  lemma {:induction false} MapBackDistinct<P>(candidates: seq<Fused<P>>, reply: seq<R.Ranked>)
    requires DistinctFused(candidates)
    ensures DistinctResults(MapBack(candidates, reply)) <==> DistinctInRange(reply, |candidates|)
  {
    hide DistinctResults, DistinctInRange;
    if reply == [] {
      NothingRepeats<P>(|candidates|);
    } else {
      var before, r := reply[..|reply| - 1], reply[|reply| - 1];
      MapBackDistinct(candidates, before);
      var out := MapBack(candidates, before);
      assert before + [r] == reply;
      if 0 <= r.index < |candidates| {
        MapBackNames(candidates, before, r.index);
        OneMoreResult(out, SearchResult(candidates[r.index].id, r.score, candidates[r.index].payload));
        OneMoreInRange(before, r, |candidates|);
      } else {
        OutOfRange(before, r, |candidates|);
      }
    }
  }

  lemma NothingRepeats<P>(n: nat)
    ensures DistinctResults<P>([]) && DistinctInRange([], n)
  {
  }

  lemma OneMoreResult<P>(out: seq<SearchResult<P>>, r: SearchResult<P>)
    ensures DistinctResults(out + [r]) <==> DistinctResults(out) && !exists i :: 0 <= i < |out| && out[i].id == r.id
  {
    var now := out + [r];
    assert forall i :: 0 <= i < |out| ==> now[i] == out[i];
    assert now[|out|] == r;
  }

  lemma OutOfRange(before: seq<R.Ranked>, r: R.Ranked, n: nat)
    requires !(0 <= r.index < n)
    ensures DistinctInRange(before + [r], n) <==> DistinctInRange(before, n)
  {
    var reply := before + [r];
    assert forall j :: 0 <= j < |before| ==> reply[j] == before[j];
    assert reply[|before|] == r;
  }

  lemma OneMoreInRange(before: seq<R.Ranked>, r: R.Ranked, n: nat)
    requires 0 <= r.index < n
    ensures DistinctInRange(before + [r], n) <==>
              DistinctInRange(before, n) && !exists j :: 0 <= j < |before| && before[j].index == r.index
  {
    var reply := before + [r];
    assert forall j :: 0 <= j < |before| ==> reply[j] == before[j];
    assert reply[|before|] == r;
  }

  lemma {:induction false} MapBackNames<P>(candidates: seq<Fused<P>>, reply: seq<R.Ranked>, n: nat)
    requires DistinctFused(candidates) && n < |candidates|
    ensures (exists j :: 0 <= j < |reply| && reply[j].index == n)
       <==> (exists i :: 0 <= i < |MapBack(candidates, reply)| && MapBack(candidates, reply)[i].id == candidates[n].id)
  {
    if reply != [] {
      var before, r := reply[..|reply| - 1], reply[|reply| - 1];
      MapBackNames(candidates, before, n);
      var out, now := MapBack(candidates, before), MapBack(candidates, reply);
      assert now[..|out|] == out;
      if r.index == n {
        assert reply[|before|].index == n && now[|out|].id == candidates[n].id;
      } else {
        if j :| 0 <= j < |reply| && reply[j].index == n { assert before[j].index == n; }
        if i :| 0 <= i < |now| && now[i].id == candidates[n].id { assert i < |out| && out[i].id == candidates[n].id; }
        if i :| 0 <= i < |out| && out[i].id == candidates[n].id { assert now[i].id == candidates[n].id; }
      }
    }
  }

  /** One search against a reranker service driven by an arbitrary language model. */
  function SearchRun<P>(dense: seq<Hit<P>>, sparse: seq<Hit<P>>, model: R.Model, useReranker: bool,
                        limit: nat, topN: nat): Outcome<P> {
    var reply := if useReranker then Some(R.Respond(model, |Candidates(dense, sparse, limit)|, topN)) else None;
    Search(dense, sparse, reply, limit, topN)
  }

  /** End to end, whatever the language model behind the reranker says: at most top_n results, with
      distinct points, and each point's payload from an arm's hit of that point. */
  lemma SearchSound<P>(dense: seq<Hit<P>>, sparse: seq<Hit<P>>, model: R.Model, useReranker: bool,
                       limit: nat, topN: nat)
    requires SearchRun(dense, sparse, model, useReranker, limit, topN).Found?
    ensures var results := SearchRun(dense, sparse, model, useReranker, limit, topN).results;
            && |results| <= topN
            && DistinctResults(results)
            && forall i :: 0 <= i < |results| ==> FromAnArm(dense, sparse, results[i].id, results[i].payload)
  {
    hide Fuse, MapBack, FromAnArm;
    var fused, candidates := Fuse([dense, sparse], RRF_K), Candidates(dense, sparse, limit);
    FusedSound(dense, sparse);
    if useReranker && fused != [] && R.Respond(model, |candidates|, topN).Results? {
      R.GlobalScores(model, |candidates|, topN);
      MapBackSound(dense, sparse, candidates, R.Respond(model, |candidates|, topN).results);
    }
  }

  lemma {:induction false} MapBackInRange<P>(candidates: seq<Fused<P>>, reply: seq<R.Ranked>)
    requires forall j :: 0 <= j < |reply| ==> 0 <= reply[j].index < |candidates|
    ensures var out := MapBack(candidates, reply);
            && |out| == |reply|
            && forall j :: 0 <= j < |reply| ==>
                 out[j] == SearchResult(candidates[reply[j].index].id, reply[j].score, candidates[reply[j].index].payload)
  {
    if reply != [] { MapBackInRange(candidates, reply[..|reply| - 1]); }
  }

  ghost predicate ResultFor<P>(result: SearchResult<P>, candidate: Fused<P>, score: Option<real>) {
    result.id == candidate.id && result.payload == candidate.payload && score == Some(result.score)
  }

  /** The result is a candidate under the score its own batch gave it. */
  ghost predicate FromCandidate<P>(result: SearchResult<P>, cs: seq<Fused<P>>, model: R.Model) {
    exists n: nat :: n < |cs| && ResultFor(result, cs[n], R.GlobalScore(model, |cs|, n))
  }

  /** Candidate `n` is among the results, or `topN` results score at least as high. */
  ghost predicate ShownOrBeaten<P>(results: seq<SearchResult<P>>, cs: seq<Fused<P>>, model: R.Model, topN: nat, n: nat)
    requires n < |cs|
  {
    var score := R.GlobalScore(model, |cs|, n);
    score.Some? ==>
      || (exists i :: 0 <= i < |results| && ResultFor(results[i], cs[n], score))
      || (|results| == topN && forall i :: 0 <= i < |results| ==> results[i].score >= score.value)
  }

  /** With the reranker, results stand in the reranker's order: each is a candidate under the score its own
      batch gave it, best first, and a scored candidate that is left out is beaten or tied by top_n others. */
  lemma RerankedSearch<P>(dense: seq<Hit<P>>, sparse: seq<Hit<P>>, model: R.Model, limit: nat, topN: nat)
    requires Fuse([dense, sparse], RRF_K) != [] && SearchRun(dense, sparse, model, true, limit, topN).Found?
    ensures var results, cs := SearchRun(dense, sparse, model, true, limit, topN).results, Candidates(dense, sparse, limit);
            && (forall i :: 0 <= i < |results| ==> FromCandidate(results[i], cs, model))
            && (forall i, j :: 0 <= i < j < |results| ==> results[i].score >= results[j].score)
            && (forall n: nat :: n < |cs| ==> ShownOrBeaten(results, cs, model, topN, n))
  {
    hide Fuse, MapBack, Candidates, R.Respond, FromCandidate, ShownOrBeaten;
    var cs := Candidates(dense, sparse, limit);
    var reply := R.Respond(model, |cs|, topN).results;
    var results := MapBack(cs, reply);
    R.GlobalScores(model, |cs|, topN);
    MapBackInRange(cs, reply);
    forall i | 0 <= i < |results| ensures FromCandidate(results[i], cs, model) { FromNumber(cs, model, results[i], reply[i]); }
    forall n: nat | n < |cs| ensures ShownOrBeaten(results, cs, model, topN, n) {
      InAnswer(cs, model, topN, reply, results, n);
    }
  }

  lemma FromNumber<P>(cs: seq<Fused<P>>, model: R.Model, result: SearchResult<P>, r: R.Ranked)
    requires 0 <= r.index < |cs| && R.GlobalScore(model, |cs|, r.index) == Some(r.score)
    requires result == SearchResult(cs[r.index].id, r.score, cs[r.index].payload)
    ensures FromCandidate(result, cs, model)
  {
    hide R.GlobalScore;
    var n: nat := r.index;
    assert ResultFor(result, cs[n], R.GlobalScore(model, |cs|, n));
  }

  lemma InAnswer<P>(cs: seq<Fused<P>>, model: R.Model, topN: nat, reply: seq<R.Ranked>, results: seq<SearchResult<P>>, n: nat)
    requires n < |cs| && |results| == |reply|
    requires forall i :: 0 <= i < |reply| ==>
               && 0 <= reply[i].index < |cs| && R.GlobalScore(model, |cs|, reply[i].index) == Some(reply[i].score)
               && results[i] == SearchResult(cs[reply[i].index].id, reply[i].score, cs[reply[i].index].payload)
    requires R.GlobalScore(model, |cs|, n).Some? ==>
               || (exists i :: 0 <= i < |reply| && reply[i].index == n)
               || (|reply| == topN && forall i :: 0 <= i < |reply| ==> reply[i].score >= R.GlobalScore(model, |cs|, n).value)
    ensures ShownOrBeaten(results, cs, model, topN, n)
  {
    hide R.GlobalScore;
    var score := R.GlobalScore(model, |cs|, n);
    if i :| 0 <= i < |reply| && reply[i].index == n {
      assert ResultFor(results[i], cs[n], score);
    }
  }

  /** The reranker sees the best `limit` points of the fused list, dense hits first. */
  lemma CandidatesExactly<P>(dense: seq<Hit<P>>, sparse: seq<Hit<P>>, limit: nat)
    ensures var fused, cs := Fuse([dense, sparse], 60), Candidates(dense, sparse, limit);
            cs <= fused && |cs| == Min(limit, |fused|)
  {
    hide Fuse;
  }

  /** A search raises exactly when there is a hit, the service is asked, and it scores none of the candidates. */
  lemma RaisesExactly<P>(dense: seq<Hit<P>>, sparse: seq<Hit<P>>, model: R.Model, useReranker: bool, limit: nat, topN: nat)
    ensures SearchRun(dense, sparse, model, useReranker, limit, topN).Raised? <==>
              && useReranker && (dense != [] || sparse != [])
              && var n := |Candidates(dense, sparse, limit)|;
                 forall g :: 0 <= g < n ==> R.GlobalScore(model, n, g) == None
  {
    hide Fuse, MapBack, Candidates, R.Respond, R.GlobalScore;
    R.WhichAnswer(model, |Candidates(dense, sparse, limit)|, topN);
    FusedEmpty(dense, sparse);
  }

  lemma FusedEmpty<P>(dense: seq<Hit<P>>, sparse: seq<Hit<P>>)
    ensures Fuse([dense, sparse], RRF_K) == [] <==> dense == [] && sparse == []
  {
    FlattenPair(dense, sparse);
    var f := FusedOrder([dense, sparse], RRF_K);
    hide FusedOrder;
    var all := dense + sparse;
    if all != [] { assert Ids(all)[0] in f; }
    if f != [] { assert f[0] in Ids(all); }
  }

  ghost predicate Shows<P>(results: seq<SearchResult<P>>, id: Key) {
    exists i :: 0 <= i < |results| && results[i].id == id
  }

  /** Without the reranker, results are the top_n points of the union by the fusion formula. */
  lemma PlainSearch<P>(dense: seq<Hit<P>>, sparse: seq<Hit<P>>, model: R.Model, limit: nat, topN: nat)
    ensures SearchRun(dense, sparse, model, false, limit, topN).Found?
    ensures var results, lists := SearchRun(dense, sparse, model, false, limit, topN).results, [dense, sparse];
            && |results| <= topN
            && (forall i :: 0 <= i < |results| ==> results[i].score == Score(lists, RRF_K, results[i].id))
            && (forall i, j :: 0 <= i < j < |results| ==> results[i].score >= results[j].score)
            && (forall id :: id in Ids(dense) || id in Ids(sparse) ==>
                  || Shows(results, id)
                  || (|results| == topN && forall i :: 0 <= i < |results| ==> results[i].score >= Score(lists, RRF_K, id)))
  {
    hide Fuse, Score, Ids, SearchRun, TopPoints, Shows;
    PlainTop(dense, sparse, model, limit, topN);
    var results, fused := SearchRun(dense, sparse, model, false, limit, topN).results, Fuse([dense, sparse], RRF_K);
    FusedRanked([dense, sparse]);
    TopOfFused(fused, results, topN);
    FlattenPair(dense, sparse);
    forall id | id in Ids(dense) || id in Ids(sparse)
      ensures || Shows(results, id)
              || (|results| == topN && forall i :: 0 <= i < |results| ==> results[i].score >= Score([dense, sparse], RRF_K, id))
    {
      var n :| 0 <= n < |fused| && fused[n].id == id;
    }
  }

  ghost predicate TopPoints<P>(results: seq<SearchResult<P>>, f: seq<Fused<P>>, topN: nat) {
    && |results| == (if topN <= |f| then topN else |f|)
    && forall i :: 0 <= i < |results| ==> results[i].id == f[i].id && results[i].score == f[i].score
  }

  lemma PlainTop<P>(dense: seq<Hit<P>>, sparse: seq<Hit<P>>, model: R.Model, limit: nat, topN: nat)
    ensures SearchRun(dense, sparse, model, false, limit, topN).Found?
    ensures TopPoints(SearchRun(dense, sparse, model, false, limit, topN).results, Fuse([dense, sparse], RRF_K), topN)
  {
    hide Fuse;
  }

  lemma FusedRanked<P>(lists: seq<seq<Hit<P>>>)
    ensures var f := Fuse(lists, RRF_K);
            && (forall i, j :: 0 <= i < j < |f| ==> f[i].score >= f[j].score)
            && (forall i :: 0 <= i < |f| ==> f[i].score == Score(lists, RRF_K, f[i].id))
            && (forall id :: id in Ids(Flatten(lists)) ==> exists i :: 0 <= i < |f| && f[i].id == id)
  {
    hide Fuse, Score, Ids;
    FusedListMeaning(lists, RRF_K);
  }

  lemma TopOfFused<P>(f: seq<Fused<P>>, results: seq<SearchResult<P>>, topN: nat)
    requires TopPoints(results, f, topN) && forall i, j :: 0 <= i < j < |f| ==> f[i].score >= f[j].score
    ensures |results| <= topN && |results| <= |f|
    ensures forall i :: 0 <= i < |results| ==> results[i].id == f[i].id && results[i].score == f[i].score
    ensures forall i, j :: 0 <= i < j < |results| ==> results[i].score >= results[j].score
    ensures forall n :: 0 <= n < |f| ==>
              || Shows(results, f[n].id)
              || (|results| == topN && forall i :: 0 <= i < |results| ==> results[i].score >= f[n].score)
  {
    forall n | 0 <= n < |results| ensures Shows(results, f[n].id) { assert results[n].id == f[n].id; }
  }

  /** A filter that every hit of both arms meets is met by every result. */
  lemma FilterParity<P>(dense: seq<Hit<P>>, sparse: seq<Hit<P>>, model: R.Model, useReranker: bool,
                        limit: nat, topN: nat, keep: P -> bool)
    requires SearchRun(dense, sparse, model, useReranker, limit, topN).Found?
    requires forall i :: 0 <= i < |dense| ==> keep(dense[i].payload)
    requires forall i :: 0 <= i < |sparse| ==> keep(sparse[i].payload)
    ensures var results := SearchRun(dense, sparse, model, useReranker, limit, topN).results;
            forall i :: 0 <= i < |results| ==> keep(results[i].payload)
  {
    hide SearchRun;
    SearchSound(dense, sparse, model, useReranker, limit, topN);
    var results := SearchRun(dense, sparse, model, useReranker, limit, topN).results;
    forall i | 0 <= i < |results| ensures keep(results[i].payload) {
      assert FromAnArm(dense, sparse, results[i].id, results[i].payload);
    }
  }

  ghost predicate AllFromArms<P>(dense: seq<Hit<P>>, sparse: seq<Hit<P>>, f: seq<Fused<P>>) {
    forall i :: 0 <= i < |f| ==> FromAnArm(dense, sparse, f[i].id, f[i].payload)
  }

  lemma FusedSound<P>(dense: seq<Hit<P>>, sparse: seq<Hit<P>>)
    ensures DistinctFused(Fuse([dense, sparse], RRF_K)) && AllFromArms(dense, sparse, Fuse([dense, sparse], RRF_K))
  {
    hide Fuse;
    FusedListMeaning([dense, sparse], RRF_K);
    forall i | 0 <= i < |Fuse([dense, sparse], RRF_K)|
      ensures FromAnArm(dense, sparse, Fuse([dense, sparse], RRF_K)[i].id, Fuse([dense, sparse], RRF_K)[i].payload)
    {
      FusedFromAnArm(dense, sparse, i);
    }
  }

  lemma MapBackSound<P>(dense: seq<Hit<P>>, sparse: seq<Hit<P>>, candidates: seq<Fused<P>>, reply: seq<R.Ranked>)
    requires DistinctFused(candidates) && AllFromArms(dense, sparse, candidates)
    requires forall i, j :: 0 <= i < j < |reply| ==> reply[i].index != reply[j].index
    ensures var out := MapBack(candidates, reply);
            && |out| <= |reply| && DistinctResults(out)
            && forall i :: 0 <= i < |out| ==> FromAnArm(dense, sparse, out[i].id, out[i].payload)
  {
    MapBackAt(candidates, reply);
    MapBackDistinct(candidates, reply);
  }

  /** A hit that only one arm found survives the candidate cut whenever its depth bound fits the limit. */
  lemma SurvivesCut<P>(dense: seq<Hit<P>>, sparse: seq<Hit<P>>, limit: nat, id: Key)
    requires Arms(dense, sparse)
    requires || (id in Ids(dense) && id !in Ids(sparse) && |Shared(dense, sparse)| + 2 * Rank(dense, id) - 1 <= limit)
             || (id in Ids(sparse) && id !in Ids(dense) && |Shared(dense, sparse)| + 2 * Rank(sparse, id) <= limit)
    ensures exists i :: 0 <= i < |Candidates(dense, sparse, limit)| && Candidates(dense, sparse, limit)[i].id == id
  {
    hide Fuse, FusedOrder, Ids, Shared, Rank;
    if id in Ids(dense) { DenseOnlyDepth(dense, sparse, RRF_K, id); } else { SparseOnlyDepth(dense, sparse, RRF_K, id); }
    var i := Position(dense, sparse, RRF_K, id) - 1;
    FlattenPair(dense, sparse);
    FuseAt([dense, sparse], RRF_K, i);
    assert Candidates(dense, sparse, limit)[i].id == id;
  }

  /** A hit both arms found survives the cut whenever the shared hits are no more than the limit. */
  lemma SharedSurvivesCut<P>(dense: seq<Hit<P>>, sparse: seq<Hit<P>>, limit: nat, id: Key)
    requires Arms(dense, sparse) && |dense| < RRF_K + 2 && |sparse| < RRF_K + 2
    requires id in Ids(dense) && id in Ids(sparse) && |Shared(dense, sparse)| <= limit
    ensures exists i :: 0 <= i < |Candidates(dense, sparse, limit)| && Candidates(dense, sparse, limit)[i].id == id
  {
    hide Fuse, FusedOrder, Ids, Shared, Rank;
    SharedDepth(dense, sparse, RRF_K, id);
    var i := Position(dense, sparse, RRF_K, id) - 1;
    FlattenPair(dense, sparse);
    FuseAt([dense, sparse], RRF_K, i);
    assert Candidates(dense, sparse, limit)[i].id == id;
  }

  ghost predicate IsCandidate<P>(dense: seq<Hit<P>>, sparse: seq<Hit<P>>, id: Key) {
    exists i :: 0 <= i < |Candidates(dense, sparse, RERANK_CANDIDATE_LIMIT)|
                && Candidates(dense, sparse, RERANK_CANDIDATE_LIMIT)[i].id == id
  }

  /** The cut as configured, for arms of at most 50 hits with c shared ones: with c <= 40 every shared hit reaches the
      reranker, and so does a hit of one arm only up to rank (41 - c) / 2 if dense, (40 - c) / 2 if sparse. */
  lemma ConfiguredCut<P>(dense: seq<Hit<P>>, sparse: seq<Hit<P>>, id: Key)
    requires Arms(dense, sparse) && |dense| <= DENSE_TOP_K && |sparse| <= SPARSE_TOP_K
    ensures id in Ids(dense) && id in Ids(sparse) && |Shared(dense, sparse)| <= 40 ==> IsCandidate(dense, sparse, id)
    ensures id in Ids(dense) && id !in Ids(sparse) && |Shared(dense, sparse)| + 2 * Rank(dense, id) <= 41 ==>
              IsCandidate(dense, sparse, id)
    ensures id in Ids(sparse) && id !in Ids(dense) && |Shared(dense, sparse)| + 2 * Rank(sparse, id) <= 40 ==>
              IsCandidate(dense, sparse, id)
  {
    hide Ids, Shared, Rank, Candidates, Arms;
    if id in Ids(dense) && id in Ids(sparse) && |Shared(dense, sparse)| <= 40 {
      SharedSurvivesCut(dense, sparse, RERANK_CANDIDATE_LIMIT, id);
    }
    if id in Ids(dense) && id !in Ids(sparse) && |Shared(dense, sparse)| + 2 * Rank(dense, id) <= 41 {
      SurvivesCut(dense, sparse, RERANK_CANDIDATE_LIMIT, id);
    }
    if id in Ids(sparse) && id !in Ids(dense) && |Shared(dense, sparse)| + 2 * Rank(sparse, id) <= 40 {
      SurvivesCut(dense, sparse, RERANK_CANDIDATE_LIMIT, id);
    }
  }

  /** With the configured depths and k = 60, agreement between the arms always wins. */
  lemma ConfiguredConsensus()
    ensures DENSE_TOP_K == SPARSE_TOP_K && ConsensusFirst(DENSE_TOP_K, RRF_K)
  {
    ConsensusFirstIff(DENSE_TOP_K, RRF_K);
  }
}
