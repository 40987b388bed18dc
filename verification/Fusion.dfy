/** Reciprocal rank fusion of ranked hit lists (tradegraph/src/rag/hybrid/fusion.py).
    Scores are exact rationals in place of Python floats. */
module Fusion {
  import opened Ranking

  const RRF_K: nat := 60

  datatype Hit<P> = Hit(id: Key, payload: P)
  datatype Fused<P> = Fused(id: Key, score: real, payload: P)

  /** What one appearance at 1-based `rank` is worth. */
  function Weight(k: nat, rank: nat): real
    requires rank > 0
  {
    1.0 / (k + rank) as real
  }

  function Ids<P>(list: seq<Hit<P>>): (r: seq<Key>)
    ensures |r| == |list| && forall i :: 0 <= i < |list| ==> r[i] == list[i].id
  {
    seq(|list|, i requires 0 <= i < |list| => list[i].id)
  }

  function ListScore<P>(list: seq<Hit<P>>, k: nat, id: Key): real {
    if list == [] then 0.0
    else
      var n := |list| - 1;
      ListScore(list[..n], k, id) + if list[n].id == id then Weight(k, n + 1) else 0.0
  }

  /** The formula: the sum of 1/(k + rank) over every occurrence of `id` in every list. */
  function Score<P>(lists: seq<seq<Hit<P>>>, k: nat, id: Key): real {
    if lists == [] then 0.0
    else Score(lists[..|lists| - 1], k, id) + ListScore(lists[|lists| - 1], k, id)
  }

  /** One more list hit adds the reciprocal of `k` plus its rank, counted from 1, to the score of its point only. */
  lemma OneMoreHit<P>(lists: seq<seq<Hit<P>>>, list: seq<Hit<P>>, k: nat, hit: Hit<P>, id: Key)
    ensures var gain := Score(lists + [list + [hit]], k, id) - Score(lists + [list], k, id);
            gain * (k + |list| + 1) as real == if hit.id == id then 1.0 else 0.0
    ensures Score(lists + [[]], k, id) == Score(lists, k, id)
  {
    assert (lists + [list + [hit]])[..|lists|] == lists && (lists + [list])[..|lists|] == lists && (lists + [[]])[..|lists|] == lists;
    assert (list + [hit])[..|list|] == list;
  }

  function Flatten<P>(lists: seq<seq<Hit<P>>>): seq<Hit<P>> {
    if lists == [] then [] else Flatten(lists[..|lists| - 1]) + lists[|lists| - 1]
  }

  /** Each id once, in order of first appearance: the insertion order of the `scores` dict. */
  function FirstSeen<P>(hits: seq<Hit<P>>): (r: seq<Key>)
    ensures Distinct(r)
    ensures forall id :: id in r <==> id in Ids(hits)
  {
    if hits == [] then []
    else
      var n := |hits| - 1;
      var before := FirstSeen(hits[..n]);
      assert Ids(hits) == Ids(hits[..n]) + [hits[n].id];
      if hits[n].id in before then before else before + [hits[n].id]
  }

  function FirstPayload<P>(hits: seq<Hit<P>>, id: Key): P
    requires id in Ids(hits)
  {
    hits[IndexOf(Ids(hits), id)].payload
  }

  function ScoreTable<P>(lists: seq<seq<Hit<P>>>, k: nat): map<Key, real> {
    map id | id in FirstSeen(Flatten(lists)) :: Score(lists, k, id)
  }

  function FusedOrder<P>(lists: seq<seq<Hit<P>>>, k: nat): (r: seq<Key>)
    ensures forall id :: id in r <==> id in Ids(Flatten(lists))
  {
    var order, table := FirstSeen(Flatten(lists)), ScoreTable(lists, k);
    SortIsRanking(order, table);
    RankingMembers(order, table, SortDescending(order, table));
    SortDescending(order, table)
  }

  lemma FusedOrderRanks<P>(lists: seq<seq<Hit<P>>>, k: nat)
    ensures IsRanking(FirstSeen(Flatten(lists)), ScoreTable(lists, k), FusedOrder(lists, k))
  {
    SortIsRanking(FirstSeen(Flatten(lists)), ScoreTable(lists, k));
  }

  function Fuse<P>(lists: seq<seq<Hit<P>>>, k: nat): (fused: seq<Fused<P>>)
    ensures |fused| == |FusedOrder(lists, k)|
  {
    var r := FusedOrder(lists, k);
    seq(|r|, i requires 0 <= i < |r| =>
      assert r[i] in r;
      Fused(r[i], Score(lists, k, r[i]), FirstPayload(Flatten(lists), r[i])))
  }

  /** The scores dict after the whole lists `done` and the first part `list` of the next one. */
  ghost predicate ScoresHold<P>(done: seq<seq<Hit<P>>>, list: seq<Hit<P>>, k: nat, scores: map<Key, real>) {
    forall id: Key :: Get(scores, id) == Score(done, k, id) + ListScore(list, k, id)
  }

  /** The payloads dict after `hits`, and the common key order of both dicts. */
  ghost predicate PayloadsHold<P>(hits: seq<Hit<P>>, order: seq<Key>, payloads: map<Key, P>) {
    && order == FirstSeen(hits)
    && (forall id :: id in payloads <==> id in Ids(hits))
    && (forall id :: id in Ids(hits) ==> payloads[id] == FirstPayload(hits, id))
  }

  ghost predicate Tables<P>(done: seq<seq<Hit<P>>>, list: seq<Hit<P>>, k: nat,
                            order: seq<Key>, scores: map<Key, real>, payloads: map<Key, P>) {
    && scores.Keys == payloads.Keys
    && ScoresHold(done, list, k, scores)
    && PayloadsHold(Flatten(done) + list, order, payloads)
  }

  method ReciprocalRankFusion<P>(lists: seq<seq<Hit<P>>>, k: nat := RRF_K) returns (fused: seq<Fused<P>>)
    ensures fused == Fuse(lists, k)
  {
    hide *;
    var scores: map<Key, real>, payloads: map<Key, P>, order: seq<Key> := map[], map[], [];
    TablesStart<P>(k);
    var i := 0;
    while i < |lists|
      invariant 0 <= i <= |lists|
      invariant Tables(lists[..i], [], k, order, scores, payloads)
    {
      var list := lists[i];
      var j := 0;
      while j < |list|
        invariant 0 <= j <= |list|
        invariant Tables(lists[..i], list[..j], k, order, scores, payloads)
      {
        var hit := list[j];
        TablesStep(lists[..i], list[..j], k, order, scores, payloads, hit);
        assert list[..j + 1] == list[..j] + [hit];
        if hit.id !in scores { order := order + [hit.id]; }
        scores := scores[hit.id := Get(scores, hit.id) + Weight(k, j + 1)];
        payloads := if hit.id in payloads then payloads else payloads[hit.id := hit.payload];
        j := j + 1;
      }
      assert list[..j] == list;
      TablesNextList(lists[..i], list, k, order, scores, payloads);
      assert lists[..i + 1] == lists[..i] + [list];
      i := i + 1;
    }
    assert lists[..i] == lists;
    TablesFinal(lists, k, order, scores, payloads);
    fused := [];
    var ranked := SortDescending(order, scores);
    assert ranked == FusedOrder(lists, k);
    for n := 0 to |ranked|
      invariant fused == Fuse(lists, k)[..n]
    {
      FuseAt(lists, k, n);
      fused := fused + [Fused(ranked[n], scores[ranked[n]], payloads[ranked[n]])];
    }
  }

  lemma TablesStart<P>(k: nat)
    ensures Tables<P>([], [], k, [], map[], map[])
  {
  }

  lemma TablesStep<P>(done: seq<seq<Hit<P>>>, list: seq<Hit<P>>, k: nat,
                      order: seq<Key>, scores: map<Key, real>, payloads: map<Key, P>, hit: Hit<P>)
    requires Tables(done, list, k, order, scores, payloads)
    ensures Tables(done, list + [hit], k,
                   if hit.id in scores then order else order + [hit.id],
                   scores[hit.id := Get(scores, hit.id) + Weight(k, |list| + 1)],
                   if hit.id in payloads then payloads else payloads[hit.id := hit.payload])
  {
    hide PayloadsHold, ScoresHold;
    assert Flatten(done) + (list + [hit]) == Flatten(done) + list + [hit];
    PayloadsStep(Flatten(done) + list, order, payloads, hit);
    ScoresStep(done, list, k, scores, hit);
  }

  lemma ScoresStep<P>(done: seq<seq<Hit<P>>>, list: seq<Hit<P>>, k: nat, scores: map<Key, real>, hit: Hit<P>)
    requires ScoresHold(done, list, k, scores)
    ensures ScoresHold(done, list + [hit], k, scores[hit.id := Get(scores, hit.id) + Weight(k, |list| + 1)])
  {
    assert (list + [hit])[..|list|] == list;
  }

  lemma PayloadsStep<P>(hits: seq<Hit<P>>, order: seq<Key>, payloads: map<Key, P>, hit: Hit<P>)
    requires PayloadsHold(hits, order, payloads)
    ensures PayloadsHold(hits + [hit], if hit.id in payloads then order else order + [hit.id],
                         if hit.id in payloads then payloads else payloads[hit.id := hit.payload])
  {
    var now := hits + [hit];
    assert now[..|hits|] == hits;
    assert Ids(now) == Ids(hits) + [hit.id];
    forall id | id in Ids(now)
      ensures FirstPayload(now, id) == if id in Ids(hits) then FirstPayload(hits, id) else hit.payload
    {
      FirstPayloadExtends(hits, hit, id);
    }
  }

  lemma TablesNextList<P>(done: seq<seq<Hit<P>>>, list: seq<Hit<P>>, k: nat,
                          order: seq<Key>, scores: map<Key, real>, payloads: map<Key, P>)
    requires Tables(done, list, k, order, scores, payloads)
    ensures Tables(done + [list], [], k, order, scores, payloads)
  {
    assert (done + [list])[..|done|] == done;
    assert Flatten(done + [list]) + [] == Flatten(done) + list;
  }

  lemma TablesFinal<P>(lists: seq<seq<Hit<P>>>, k: nat,
                       order: seq<Key>, scores: map<Key, real>, payloads: map<Key, P>)
    requires Tables(lists, [], k, order, scores, payloads)
    ensures order == FirstSeen(Flatten(lists)) && scores == ScoreTable(lists, k)
    ensures Scored(order, scores) && SortDescending(order, scores) == FusedOrder(lists, k)
    ensures forall id :: id in scores ==>
              id in payloads && id in Ids(Flatten(lists)) && payloads[id] == FirstPayload(Flatten(lists), id)
  {
    hide ScoreTable, FirstSeen, FirstPayload, SortDescending, ScoresHold, PayloadsHold;
    assert Flatten(lists) + [] == Flatten(lists);
    PayloadsFinal(Flatten(lists), order, payloads);
    ScoresFinal(lists, k, scores);
    forall i | 0 <= i < |order| ensures order[i] in scores { assert order[i] in order; }
  }

  lemma PayloadsFinal<P>(hits: seq<Hit<P>>, order: seq<Key>, payloads: map<Key, P>)
    requires PayloadsHold(hits, order, payloads)
    ensures order == FirstSeen(hits)
    ensures forall id :: id in payloads <==> id in Ids(hits)
    ensures forall id :: id in payloads ==> payloads[id] == FirstPayload(hits, id)
  {
  }

  lemma ScoresFinal<P>(lists: seq<seq<Hit<P>>>, k: nat, scores: map<Key, real>)
    requires ScoresHold(lists, [], k, scores)
    requires forall id :: id in scores <==> id in Ids(Flatten(lists))
    ensures scores == ScoreTable(lists, k)
  {
    var hits := Flatten(lists);
    assert ListScore<P>([], k, 0) == 0.0;
    var table := ScoreTable(lists, k);
    forall id ensures id in scores <==> id in table {
      assert id in FirstSeen(hits) <==> id in Ids(hits);
    }
    forall id | id in scores ensures scores[id] == Score(lists, k, id) {
      assert Get(scores, id) == Score(lists, k, id) + ListScore<P>([], k, id);
    }
    assert scores == table;
  }

  lemma FuseAt<P>(lists: seq<seq<Hit<P>>>, k: nat, n: nat)
    requires n < |FusedOrder(lists, k)|
    ensures var id := FusedOrder(lists, k)[n];
            && id in Ids(Flatten(lists))
            && id in ScoreTable(lists, k)
            && |Fuse(lists, k)| == |FusedOrder(lists, k)|
            && Fuse(lists, k)[n] == Fused(id, ScoreTable(lists, k)[id], FirstPayload(Flatten(lists), id))
  {
    assert FusedOrder(lists, k)[n] in FusedOrder(lists, k);
  }

  /** `dict.get(id, 0.0)`. */
  function Get(m: map<Key, real>, id: Key): real {
    if id in m then m[id] else 0.0
  }

  lemma FirstPayloadExtends<P>(hits: seq<Hit<P>>, hit: Hit<P>, id: Key)
    requires id in Ids(hits + [hit])
    ensures FirstPayload(hits + [hit], id) == if id in Ids(hits) then FirstPayload(hits, id) else hit.payload
  {
    var now := hits + [hit];
    assert Ids(now)[..|hits|] == Ids(hits);
    if id in Ids(hits) {
      IndexInPrefix(Ids(now), |hits|, id);
    } else {
      assert Ids(now) == Ids(hits) + [hit.id];
      IndexOfLast(Ids(hits), hit.id);
    }
  }
}
