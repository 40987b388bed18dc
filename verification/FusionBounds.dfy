/** What reciprocal rank fusion promises about order, and how deep a hit found by one arm only can
    sink (tradegraph/src/rag/hybrid/fusion.py, tradegraph/src/rag/hybrid/retriever.py). */
module FusionBounds {
  import opened Ranking
  import opened Fusion

  /** The fused list holds every id of the union once, higher scores first and ties in first-seen
      order, with the formula's score and the payload of the id's first occurrence. */
  lemma FusedListMeaning<P>(lists: seq<seq<Hit<P>>>, k: nat)
    ensures var fused, hits := Fuse(lists, k), Flatten(lists);
            && (forall i, j :: 0 <= i < j < |fused| ==> fused[i].id != fused[j].id)
            && (forall id :: id in Ids(hits) <==> exists i :: 0 <= i < |fused| && fused[i].id == id)
            && (forall i, j :: 0 <= i < j < |fused| ==>
                  || fused[i].score > fused[j].score
                  || (fused[i].score == fused[j].score
                      && IndexOf(Ids(hits), fused[i].id) < IndexOf(Ids(hits), fused[j].id)))
            && (forall i :: 0 <= i < |fused| ==>
                  && fused[i].score == Score(lists, k, fused[i].id)
                  && fused[i].payload == hits[IndexOf(Ids(hits), fused[i].id)].payload)
  {
    var fused, hits, r := Fuse(lists, k), Flatten(lists), FusedOrder(lists, k);
    FusedOrderRanks(lists, k);
    RankingMembers(FirstSeen(hits), ScoreTable(lists, k), r);
    forall i | 0 <= i < |r| ensures fused[i].id == r[i] && r[i] in Ids(hits) { FuseAt(lists, k, i); }
    forall id | id in Ids(hits) ensures exists i :: 0 <= i < |fused| && fused[i].id == id {
      var i :| 0 <= i < |r| && r[i] == id;
      assert fused[i].id == id;
    }
    forall i, j | 0 <= i < j < |fused|
      ensures || fused[i].score > fused[j].score
              || (fused[i].score == fused[j].score
                  && IndexOf(Ids(hits), fused[i].id) < IndexOf(Ids(hits), fused[j].id))
    {
      assert Ahead(FirstSeen(hits), ScoreTable(lists, k), r[i], r[j]);
      FirstSeenOrder(hits, r[i], r[j]);
    }
  }

  /** `FirstSeen` lists ids in the order of their first occurrence. */
  lemma {:induction false} FirstSeenOrder<P>(hits: seq<Hit<P>>, a: Key, b: Key)
    requires a in Ids(hits) && b in Ids(hits)
    ensures IndexOf(FirstSeen(hits), a) < IndexOf(FirstSeen(hits), b) <==> IndexOf(Ids(hits), a) < IndexOf(Ids(hits), b)
  {
    var n := |hits| - 1;
    var before, ids := hits[..n], Ids(hits);
    assert ids[..n] == Ids(before) && ids == Ids(before) + [hits[n].id];
    forall x | x in Ids(before)
      ensures IndexOf(ids, x) == IndexOf(Ids(before), x) < n
      ensures IndexOf(FirstSeen(hits), x) == IndexOf(FirstSeen(before), x) < |FirstSeen(before)|
    {
      IndexInPrefix(ids, n, x);
      assert FirstSeen(hits)[..|FirstSeen(before)|] == FirstSeen(before);
      IndexInPrefix(FirstSeen(hits), |FirstSeen(before)|, x);
    }
    if hits[n].id !in Ids(before) {
      IndexOfLast(Ids(before), hits[n].id);
      IndexOfLast(FirstSeen(before), hits[n].id);
    }
    if a in Ids(before) && b in Ids(before) { FirstSeenOrder(before, a, b); }
  }

  /** Reordering the lists changes no score. */
  lemma {:induction false} ScoreIgnoresListOrder<P>(lists: seq<seq<Hit<P>>>, others: seq<seq<Hit<P>>>, k: nat, id: Key)
    requires multiset(lists) == multiset(others)
    ensures Score(lists, k, id) == Score(others, k, id)
  {
    if lists == [] {
      assert |multiset(others)| == 0;
    } else {
      var n, last := |lists| - 1, lists[|lists| - 1];
      assert lists == lists[..n] + [last];
      assert last in multiset(others);
      var i :| 0 <= i < |others| && others[i] == last;
      var rest := others[..i] + others[i + 1..];
      assert others == others[..i] + [last] + others[i + 1..];
      assert multiset(lists) == multiset(lists[..n]) + multiset{last};
      assert multiset(others) == multiset(rest) + multiset{last};
      assert multiset(lists[..n]) == multiset(lists) - multiset{last} == multiset(rest);
      ScoreIgnoresListOrder(lists[..n], rest, k, id);
      ScoreWithout(others, i, k, id);
    }
  }

  lemma {:induction false} ScoreWithout<P>(lists: seq<seq<Hit<P>>>, i: nat, k: nat, id: Key)
    requires i < |lists|
    ensures Score(lists, k, id) == Score(lists[..i] + lists[i + 1..], k, id) + ListScore(lists[i], k, id)
  {
    var n := |lists| - 1;
    if i < n {
      ScoreWithout(lists[..n], i, k, id);
      var rest := lists[..i] + lists[i + 1..];
      assert rest[..|rest| - 1] == lists[..n][..i] + lists[..n][i + 1..];
      assert rest[|rest| - 1] == lists[n];
    } else {
      assert lists[..i] + lists[i + 1..] == lists[..n];
    }
  }

  lemma {:induction false} DistinctListScore<P>(list: seq<Hit<P>>, k: nat, id: Key)
    requires Distinct(Ids(list))
    ensures ListScore(list, k, id)
         == if id in Ids(list) then Weight(k, IndexOf(Ids(list), id) + 1) else 0.0
  {
    hide Distinct, IndexOf;
    if list != [] {
      var n := |list| - 1;
      var before := list[..n];
      assert Ids(list)[..n] == Ids(before);
      assert Ids(list) == Ids(before) + [list[n].id];
      DistinctPrefix(Ids(before), list[n].id);
      DistinctListScore(before, k, id);
      if id in Ids(before) { IndexInPrefix(Ids(list), n, id); }
      if id == list[n].id { IndexOfLast(Ids(before), id); }
    }
  }

  lemma DistinctPrefix(before: seq<Key>, last: Key)
    requires Distinct(before + [last])
    ensures Distinct(before) && last !in before
  {
    var all := before + [last];
    forall i, j | 0 <= i < j < |before| ensures before[i] != before[j] { assert all[i] != all[j]; }
    forall i | 0 <= i < |before| ensures before[i] != last { assert all[i] != all[|before|]; }
  }

  lemma WeightOrder(k: nat, r: nat, s: nat)
    requires r > 0 && s > 0
    ensures Weight(k, r) > 0.0
    ensures Weight(k, r) > Weight(k, s) <==> r < s
    ensures Weight(k, r) == Weight(k, s) <==> r == s
  {
    var a, b := (k + r) as real, (k + s) as real;
    assert Weight(k, r) * a == 1.0 && Weight(k, s) * b == 1.0;
    if r < s { Reciprocal(a, b); }
    if s < r { Reciprocal(b, a); }
  }

  lemma Reciprocal(a: real, b: real)
    requires 0.0 < a < b
    ensures 1.0 / a > 1.0 / b
  {
    var x, y := 1.0 / a, 1.0 / b;
    assert x * a == 1.0 && y * b == 1.0;
    assert x * b > x * a;
    assert (x - y) * b > 0.0;
  }

  /** One duplicate-free list comes back in the order it had. */
  lemma {:induction false} SingleListKeepsOrder<P>(list: seq<Hit<P>>, k: nat)
    requires Distinct(Ids(list))
    ensures |Fuse([list], k)| == |list|
    ensures forall i :: 0 <= i < |list| ==>
              Fuse([list], k)[i] == Fused(list[i].id, Weight(k, i + 1), list[i].payload)
  {
    SingleListOrder(list, k);
    FlattenSingle(list);
    forall i | 0 <= i < |list|
      ensures Fuse([list], k)[i] == Fused(list[i].id, Weight(k, i + 1), list[i].payload)
    {
      FuseAt([list], k, i);
      SingleListScore(list, k, i);
    }
  }

  lemma SingleListOrder<P>(list: seq<Hit<P>>, k: nat)
    requires Distinct(Ids(list))
    ensures FusedOrder([list], k) == Ids(list)
  {
    hide Ahead, FusedOrder, Ids, ScoreTable, IndexOf;
    var ids, table := Ids(list), ScoreTable([list], k);
    FlattenSingle(list);
    DistinctFirstSeen(list);
    assert InOrder(ids, table, ids) by {
      forall i, j | 0 <= i < j < |ids| ensures Ahead(ids, table, ids[i], ids[j]) {
        SingleListAhead(list, k, i, j);
      }
    }
    FusedOrderRanks([list], k);
    RankingUnique(ids, table, ids, FusedOrder([list], k));
  }

  lemma SingleListAhead<P>(list: seq<Hit<P>>, k: nat, i: nat, j: nat)
    requires Distinct(Ids(list)) && i < j < |list|
    ensures Ahead(Ids(list), ScoreTable([list], k), Ids(list)[i], Ids(list)[j])
  {
    hide Distinct, IndexOf, Ids, FirstSeen, Flatten, Score, ListScore, Weight;
    FlattenSingle(list);
    DistinctFirstSeen(list);
    SingleListScore(list, k, i);
    SingleListScore(list, k, j);
    WeightOrder(k, i + 1, j + 1);
  }

  lemma FlattenSingle<P>(list: seq<Hit<P>>)
    ensures Flatten([list]) == list
  {
    assert [list][..0] == [] && Flatten<P>([]) + list == list;
  }

  lemma SingleListScore<P>(list: seq<Hit<P>>, k: nat, i: nat)
    requires Distinct(Ids(list)) && i < |list|
    ensures list[i].id in Ids(list) && IndexOf(Ids(list), list[i].id) == i
    ensures Score([list], k, list[i].id) == Weight(k, i + 1)
  {
    assert Ids(list)[i] in Ids(list);
    DistinctListScore(list, k, list[i].id);
    assert [list][..0] == [];
  }

  lemma {:induction false} DistinctFirstSeen<P>(hits: seq<Hit<P>>)
    requires Distinct(Ids(hits))
    ensures FirstSeen(hits) == Ids(hits)
  {
    if hits != [] {
      var n := |hits| - 1;
      assert Ids(hits)[..n] == Ids(hits[..n]) && Ids(hits) == Ids(hits[..n]) + [hits[n].id];
      DistinctFirstSeen(hits[..n]);
      forall i | 0 <= i < n ensures Ids(hits[..n])[i] != hits[n].id { assert Ids(hits)[i] != Ids(hits)[n]; }
    }
  }
}
