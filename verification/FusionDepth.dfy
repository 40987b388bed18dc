/** How deep a hit found by one retrieval arm only can sink when a dense and a sparse arm are fused
    (tradegraph/src/rag/hybrid/fusion.py:40-53, tradegraph/src/rag/hybrid/retriever.py:126-139). */
module FusionDepth {
  import opened Ranking
  import opened Fusion
  import opened FusionBounds

  ghost predicate Arms<P>(dense: seq<Hit<P>>, sparse: seq<Hit<P>>) {
    Distinct(Ids(dense)) && Distinct(Ids(sparse))
  }

  /** 1-based rank of `id` in one arm. */
  function Rank<P>(arm: seq<Hit<P>>, id: Key): (r: nat)
    requires id in Ids(arm)
    ensures 1 <= r <= |arm|
  {
    IndexOf(Ids(arm), id) + 1
  }

  /** 1-based position of `id` in the fused list. */
  function Position<P>(dense: seq<Hit<P>>, sparse: seq<Hit<P>>, k: nat, id: Key): (p: nat)
    requires id in Ids(dense) || id in Ids(sparse)
    ensures p >= 1
  {
    FlattenPair(dense, sparse);
    IndexOf(FusedOrder([dense, sparse], k), id) + 1
  }

  ghost function Shared<P>(dense: seq<Hit<P>>, sparse: seq<Hit<P>>): set<Key> {
    set id | id in Ids(dense) && id in Ids(sparse)
  }

  function RankWeight<P>(arm: seq<Hit<P>>, k: nat, id: Key): real {
    if id in Ids(arm) then Weight(k, Rank(arm, id)) else 0.0
  }

  lemma FlattenPair<P>(dense: seq<Hit<P>>, sparse: seq<Hit<P>>)
    ensures Flatten([dense, sparse]) == dense + sparse
    ensures forall id :: id in Ids(dense + sparse) <==> id in Ids(dense) || id in Ids(sparse)
  {
    assert [dense, sparse][..1] == [dense] && [dense][..0] == [];
    assert Flatten([dense]) == Flatten<P>([]) + dense == dense;
    assert Ids(dense + sparse) == Ids(dense) + Ids(sparse);
  }

  lemma PairScore<P>(dense: seq<Hit<P>>, sparse: seq<Hit<P>>, k: nat, id: Key)
    requires Arms(dense, sparse)
    ensures Score([dense, sparse], k, id) == RankWeight(dense, k, id) + RankWeight(sparse, k, id)
  {
    assert [dense, sparse][..1] == [dense] && [dense][..0] == [];
    assert Score<P>([], k, id) == 0.0;
    DistinctListScore(dense, k, id);
    DistinctListScore(sparse, k, id);
  }

  lemma {:induction false} DenseFirstSeen<P>(dense: seq<Hit<P>>, sparse: seq<Hit<P>>, y: Key, x: Key)
    requires Distinct(Ids(dense))
    requires y in Ids(dense) && x !in Ids(dense)
    requires y in Ids(dense + sparse) && x in Ids(dense + sparse)
    ensures var order := FirstSeen(dense + sparse); IndexOf(order, y) < IndexOf(order, x)
  {
    var all := dense + sparse;
    assert Ids(all)[..|dense|] == Ids(dense);
    IndexInPrefix(Ids(all), |dense|, y);
    forall i | 0 <= i < |dense| ensures Ids(all)[i] != x { assert Ids(dense)[i] in Ids(dense); }
    FirstSeenOrder(all, y, x);
  }

  lemma RankInjective<P>(arm: seq<Hit<P>>, x: Key, y: Key)
    requires x in Ids(arm) && y in Ids(arm) && Rank(arm, x) == Rank(arm, y)
    ensures x == y
  {
  }

  ghost function Top<P>(arm: seq<Hit<P>>, n: nat): (s: set<Key>)
    requires n <= |arm|
    ensures |s| <= n
  {
    SetOfSeqSize(Ids(arm)[..n]);
    set id | id in Ids(arm)[..n]
  }

  lemma InTop<P>(arm: seq<Hit<P>>, n: nat, id: Key)
    requires n <= |arm| && id in Ids(arm) && Rank(arm, id) <= n
    ensures id in Top(arm, n)
  {
    assert Ids(arm)[..n][IndexOf(Ids(arm), id)] == id;
  }

  /** With c shared points, a hit only the dense arm found at rank r is at position c + 2r - 1 or better. */
  lemma {:induction false} DenseOnlyDepth<P>(dense: seq<Hit<P>>, sparse: seq<Hit<P>>, k: nat, x: Key)
    requires Arms(dense, sparse) && x in Ids(dense) && x !in Ids(sparse)
    ensures Position(dense, sparse, k, x) <= |Shared(dense, sparse)| + 2 * Rank(dense, x) - 1
  {
    var lists := [dense, sparse];
    var order, table, r := FirstSeen(Flatten(lists)), ScoreTable(lists, k), Rank(dense, x);
    FlattenPair(dense, sparse);
    var m := if r - 1 <= |sparse| then r - 1 else |sparse|;
    var ahead := Shared(dense, sparse) + Top(dense, r - 1) + Top(sparse, m);
    forall y | y in order && Ahead(order, table, y, x) ensures y in ahead {
      AheadOfDenseOnly(dense, sparse, k, y, x);
      if y in Ids(dense) && y !in Ids(sparse) { InTop(dense, r - 1, y); }
      if y !in Ids(dense) { InTop(sparse, m, y); }
    }
    FusedOrderRanks(lists, k);
    PositionBound(order, table, FusedOrder(lists, k), x, ahead);
  }

  lemma AheadOfDenseOnly<P>(dense: seq<Hit<P>>, sparse: seq<Hit<P>>, k: nat, y: Key, x: Key)
    requires Arms(dense, sparse) && x in Ids(dense) && x !in Ids(sparse)
    requires Ahead(FirstSeen(dense + sparse), ScoreTable([dense, sparse], k), y, x)
    ensures y in Ids(dense) || y in Ids(sparse)
    ensures y in Ids(dense) && y !in Ids(sparse) ==> Rank(dense, y) < Rank(dense, x)
    ensures y !in Ids(dense) ==> y in Ids(sparse) && Rank(sparse, y) < Rank(dense, x)
  {
    FlattenPair(dense, sparse);
    PairScore(dense, sparse, k, x);
    PairScore(dense, sparse, k, y);
    var r := Rank(dense, x);
    if y in Ids(dense) && y !in Ids(sparse) {
      WeightOrder(k, Rank(dense, y), r);
      if Rank(dense, y) == r { RankInjective(dense, x, y); }
    }
    if y !in Ids(dense) {
      WeightOrder(k, Rank(sparse, y), r);
      DenseFirstSeen(dense, sparse, x, y);
    }
  }

  /** A hit only the sparse arm found at rank r is at position c + 2r or better: the dense hit of
      the same rank ties with it and was seen first. */
  lemma {:induction false} SparseOnlyDepth<P>(dense: seq<Hit<P>>, sparse: seq<Hit<P>>, k: nat, x: Key)
    requires Arms(dense, sparse) && x in Ids(sparse) && x !in Ids(dense)
    ensures Position(dense, sparse, k, x) <= |Shared(dense, sparse)| + 2 * Rank(sparse, x)
  {
    var lists := [dense, sparse];
    var order, table, r := FirstSeen(Flatten(lists)), ScoreTable(lists, k), Rank(sparse, x);
    FlattenPair(dense, sparse);
    var m := if r <= |dense| then r else |dense|;
    var ahead := Shared(dense, sparse) + Top(dense, m) + Top(sparse, r - 1);
    forall y | y in order && Ahead(order, table, y, x) ensures y in ahead {
      AheadOfSparseOnly(dense, sparse, k, y, x);
      if y in Ids(dense) && y !in Ids(sparse) { InTop(dense, m, y); }
      if y !in Ids(dense) { InTop(sparse, r - 1, y); }
    }
    FusedOrderRanks(lists, k);
    PositionBound(order, table, FusedOrder(lists, k), x, ahead);
  }

  lemma AheadOfSparseOnly<P>(dense: seq<Hit<P>>, sparse: seq<Hit<P>>, k: nat, y: Key, x: Key)
    requires Arms(dense, sparse) && x in Ids(sparse) && x !in Ids(dense)
    requires Ahead(FirstSeen(dense + sparse), ScoreTable([dense, sparse], k), y, x)
    ensures y in Ids(dense) || y in Ids(sparse)
    ensures y in Ids(dense) && y !in Ids(sparse) ==> Rank(dense, y) <= Rank(sparse, x)
    ensures y !in Ids(dense) ==> y in Ids(sparse) && Rank(sparse, y) < Rank(sparse, x)
  {
    FlattenPair(dense, sparse);
    PairScore(dense, sparse, k, x);
    PairScore(dense, sparse, k, y);
    var r := Rank(sparse, x);
    if y in Ids(dense) && y !in Ids(sparse) { WeightOrder(k, Rank(dense, y), r); }
    if y !in Ids(dense) {
      WeightOrder(k, Rank(sparse, y), r);
      if Rank(sparse, y) == r { RankInjective(sparse, x, y); }
    }
  }

  /** Arms of at most `limit` hits always put every point both arms found before every point only
      one arm found. */
  ghost predicate ConsensusFirst(limit: nat, k: nat) {
    forall dense: seq<Hit<()>>, sparse: seq<Hit<()>>, a, b |
      && Arms(dense, sparse) && |dense| <= limit && |sparse| <= limit
      && a in Ids(dense) && a in Ids(sparse)
      && (b in Ids(dense) || b in Ids(sparse)) && !(b in Ids(dense) && b in Ids(sparse))
      :: Position(dense, sparse, k, a) < Position(dense, sparse, k, b)
  }

  /** Agreement between the arms wins exactly when no arm is longer than k + 1. */
  lemma ConsensusFirstIff(limit: nat, k: nat)
    ensures ConsensusFirst(limit, k) <==> limit < k + 2
  {
    if limit < k + 2 {
      forall dense: seq<Hit<()>>, sparse: seq<Hit<()>>, a, b |
        && Arms(dense, sparse) && |dense| <= limit && |sparse| <= limit
        && a in Ids(dense) && a in Ids(sparse)
        && (b in Ids(dense) || b in Ids(sparse)) && !(b in Ids(dense) && b in Ids(sparse))
        ensures Position(dense, sparse, k, a) < Position(dense, sparse, k, b)
      {
        SharedFirst(dense, sparse, k, a, b);
      }
    } else {
      var (dense, sparse) := LongArms(k);
      LongArmsTie(k);
      assert Position(dense, sparse, k, k + 1) > Position(dense, sparse, k, 0);
    }
  }

  /** In arms shorter than k + 2, what both arms found scores more than what only one found. */
  lemma SharedScoresMore<P>(dense: seq<Hit<P>>, sparse: seq<Hit<P>>, k: nat, a: Key, b: Key)
    requires Arms(dense, sparse) && |dense| < k + 2 && |sparse| < k + 2
    requires a in Ids(dense) && a in Ids(sparse)
    requires (b in Ids(dense) || b in Ids(sparse)) && !(b in Ids(dense) && b in Ids(sparse))
    ensures Score([dense, sparse], k, a) > Score([dense, sparse], k, b)
  {
    PairScore(dense, sparse, k, a);
    PairScore(dense, sparse, k, b);
    WeakestPair(k, Rank(dense, a));
    WeakestPair(k, Rank(sparse, a));
    WeightOrder(k, 1, if b in Ids(dense) then Rank(dense, b) else Rank(sparse, b));
  }

  lemma SharedFirst<P>(dense: seq<Hit<P>>, sparse: seq<Hit<P>>, k: nat, a: Key, b: Key)
    requires Arms(dense, sparse) && |dense| < k + 2 && |sparse| < k + 2
    requires a in Ids(dense) && a in Ids(sparse)
    requires (b in Ids(dense) || b in Ids(sparse)) && !(b in Ids(dense) && b in Ids(sparse))
    ensures Position(dense, sparse, k, a) < Position(dense, sparse, k, b)
  {
    SharedScoresMore(dense, sparse, k, a, b);
    HigherScoreFirst(dense, sparse, k, a, b);
  }

  /** In arms shorter than k + 2, a hit both arms found is at position c or better, c being the number of shared hits. */
  lemma SharedDepth<P>(dense: seq<Hit<P>>, sparse: seq<Hit<P>>, k: nat, x: Key)
    requires Arms(dense, sparse) && |dense| < k + 2 && |sparse| < k + 2 && x in Ids(dense) && x in Ids(sparse)
    ensures Position(dense, sparse, k, x) <= |Shared(dense, sparse)|
  {
    hide Score, FusedOrder;
    var lists := [dense, sparse];
    var order, table := FirstSeen(Flatten(lists)), ScoreTable(lists, k);
    FlattenPair(dense, sparse);
    var ahead := Shared(dense, sparse) - {x};
    forall y | y in order && Ahead(order, table, y, x) ensures y in ahead {
      if !(y in Ids(dense) && y in Ids(sparse)) { SharedScoresMore(dense, sparse, k, x, y); }
    }
    FusedOrderRanks(lists, k);
    PositionBound(order, table, FusedOrder(lists, k), x, ahead);
    assert x in Shared(dense, sparse) && |ahead| == |Shared(dense, sparse)| - 1;
  }

  lemma HigherScoreFirst<P>(dense: seq<Hit<P>>, sparse: seq<Hit<P>>, k: nat, a: Key, b: Key)
    requires a in Ids(dense) || a in Ids(sparse)
    requires b in Ids(dense) || b in Ids(sparse)
    requires Score([dense, sparse], k, a) > Score([dense, sparse], k, b)
    ensures Position(dense, sparse, k, a) < Position(dense, sparse, k, b)
  {
    var lists := [dense, sparse];
    FlattenPair(dense, sparse);
    FusedOrderRanks(lists, k);
    var r := FusedOrder(lists, k);
    AheadOrSame(FirstSeen(Flatten(lists)), ScoreTable(lists, k), r, IndexOf(r, b), IndexOf(r, a));
  }

  lemma WeakestPair(k: nat, rank: nat)
    requires 1 <= rank < k + 2
    ensures 2.0 * Weight(k, rank) > Weight(k, 1)
  {
    var a, b := (k + rank) as real, (k + 1) as real;
    assert a < 2.0 * b;
    var x, y := Weight(k, rank), Weight(k, 1);
    assert x * a == 1.0 && y * b == 1.0;
    assert 2.0 * x * b > x * a by { WeightOrder(k, rank, rank); }
    assert (2.0 * x - y) * b > 0.0;
  }

  /** Two arms of k + 2 hits that share only their last one. */
  function LongArms(k: nat): (seq<Hit<()>>, seq<Hit<()>>) {
    (seq(k + 2, i => Hit(i, ())), seq(k + 2, i => Hit(if i == k + 1 then k + 1 else k + 2 + i, ())))
  }

  lemma LongArmsRanks(k: nat)
    ensures var (dense, sparse) := LongArms(k);
            && Arms(dense, sparse) && |dense| == |sparse| == k + 2
            && k + 1 in Ids(dense) && k + 1 in Ids(sparse) && 0 in Ids(dense) && 0 !in Ids(sparse)
            && Rank(dense, 0) == 1 && Rank(dense, k + 1) == k + 2 && Rank(sparse, k + 1) == k + 2
  {
    var (dense, sparse) := LongArms(k);
    assert Ids(dense)[0] == 0 && Ids(dense)[k + 1] == k + 1 && Ids(sparse)[k + 1] == k + 1;
  }

  lemma WeightTie(k: nat)
    ensures 2.0 * Weight(k, k + 2) == Weight(k, 1)
  {
    var a, b := (k + 1) as real, (k + k + 2) as real;
    assert b == 2.0 * a && Weight(k, 1) * a == 1.0 && Weight(k, k + 2) * b == 1.0;
    assert (2.0 * Weight(k, k + 2) - Weight(k, 1)) * a == 0.0;
  }

  /** The shared hit scores exactly what the first dense hit scores, and was seen later. */
  lemma LongArmsTie(k: nat)
    ensures var (dense, sparse) := LongArms(k);
            && Arms(dense, sparse) && |dense| == k + 2 && |sparse| == k + 2
            && k + 1 in Ids(dense) && k + 1 in Ids(sparse)
            && 0 in Ids(dense) && 0 !in Ids(sparse)
            && Position(dense, sparse, k, 0) < Position(dense, sparse, k, k + 1)
  {
    hide LongArms;
    var (dense, sparse) := LongArms(k);
    LongArmsRanks(k);
    PairScore(dense, sparse, k, 0);
    PairScore(dense, sparse, k, k + 1);
    WeightTie(k);
    EarlierTieFirst(dense, sparse, k, 0, k + 1);
  }

  lemma EarlierTieFirst<P>(dense: seq<Hit<P>>, sparse: seq<Hit<P>>, k: nat, a: Key, b: Key)
    requires a in Ids(dense) && b in Ids(dense) && Rank(dense, a) < Rank(dense, b)
    requires Score([dense, sparse], k, a) == Score([dense, sparse], k, b)
    ensures Position(dense, sparse, k, a) < Position(dense, sparse, k, b)
  {
    var all, lists := dense + sparse, [dense, sparse];
    FlattenPair(dense, sparse);
    assert Ids(all)[..|dense|] == Ids(dense);
    IndexInPrefix(Ids(all), |dense|, a);
    IndexInPrefix(Ids(all), |dense|, b);
    FirstSeenOrder(all, a, b);
    FusedOrderRanks(lists, k);
    var r := FusedOrder(lists, k);
    AheadOrSame(FirstSeen(all), ScoreTable(lists, k), r, IndexOf(r, b), IndexOf(r, a));
  }
}
