/** The depth bounds of fusion cannot be improved: for every rank and every number of shared points that
    the arms have room for, there are arms that attain them (tradegraph/src/rag/hybrid/fusion.py:43-53). */
module DepthAttained {
  import opened Ranking
  import opened Fusion
  import opened FusionBounds
  import opened FusionDepth

  /** Two arms with r hits of their own each, followed by the same c shared ones. */
  function Dense(r: nat, c: nat): seq<Hit<()>> {
    seq(r + c, i requires 0 <= i < r + c => Hit(if i < r then 3 * i else 3 * (i - r) + 2, ()))
  }

  function Sparse(r: nat, c: nat): seq<Hit<()>> {
    seq(r + c, i requires 0 <= i < r + c => Hit(if i < r then 3 * i + 1 else 3 * (i - r) + 2, ()))
  }

  lemma RankIs(arm: seq<Hit<()>>, i: nat)
    requires Distinct(Ids(arm)) && i < |arm|
    ensures arm[i].id in Ids(arm) && Rank(arm, arm[i].id) == i + 1
  {
    assert Ids(arm)[i] == arm[i].id;
  }

  lemma DenseMeaning(r: nat, c: nat)
    ensures Distinct(Ids(Dense(r, c)))
    ensures forall id :: id in Ids(Dense(r, c)) ==> id % 3 != 1
  {
    var ids := Ids(Dense(r, c));
    forall i, j | 0 <= i < j < |ids| ensures ids[i] != ids[j] {
      if i < r <= j { assert ids[i] % 3 == 0 && ids[j] % 3 == 2; }
    }
    forall i | 0 <= i < |ids| ensures ids[i] % 3 != 1 {}
  }

  lemma SparseMeaning(r: nat, c: nat)
    ensures Distinct(Ids(Sparse(r, c)))
    ensures forall id :: id in Ids(Sparse(r, c)) ==> id % 3 != 0
  {
    var ids := Ids(Sparse(r, c));
    forall i, j | 0 <= i < j < |ids| ensures ids[i] != ids[j] {
      if i < r <= j { assert ids[i] % 3 == 1 && ids[j] % 3 == 2; }
    }
    forall i | 0 <= i < |ids| ensures ids[i] % 3 != 0 {}
  }

  lemma ArmsMeaning(r: nat, c: nat)
    ensures Arms(Dense(r, c), Sparse(r, c))
    ensures forall i :: 0 <= i < r ==> 3 * i !in Ids(Sparse(r, c)) && 3 * i + 1 !in Ids(Dense(r, c))
  {
    hide Dense, Sparse, Ids, Distinct;
    DenseMeaning(r, c);
    SparseMeaning(r, c);
  }

  lemma OwnRanks(r: nat, c: nat, i: nat)
    requires i < r
    ensures var dense, sparse := Dense(r, c), Sparse(r, c);
            && Arms(dense, sparse)
            && 3 * i in Ids(dense) && 3 * i !in Ids(sparse) && Rank(dense, 3 * i) == i + 1
            && 3 * i + 1 in Ids(sparse) && 3 * i + 1 !in Ids(dense) && Rank(sparse, 3 * i + 1) == i + 1
  {
    ArmsMeaning(r, c);
    RankIs(Dense(r, c), i);
    RankIs(Sparse(r, c), i);
  }

  lemma SharedRanks(r: nat, c: nat, j: nat)
    requires j < c
    ensures 3 * j + 2 in Ids(Dense(r, c)) && 3 * j + 2 in Ids(Sparse(r, c))
  {
    ArmsMeaning(r, c);
    RankIs(Dense(r, c), r + j);
    RankIs(Sparse(r, c), r + j);
  }

  lemma OwnScores(r: nat, c: nat, k: nat, i: nat)
    requires i < r
    ensures Score([Dense(r, c), Sparse(r, c)], k, 3 * i) == Weight(k, i + 1)
    ensures Score([Dense(r, c), Sparse(r, c)], k, 3 * i + 1) == Weight(k, i + 1)
  {
    hide Dense, Sparse, Score;
    OwnRanks(r, c, i);
    PairScore(Dense(r, c), Sparse(r, c), k, 3 * i);
    PairScore(Dense(r, c), Sparse(r, c), k, 3 * i + 1);
  }

  /** An arm's own hit stands behind every shared hit and every own hit of a better rank. */
  lemma OwnBehind(r: nat, c: nat, k: nat, x: Key, y: Key)
    requires r > 0 && r + c < k + 2 && (x == 3 * (r - 1) || x == 3 * (r - 1) + 1)
    requires (y % 3 == 2 && 0 <= y < 3 * c) || (y % 3 != 2 && 0 <= y < 3 * (r - 1))
    ensures var dense, sparse := Dense(r, c), Sparse(r, c);
            && (x in Ids(dense) || x in Ids(sparse)) && (y in Ids(dense) || y in Ids(sparse))
            && Position(dense, sparse, k, y) < Position(dense, sparse, k, x)
  {
    hide Ids, Rank, Position, Score;
    var dense, sparse := Dense(r, c), Sparse(r, c);
    OwnRanks(r, c, r - 1);
    OwnScores(r, c, k, r - 1);
    if y % 3 == 2 {
      SharedRanks(r, c, y / 3);
      SharedFirst(dense, sparse, k, y, x);
    } else {
      OwnRanks(r, c, y / 3);
      OwnScores(r, c, k, y / 3);
      assert y == 3 * (y / 3) || y == 3 * (y / 3) + 1;
      WeightOrder(k, y / 3 + 1, r);
      HigherScoreFirst(dense, sparse, k, y, x);
    }
  }

  /** Of two own hits of equal rank the dense one comes first. */
  lemma DenseWinsTie(r: nat, c: nat, k: nat)
    requires r > 0
    ensures var dense, sparse, d, s := Dense(r, c), Sparse(r, c), 3 * (r - 1), 3 * (r - 1) + 1;
            && d in Ids(dense) && s in Ids(sparse)
            && Position(dense, sparse, k, d) < Position(dense, sparse, k, s)
  {
    hide Dense, Sparse, Ids, Rank, Score;
    var dense, sparse, d, s := Dense(r, c), Sparse(r, c), 3 * (r - 1), 3 * (r - 1) + 1;
    OwnRanks(r, c, r - 1);
    OwnScores(r, c, k, r - 1);
    FlattenPair(dense, sparse);
    DenseFirstSeen(dense, sparse, d, s);
    EarlierSeenFirst(dense, sparse, k, d, s);
  }

  lemma EarlierSeenFirst<P>(dense: seq<Hit<P>>, sparse: seq<Hit<P>>, k: nat, a: Key, b: Key)
    requires a in Ids(dense) && b in Ids(sparse) && a in Ids(dense + sparse) && b in Ids(dense + sparse)
    requires IndexOf(FirstSeen(dense + sparse), a) < IndexOf(FirstSeen(dense + sparse), b)
    requires Score([dense, sparse], k, a) == Score([dense, sparse], k, b)
    ensures Position(dense, sparse, k, a) < Position(dense, sparse, k, b)
  {
    hide Score, FirstSeen, Ids;
    var lists := [dense, sparse];
    FlattenPair(dense, sparse);
    FusedOrderRanks(lists, k);
    var r := FusedOrder(lists, k);
    AheadOrSame(FirstSeen(dense + sparse), ScoreTable(lists, k), r, IndexOf(r, b), IndexOf(r, a));
  }

  /** The shared ids, then the own ids of ranks below r. */
  function AllAhead(r: nat, c: nat): seq<Key>
    requires r > 0
  {
    seq(c + 2 * (r - 1), n requires 0 <= n < c + 2 * (r - 1) =>
      if n < c then 3 * n + 2 else if n - c < r - 1 then 3 * (n - c) else 3 * (n - c - (r - 1)) + 1)
  }

  lemma AllAheadMeaning(r: nat, c: nat)
    requires r > 0
    ensures Distinct(AllAhead(r, c)) && |AllAhead(r, c)| == c + 2 * (r - 1)
    ensures forall n :: 0 <= n < |AllAhead(r, c)| ==>
              var y := AllAhead(r, c)[n];
              (y % 3 == 2 && 0 <= y < 3 * c) || (y % 3 != 2 && 0 <= y < 3 * (r - 1))
  {
  }

  /** `id` is among the hits and stands at this position of the fused list. */
  ghost predicate StandsAt(dense: seq<Hit<()>>, sparse: seq<Hit<()>>, k: nat, id: Key, position: int) {
    (id in Ids(dense) || id in Ids(sparse)) && Position(dense, sparse, k, id) == position
  }

  /** `id` is a hit of the first arm only, at this rank. */
  predicate OnlyIn(arm: seq<Hit<()>>, other: seq<Hit<()>>, id: Key, rank: nat) {
    id in Ids(arm) && id !in Ids(other) && Rank(arm, id) == rank
  }

  /** For every rank r and every c with r + c <= k + 1 the bounds are attained: the dense arm's own hit at rank
      r stands at position c + 2r - 1 exactly, the sparse arm's at c + 2r. */
  lemma BoundsAttained(r: nat, c: nat, k: nat)
    requires r > 0 && r + c < k + 2
    ensures var dense, sparse, d, s := Dense(r, c), Sparse(r, c), 3 * (r - 1), 3 * (r - 1) + 1;
            && Arms(dense, sparse) && |Shared(dense, sparse)| == c
            && OnlyIn(dense, sparse, d, r) && StandsAt(dense, sparse, k, d, c + 2 * r - 1)
            && OnlyIn(sparse, dense, s, r) && StandsAt(dense, sparse, k, s, c + 2 * r)
  {
    hide Dense, Sparse, Ids, Rank, AllAhead, FusedOrder, Shared;
    var dense, sparse, d, s := Dense(r, c), Sparse(r, c), 3 * (r - 1), 3 * (r - 1) + 1;
    OwnRanks(r, c, r - 1);
    SharedCount(r, c);
    DenseOnlyDepth(dense, sparse, k, d);
    SparseOnlyDepth(dense, sparse, k, s);
    AllAheadMeaning(r, c);
    DenseWinsTie(r, c, k);
    var ahead := AllAhead(r, c);
    forall n | 0 <= n < |ahead|
      ensures ahead[n] in Ids(dense) || ahead[n] in Ids(sparse)
      ensures Position(dense, sparse, k, ahead[n]) < Position(dense, sparse, k, d)
      ensures Position(dense, sparse, k, ahead[n]) < Position(dense, sparse, k, s)
    {
      OwnBehind(r, c, k, d, ahead[n]);
      OwnBehind(r, c, k, s, ahead[n]);
    }
    FlattenPair(dense, sparse);
    PositionFloor(FusedOrder([dense, sparse], k), d, ahead);
    DistinctAppend(ahead, d);
    PositionFloor(FusedOrder([dense, sparse], k), s, ahead + [d]);
  }

  lemma DistinctAppend(ahead: seq<Key>, d: Key)
    requires Distinct(ahead) && forall n :: 0 <= n < |ahead| ==> ahead[n] != d
    ensures Distinct(ahead + [d])
  {
  }

  lemma SharedCount(r: nat, c: nat)
    ensures |Shared(Dense(r, c), Sparse(r, c))| == c
  {
    var shared := Shared(Dense(r, c), Sparse(r, c));
    forall id ensures id in shared <==> exists j :: 0 <= j < c && id == 3 * j + 2 {
      if id in shared {
        var i :| 0 <= i < r + c && Ids(Dense(r, c))[i] == id;
        var l :| 0 <= l < r + c && Ids(Sparse(r, c))[l] == id;
        assert i >= r && id == 3 * (i - r) + 2;
      }
      if j :| 0 <= j < c && id == 3 * j + 2 { SharedRanks(r, c, j); }
    }
    Multiples(shared, c);
  }

  lemma {:induction false} Multiples(s: set<Key>, c: nat)
    requires forall id :: id in s <==> exists j :: 0 <= j < c && id == 3 * j + 2
    ensures |s| == c
  {
    if c == 0 {
      assert forall id :: id !in s;
      assert s == {};
    } else {
      var last := 3 * (c - 1) + 2;
      assert last in s;
      Multiples(s - {last}, c - 1);
    }
  }
}
