/** The order Python gives when it sorts the items of a dict by score with `reverse=True`:
    descending by score, and ties stay in the dict's insertion order. A dict is modelled as the
    sequence of its keys in insertion order together with a map. */
module Ranking {

  /** Keys are only compared for equality. */
  type Key = int

  ghost predicate Distinct(s: seq<Key>) {
    forall i, j :: 0 <= i < j < |s| ==> s[i] != s[j]
  }

  function IndexOf(s: seq<Key>, x: Key): (i: nat)
    requires x in s
    ensures i < |s| && s[i] == x && forall j :: 0 <= j < i ==> s[j] != x
  {
    if s[0] == x then 0 else 1 + IndexOf(s[1..], x)
  }

  /** `a` stands before `b` in the sorted list. */
  ghost predicate Ahead(order: seq<Key>, score: map<Key, real>, a: Key, b: Key) {
    && a in order && b in order && a in score && b in score
    && (score[a] > score[b] || (score[a] == score[b] && IndexOf(order, a) < IndexOf(order, b)))
  }

  ghost predicate InOrder(order: seq<Key>, score: map<Key, real>, r: seq<Key>) {
    forall i, j :: 0 <= i < j < |r| ==> Ahead(order, score, r[i], r[j])
  }

  ghost predicate IsRanking(order: seq<Key>, score: map<Key, real>, r: seq<Key>) {
    && multiset(r) == multiset(order)
    && InOrder(order, score, r)
  }

  ghost predicate Scored(order: seq<Key>, score: map<Key, real>) {
    forall i :: 0 <= i < |order| ==> order[i] in score
  }

  function Insert(sorted: seq<Key>, score: map<Key, real>, x: Key): (r: seq<Key>)
    requires x in score && Scored(sorted, score)
    ensures multiset(r) == multiset(sorted) + multiset{x}
  {
    if sorted == [] || score[sorted[|sorted| - 1]] >= score[x] then sorted + [x]
    else
      var n := |sorted| - 1;
      assert sorted == sorted[..n] + [sorted[n]];
      Insert(sorted[..n], score, x) + [sorted[n]]
  }

  function SortDescending(order: seq<Key>, score: map<Key, real>): (r: seq<Key>)
    requires Scored(order, score)
    ensures multiset(r) == multiset(order)
  {
    if order == [] then []
    else
      var n := |order| - 1;
      assert order == order[..n] + [order[n]];
      var rest := SortDescending(order[..n], score);
      assert forall i :: 0 <= i < |rest| ==> rest[i] in multiset(rest);
      Insert(rest, score, order[n])
  }

  lemma {:induction false} IndexInPrefix(s: seq<Key>, n: nat, x: Key)
    requires n <= |s| && x in s[..n]
    ensures IndexOf(s, x) == IndexOf(s[..n], x) < n
  {
    if s[0] != x {
      assert s[..n][1..] == s[1..][..n - 1];
      IndexInPrefix(s[1..], n - 1, x);
    }
  }

  lemma {:induction false} IndexOfLast(before: seq<Key>, x: Key)
    requires x !in before
    ensures IndexOf(before + [x], x) == |before|
  {
    if before != [] {
      assert (before + [x])[1..] == before[1..] + [x];
      IndexOfLast(before[1..], x);
    }
  }

  /** Inserting `x` keeps a list in order when every listed key that scores at least as high is
      ahead of `x`. */
  lemma {:induction false} InsertRanks(order: seq<Key>, sorted: seq<Key>, score: map<Key, real>, x: Key)
    requires x in order && x in score && Scored(sorted, score)
    requires forall y :: y in sorted ==> y in order
    requires forall y :: y in sorted && score[y] >= score[x] ==> Ahead(order, score, y, x)
    requires InOrder(order, score, sorted)
    ensures InOrder(order, score, Insert(sorted, score, x))
  {
    if sorted == [] {
    } else if score[sorted[|sorted| - 1]] >= score[x] {
      AppendInOrder(order, score, sorted, x);
    } else {
      var rest, last := sorted[..|sorted| - 1], sorted[|sorted| - 1];
      InsertRanks(order, rest, score, x);
      var head := Insert(rest, score, x);
      InsertMembers(rest, score, x);
      forall i | 0 <= i < |head| ensures Ahead(order, score, head[i], last) {
        assert head[i] in head;
        if head[i] != x {
          var k :| 0 <= k < |rest| && rest[k] == head[i];
          assert Ahead(order, score, sorted[k], sorted[|rest|]);
        }
      }
      AppendInOrder(order, score, head, last);
    }
  }

  lemma AppendInOrder(order: seq<Key>, score: map<Key, real>, r: seq<Key>, x: Key)
    requires InOrder(order, score, r)
    requires forall i :: 0 <= i < |r| ==> Ahead(order, score, r[i], x)
    ensures InOrder(order, score, r + [x])
  {
  }

  lemma InsertMembers(sorted: seq<Key>, score: map<Key, real>, x: Key)
    requires x in score && Scored(sorted, score)
    ensures var r := Insert(sorted, score, x);
            |r| == |sorted| + 1 && forall y :: y in r ==> y == x || y in sorted
  {
    var r := Insert(sorted, score, x);
    assert |multiset(r)| == |r|;
    forall y | y in r ensures y == x || y in sorted { assert y in multiset(r); }
  }

  lemma AheadInPrefix(before: seq<Key>, x: Key, score: map<Key, real>, a: Key, b: Key)
    requires Ahead(before, score, a, b)
    ensures Ahead(before + [x], score, a, b)
  {
    assert (before + [x])[..|before|] == before;
    IndexInPrefix(before + [x], |before|, a);
    IndexInPrefix(before + [x], |before|, b);
  }

  lemma NewestIsLast(before: seq<Key>, x: Key, score: map<Key, real>, y: Key)
    requires x !in before && y in before && x in score && y in score && score[y] >= score[x]
    ensures Ahead(before + [x], score, y, x)
  {
    assert (before + [x])[..|before|] == before;
    IndexInPrefix(before + [x], |before|, y);
    IndexOfLast(before, x);
  }

  /** The sort keeps exactly the keys it was given, puts higher scores first and keeps insertion
      order between equal scores. */
  lemma {:induction false} SortIsRanking(order: seq<Key>, score: map<Key, real>)
    requires Distinct(order) && Scored(order, score)
    ensures IsRanking(order, score, SortDescending(order, score))
  {
    if order != [] {
      var n := |order| - 1;
      var before, x := order[..n], order[n];
      assert order == before + [x];
      SortIsRanking(before, score);
      var rest := SortDescending(before, score);
      RankingMembers(before, score, rest);
      forall i, j | 0 <= i < j < |rest| ensures Ahead(order, score, rest[i], rest[j]) {
        AheadInPrefix(before, x, score, rest[i], rest[j]);
      }
      forall y | y in rest && score[y] >= score[x] ensures Ahead(order, score, y, x) {
        NewestIsLast(before, x, score, y);
      }
      forall i | 0 <= i < |rest| ensures rest[i] in order && rest[i] in score { assert rest[i] in rest && rest[i] in before; }
      InsertRanks(order, rest, score, x);
    }
  }

  lemma RankingMembers(order: seq<Key>, score: map<Key, real>, r: seq<Key>)
    requires IsRanking(order, score, r)
    ensures |r| == |order| && Distinct(r)
    ensures forall x :: x in r <==> x in order
  {
    assert |multiset(r)| == |r| && |multiset(order)| == |order|;
    forall x ensures x in r <==> x in order {
      assert x in r <==> x in multiset(r);
      assert x in order <==> x in multiset(order);
    }
    forall i, j | 0 <= i < j < |r| ensures r[i] != r[j] {
      assert Ahead(order, score, r[i], r[j]);
    }
  }

  lemma AheadOrSame(order: seq<Key>, score: map<Key, real>, r: seq<Key>, i: nat, j: nat)
    requires IsRanking(order, score, r) && i < |r| && j < |r|
    ensures j < i || r[j] == r[i] || Ahead(order, score, r[i], r[j])
  {
  }

  /** There is only one such order, so whatever algorithm Python uses gives this list. */
  lemma {:induction false} RankingUnique(order: seq<Key>, score: map<Key, real>, r: seq<Key>, q: seq<Key>)
    requires IsRanking(order, score, r) && IsRanking(order, score, q)
    ensures r == q
  {
    RankingMembers(order, score, r);
    RankingMembers(order, score, q);
    var i := 0;
    while i < |r|
      invariant 0 <= i <= |r|
      invariant forall k :: 0 <= k < i ==> r[k] == q[k]
    {
      var j, l := IndexOf(q, r[i]), IndexOf(r, q[i]);
      AheadOrSame(order, score, q, i, j);
      AheadOrSame(order, score, r, i, l);
      i := i + 1;
    }
  }

  /** Position of `x`: everything ahead of it lies in `ahead`, so its index is at most that size. */
  lemma PositionBound(order: seq<Key>, score: map<Key, real>, r: seq<Key>, x: Key, ahead: set<Key>)
    requires IsRanking(order, score, r) && x in r
    requires forall y :: y in order && Ahead(order, score, y, x) ==> y in ahead
    ensures IndexOf(r, x) <= |ahead|
  {
    RankingMembers(order, score, r);
    var p := IndexOf(r, x);
    forall i | 0 <= i < p ensures r[i] in ahead { assert Ahead(order, score, r[i], r[p]); }
    DistinctPrefixSize(r, p, ahead);
  }

  /** Position of `x` from below: distinct keys that all stand before it. */
  lemma PositionFloor(r: seq<Key>, x: Key, ahead: seq<Key>)
    requires x in r && Distinct(ahead)
    requires forall i :: 0 <= i < |ahead| ==> ahead[i] in r && IndexOf(r, ahead[i]) < IndexOf(r, x)
    ensures |ahead| <= IndexOf(r, x)
  {
    var p := IndexOf(r, x);
    var before := set y | y in r[..p];
    forall i | 0 <= i < |ahead| ensures ahead[i] in before { assert r[..p][IndexOf(r, ahead[i])] == ahead[i]; }
    DistinctPrefixSize(ahead, |ahead|, before);
    SetOfSeqSize(r[..p]);
  }

  lemma {:induction false} DistinctPrefixSize(r: seq<Key>, p: nat, s: set<Key>)
    requires Distinct(r) && p <= |r|
    requires forall i :: 0 <= i < p ==> r[i] in s
    ensures p <= |s|
  {
    if p > 0 { DistinctPrefixSize(r, p - 1, s - {r[p - 1]}); }
  }

  lemma {:induction false} SetOfSeqSize(r: seq<Key>)
    ensures |set x | x in r| <= |r|
  {
    if r == [] {
      assert (set x | x in r) == {};
    } else {
      var n := |r| - 1;
      SetOfSeqSize(r[..n]);
      assert r == r[..n] + [r[n]];
      assert (set x | x in r) == (set x | x in r[..n]) + {r[n]};
    }
  }
}
