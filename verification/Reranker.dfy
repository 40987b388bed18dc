/** The reranker service: listwise scoring in batches, with retries, merged into one ranking
    (tradegraph/apps/reranker/main.py). The language model is an arbitrary table of replies, one
    for each batch and attempt. */
module Reranker {
  import opened Helpers
  import opened Ranking

  const MAX_RERANK_ATTEMPTS: nat := 3
  const RERANK_BATCH_SIZE: nat := 15

  datatype PassageScore = PassageScore(index: int, score: real)
  datatype Reply = Scores(scores: seq<PassageScore>) | CallFailed(error: string)

  /** The reply to each (batch number, attempt number), both from 0. */
  type Model = (nat, nat) -> Reply

  datatype Ranked = Ranked(index: int, score: real)
  datatype Response = Results(results: seq<Ranked>) | BadGateway(detail: string) | AssertionError

  /** A Python dict from passage number to score: its keys in insertion order, and its map. */
  datatype Dict = Dict(order: seq<Key>, at: map<Key, real>)
  {
    function Put(key: Key, value: real): Dict {
      Dict(if key in at then order else order + [key], at[key := value])
    }

    ghost predicate Valid() {
      Distinct(order) && (forall x :: x in at <==> x in order)
    }
  }

  predicate Differentiated(scores: seq<PassageScore>) {
    exists i, j :: 0 <= i < j < |scores| && scores[i].score != scores[j].score
  }

  /** A reply that ends the retries: real scores that are not all the same, unless there is only
      one passage to score. */
  predicate Decisive(reply: Reply, passages: nat) {
    reply.Scores? && (Differentiated(reply.scores) || passages == 1)
  }

  /** The scores a batch is given: those of the first decisive attempt of three; without one, those
      of the last attempt that answered; with no answer at all, none. */
  function Settled(model: Model, b: nat, passages: nat): Option<seq<PassageScore>> {
    if Decisive(model(b, 0), passages) then Some(model(b, 0).scores)
    else if Decisive(model(b, 1), passages) then Some(model(b, 1).scores)
    else if model(b, 2).Scores? then Some(model(b, 2).scores)
    else if model(b, 1).Scores? then Some(model(b, 1).scores)
    else if model(b, 0).Scores? then Some(model(b, 0).scores)
    else None
  }

  /** What a batch is given, on its three replies. A usable reply has two different scores, or any scores when there
      is one passage. The first usable reply counts; without one, the last that answered; and there are no
      scores exactly when all three attempts failed. */
  lemma SettledMeaning(model: Model, b: nat, passages: nat)
    ensures forall a :: 0 <= a < 3 && model(b, a).Scores? && (passages == 1 || TwoScores(model(b, a).scores))
              && (forall c :: 0 <= c < a ==> model(b, c).CallFailed? || (passages != 1 && OneScore(model(b, c).scores)))
              ==> Settled(model, b, passages) == Some(model(b, a).scores)
    ensures (forall c :: 0 <= c < 3 ==> model(b, c).CallFailed? || (passages != 1 && OneScore(model(b, c).scores))) ==>
              forall a :: 0 <= a < 3 && model(b, a).Scores? && (forall c :: a < c < 3 ==> model(b, c).CallFailed?) ==>
                Settled(model, b, passages) == Some(model(b, a).scores)
    ensures Settled(model, b, passages) == None <==> forall a :: 0 <= a < 3 ==> model(b, a).CallFailed?
  {
    forall a ensures model(b, a).Scores? ==> (OneScore(model(b, a).scores) <==> !TwoScores(model(b, a).scores)) {}
  }

  /** Two passages are scored differently. */
  ghost predicate TwoScores(scores: seq<PassageScore>) {
    exists i, j :: 0 <= i < |scores| && 0 <= j < |scores| && scores[i].score < scores[j].score
  }

  /** All passages are scored alike. */
  ghost predicate OneScore(scores: seq<PassageScore>) {
    forall i, j :: 0 <= i < |scores| && 0 <= j < |scores| ==> scores[i].score == scores[j].score
  }

  lemma DistinctScores(scores: seq<PassageScore>)
    ensures |set s | s in scores :: s.score| > 1 <==> Differentiated(scores)
  {
    var values := set s | s in scores :: s.score;
    if scores == [] {
      assert values == {};
    } else {
      var v := scores[0].score;
      assert v in values;
      if Differentiated(scores) {
        var i, j :| 0 <= i < j < |scores| && scores[i].score != scores[j].score;
        assert scores[i].score in values && scores[j].score in values;
        assert |{scores[i].score, scores[j].score}| <= |values| by {
          SubsetSize({scores[i].score, scores[j].score}, values);
        }
      } else {
        forall i | 0 <= i < |scores| ensures scores[i].score == v {
          assert 0 < i ==> scores[0].score == scores[i].score;
        }
        assert values == {v};
      }
    }
  }

  lemma SubsetSize(a: set<real>, b: set<real>)
    requires a <= b
    ensures |a| <= |b|
  {
    assert b == a + (b - a);
  }

  method ScoreBatchWithRetry(model: Model, b: nat, passages: seq<string>)
    returns (result: Option<seq<PassageScore>>, lastError: Option<string>)
    ensures result == Settled(model, b, |passages|)
    ensures result == None ==> lastError == Some(model(b, 2).error)
  {
    result, lastError := None, None;
    var attempt := 0;
    while attempt < MAX_RERANK_ATTEMPTS
      invariant 0 <= attempt <= MAX_RERANK_ATTEMPTS
      invariant forall a :: 0 <= a < attempt ==> !Decisive(model(b, a), |passages|)
      invariant attempt == 0 ==> result == None
      invariant attempt > 0 && model(b, attempt - 1).Scores? ==> result == Some(model(b, attempt - 1).scores)
      invariant attempt > 0 && model(b, attempt - 1).CallFailed? ==> lastError == Some(model(b, attempt - 1).error)
      invariant attempt > 1 && model(b, attempt - 1).CallFailed? && model(b, attempt - 2).Scores? ==>
                  result == Some(model(b, attempt - 2).scores)
      invariant attempt == 3 ==> result == Settled(model, b, |passages|)
      invariant (forall a :: 0 <= a < attempt ==> model(b, a).CallFailed?) ==> result == None
      decreases MAX_RERANK_ATTEMPTS - attempt
    {
      match model(b, attempt) {
      case CallFailed(e) =>
        lastError := Some(e);
      case Scores(scores) =>
        result := Some(scores);
        DistinctScores(scores);
        var distinct := set s | s in scores :: s.score;
        if |distinct| > 1 || |passages| == 1 || attempt == MAX_RERANK_ATTEMPTS - 1 {
          break;
        }
      }
      attempt := attempt + 1;
    }
  }

  function BatchCount(n: nat): nat { (n + RERANK_BATCH_SIZE - 1) / RERANK_BATCH_SIZE }

  function BatchLength(n: nat, b: nat): nat
    requires b < BatchCount(n)
  {
    if RERANK_BATCH_SIZE * (b + 1) <= n then RERANK_BATCH_SIZE else n - RERANK_BATCH_SIZE * b
  }

  /** The dict after the in-range scores of one batch, whose passages start at number `base`. */
  function MergeScores(d: Dict, scores: seq<PassageScore>, base: nat, length: nat): Dict {
    if scores == [] then d
    else
      var before := MergeScores(d, scores[..|scores| - 1], base, length);
      var s := scores[|scores| - 1];
      if 0 <= s.index < length then before.Put(base + s.index, s.score) else before
  }

  /** The dict after the first `b` batches of `n` passages. */
  function MergeBatches(model: Model, n: nat, b: nat): Dict
    requires b <= BatchCount(n)
  {
    if b == 0 then Dict([], map[])
    else
      var before := MergeBatches(model, n, b - 1);
      match Settled(model, b - 1, BatchLength(n, b - 1))
      case None => before
      case Some(scores) => MergeScores(before, scores, RERANK_BATCH_SIZE * (b - 1), BatchLength(n, b - 1))
  }

  predicate Failed(model: Model, n: nat, b: nat)
    requires b < BatchCount(n)
  {
    Settled(model, b, BatchLength(n, b)) == None
  }

  function Merged(model: Model, n: nat): Dict {
    MergeBatches(model, n, BatchCount(n))
  }

  /** The best `topN` entries of the dict, best first. */
  function Best(d: Dict, topN: nat): (r: seq<Ranked>)
    requires d.Valid()
  {
    ValidScored(d);
    var ranked := SortDescending(d.order, d.at);
    assert forall i :: 0 <= i < |ranked| ==> ranked[i] in multiset(ranked);
    seq(if topN <= |ranked| then topN else |ranked|, i requires 0 <= i < |ranked| => Ranked(ranked[i], d.at[ranked[i]]))
  }

  lemma ValidScored(d: Dict)
    requires d.Valid()
    ensures Scored(d.order, d.at)
  {
    forall i | 0 <= i < |d.order| ensures d.order[i] in d.at { assert d.order[i] in d.order; }
  }

  /** The error kept after the first `b` batches. */
  function KeptError(model: Model, n: nat, b: nat): Option<string>
    requires b <= BatchCount(n)
  {
    if b == 0 then None
    else if Failed(model, n, b - 1) then Some(model(b - 1, 2).error)
    else KeptError(model, n, b - 1)
  }

  /** The service's answer for `n` passages. */
  function Respond(model: Model, n: nat, topN: nat): Response {
    MergedValid(model, n);
    var d := Merged(model, n);
    if d.order != [] then Results(Best(d, topN))
    else match KeptError(model, n, BatchCount(n))
         case None => AssertionError
         case Some(e) => BadGateway(e)
  }

  lemma MergedValid(model: Model, n: nat)
    ensures Merged(model, n).Valid()
  {
    MergeBatchesAt(model, n, BatchCount(n), 0);
  }

  method Rerank(model: Model, passages: seq<string>, topN: nat) returns (response: Response)
    requires |passages| >= 1 && topN >= 1
    ensures response == Respond(model, |passages|, topN)
  {
    hide Settled, MergeScores, Best;
    var byIndex := Dict([], map[]);
    var lastError: Option<string> := None;
    var n := |passages|;
    var batchStart, b := 0, 0;
    while batchStart < n
      invariant 0 <= b <= BatchCount(n) && batchStart == RERANK_BATCH_SIZE * b
      invariant byIndex == MergeBatches(model, n, b) && byIndex.Valid()
      invariant lastError == KeptError(model, n, b)
      decreases n - batchStart
    {
      var batchEnd := if batchStart + RERANK_BATCH_SIZE <= n then batchStart + RERANK_BATCH_SIZE else n;
      var batch := passages[batchStart..batchEnd];
      assert b < BatchCount(n) && |batch| == BatchLength(n, b);
      var result, error := ScoreBatchWithRetry(model, b, batch);
      if result == None {
        lastError := error;
      } else {
        byIndex := AddScores(byIndex, result.value, batchStart, |batch|);
      }
      batchStart, b := batchStart + RERANK_BATCH_SIZE, b + 1;
    }
    if byIndex.order == [] {
      return if lastError == None then AssertionError else BadGateway(lastError.value);
    }
    response := Results(Best(byIndex, topN));
  }

  lemma {:induction false} KeptErrorMeaning(model: Model, n: nat, b: nat)
    requires b <= BatchCount(n)
    ensures KeptError(model, n, b) == None <==> forall c :: 0 <= c < b ==> !Failed(model, n, c)
    ensures forall c :: 0 <= c < b && Failed(model, n, c) && (forall d :: c < d < b ==> !Failed(model, n, d)) ==>
              KeptError(model, n, b) == Some(model(c, 2).error)
  {
    if b > 0 { KeptErrorMeaning(model, n, b - 1); }
  }

  method AddScores(d: Dict, scores: seq<PassageScore>, base: nat, length: nat) returns (r: Dict)
    requires d.Valid()
    ensures r == MergeScores(d, scores, base, length) && r.Valid()
  {
    r := d;
    for i := 0 to |scores|
      invariant r == MergeScores(d, scores[..i], base, length) && r.Valid()
    {
      var s := scores[i];
      assert scores[..i + 1][..i] == scores[..i];
      if 0 <= s.index < length {
        r := r.Put(base + s.index, s.score);
      }
    }
    assert scores[..|scores|] == scores;
  }

  /** The last score that `scores` gives to passage `i` of its batch. */
  function LastScore(scores: seq<PassageScore>, i: int): Option<real> {
    if scores == [] then None
    else if scores[|scores| - 1].index == i then Some(scores[|scores| - 1].score)
    else LastScore(scores[..|scores| - 1], i)
  }

  /** What passage `g` of `n` is worth: what its own batch, and no other, said of it last. */
  function GlobalScore(model: Model, n: nat, g: nat): Option<real>
    requires g < n
  {
    var b := g / RERANK_BATCH_SIZE;
    match Settled(model, b, BatchLength(n, b))
    case None => None
    case Some(scores) => LastScore(scores, g % RERANK_BATCH_SIZE)
  }

  /** Entry `e` is the last one that speaks of passage `i`. */
  ghost predicate LastSaid(scores: seq<PassageScore>, i: int, e: nat, value: real) {
    && e < |scores| && scores[e].index == i && scores[e].score == value
    && forall f :: e < f < |scores| ==> scores[f].index != i
  }

  lemma {:induction false} LastScoreMeaning(scores: seq<PassageScore>, i: int, value: real)
    ensures LastScore(scores, i) == Some(value) <==> exists e :: LastSaid(scores, i, e, value)
  {
    if scores != [] {
      var n := |scores| - 1;
      LastScoreMeaning(scores[..n], i, value);
      if scores[n].index == i {
        assert scores[n].score == value ==> LastSaid(scores, i, n, value);
      } else {
        if e :| LastSaid(scores, i, e, value) { assert LastSaid(scores[..n], i, e, value); }
        if e :| LastSaid(scores[..n], i, e, value) { assert LastSaid(scores, i, e, value); }
      }
    }
  }

  /** Passages are scored in batches of 15, the last one shorter, each on the scores its batch was given: a passage has
      the score of the last entry with its place in the batch. */
  lemma GlobalScoreMeaning(model: Model, n: nat, g: nat, value: real)
    requires g < n
    ensures var given := Settled(model, g / 15, Min(15, n - 15 * (g / 15)));
            GlobalScore(model, n, g) == Some(value) <==>
              given.Some? && exists e :: LastSaid(given.value, g % 15, e, value)
  {
    hide Settled, LastScore, LastSaid;
    var given := Settled(model, g / 15, Min(15, n - 15 * (g / 15)));
    if given.Some? { LastScoreMeaning(given.value, g % 15, value); }
  }

  lemma {:induction false} MergeScoresAt(d: Dict, scores: seq<PassageScore>, base: nat, length: nat, g: int)
    requires d.Valid()
    ensures var m := MergeScores(d, scores, base, length);
            && m.Valid()
            && (g in m.at <==> g in d.at || (base <= g < base + length && LastScore(scores, g - base).Some?))
            && (g in m.at ==>
                  m.at[g] == if base <= g < base + length && LastScore(scores, g - base).Some?
                             then LastScore(scores, g - base).value else d.at[g])
  {
    if scores != [] { MergeScoresAt(d, scores[..|scores| - 1], base, length, g); }
  }

  lemma {:induction false} MergeBatchesAt(model: Model, n: nat, b: nat, g: int)
    requires b <= BatchCount(n)
    ensures var m := MergeBatches(model, n, b);
            && m.Valid()
            && (g in m.at <==> 0 <= g < n && g / RERANK_BATCH_SIZE < b && GlobalScore(model, n, g).Some?)
            && (g in m.at ==> m.at[g] == GlobalScore(model, n, g).value)
  {
    hide Settled, MergeScores, LastScore;
    if b > 0 {
      MergeBatchesAt(model, n, b - 1, g);
      var length, base := BatchLength(n, b - 1), RERANK_BATCH_SIZE * (b - 1);
      match Settled(model, b - 1, length)
      case None =>
      case Some(scores) =>
        MergeScoresAt(MergeBatches(model, n, b - 1), scores, base, length, g);
        if base <= g < base + length { assert g / RERANK_BATCH_SIZE == b - 1; }
    }
  }

  // ---- Ties -------------------------------------------------------------------------------------

  /** Where `scores` first speaks of passage `i` of its batch; its length when it does not. */
  function FirstMention(scores: seq<PassageScore>, i: int): (r: nat)
    ensures r <= |scores|
  {
    if scores == [] then 0
    else if scores[0].index == i then 0
    else 1 + FirstMention(scores[1..], i)
  }

  lemma {:induction false} MentionNext(before: seq<PassageScore>, s: PassageScore, i: int)
    ensures var m := FirstMention(before, i);
            FirstMention(before + [s], i) == if m < |before| then m else if s.index == i then |before| else |before| + 1
  {
    if before != [] {
      MentionNext(before[1..], s, i);
      assert (before + [s])[1..] == before[1..] + [s];
    }
  }

  lemma {:induction false} MentionedIsScored(scores: seq<PassageScore>, i: int)
    ensures FirstMention(scores, i) < |scores| <==> LastScore(scores, i).Some?
  {
    if scores != [] {
      var n := |scores| - 1;
      MentionedIsScored(scores[..n], i);
      MentionNext(scores[..n], scores[n], i);
      assert scores[..n] + [scores[n]] == scores;
    }
  }

  /** The dict's keys from position `from` on are of one batch, in the order of their first mention. */
  ghost predicate InMentionOrder(order: seq<Key>, from: nat, scores: seq<PassageScore>, base: nat) {
    && (forall p :: from <= p < |order| ==> base <= order[p] && FirstMention(scores, order[p] - base) < |scores|)
    && (forall p, q :: from <= p < q < |order| ==>
          FirstMention(scores, order[p] - base) < FirstMention(scores, order[q] - base))
  }

  lemma MentionOrderNext(order: seq<Key>, from: nat, before: seq<PassageScore>, s: PassageScore, base: nat)
    requires InMentionOrder(order, from, before, base)
    ensures InMentionOrder(order, from, before + [s], base)
    ensures s.index >= 0 && from <= |order| && FirstMention(before, s.index) == |before| ==>
              InMentionOrder(order + [base + s.index], from, before + [s], base)
  {
    hide FirstMention;
    var now := before + [s];
    forall p | from <= p < |order| ensures FirstMention(now, order[p] - base) == FirstMention(before, order[p] - base) < |before| {
      MentionNext(before, s, order[p] - base);
    }
    MentionNext(before, s, s.index);
    if s.index >= 0 && from <= |order| && FirstMention(before, s.index) == |before| {
      MentionAppended(order, from, before, s, base);
    }
  }

  lemma MentionAppended(order: seq<Key>, from: nat, before: seq<PassageScore>, s: PassageScore, base: nat)
    requires s.index >= 0 && from <= |order| && FirstMention(before + [s], s.index) == |before|
    requires InMentionOrder(order, from, before + [s], base)
    requires forall p :: from <= p < |order| ==> FirstMention(before + [s], order[p] - base) < |before|
    ensures InMentionOrder(order + [base + s.index], from, before + [s], base)
  {
    hide FirstMention;
    var more := order + [base + s.index];
    assert forall p :: 0 <= p < |order| ==> more[p] == order[p];
    assert more[|order|] - base == s.index;
  }

  lemma {:induction false} MergeScoresOrder(d: Dict, scores: seq<PassageScore>, base: nat, length: nat)
    requires d.Valid() && forall x :: x in d.order ==> x < base
    ensures var m := MergeScores(d, scores, base, length);
            d.order <= m.order && InMentionOrder(m.order, |d.order|, scores, base)
  {
    hide InMentionOrder, FirstMention, LastScore;
    if scores == [] {
      NoneMentioned(d.order, base);
    } else {
      var n := |scores| - 1;
      var before, s := MergeScores(d, scores[..n], base, length), scores[n];
      MergeScoresOrder(d, scores[..n], base, length);
      MergeScoresAt(d, scores[..n], base, length, base + s.index);
      MentionedIsScored(scores[..n], s.index);
      MentionOrderNext(before.order, |d.order|, scores[..n], s, base);
      assert scores[..n] + [s] == scores;
      assert base + s.index in before.at <==> base + s.index in before.order;
    }
  }

  lemma NoneMentioned(order: seq<Key>, base: nat)
    ensures InMentionOrder(order, |order|, [], base)
  {
  }

  /** Scored passage `x` entered the dict before `y`: in an earlier batch, or mentioned earlier in their own. */
  predicate Sooner(model: Model, n: nat, x: int, y: int)
    requires 0 <= x < n && 0 <= y < n
  {
    var b := x / RERANK_BATCH_SIZE;
    || b < y / RERANK_BATCH_SIZE
    || (b == y / RERANK_BATCH_SIZE
        && match Settled(model, b, BatchLength(n, b))
           case None => false
           case Some(scores) => FirstMention(scores, x % RERANK_BATCH_SIZE) < FirstMention(scores, y % RERANK_BATCH_SIZE))
  }

  ghost predicate OrderedSooner(model: Model, n: nat, order: seq<Key>) {
    && (forall p :: 0 <= p < |order| ==> 0 <= order[p] < n)
    && (forall p, q :: 0 <= p < q < |order| ==> Sooner(model, n, order[p], order[q]))
  }

  lemma BatchOrder(model: Model, n: nat, b: nat, before: seq<Key>, order: seq<Key>, scores: seq<PassageScore>)
    requires b < BatchCount(n) && Settled(model, b, BatchLength(n, b)) == Some(scores)
    requires OrderedSooner(model, n, before) && before <= order
    requires forall p :: 0 <= p < |before| ==> before[p] / RERANK_BATCH_SIZE < b
    requires forall p :: |before| <= p < |order| ==> 0 <= order[p] < n && order[p] / RERANK_BATCH_SIZE == b
    requires InMentionOrder(order, |before|, scores, RERANK_BATCH_SIZE * b)
    ensures OrderedSooner(model, n, order)
  {
    hide Settled, FirstMention;
    forall p, q | 0 <= p < q < |order| ensures Sooner(model, n, order[p], order[q]) {
      if q < |before| {
        assert order[p] == before[p] && order[q] == before[q];
      } else if p >= |before| {
        SameBatch(order[p], b);
        SameBatch(order[q], b);
      } else {
        assert order[p] == before[p];
      }
    }
  }

  lemma SameBatch(x: int, b: nat)
    requires x >= 0 && x / RERANK_BATCH_SIZE == b
    ensures x - RERANK_BATCH_SIZE * b == x % RERANK_BATCH_SIZE
  {
  }

  lemma {:induction false} MergeBatchesOrder(model: Model, n: nat, b: nat)
    requires b <= BatchCount(n)
    ensures OrderedSooner(model, n, MergeBatches(model, n, b).order)
  {
    hide Settled, MergeScores, InMentionOrder, OrderedSooner, GlobalScore;
    if b == 0 {
      NothingOrdered(model, n);
    } else {
      MergeBatchesOrder(model, n, b - 1);
      var before := MergeBatches(model, n, b - 1);
      MergedPlaces(model, n, b - 1);
      match Settled(model, b - 1, BatchLength(n, b - 1))
      case None =>
      case Some(scores) =>
        MergeScoresOrder(before, scores, RERANK_BATCH_SIZE * (b - 1), BatchLength(n, b - 1));
        MergedPlaces(model, n, b);
        var order := MergeBatches(model, n, b).order;
        NewestPlaces(model, n, b);
        forall p | 0 <= p < |before.order| ensures before.order[p] / RERANK_BATCH_SIZE < b - 1 {
          assert before.order[p] in before.order;
        }
        BatchOrder(model, n, b - 1, before.order, order, scores);
    }
  }

  lemma NothingOrdered(model: Model, n: nat)
    ensures OrderedSooner(model, n, [])
  {
  }

  /** The keys after `b` batches are passages of those batches. */
  lemma MergedPlaces(model: Model, n: nat, b: nat)
    requires b <= BatchCount(n)
    ensures var d := MergeBatches(model, n, b);
            && d.Valid()
            && forall x :: x in d.order ==> 0 <= x < n && x / RERANK_BATCH_SIZE < b && x < RERANK_BATCH_SIZE * b
  {
    hide MergeBatches, GlobalScore;
    MergeBatchesAt(model, n, b, 0);
    var d := MergeBatches(model, n, b);
    forall x | x in d.order ensures 0 <= x < n && x / RERANK_BATCH_SIZE < b && x < RERANK_BATCH_SIZE * b {
      MergeBatchesAt(model, n, b, x);
    }
  }

  /** The keys the latest batch adds are its own. */
  lemma NewestPlaces(model: Model, n: nat, b: nat)
    requires 0 < b <= BatchCount(n)
    requires MergeBatches(model, n, b - 1).order <= MergeBatches(model, n, b).order
    ensures var before, order := MergeBatches(model, n, b - 1).order, MergeBatches(model, n, b).order;
            forall p :: |before| <= p < |order| ==> 0 <= order[p] < n && order[p] / RERANK_BATCH_SIZE == b - 1
  {
    hide MergeBatches, GlobalScore;
    var before, after := MergeBatches(model, n, b - 1), MergeBatches(model, n, b);
    MergeBatchesAt(model, n, b - 1, 0);
    MergeBatchesAt(model, n, b, 0);
    forall p | |before.order| <= p < |after.order|
      ensures 0 <= after.order[p] < n && after.order[p] / RERANK_BATCH_SIZE == b - 1
    {
      var x := after.order[p];
      assert x in after.order && x !in before.order;
      MergeBatchesAt(model, n, b - 1, x);
      MergeBatchesAt(model, n, b, x);
    }
  }

  lemma OrderIsSooner(model: Model, n: nat, order: seq<Key>, x: Key, y: Key)
    requires OrderedSooner(model, n, order) && x in order && y in order && IndexOf(order, x) < IndexOf(order, y)
    ensures 0 <= x < n && 0 <= y < n && Sooner(model, n, x, y)
  {
  }

  /** Batched scoring ranks like one global call: the results are distinct passage numbers in range,
      each with the score its own batch gave it, best first and among equals the sooner scored first, and
      every scored passage left out comes behind all that were kept in that order. A batch without an
      answer loses its own passages only. */
  lemma GlobalRanking(model: Model, n: nat, topN: nat)
    requires Respond(model, n, topN).Results?
    ensures var best := Respond(model, n, topN).results;
            && |best| <= topN
            && (forall i :: 0 <= i < |best| ==>
                  && 0 <= best[i].index < n
                  && GlobalScore(model, n, best[i].index) == Some(best[i].score))
            && (forall i, j :: 0 <= i < j < |best| ==>
                  best[i].index != best[j].index && Precedes(model, n, best[i], best[j].index, best[j].score))
            && (forall g :: 0 <= g < n && GlobalScore(model, n, g).Some? ==>
                  || (exists i :: 0 <= i < |best| && best[i].index == g)
                  || (|best| == topN && forall i :: 0 <= i < |best| ==>
                        Precedes(model, n, best[i], g, GlobalScore(model, n, g).value)))
  {
    hide Settled, GlobalScore, Sooner, Merged, SortDescending;
    var d, best := Merged(model, n), Respond(model, n, topN).results;
    var r := BestIsRanked(model, n, topN);
    MergeBatchesOrder(model, n, BatchCount(n));
    assert OrderedSooner(model, n, d.order) by { MergedIs(model, n); }
    forall x, y | Ahead(d.order, d.at, x, y)
      ensures 0 <= x < n && 0 <= y < n && Precedes(model, n, Ranked(x, d.at[x]), y, d.at[y])
    {
      if IndexOf(d.order, x) < IndexOf(d.order, y) { OrderIsSooner(model, n, d.order, x, y); }
      else { Placed(model, n, d.order, x); Placed(model, n, d.order, y); }
    }
    forall g | 0 <= g < n && GlobalScore(model, n, g).Some?
      ensures || (exists i :: 0 <= i < |best| && best[i].index == g)
              || (|best| == topN && forall i :: 0 <= i < |best| ==>
                    Precedes(model, n, best[i], g, GlobalScore(model, n, g).value))
    {
      var p :| 0 <= p < |r| && r[p] == g;
      if p < |best| { assert best[p].index == g; }
      forall i | p >= |best| && 0 <= i < |best| ensures Ahead(d.order, d.at, r[i], g) { assert Ahead(d.order, d.at, r[i], r[p]); }
    }
  }

  /** The higher score first, and among equals the passage scored sooner. */
  predicate Precedes(model: Model, n: nat, a: Ranked, g: int, score: real) {
    0 <= a.index < n && 0 <= g < n && (a.score > score || (a.score == score && Sooner(model, n, a.index, g)))
  }

  /** The same on scores alone, for callers that do not mind ties. */
  lemma GlobalScores(model: Model, n: nat, topN: nat)
    requires Respond(model, n, topN).Results?
    ensures var best := Respond(model, n, topN).results;
            && |best| <= topN
            && (forall i :: 0 <= i < |best| ==> 0 <= best[i].index < n && GlobalScore(model, n, best[i].index) == Some(best[i].score))
            && (forall i, j :: 0 <= i < j < |best| ==> best[i].index != best[j].index && best[i].score >= best[j].score)
            && (forall g :: 0 <= g < n && GlobalScore(model, n, g).Some? ==>
                  || (exists i :: 0 <= i < |best| && best[i].index == g)
                  || (|best| == topN && forall i :: 0 <= i < |best| ==> best[i].score >= GlobalScore(model, n, g).value))
  {
    hide Respond, GlobalScore, Sooner;
    GlobalRanking(model, n, topN);
  }

  lemma MergedIs(model: Model, n: nat)
    ensures Merged(model, n) == MergeBatches(model, n, BatchCount(n))
  {
  }

  lemma Placed(model: Model, n: nat, order: seq<Key>, x: Key)
    requires OrderedSooner(model, n, order) && x in order
    ensures 0 <= x < n
  {
  }

  /** The results are the first entries of the sorted dict, which holds exactly the scored passages. */
  lemma BestIsRanked(model: Model, n: nat, topN: nat) returns (r: seq<Key>)
    requires Respond(model, n, topN).Results?
    ensures var d, best := Merged(model, n), Respond(model, n, topN).results;
            && |best| == (if topN <= |r| then topN else |r|)
            && (forall i :: 0 <= i < |r| ==> r[i] in d.at && 0 <= r[i] < n && GlobalScore(model, n, r[i]) == Some(d.at[r[i]]))
            && (forall i :: 0 <= i < |best| ==> best[i] == Ranked(r[i], d.at[r[i]]))
            && (forall i, j :: 0 <= i < j < |r| ==> r[i] != r[j] && Ahead(d.order, d.at, r[i], r[j]))
            && (forall g :: 0 <= g < n && GlobalScore(model, n, g).Some? ==> g in r && g in d.at && d.at[g] == GlobalScore(model, n, g).value)
  {
    hide Settled, GlobalScore, MergeBatches;
    MergedValid(model, n);
    var d := Merged(model, n);
    ValidScored(d);
    r := SortDescending(d.order, d.at);
    SortIsRanking(d.order, d.at);
    RankingMembers(d.order, d.at, r);
    forall i | 0 <= i < |r| ensures r[i] in d.at && 0 <= r[i] < n && GlobalScore(model, n, r[i]) == Some(d.at[r[i]]) {
      assert r[i] in r;
      MergeBatchesAt(model, n, BatchCount(n), r[i]);
    }
    forall g | 0 <= g < n && GlobalScore(model, n, g).Some? ensures g in r && g in d.at && d.at[g] == GlobalScore(model, n, g).value {
      MergeBatchesAt(model, n, BatchCount(n), g);
    }
  }

  /** Which answer: results exactly when some passage was scored; otherwise 502 exactly when some
      batch got no answer in three attempts, with the error of the last such batch. When every batch
      answered and nothing was scored there is no error to report, and the assertion fails instead. */
  lemma WhichAnswer(model: Model, n: nat, topN: nat)
    ensures var response := Respond(model, n, topN);
            && (response.Results? <==> exists g :: 0 <= g < n && GlobalScore(model, n, g).Some?)
            && (response.AssertionError? <==>
                  && (forall g :: 0 <= g < n ==> GlobalScore(model, n, g) == None)
                  && (forall b :: 0 <= b < BatchCount(n) ==> !Failed(model, n, b)))
            && (response.BadGateway? ==> exists b ::
                  && 0 <= b < BatchCount(n) && Failed(model, n, b)
                  && (forall c :: b < c < BatchCount(n) ==> !Failed(model, n, c))
                  && response.detail == model(b, 2).error)
  {
    MergedValid(model, n);
    KeptErrorMeaning(model, n, BatchCount(n));
    var d := Merged(model, n);
    forall g | 0 <= g < n ensures g in d.order <==> GlobalScore(model, n, g).Some? {
      MergeBatchesAt(model, n, BatchCount(n), g);
    }
    if d.order != [] {
      assert d.order[0] in d.order;
      MergeBatchesAt(model, n, BatchCount(n), d.order[0]);
    }
    if KeptError(model, n, BatchCount(n)) != None { KeptErrorSource(model, n, BatchCount(n)); }
  }

  lemma {:induction false} KeptErrorSource(model: Model, n: nat, b: nat)
    requires b <= BatchCount(n) && KeptError(model, n, b) != None
    ensures exists c :: 0 <= c < b && Failed(model, n, c) && (forall d :: c < d < b ==> !Failed(model, n, d))
                        && KeptError(model, n, b) == Some(model(c, 2).error)
  {
    if Failed(model, n, b - 1) {
      assert KeptError(model, n, b) == Some(model(b - 1, 2).error);
    } else {
      KeptErrorSource(model, n, b - 1);
    }
  }

  /** A concrete request that trips the assertion: one passage, and a model that answers with an
      empty list of scores. */
  lemma EmptyAnswerIsNotA502()
    ensures Respond((b, a) => Scores([]), 1, 7) == AssertionError
  {
    var model: Model := (b, a) => Scores([]);
    WhichAnswer(model, 1, 7);
    assert GlobalScore(model, 1, 0) == None;
    assert BatchCount(1) == 1 && !Failed(model, 1, 0);
  }
}
