/** Points in the vector index without a chunk row: what a rolled-back transaction leaves behind
    (tradegraph/src/rag/ingestion/pipeline.py:173-181). */
module IngestionOrphans {
  import opened Helpers
  import opened Versions
  import opened Ingestion
  import opened IngestionSafety

  ghost predicate Owned(p: nat, chunks: seq<ChunkRow>) { exists i :: 0 <= i < |chunks| && chunks[i].pointId == p }

  /** No point is without a chunk row. */
  ghost predicate NoOrphan(w: World) { forall p :: p in w.points ==> Owned(p, w.tables.chunks) }

  lemma {:induction false} UpsertAddsOnly(points: map<nat, Point>, batch: seq<Point>, all: bool, reached: set<nat>)
    ensures forall p :: p in Upsert(points, batch, all, reached) ==>
              p in points || exists k :: 0 <= k < |batch| && batch[k].id == p
  {
    if batch != [] {
      var n := |batch| - 1;
      UpsertAddsOnly(points, batch[..n], all, reached);
      forall p | p in Upsert(points, batch, all, reached) ensures p in points || exists k :: 0 <= k < |batch| && batch[k].id == p {
        if p !in points && p != batch[n].id {
          var k :| 0 <= k < |batch[..n]| && batch[..n][k].id == p;
          assert batch[k].id == p;
        }
      }
    }
  }

  lemma IndexedOwned(w: World, d: Document, pieces: seq<Piece>, s: Script)
    requires NoOrphan(w) && Indexed(w, d, pieces, s).1
    ensures NoOrphan(Indexed(w, d, pieces, s).0)
  {
    hide Upsert;
    if pieces != [] {
      var v, n := Indexed(w, d, pieces, s).0, |pieces|;
      var batch := Points(w.nextId, d, pieces, s.embeddings.value, s.sparse.value, n);
      UpsertAddsOnly(w.points, batch, s.upserted, s.reached);
      forall p | p in v.points ensures Owned(p, v.tables.chunks) {
        if p in w.points {
          assert Owned(p, w.tables.chunks);
          var i :| 0 <= i < |w.tables.chunks| && w.tables.chunks[i].pointId == p;
          assert v.tables.chunks[i].pointId == p;
        } else {
          var k :| 0 <= k < |batch| && batch[k].id == p;
          assert v.tables.chunks[|w.tables.chunks| + k].pointId == p;
        }
      }
    }
  }

  lemma IngestOwned(w: World, hashOf: Hashing, f: Filing, s: Script)
    requires NoOrphan(w) && Ingest(w, hashOf, f, s).1 != Failed
    ensures NoOrphan(Ingest(w, hashOf, f, s).0)
  {
    hide Indexed, Owned, RawKey, DetermineVersion, ExistingVersions;
    if s.parsed.Some? && Find(w.tables.documents, hashOf(s.fetched.value)) == None {
      var hash := hashOf(s.fetched.value);
      var put := PutObject(w, RawKey(f, hash), s.fetched.value);
      var d := NewDocument(put, f, hash);
      IndexedOwned(AddDocument(put, d), d, s.parsed.value, s);
    }
  }

  lemma {:induction false} IngestAllOwned(w: World, hashOf: Hashing, items: seq<Item>)
    requires NoOrphan(w) && IngestAll(w, hashOf, items).1
    ensures NoOrphan(IngestAll(w, hashOf, items).0)
  {
    hide Ingest, NoOrphan;
    if items != [] {
      var n := |items| - 1;
      IngestAllOwned(w, hashOf, items[..n]);
      IngestOwned(IngestAll(w, hashOf, items[..n]).0, hashOf, items[n].filing, items[n].script);
    }
  }

  lemma IngestAddsNewIds(w: World, hashOf: Hashing, f: Filing, s: Script)
    requires Sound(w, hashOf) && Ingest(w, hashOf, f, s).1 != Failed
    ensures NewIds(w.tables, Ingest(w, hashOf, f, s).0.tables, w.nextId)
  {
    hide Processed, RawKey, DetermineVersion, ExistingVersions, KeyFor;
    if Find(w.tables.documents, hashOf(s.fetched.value)) == None {
      var hash := hashOf(s.fetched.value);
      var put := PutObject(w, RawKey(f, hash), s.fetched.value);
      IngestGrows(w, hashOf, f, s.(put := LostAfter));
      ProcessedMeaning(put, hashOf, f, hash, s);
      var v := Ingest(w, hashOf, f, s).0;
      forall i | |w.tables.chunks| <= i < |v.tables.chunks| ensures v.tables.chunks[i].pointId >= w.nextId {
        assert NewChunkOk(v.tables.chunks[i], Finished(put, f, hash), v);
      }
    }
  }

  /** Chunks are only added, with points numbered from `from` on. */
  ghost predicate NewIds(t: Tables, u: Tables, from: nat) {
    t.chunks <= u.chunks && forall i :: |t.chunks| <= i < |u.chunks| ==> u.chunks[i].pointId >= from
  }

  lemma {:induction false} IngestAllAddsNewIds(w: World, hashOf: Hashing, items: seq<Item>)
    requires Good(w, hashOf) && IngestAll(w, hashOf, items).1
    ensures NewIds(w.tables, IngestAll(w, hashOf, items).0.tables, w.nextId)
  {
    hide Ingest, Good;
    if items != [] {
      var n := |items| - 1;
      IngestAllAddsNewIds(w, hashOf, items[..n]);
      IngestAllMeaning(w, hashOf, items[..n]);
      var before := IngestAll(w, hashOf, items[..n]).0;
      assert Sound(before, hashOf);
      IngestAddsNewIds(before, hashOf, items[n].filing, items[n].script);
    }
  }

  predicate Commits(w: World, hashOf: Hashing, b: Batch) { IngestAll(w, hashOf, b.items).1 && b.commits }

  /** The transaction stored no point that was not there. */
  predicate StoresNoPoint(w: World, hashOf: Hashing, b: Batch) { IngestAll(w, hashOf, b.items).0.points.Keys == w.points.Keys }

  lemma StillOrphan(w: World, v: World, p: nat)
    requires p in w.points && !Owned(p, w.tables.chunks) && NewIds(w.tables, v.tables, w.nextId) && Below(w.points, w.nextId)
    ensures !Owned(p, v.tables.chunks)
  {
    forall i | 0 <= i < |v.tables.chunks| ensures v.tables.chunks[i].pointId != p {
      if i < |w.tables.chunks| { assert w.tables.chunks[i].pointId != p; }
    }
  }

  lemma CommittedOrphans(w: World, hashOf: Hashing, b: Batch)
    requires Good(w, hashOf) && Commits(w, hashOf, b)
    ensures NoOrphan(Transaction(w, hashOf, b)) <==> NoOrphan(w)
  {
    hide IngestAll, Owned, GoodTables, KeyFor;
    IngestAllMeaning(w, hashOf, b.items);
    IngestAllAddsNewIds(w, hashOf, b.items);
    var v := Transaction(w, hashOf, b);
    if NoOrphan(w) {
      IngestAllOwned(w, hashOf, b.items);
    } else {
      var p: nat :| p in w.points && !Owned(p, w.tables.chunks);
      StillOrphan(w, v, p);
    }
  }

  lemma RolledBackOrphans(w: World, hashOf: Hashing, b: Batch)
    requires Good(w, hashOf) && !Commits(w, hashOf, b)
    ensures NoOrphan(Transaction(w, hashOf, b)) <==> NoOrphan(w) && StoresNoPoint(w, hashOf, b)
  {
    hide IngestAll, Owned, KeyFor;
    IngestAllMeaning(w, hashOf, b.items);
    var v := Transaction(w, hashOf, b);
    assert v.tables == w.tables && v.points == IngestAll(w, hashOf, b.items).0.points;
    if NoOrphan(v) {
      assert NoOrphan(w);
      OwnedHavePoints(w);
      forall p: nat ensures p in v.points.Keys <==> p in w.points.Keys {}
    }
  }

  // ---- On the scripts ---------------------------------------------------------------------------

  /** The ingest gets as far as the vector index, and at least one of its points is stored there. */
  predicate ReachesIndex(w: World, hashOf: Hashing, s: Script) {
    && s.fetched.Some? && Find(w.tables.documents, hashOf(s.fetched.value)) == None && s.put.Stored?
    && s.parsed.Some? && s.parsed.value != [] && s.flushed
    && s.embeddings.Some? && s.sparse.Some? && |s.embeddings.value| == |s.parsed.value| == |s.sparse.value|
    && (s.upserted || exists k :: 0 <= k < |s.parsed.value| && k in s.reached)
  }

  lemma {:induction false} UpsertNothing(points: map<nat, Point>, batch: seq<Point>, reached: set<nat>)
    requires forall k :: 0 <= k < |batch| ==> k !in reached
    ensures Upsert(points, batch, false, reached) == points
  {
    if batch != [] { UpsertNothing(points, batch[..|batch| - 1], reached); }
  }

  lemma IndexedPoints(w: World, d: Document, pieces: seq<Piece>, s: Script)
    requires Below(w.points, w.nextId)
    ensures Indexed(w, d, pieces, s).0.points.Keys == w.points.Keys <==>
              !(&& pieces != [] && s.embeddings.Some? && s.sparse.Some? && |s.embeddings.value| == |pieces| == |s.sparse.value|
                && (s.upserted || exists k :: 0 <= k < |pieces| && k in s.reached))
  {
    hide Upsert;
    if pieces != [] && s.embeddings.Some? && s.sparse.Some? && |s.embeddings.value| == |pieces| == |s.sparse.value| {
      var batch := Points(w.nextId, d, pieces, s.embeddings.value, s.sparse.value, |pieces|);
      UpsertMeaning(w.points, batch, s.upserted, s.reached, w.nextId);
      assert batch[0].id == w.nextId;
      if !s.upserted && forall k :: 0 <= k < |pieces| ==> k !in s.reached { UpsertNothing(w.points, batch, s.reached); }
      if k :| 0 <= k < |pieces| && (s.upserted || k in s.reached) {
        assert batch[k].id !in w.points && batch[k].id in Indexed(w, d, pieces, s).0.points;
      }
    }
  }

  lemma IngestPoints(w: World, hashOf: Hashing, f: Filing, s: Script)
    requires Sound(w, hashOf)
    ensures Ingest(w, hashOf, f, s).0.points.Keys == w.points.Keys <==> !ReachesIndex(w, hashOf, s)
  {
    hide Indexed, RawKey, DetermineVersion, ExistingVersions, KeyFor;
    if s.fetched.Some? && Find(w.tables.documents, hashOf(s.fetched.value)) == None && s.put.Stored? && s.parsed.Some? && s.flushed {
      var hash := hashOf(s.fetched.value);
      var put := PutObject(w, RawKey(f, hash), s.fetched.value);
      var d := NewDocument(put, f, hash);
      var added := AddDocument(put, d);
      assert Below(added.points, added.nextId);
      IndexedPoints(added, d, s.parsed.value, s);
    }
  }

  /** Some item of the transaction that was come to stored a point. */
  ghost predicate Indexes(w: World, hashOf: Hashing, items: seq<Item>) {
    exists i :: 0 <= i < |items| && ItemIndexes(w, hashOf, items, i)
  }

  predicate ItemIndexes(w: World, hashOf: Hashing, items: seq<Item>, i: nat)
    requires i < |items|
  {
    IngestAll(w, hashOf, items[..i]).1 && ReachesIndex(IngestAll(w, hashOf, items[..i]).0, hashOf, items[i].script)
  }

  lemma {:induction false} IngestAllPoints(w: World, hashOf: Hashing, items: seq<Item>)
    requires Good(w, hashOf)
    ensures IngestAll(w, hashOf, items).0.points.Keys == w.points.Keys <==> !Indexes(w, hashOf, items)
  {
    hide Ingest, Sound, GoodTables, ReachesIndex;
    if items != [] {
      var n := |items| - 1;
      IngestAllPoints(w, hashOf, items[..n]);
      IngestAllMeaning(w, hashOf, items[..n]);
      EarlierItems(w, hashOf, items);
      var (before, ok) := IngestAll(w, hashOf, items[..n]);
      if ok {
        IngestPoints(before, hashOf, items[n].filing, items[n].script);
        IngestGrows(before, hashOf, items[n].filing, items[n].script);
      }
    }
  }

  lemma EarlierItems(w: World, hashOf: Hashing, items: seq<Item>)
    requires items != []
    ensures var n := |items| - 1; Indexes(w, hashOf, items) <==> Indexes(w, hashOf, items[..n]) || ItemIndexes(w, hashOf, items, n)
  {
    hide ReachesIndex, IngestAll;
    var n := |items| - 1;
    forall i | 0 <= i < n ensures ItemIndexes(w, hashOf, items[..n], i) <==> ItemIndexes(w, hashOf, items, i) {
      assert items[..n][..i] == items[..i] && items[..n][i] == items[i];
    }
    if i :| 0 <= i < |items| && ItemIndexes(w, hashOf, items, i) { assert i == n || ItemIndexes(w, hashOf, items[..n], i); }
    if i :| 0 <= i < n && ItemIndexes(w, hashOf, items[..n], i) { assert ItemIndexes(w, hashOf, items, i); }
  }

  /** Transaction `k` commits, or no item of it stored a point. */
  ghost predicate Tidy(hashOf: Hashing, batches: seq<Batch>, k: nat)
    requires k < |batches|
  {
    var w := History(EMPTY, hashOf, batches[..k]);
    Commits(w, hashOf, batches[k]) || !Indexes(w, hashOf, batches[k].items)
  }

  /** Exactly when no point is without a chunk row, after any history: when every transaction that was rolled
      back had come to no item that stored a point. Orphans stay for good. */
  lemma {:induction false} NoOrphanExactly(hashOf: Hashing, batches: seq<Batch>)
    ensures NoOrphan(History(EMPTY, hashOf, batches)) <==> forall k :: 0 <= k < |batches| ==> Tidy(hashOf, batches, k)
  {
    hide Transaction, NoOrphan, Commits, StoresNoPoint, Indexes, Good;
    if batches == [] {
      NothingOrphaned();
    } else {
      var n := |batches| - 1;
      NoOrphanExactly(hashOf, batches[..n]);
      forall k | 0 <= k < n ensures Tidy(hashOf, batches[..n], k) <==> Tidy(hashOf, batches, k) {
        assert batches[..n][k] == batches[k] && batches[..n][..k] == batches[..k];
      }
      var w := History(EMPTY, hashOf, batches[..n]);
      HistoryGood(hashOf, batches[..n]);
      assert StoresNoPoint(w, hashOf, batches[n]) <==> !Indexes(w, hashOf, batches[n].items) by {
        IngestAllPoints(w, hashOf, batches[n].items);
        PointKeys(w, hashOf, batches[n]);
      }
      assert Tidy(hashOf, batches, n) <==> Commits(w, hashOf, batches[n]) || !Indexes(w, hashOf, batches[n].items);
      assert (forall k :: 0 <= k < |batches| ==> Tidy(hashOf, batches, k)) <==>
        (forall k :: 0 <= k < n ==> Tidy(hashOf, batches, k)) && Tidy(hashOf, batches, n);
      if Commits(w, hashOf, batches[n]) { CommittedOrphans(w, hashOf, batches[n]); }
      else { RolledBackOrphans(w, hashOf, batches[n]); }
    }
  }

  lemma PointKeys(w: World, hashOf: Hashing, b: Batch)
    ensures StoresNoPoint(w, hashOf, b) <==> IngestAll(w, hashOf, b.items).0.points.Keys == w.points.Keys
  {
  }

  /** A concrete orphan: the one point of a filing reaches the index although the upsert raises, and the
      transaction is rolled back. */
  lemma OrphanLeft(hashOf: Hashing, f: Filing, raw: Bytes, piece: Piece, e: Embedding, v: SparseVector)
    ensures var script := Script(Some(raw), Stored, Some([piece]), true, Some([e]), Some([v]), false, {0});
            !NoOrphan(History(EMPTY, hashOf, [Batch([Item(f, script)], true)]))
  {
    hide NoOrphan, History, RawKey, DetermineVersion, ExistingVersions;
    var script := Script(Some(raw), Stored, Some([piece]), true, Some([e]), Some([v]), false, {0});
    var items := [Item(f, script)];
    var batches := [Batch(items, true)];
    assert batches[..0] == [] && History(EMPTY, hashOf, batches[..0]) == EMPTY by { Beginning(hashOf); }
    assert items[..0] == [] && IngestAll(EMPTY, hashOf, items[..0]) == (EMPTY, true);
    assert ReachesIndex(EMPTY, hashOf, script) by { assert 0 in script.reached; }
    assert ItemIndexes(EMPTY, hashOf, items, 0);
    assert !IngestAll(EMPTY, hashOf, items).1;
    assert !Tidy(hashOf, batches, 0);
    NoOrphanExactly(hashOf, batches);
  }

  lemma Beginning(hashOf: Hashing)
    ensures History(EMPTY, hashOf, []) == EMPTY
  {
  }

  lemma NothingOrphaned()
    ensures NoOrphan(EMPTY)
  {
  }

  /** And then the vector index holds exactly the points of the committed chunks. */
  lemma OrphansOnlyFromFailures(hashOf: Hashing, batches: seq<Batch>)
    requires forall k :: 0 <= k < |batches| ==> Tidy(hashOf, batches, k)
    ensures var w := History(EMPTY, hashOf, batches);
            forall p: nat :: p in w.points <==> Owned(p, w.tables.chunks)
  {
    hide Owned, NoOrphan, Tidy;
    NoOrphanExactly(hashOf, batches);
    HistoryGood(hashOf, batches);
    OwnedHavePoints(History(EMPTY, hashOf, batches));
  }

  lemma OwnedHavePoints(w: World)
    requires ChunksOk(w.tables, w) && NoOrphan(w)
    ensures forall p: nat :: p in w.points <==> Owned(p, w.tables.chunks)
  {
    forall p: nat | Owned(p, w.tables.chunks) ensures p in w.points {
      var i :| 0 <= i < |w.tables.chunks| && w.tables.chunks[i].pointId == p;
      assert ChunkOk(w.tables.chunks[i], w.tables.documents, w);
    }
  }
}
