/** The three stores and the version chain after any history of transactions
    (tradegraph/src/rag/ingestion/pipeline.py:48-212, tradegraph/src/rag/ingestion/dedup.py:53-67). */
module IngestionHistory {
  import opened Helpers
  import opened Versions
  import opened Ingestion
  import opened IngestionSafety

  /** Every committed document succeeded and its raw bytes are stored under its key and have its digest;
      every committed chunk has a point with its id, document id and text; digests are unique. */
  lemma CrossStoreAgreement(hashOf: Hashing, batches: seq<Batch>)
    ensures var w := History(EMPTY, hashOf, batches);
            && (forall d :: d in w.tables.documents ==>
                  d.status == Succeeded && d.rawKey in w.objects && hashOf(w.objects[d.rawKey]) == d.contentHash)
            && (forall c :: c in w.tables.chunks ==>
                  && c.pointId in w.points
                  && w.points[c.pointId].chunkId == c.id && w.points[c.pointId].documentId == c.documentId
                  && w.points[c.pointId].text == c.piece.text
                  && exists d :: d in w.tables.documents && d.id == c.documentId && d.filing == w.points[c.pointId].filing)
            && (forall i, j :: 0 <= i < j < |w.tables.documents| ==>
                  w.tables.documents[i].contentHash != w.tables.documents[j].contentHash)
  {
    hide History, KeyFor;
    HistoryGood(hashOf, batches);
    var w := History(EMPTY, hashOf, batches);
    forall d | d in w.tables.documents
      ensures d.status == Succeeded && d.rawKey in w.objects && hashOf(w.objects[d.rawKey]) == d.contentHash
    {
      var i :| 0 <= i < |w.tables.documents| && w.tables.documents[i] == d;
      assert DocumentOk(w.tables.documents[i], w);
      KeyDeterminesHash(d.rawKey, d.contentHash, hashOf(w.objects[d.rawKey]));
    }
    forall c | c in w.tables.chunks
      ensures ChunkOk(c, w.tables.documents, w)
      ensures exists d :: d in w.tables.documents && d.id == c.documentId && d.filing == w.points[c.pointId].filing
    {
      var i :| 0 <= i < |w.tables.chunks| && w.tables.chunks[i] == c;
      assert ChunkOk(w.tables.chunks[i], w.tables.documents, w);
      var j :| 0 <= j < |w.tables.documents| && w.tables.documents[j].id == c.documentId
               && w.tables.documents[j].filing == w.points[c.pointId].filing;
      assert w.tables.documents[j] in w.tables.documents;
    }
  }

  /** The fetched bytes decide alone whether an ingest is skipped: exactly when a visible document has their
      digest. It then changes none of the stores and names that document. */
  lemma SkippedExactly(w: World, hashOf: Hashing, f: Filing, s: Script)
    requires s.fetched.Some?
    ensures var (v, outcome) := Ingest(w, hashOf, f, s);
            && (outcome.SkippedDuplicate? <==>
                  exists i :: 0 <= i < |w.tables.documents| && w.tables.documents[i].contentHash == hashOf(s.fetched.value))
            && (outcome.SkippedDuplicate? ==> v == w)
            && (outcome.SkippedDuplicate? ==>
                  exists i :: 0 <= i < |w.tables.documents| && w.tables.documents[i].contentHash == hashOf(s.fetched.value)
                              && w.tables.documents[i].id == outcome.id)
  {
    hide Indexed, RawKey, DetermineVersion, ExistingVersions;
    FindMeaning(w.tables.documents, hashOf(s.fetched.value));
  }

  /** What a successful ingest adds: one finished document with the digest of the fetched bytes, next in its
      family, and one chunk row with its point for every piece, in order. */
  lemma IngestEffect(w: World, hashOf: Hashing, f: Filing, s: Script)
    requires Good(w, hashOf) && Ingest(w, hashOf, f, s).1.Ingested?
    ensures var (v, outcome) := Ingest(w, hashOf, f, s);
            var was, now := w.tables, v.tables;
            && s.fetched.Some? && s.parsed.Some? && outcome.chunks == |s.parsed.value|
            && |now.documents| == |was.documents| + 1 && was.documents <= now.documents
            && (var d := now.documents[|was.documents|];
                && d.id == outcome.id && d.filing == f && d.status == Succeeded
                && d.contentHash == hashOf(s.fetched.value) && d.rawKey == RawKey(f, hashOf(s.fetched.value))
                && d.version == |Family(was.documents, f)| + 1
                && d.supersedes == if Family(was.documents, f) == [] then None
                                   else Some(Family(was.documents, f)[|Family(was.documents, f)| - 1].id))
            && |now.chunks| == |was.chunks| + outcome.chunks && was.chunks <= now.chunks
            && (forall k :: 0 <= k < outcome.chunks ==>
                  var c := now.chunks[|was.chunks| + k];
                  && c.documentId == outcome.id && c.piece == s.parsed.value[k]
                  && c.pointId in v.points && v.points[c.pointId].text == s.parsed.value[k].text)
  {
    hide Indexed, RawKey, DetermineVersion, ExistingVersions, KeyFor, Family, DocumentsOk, ChunksOk;
    var hash := hashOf(s.fetched.value);
    var put := PutObject(w, RawKey(f, hash), s.fetched.value);
    IngestGrows(w, hashOf, f, s.(put := LostAfter));
    ProcessedMeaning(put, hashOf, f, hash, s);
    DecisionContinues(w.tables.documents, f);
    var v := Ingest(w, hashOf, f, s).0;
    forall k | 0 <= k < |s.parsed.value|
      ensures NewChunkOk(v.tables.chunks[|w.tables.chunks| + k], Finished(put, f, hash), v)
      ensures v.tables.chunks[|w.tables.chunks| + k].piece == s.parsed.value[k] {}
  }

  /** Exactly when an ingest succeeds: the bytes are fetched, new, and stored; they parse; the row is flushed; and unless
      there is nothing to index, every piece gets an embedding and a sparse vector and the upsert succeeds. */
  lemma SucceedsExactly(w: World, hashOf: Hashing, f: Filing, s: Script)
    ensures Ingest(w, hashOf, f, s).1.Ingested? <==>
              && s.fetched.Some? && s.put.Stored? && s.parsed.Some? && s.flushed
              && (forall d :: d in w.tables.documents ==> d.contentHash != hashOf(s.fetched.value))
              && (s.parsed.value == []
                  || (&& s.embeddings.Some? && s.sparse.Some? && s.upserted
                      && |s.embeddings.value| == |s.parsed.value| && |s.sparse.value| == |s.parsed.value|))
  {
    hide RawKey, DetermineVersion, ExistingVersions, Upsert, Rows, Points, MarkSucceeded;
    if s.fetched.Some? {
      var documents, hash := w.tables.documents, hashOf(s.fetched.value);
      FindMeaning(documents, hash);
      assert (forall d :: d in documents ==> d.contentHash != hash) <==> (forall i :: 0 <= i < |documents| ==> documents[i].contentHash != hash) by {
        forall i | 0 <= i < |documents| ensures documents[i] in documents {}
      }
    }
  }

  /** The vectors a successful ingest stores: every new chunk's point has the embedding and the sparse vector
      computed for that very chunk, and the filing's own fields. */
  lemma VectorsOfTheirChunks(w: World, hashOf: Hashing, f: Filing, s: Script)
    requires Sound(w, hashOf) && Ingest(w, hashOf, f, s).1.Ingested? && Ingest(w, hashOf, f, s).1.chunks > 0
    ensures var (v, outcome) := Ingest(w, hashOf, f, s);
            && s.embeddings.Some? && s.sparse.Some? && |s.embeddings.value| == |s.sparse.value| == outcome.chunks
            && |v.tables.chunks| == |w.tables.chunks| + outcome.chunks
            && forall k :: 0 <= k < outcome.chunks ==>
                 var c := v.tables.chunks[|w.tables.chunks| + k];
                 && c.model == s.embeddings.value[k].model && c.pointId in v.points
                 && v.points[c.pointId].dense == s.embeddings.value[k].vector
                 && v.points[c.pointId].sparse == s.sparse.value[k] && v.points[c.pointId].filing == f
  {
    hide RawKey, DetermineVersion, ExistingVersions, KeyFor, Upsert, Below;
    var hash := hashOf(s.fetched.value);
    var put := PutObject(w, RawKey(f, hash), s.fetched.value);
    var d := NewDocument(put, f, hash);
    var first, pieces := w.nextId + 1, s.parsed.value;
    var batch := Points(first, d, pieces, s.embeddings.value, s.sparse.value, |pieces|);
    MoreIds(w.points, w.nextId);
    UpsertMeaning(w.points, batch, s.upserted, s.reached, first);
    var v := Ingest(w, hashOf, f, s).0;
    assert v.points == Upsert(w.points, batch, true, s.reached);
    forall k | 0 <= k < |pieces|
      ensures v.tables.chunks[|w.tables.chunks| + k] == ChunkRow(first + k, d.id, pieces[k], s.embeddings.value[k].model, first + k)
      ensures first + k in v.points && v.points[first + k] == batch[k]
    {
      assert batch[k].id == first + k;
    }
  }

  lemma MoreIds(points: map<nat, Point>, bound: nat)
    requires Below(points, bound)
    ensures Below(points, bound + 1)
  {
  }

  /** Raw bytes first: whatever fails later, rows and points are only ever added after the untouched bytes
      are in object storage, under a key with their digest. */
  lemma RawBytesFirst(w: World, hashOf: Hashing, f: Filing, s: Script)
    ensures var v := Ingest(w, hashOf, f, s).0;
            v.tables != w.tables || v.points != w.points ==>
              && s.fetched.Some? && KeyFor(RawKey(f, hashOf(s.fetched.value)), hashOf(s.fetched.value))
              && RawKey(f, hashOf(s.fetched.value)) in v.objects
              && v.objects[RawKey(f, hashOf(s.fetched.value))] == s.fetched.value
  {
    hide RawKey, DetermineVersion, ExistingVersions, KeyFor, Upsert, Rows, Points;
    if s.fetched.Some? { RawKeyIsKeyFor(f, hashOf(s.fetched.value)); }
  }

  /** Ingesting again what was just ingested, even as another filing, is skipped and changes nothing. */
  lemma ReingestChangesNothing(w: World, hashOf: Hashing, f: Filing, s: Script, g: Filing, again: Script)
    requires Good(w, hashOf) && Ingest(w, hashOf, f, s).1.Ingested?
    requires again.fetched == s.fetched
    ensures var (v, outcome) := Ingest(w, hashOf, f, s);
            Ingest(v, hashOf, g, again) == (v, SkippedDuplicate(outcome.id))
  {
    hide Indexed, RawKey, DetermineVersion, ExistingVersions, GoodTables, KeyFor;
    var raw := s.fetched.value;
    var put := PutObject(w, RawKey(f, hashOf(raw)), raw);
    IngestGrows(w, hashOf, f, s.(put := LostAfter));
    ProcessedMeaning(put, hashOf, f, hashOf(raw), s);
    var v := Ingest(w, hashOf, f, s).0;
    var documents := v.tables.documents;
    assert documents[|documents| - 1] == Finished(put, f, hashOf(raw));
  }

  /** Committing after a failed ingest would be safe exactly when it failed before the document row was
      added: with the fetch, the object storage write or the parse. */
  lemma CommitAfterFailureExactly(w: World, hashOf: Hashing, f: Filing, s: Script)
    requires Good(w, hashOf) && Ingest(w, hashOf, f, s).1 == Failed
    ensures var v := Ingest(w, hashOf, f, s).0;
            GoodTables(v.tables, v) <==> s.fetched.None? || !s.put.Stored? || s.parsed.None?
  {
    hide RawKey, DetermineVersion, ExistingVersions, KeyFor, VersionsOk, ChunkOk, Upsert, Rows, Points;
    IngestGrows(w, hashOf, f, s);
    var v := Ingest(w, hashOf, f, s).0;
    if s.fetched.None? || !s.put.Stored? || s.parsed.None? {
      GrownTables(w.tables, w, v);
    } else {
      var n := |w.tables.documents|;
      assert v.tables.documents[n].status == Pending;
      assert GoodTables(v.tables, v) ==> DocumentOk(v.tables.documents[n], v);
    }
  }

  // ---- Versions ---------------------------------------------------------------------------------

  lemma {:induction false} FamilyPrefix(documents: seq<Document>, f: Filing, k: nat)
    requires k <= |documents|
    ensures Family(documents[..k], f) <= Family(documents, f)
    decreases |documents|
  {
    if k == |documents| {
      assert documents[..k] == documents;
    } else {
      var n := |documents| - 1;
      FamilyPrefix(documents[..n], f, k);
      assert documents[..n][..k] == documents[..k];
    }
  }

  /** The document at position `i` is its family's next one: it opens the chain, or it supersedes the
      family's latest document before it. */
  ghost predicate Continues(documents: seq<Document>, i: nat)
    requires i < |documents|
  {
    var d := documents[i];
    if d.supersedes == None then d.version == 1
    else exists j :: 0 <= j < i && documents[j].id == d.supersedes.value && documents[j].version == d.version - 1
                     && documents[j].filing.ticker == d.filing.ticker
                     && documents[j].filing.documentType == d.filing.documentType
                     && documents[j].filing.filingDate == d.filing.filingDate
  }

  lemma EachContinues(documents: seq<Document>, i: nat)
    requires VersionsOk(documents) && i < |documents|
    ensures Continues(documents, i)
  {
    var d := documents[i];
    var before := Family(documents[..i], d.filing);
    assert ChainOk(Family(documents, d.filing));
    FamilySnoc(documents[..i], d, d.filing);
    assert documents[..i + 1] == documents[..i] + [d];
    FamilyPrefix(documents, d.filing, i + 1);
    var family := Family(documents, d.filing);
    assert before + [d] <= family && family[|before|] == d;
    if before != [] {
      var last := before[|before| - 1];
      assert family[|before| - 1] == last && last in documents[..i];
      var j :| 0 <= j < i && documents[j] == last;
    }
  }

  /** A family is exactly the documents with the filing's ticker, type and filing date. */
  lemma FamilyExactly(documents: seq<Document>, f: Filing)
    ensures forall d :: d in Family(documents, f) <==>
              && d in documents && d.filing.ticker == f.ticker && d.filing.documentType == f.documentType
              && d.filing.filingDate == f.filingDate
  {
    FamilyComplete(documents, f);
    var family := Family(documents, f);
    forall d | d in family ensures d in documents && SameIdentity(d.filing, f) {
      var k :| 0 <= k < |family| && family[k] == d;
    }
  }

  /** After any history: documents that share ticker, type and filing date, and no others, form a chain. They carry
      exactly the versions 1 to n, oldest first; each supersedes the one before; and superseding always
      points to an earlier document with the same three fields, so no chain ever returns to where it started. */
  lemma VersionChain(hashOf: Hashing, batches: seq<Batch>, f: Filing)
    ensures var documents := History(EMPTY, hashOf, batches).tables.documents;
            var family := Family(documents, f);
            && (forall k :: 0 <= k < |family| ==> family[k].version == k + 1)
            && (family != [] ==> family[0].supersedes == None)
            && (forall k :: 0 < k < |family| ==> family[k].supersedes == Some(family[k - 1].id))
            && (forall d :: d in family <==>
                  && d in documents && d.filing.ticker == f.ticker && d.filing.documentType == f.documentType
                  && d.filing.filingDate == f.filingDate)
            && (forall i :: 0 <= i < |documents| ==> Continues(documents, i))
  {
    hide History, Family;
    HistoryGood(hashOf, batches);
    var documents := History(EMPTY, hashOf, batches).tables.documents;
    assert ChainOk(Family(documents, f));
    FamilyExactly(documents, f);
    forall i | 0 <= i < |documents| ensures Continues(documents, i) { EachContinues(documents, i); }
  }

  /** After any history, a new document opens a chain exactly when no visible document has its ticker, type and
      filing date; otherwise it supersedes one that has them. */
  lemma OpensChainExactly(hashOf: Hashing, batches: seq<Batch>, f: Filing, s: Script)
    requires Ingest(History(EMPTY, hashOf, batches), hashOf, f, s).1.Ingested?
    ensures var w := History(EMPTY, hashOf, batches);
            var was, now := w.tables.documents, Ingest(w, hashOf, f, s).0.tables.documents;
            && |now| == |was| + 1
            && var d := now[|was|];
            && (d.version == 1 <==> d.supersedes == None)
            && (d.version == 1 <==> forall e :: e in was ==>
                  e.filing.ticker != f.ticker || e.filing.documentType != f.documentType || e.filing.filingDate != f.filingDate)
            && (d.version > 1 ==> exists e ::
                  && e in was && d.supersedes == Some(e.id) && e.version == d.version - 1
                  && e.filing.ticker == f.ticker && e.filing.documentType == f.documentType && e.filing.filingDate == f.filingDate)
  {
    hide History, Ingest, Family, Good;
    HistoryGood(hashOf, batches);
    var w := History(EMPTY, hashOf, batches);
    IngestEffect(w, hashOf, f, s);
    FamilyExactly(w.tables.documents, f);
    var family := Family(w.tables.documents, f);
    assert ChainOk(family) by { GoodChain(w, hashOf, f); }
    if family != [] { assert family[|family| - 1] in family; }
  }

  lemma GoodChain(w: World, hashOf: Hashing, f: Filing)
    requires Good(w, hashOf)
    ensures ChainOk(Family(w.tables.documents, f))
  {
  }

  lemma {:induction false} FamilyComplete(documents: seq<Document>, f: Filing)
    ensures forall d :: d in documents && SameIdentity(d.filing, f) ==> d in Family(documents, f)
  {
    if documents != [] {
      var n := |documents| - 1;
      FamilyComplete(documents[..n], f);
      forall d | d in documents && SameIdentity(d.filing, f) ensures d in Family(documents, f) {
        assert d in documents[..n] || d == documents[n];
      }
    }
  }
}
