/** What holds of the three stores over any history of transactions
    (tradegraph/src/rag/ingestion/pipeline.py:48-212, tradegraph/src/rag/ingestion/dedup.py:53-67). */
module IngestionSafety {
  import opened Helpers
  import opened Versions
  import opened Ingestion

  // ---- Object storage is addressed by content ---------------------------------------------------

  ghost predicate KeyFor(key: string, hash: Digest) {
    exists before: string, ext: string :: key == before + hash + "." + ext && '.' !in ext
  }

  lemma RawKeyIsKeyFor(f: Filing, hash: Digest)
    ensures KeyFor(RawKey(f, hash), hash)
  {
    var before := "raw/sec_edgar/" + Upper(f.ticker) + "/" + f.documentType + "/";
    assert RawKey(f, hash) == before + hash + "." + Extension(f.primaryDocument);
  }

  /** A key names one digest: whatever the ticker, type and extension, filings with different digests never
      share an object. */
  lemma KeyDeterminesHash(key: string, a: Digest, b: Digest)
    requires KeyFor(key, a) && KeyFor(key, b)
    ensures a == b
  {
    var p: string, x: string :| key == p + a + "." + x && '.' !in x;
    var q: string, y: string :| key == q + b + "." + y && '.' !in y;
    SameExtension(p + a, x, q + b, y);
    assert (p + a)[|p|..] == a && (q + b)[|q|..] == b;
    assert |p| == |q| && p + a == q + b;
  }

  lemma SameExtension(a: string, x: string, b: string, y: string)
    requires a + "." + x == b + "." + y && '.' !in x && '.' !in y
    ensures a == b && x == y
  {
    var key := a + "." + x;
    assert key[|a|] == '.' && key[|b|] == '.';
    assert a == key[..|a|] && b == key[..|b|] && x == key[|a| + 1..] && y == key[|b| + 1..];
  }

  lemma {:induction false} AfterLastDotMeaning(s: string)
    requires '.' in s
    ensures exists before: string :: s == before + "." + AfterLastDot(s)
  {
    var n := |s| - 1;
    if s[n] == '.' {
      assert s == s[..n] + "." + "";
    } else {
      AfterLastDotMeaning(s[..n]);
      var before: string :| s[..n] == before + "." + AfterLastDot(s[..n]);
      assert s == before + "." + AfterLastDot(s);
    }
  }

  /** The extension is what follows the last dot of the document's name, and `htm` without a dot. */
  lemma ExtensionMeaning(primaryDocument: string)
    ensures '.' in primaryDocument ==> exists before: string :: primaryDocument == before + "." + Extension(primaryDocument)
    ensures '.' !in Extension(primaryDocument)
    ensures '.' !in primaryDocument ==> Extension(primaryDocument) == "htm"
  {
    if '.' in primaryDocument { AfterLastDotMeaning(primaryDocument); }
  }

  /** Filings share an object exactly when ticker, apart from case, type, digest and extension agree, for tickers
      and types without a slash. */
  lemma SharedObjectExactly(f: Filing, g: Filing, a: Digest, b: Digest)
    requires '/' !in f.ticker && '/' !in g.ticker && '/' !in f.documentType && '/' !in g.documentType
    ensures RawKey(f, a) == RawKey(g, b) <==>
              && Upper(f.ticker) == Upper(g.ticker) && f.documentType == g.documentType && a == b
              && Extension(f.primaryDocument) == Extension(g.primaryDocument)
  {
    UpperSlash(f.ticker);
    UpperSlash(g.ticker);
    hide Upper, Extension;
    SamePath(Upper(f.ticker), f.documentType, a, Extension(f.primaryDocument),
             Upper(g.ticker), g.documentType, b, Extension(g.primaryDocument));
  }

  lemma UpperSlash(s: string)
    requires '/' !in s
    ensures '/' !in Upper(s)
  {
    forall i | 0 <= i < |Upper(s)| ensures Upper(s)[i] != '/' { assert s[i] in s; }
  }

  lemma SamePath(p: string, q: string, a: string, x: string, r: string, t: string, b: string, y: string)
    requires '/' !in p && '/' !in q && '/' !in r && '/' !in t && '.' !in x && '.' !in y
    ensures "raw/sec_edgar/" + p + "/" + q + "/" + a + "." + x == "raw/sec_edgar/" + r + "/" + t + "/" + b + "." + y <==>
              p == r && q == t && a == b && x == y
  {
    var root := "raw/sec_edgar/";
    var one, two := root + p + "/" + q + "/" + a, root + r + "/" + t + "/" + b;
    if one + "." + x == two + "." + y {
      SameExtension(one, x, two, y);
      assert one == root + (p + "/" + (q + "/" + a)) && two == root + (r + "/" + (t + "/" + b));
      assert one[|root|..] == p + "/" + (q + "/" + a) && two[|root|..] == r + "/" + (t + "/" + b);
      SameHead(p, q + "/" + a, r, t + "/" + b);
      SameHead(q, a, t, b);
    }
  }

  /** Two texts with the same part before their first slash. */
  lemma SameHead(a: string, x: string, b: string, y: string)
    requires '/' !in a && '/' !in b
    ensures a + "/" + x == b + "/" + y ==> a == b && x == y
  {
    var s, t := a + "/" + x, b + "/" + y;
    if s == t {
      assert s[|a|] == '/' && t[|b|] == '/';
      assert |a| <= |b| && |b| <= |a| by {
        assert forall i :: 0 <= i < |b| ==> t[i] == b[i] && b[i] in b;
        assert forall i :: 0 <= i < |a| ==> s[i] == a[i] && a[i] in a;
      }
      assert s[..|a|] == a && t[..|b|] == b && s[|a| + 1..] == x && t[|b| + 1..] == y;
    }
  }

  /** Upper-casing changes exactly the letters a to z, each to its capital. */
  lemma UpperMeaning(s: string, i: nat)
    requires i < |s|
    ensures |Upper(s)| == |s|
    ensures 97 <= s[i] as int <= 122 ==> Upper(s)[i] as int == s[i] as int - 32
    ensures !(97 <= s[i] as int <= 122) ==> Upper(s)[i] == s[i]
  {
  }

  /** The key of one filing, written out. */
  lemma KeyExample(f: Filing, hash: Digest)
    requires f.ticker == "nvda" && f.documentType == "10-K" && f.primaryDocument == "nvda.htm"
    ensures RawKey(f, hash) == "raw/sec_edgar/NVDA/10-K/" + hash + ".htm"
  {
    ExampleTicker();
    ExampleExtension();
    hide Upper, Extension;
    assert "raw/sec_edgar/" + "NVDA" + "/" + "10-K" + "/" == "raw/sec_edgar/NVDA/10-K/";
  }

  lemma ExampleTicker()
    ensures Upper("nvda") == "NVDA"
  {
  }

  lemma ExampleExtension()
    ensures Extension("nvda.htm") == "htm"
  {
    var s := "nvda.htm";
    assert s[4] == '.' && s[..5][4] == '.';
    assert s[..7][..6] == s[..6] && s[..6][..5] == s[..5];
    assert AfterLastDot(s[..5]) == "" && AfterLastDot(s[..6]) == "h" && AfterLastDot(s[..7]) == "ht";
  }

  // ---- The invariant ----------------------------------------------------------------------------

  /** What holds of the two stores that do not roll back. */
  ghost predicate Sound(w: World, hashOf: Hashing) {
    && (forall k :: k in w.objects ==> KeyFor(k, hashOf(w.objects[k])))
    && Below(w.points, w.nextId)
  }

  ghost predicate DocumentOk(d: Document, w: World) {
    d.status == Succeeded && d.rawKey in w.objects && KeyFor(d.rawKey, d.contentHash) && d.id < w.nextId
  }

  ghost predicate DocumentsOk(documents: seq<Document>, w: World) {
    && (forall i :: 0 <= i < |documents| ==> DocumentOk(documents[i], w))
    && (forall i, j :: 0 <= i < j < |documents| ==>
          documents[i].id != documents[j].id && documents[i].contentHash != documents[j].contentHash)
  }

  /** The chunk's point carries its ids and text and the filing of its document. */
  ghost predicate ChunkOk(c: ChunkRow, documents: seq<Document>, w: World) {
    && c.pointId in w.points && c.id == c.pointId < w.nextId
    && var p := w.points[c.pointId];
    && p.id == p.chunkId == c.id && p.documentId == c.documentId
    && p.text == c.piece.text && p.section == c.piece.section
    && exists i :: 0 <= i < |documents| && documents[i].id == c.documentId && documents[i].filing == p.filing
  }

  ghost predicate ChunksOk(t: Tables, w: World) {
    && (forall i :: 0 <= i < |t.chunks| ==> ChunkOk(t.chunks[i], t.documents, w))
    && (forall i, j :: 0 <= i < j < |t.chunks| ==> t.chunks[i].id != t.chunks[j].id)
  }

  ghost predicate ChainOk(family: seq<Document>) {
    && (forall k :: 0 <= k < |family| ==> family[k].version == k + 1)
    && (family != [] ==> family[0].supersedes == None)
    && (forall k :: 0 < k < |family| ==> family[k].supersedes == Some(family[k - 1].id))
  }

  ghost predicate VersionsOk(documents: seq<Document>) {
    forall f: Filing :: ChainOk(Family(documents, f))
  }

  ghost predicate GoodTables(t: Tables, w: World) {
    DocumentsOk(t.documents, w) && ChunksOk(t, w) && VersionsOk(t.documents)
  }

  ghost predicate Good(w: World, hashOf: Hashing) { Sound(w, hashOf) && GoodTables(w.tables, w) }

  /** The stores only grow: objects may be written again under their key, points stay as they are, and
      document rows, apart from the status of new ones, only follow earlier ones. */
  ghost predicate Grows(w: World, v: World) {
    && (forall k :: k in w.objects ==> k in v.objects)
    && (forall p :: p in w.points ==> p in v.points && v.points[p] == w.points[p])
    && w.nextId <= v.nextId
  }

  lemma GrownTables(t: Tables, w: World, v: World)
    requires GoodTables(t, w) && Grows(w, v)
    ensures GoodTables(t, v)
  {
    forall i | 0 <= i < |t.documents| ensures DocumentOk(t.documents[i], v) { assert DocumentOk(t.documents[i], w); }
    forall i | 0 <= i < |t.chunks| ensures ChunkOk(t.chunks[i], t.documents, v) { assert ChunkOk(t.chunks[i], t.documents, w); }
  }

  // ---- Stages -----------------------------------------------------------------------------------

  ghost predicate Below(points: map<nat, Point>, bound: nat) { forall p: nat :: p in points ==> p < bound }

  lemma {:induction false} UpsertMeaning(points: map<nat, Point>, batch: seq<Point>, all: bool, reached: set<nat>, first: nat)
    requires Below(points, first)
    requires forall k :: 0 <= k < |batch| ==> batch[k].id == first + k
    ensures Below(Upsert(points, batch, all, reached), first + |batch|)
    ensures var r := Upsert(points, batch, all, reached);
            && (forall p :: p in points ==> p in r && r[p] == points[p])
            && (forall k :: 0 <= k < |batch| && (all || k in reached) ==> batch[k].id in r && r[batch[k].id] == batch[k])
  {
    if batch != [] {
      var n := |batch| - 1;
      UpsertMeaning(points, batch[..n], all, reached, first);
      assert batch[n].id == first + n && |batch[..n]| == n;
    }
  }

  /** Every new chunk has its point once all points are stored. */
  lemma BatchStored(w: World, v: World, d: Document, pieces: seq<Piece>, e: seq<Embedding>, sparse: seq<SparseVector>)
    requires |e| == |pieces| == |sparse| && v.nextId == w.nextId + |pieces|
    requires var batch := Points(w.nextId, d, pieces, e, sparse, |pieces|);
             forall k :: 0 <= k < |batch| ==> batch[k].id in v.points && v.points[batch[k].id] == batch[k]
    ensures var rows := Rows(w.nextId, d.id, pieces, e, |pieces|);
            forall k :: 0 <= k < |rows| ==>
              NewChunkOk(rows[k], d, v) && rows[k].id == w.nextId + k && rows[k].piece == pieces[k]
  {
    var rows, batch := Rows(w.nextId, d.id, pieces, e, |pieces|), Points(w.nextId, d, pieces, e, sparse, |pieces|);
    forall k | 0 <= k < |rows| ensures NewChunkOk(rows[k], d, v) { assert batch[k].id == rows[k].id; }
  }

  /** Indexing leaves documents alone, and on success every new chunk has its point. */
  lemma IndexedMeaning(w: World, d: Document, pieces: seq<Piece>, s: Script, hashOf: Hashing)
    requires Sound(w, hashOf)
    ensures var (v, ok) := Indexed(w, d, pieces, s);
            && Sound(v, hashOf) && Grows(w, v)
            && v.tables.documents == w.tables.documents && w.tables.chunks <= v.tables.chunks
            && (ok ==> |v.tables.chunks| == |w.tables.chunks| + |pieces|)
            && (ok ==> forall i :: |w.tables.chunks| <= i < |v.tables.chunks| ==>
                  NewChunkOk(v.tables.chunks[i], d, v) && v.tables.chunks[i].id == w.nextId + i - |w.tables.chunks|
                  && v.tables.chunks[i].piece == pieces[i - |w.tables.chunks|])
  {
    hide NewChunkOk, Upsert, KeyFor, Below, Rows;
    if pieces != [] && s.embeddings.Some? && s.sparse.Some? && |s.embeddings.value| == |pieces| == |s.sparse.value| {
      var e, sparse := s.embeddings.value, s.sparse.value;
      UpsertMeaning(w.points, Points(w.nextId, d, pieces, e, sparse, |pieces|), s.upserted, s.reached, w.nextId);
      if s.upserted {
        var v, rows := Indexed(w, d, pieces, s).0, Rows(w.nextId, d.id, pieces, e, |pieces|);
        BatchStored(w, v, d, pieces, e, sparse);
        RowsLength(w.nextId, d.id, pieces, e);
        assert v.tables.chunks == w.tables.chunks + rows;
        assert forall i :: |w.tables.chunks| <= i < |v.tables.chunks| ==> v.tables.chunks[i] == rows[i - |w.tables.chunks|];
      }
    } else {
      DrawnBelow(w.points, w.nextId);
    }
  }

  lemma RowsLength(first: nat, documentId: nat, pieces: seq<Piece>, embeddings: seq<Embedding>)
    requires |embeddings| == |pieces|
    ensures |Rows(first, documentId, pieces, embeddings, |pieces|)| == |pieces|
  {
  }

  lemma DrawnBelow(points: map<nat, Point>, bound: nat)
    requires Below(points, bound)
    ensures forall more: nat :: more >= bound ==> Below(points, more)
  {
  }

  ghost predicate NewChunkOk(c: ChunkRow, d: Document, w: World) {
    && c.pointId in w.points && c.id == c.pointId < w.nextId
    && var p := w.points[c.pointId];
    && p.id == p.chunkId == c.id && p.documentId == c.documentId == d.id
    && p.text == c.piece.text && p.section == c.piece.section && p.filing == d.filing
  }

  lemma {:induction false} FindMeaning(documents: seq<Document>, hash: Digest)
    ensures Find(documents, hash) == None <==> forall i :: 0 <= i < |documents| ==> documents[i].contentHash != hash
    ensures Find(documents, hash).Some? ==>
              exists i :: 0 <= i < |documents| && documents[i].contentHash == hash && documents[i].id == Find(documents, hash).value
  {
    if documents != [] { FindMeaning(documents[..|documents| - 1], hash); }
  }

  lemma FamilySnoc(documents: seq<Document>, d: Document, f: Filing)
    ensures Family(documents + [d], f) == Family(documents, f) + if SameIdentity(d.filing, f) then [d] else []
  {
    assert (documents + [d])[..|documents|] == documents;
  }

  lemma {:induction false} FamilyDependsOnIdentity(documents: seq<Document>, f: Filing, g: Filing)
    requires SameIdentity(f, g)
    ensures Family(documents, f) == Family(documents, g)
  {
    if documents != [] { FamilyDependsOnIdentity(documents[..|documents| - 1], f, g); }
  }

  /** The version decided for a new document continues its family's chain. */
  lemma DecisionContinues(documents: seq<Document>, f: Filing)
    requires VersionsOk(documents)
    ensures var decision, family := DetermineVersion(ExistingVersions(documents, f)), Family(documents, f);
            && decision.version == |family| + 1
            && decision.supersedes == if family == [] then None else Some(family[|family| - 1].id)
  {
    var existing, family := ExistingVersions(documents, f), Family(documents, f);
    assert ChainOk(family);
    if family != [] {
      var latest := Latest(existing);
      assert existing[|family| - 1].version <= existing[latest].version;
      assert family[latest].version == latest + 1 && family[|family| - 1].version == |family|;
    }
  }

  lemma NewVersionOk(documents: seq<Document>, d: Document)
    requires VersionsOk(documents)
    requires d.version == DetermineVersion(ExistingVersions(documents, d.filing)).version
    requires d.supersedes == DetermineVersion(ExistingVersions(documents, d.filing)).supersedes
    ensures VersionsOk(documents + [d])
  {
    hide DetermineVersion, ExistingVersions, Family, ChainOk;
    DecisionContinues(documents, d.filing);
    forall f: Filing ensures ChainOk(Family(documents + [d], f)) {
      FamilySnoc(documents, d, f);
      assert ChainOk(Family(documents, f));
      if SameIdentity(d.filing, f) {
        FamilyDependsOnIdentity(documents, d.filing, f);
        LongerChain(Family(documents, f), d);
      } else {
        assert Family(documents, f) + [] == Family(documents, f);
      }
    }
  }

  lemma LongerChain(family: seq<Document>, d: Document)
    requires ChainOk(family) && d.version == |family| + 1
    requires d.supersedes == if family == [] then None else Some(family[|family| - 1].id)
    ensures ChainOk(family + [d])
  {
  }

  // ---- One ingest -------------------------------------------------------------------------------

  /** The document a successful ingest leaves behind. */
  function Finished(w: World, f: Filing, hash: Digest): Document { NewDocument(w, f, hash).(status := Succeeded) }

  lemma ProcessedMeaning(w: World, hashOf: Hashing, f: Filing, hash: Digest, s: Script)
    requires Sound(w, hashOf)
    ensures var (v, outcome) := Processed(w, f, hash, s);
            && Sound(v, hashOf) && Grows(w, v)
            && (outcome != Failed ==>
                  && outcome == Outcome.Ingested(w.nextId, |s.parsed.value|) && s.parsed.Some?
                  && v.tables.documents == w.tables.documents + [Finished(w, f, hash)]
                  && w.tables.chunks <= v.tables.chunks && w.nextId < v.nextId
                  && |v.tables.chunks| == |w.tables.chunks| + |s.parsed.value|
                  && forall i :: |w.tables.chunks| <= i < |v.tables.chunks| ==>
                       NewChunkOk(v.tables.chunks[i], Finished(w, f, hash), v) && v.tables.chunks[i].id == w.nextId + 1 + i - |w.tables.chunks|
                       && v.tables.chunks[i].piece == s.parsed.value[i - |w.tables.chunks|])
  {
    hide Indexed, DetermineVersion, ExistingVersions, RawKey, KeyFor;
    if s.parsed.Some? && s.flushed {
      var d := NewDocument(w, f, hash);
      IndexedMeaning(AddDocument(w, d), d, s.parsed.value, s, hashOf);
    }
  }

  /** Whatever the outcome, the two stores that do not roll back stay sound and only grow. */
  lemma IngestGrows(w: World, hashOf: Hashing, f: Filing, s: Script)
    requires Sound(w, hashOf)
    ensures Sound(Ingest(w, hashOf, f, s).0, hashOf) && Grows(w, Ingest(w, hashOf, f, s).0)
  {
    hide Processed, KeyFor, RawKey;
    if s.fetched.Some? && Find(w.tables.documents, hashOf(s.fetched.value)) == None && !s.put.LostBefore? {
      var hash := hashOf(s.fetched.value);
      RawKeyIsKeyFor(f, hash);
      var put := PutObject(w, RawKey(f, hash), s.fetched.value);
      ProcessedMeaning(put, hashOf, f, hash, s);
    }
  }

  /** From `w` to `v` one finished document and its chunks are added. */
  ghost predicate Added(w: World, v: World, d: Document) {
    && w.nextId < v.nextId && d.id == w.nextId
    && v.tables.documents == w.tables.documents + [d]
    && w.tables.chunks <= v.tables.chunks
    && forall i :: |w.tables.chunks| <= i < |v.tables.chunks| ==>
         NewChunkOk(v.tables.chunks[i], d, v) && v.tables.chunks[i].id == w.nextId + 1 + i - |w.tables.chunks|
  }

  lemma AddedDocuments(w: World, v: World, d: Document)
    requires DocumentsOk(w.tables.documents, w) && Grows(w, v) && Added(w, v, d)
    requires DocumentOk(d, v)
    requires forall i :: 0 <= i < |w.tables.documents| ==> w.tables.documents[i].contentHash != d.contentHash
    ensures DocumentsOk(v.tables.documents, v)
  {
    hide KeyFor, NewChunkOk;
    forall i | 0 <= i < |v.tables.documents| ensures DocumentOk(v.tables.documents[i], v) {
      if i < |w.tables.documents| { assert DocumentOk(w.tables.documents[i], w); }
    }
  }

  lemma AddedChunks(w: World, v: World, d: Document)
    requires ChunksOk(w.tables, w) && Grows(w, v) && Added(w, v, d)
    ensures ChunksOk(v.tables, v)
  {
    var documents := v.tables.documents;
    assert documents[|w.tables.documents|] == d;
    forall i | 0 <= i < |v.tables.chunks| ensures ChunkOk(v.tables.chunks[i], documents, v) {
      if i < |w.tables.chunks| {
        assert ChunkOk(w.tables.chunks[i], w.tables.documents, w);
        forall j | 0 <= j < |w.tables.documents| ensures documents[j] == w.tables.documents[j] {}
      }
    }
    forall i, j | 0 <= i < j < |v.tables.chunks| ensures v.tables.chunks[i].id != v.tables.chunks[j].id {
      if i < |w.tables.chunks| <= j { assert ChunkOk(w.tables.chunks[i], w.tables.documents, w); }
    }
  }

  /** Without a failure the session's rows stay good and no earlier row changes. */
  lemma IngestKeepsGood(w: World, hashOf: Hashing, f: Filing, s: Script)
    requires Good(w, hashOf) && Ingest(w, hashOf, f, s).1 != Failed
    ensures var v := Ingest(w, hashOf, f, s).0;
            Good(v, hashOf) && w.tables.documents <= v.tables.documents && w.tables.chunks <= v.tables.chunks
  {
    hide Processed, KeyFor, RawKey, VersionsOk, DocumentsOk, ChunksOk, NewChunkOk, DetermineVersion, ExistingVersions;
    IngestGrows(w, hashOf, f, s);
    var hash := hashOf(s.fetched.value);
    FindMeaning(w.tables.documents, hash);
    if Find(w.tables.documents, hash) == None {
      var put := PutObject(w, RawKey(f, hash), s.fetched.value);
      IngestGrows(w, hashOf, f, s.(put := LostAfter));
      ProcessedMeaning(put, hashOf, f, hash, s);
      var v, d := Ingest(w, hashOf, f, s).0, Finished(w, f, hash);
      assert v == Processed(put, f, hash, s).0 && d == Finished(put, f, hash) && Added(w, v, d);
      RawKeyIsKeyFor(f, hash);
      AddedDocuments(w, v, d);
      AddedChunks(w, v, d);
      NewVersionOk(w.tables.documents, d);
    }
  }

  // ---- Histories --------------------------------------------------------------------------------

  lemma {:induction false} IngestAllMeaning(w: World, hashOf: Hashing, items: seq<Item>)
    requires Good(w, hashOf)
    ensures var (v, ok) := IngestAll(w, hashOf, items);
            && Sound(v, hashOf) && Grows(w, v)
            && (ok ==> Good(v, hashOf) && w.tables.documents <= v.tables.documents && w.tables.chunks <= v.tables.chunks)
  {
    hide Ingest, Sound, GoodTables;
    if items != [] {
      var n := |items| - 1;
      IngestAllMeaning(w, hashOf, items[..n]);
      var (before, ok) := IngestAll(w, hashOf, items[..n]);
      if ok {
        IngestGrows(before, hashOf, items[n].filing, items[n].script);
        if Ingest(before, hashOf, items[n].filing, items[n].script).1 != Failed {
          IngestKeepsGood(before, hashOf, items[n].filing, items[n].script);
        }
      }
    }
  }

  /** One transaction, committed or rolled back: the stores agree, nothing durable is lost, and every
      committed row stays as it was. */
  lemma TransactionKeepsGood(w: World, hashOf: Hashing, b: Batch)
    requires Good(w, hashOf)
    ensures var v := Transaction(w, hashOf, b);
            Good(v, hashOf) && Grows(w, v) && w.tables.documents <= v.tables.documents && w.tables.chunks <= v.tables.chunks
  {
    hide IngestAll, GoodTables, KeyFor;
    IngestAllMeaning(w, hashOf, b.items);
    var v := Transaction(w, hashOf, b);
    if v.tables == w.tables { GrownTables(w.tables, w, v); }
  }

  lemma EmptyGood(hashOf: Hashing)
    ensures Good(EMPTY, hashOf)
  {
    assert forall f: Filing :: Family([], f) == [];
  }

  /** Over any history of transactions the three stores agree. */
  lemma {:induction false} HistoryGood(hashOf: Hashing, batches: seq<Batch>)
    ensures Good(History(EMPTY, hashOf, batches), hashOf)
  {
    if batches == [] {
      EmptyGood(hashOf);
    } else {
      var n := |batches| - 1;
      HistoryGood(hashOf, batches[..n]);
      TransactionKeepsGood(History(EMPTY, hashOf, batches[..n]), hashOf, batches[n]);
    }
  }

  /** Superseded rows never change: what is committed after some transactions is, row for row, a prefix of
      what is committed after more, and no object or point ever disappears. */
  lemma {:induction false} CommittedRowsStay(hashOf: Hashing, batches: seq<Batch>, k: nat)
    requires k <= |batches|
    ensures var early, late := History(EMPTY, hashOf, batches[..k]), History(EMPTY, hashOf, batches);
            && early.tables.documents <= late.tables.documents && early.tables.chunks <= late.tables.chunks
            && Grows(early, late)
    decreases |batches|
  {
    hide Transaction, Good;
    if k == |batches| {
      assert batches[..k] == batches;
    } else {
      var n := |batches| - 1;
      CommittedRowsStay(hashOf, batches[..n], k);
      assert batches[..n][..k] == batches[..k];
      HistoryGood(hashOf, batches[..n]);
      TransactionKeepsGood(History(EMPTY, hashOf, batches[..n]), hashOf, batches[n]);
    }
  }
}
