/** Ingesting a filing into three stores: object storage, the relational database and the vector index
    (tradegraph/src/rag/ingestion/pipeline.py:48-212). Object storage and the vector index keep what is
    written to them; database rows stay with the session until it commits. Every answer of another
    service, failures included, comes from a script. Ids are drawn from a supply that never repeats. */
module Ingestion {
  import opened Helpers
  import opened Versions

  type Bytes = seq<bv8>
  type Digest = s: string | |s| == 64 witness seq(64, _ => '0')
  type Hashing = Bytes -> Digest

  datatype Filing = Filing(company: string, ticker: string, documentType: string, filingDate: int,
                           url: string, primaryDocument: string)

  datatype Status = Pending | Succeeded

  datatype Document = Document(id: nat, filing: Filing, version: int, supersedes: Option<nat>, contentHash: Digest,
                               rawKey: string, status: Status)

  datatype Piece = Piece(section: string, index: nat, table: bool, text: string, tokenCount: nat)
  datatype Embedding = Embedding(vector: seq<real>, model: string)
  datatype SparseVector = SparseVector(indices: seq<int>, values: seq<real>)

  datatype ChunkRow = ChunkRow(id: nat, documentId: nat, piece: Piece, model: string, pointId: nat)
  datatype Point = Point(id: nat, dense: seq<real>, sparse: SparseVector, filing: Filing, documentId: nat,
                         chunkId: nat, text: string, section: string)

  datatype Put = Stored | LostBefore | LostAfter

  /** What the other services answer: None or false is an exception. A failed write to object storage or to
      the vector index may have reached the store all the same, the latter for any of its points. */
  datatype Script = Script(fetched: Option<Bytes>, put: Put, parsed: Option<seq<Piece>>, flushed: bool,
                           embeddings: Option<seq<Embedding>>, sparse: Option<seq<SparseVector>>,
                           upserted: bool, reached: set<nat>)

  datatype Outcome = Failed | SkippedDuplicate(id: nat) | Ingested(id: nat, chunks: nat)

  datatype Tables = Tables(documents: seq<Document>, chunks: seq<ChunkRow>)

  /** The stores as the session sees them. `puts` lists the keys of all writes object storage has taken, in order. */
  datatype World = World(objects: map<string, Bytes>, points: map<nat, Point>, tables: Tables, nextId: nat, puts: seq<string>)

  // ---- Keys -------------------------------------------------------------------------------------

  function Upper(s: string): string {
    seq(|s|, i requires 0 <= i < |s| => if 'a' <= s[i] <= 'z' then s[i] - 'a' + 'A' else s[i])
  }

  /** What follows the last dot. */
  function AfterLastDot(s: string): (r: string)
    ensures '.' !in r
  {
    if s == "" || s[|s| - 1] == '.' then "" else AfterLastDot(s[..|s| - 1]) + [s[|s| - 1]]
  }

  function Extension(primaryDocument: string): (r: string)
    ensures '.' !in r
  {
    if '.' in primaryDocument then AfterLastDot(primaryDocument) else "htm"
  }

  function RawKey(f: Filing, hash: Digest): string {
    "raw/sec_edgar/" + Upper(f.ticker) + "/" + f.documentType + "/" + hash + "." + Extension(f.primaryDocument)
  }

  // ---- One ingest, as a function ----------------------------------------------------------------

  function Find(documents: seq<Document>, hash: Digest): Option<nat> {
    if documents == [] then None
    else
      var d := documents[|documents| - 1];
      if d.contentHash == hash then Some(d.id) else Find(documents[..|documents| - 1], hash)
  }

  predicate SameIdentity(a: Filing, b: Filing) {
    a.ticker == b.ticker && a.documentType == b.documentType && a.filingDate == b.filingDate
  }

  /** The documents that share the filing's ticker, type and filing date, oldest first. */
  function Family(documents: seq<Document>, f: Filing): (r: seq<Document>)
    ensures forall i :: 0 <= i < |r| ==> r[i] in documents && SameIdentity(r[i].filing, f)
  {
    if documents == [] then []
    else
      var n := |documents| - 1;
      Family(documents[..n], f) + if SameIdentity(documents[n].filing, f) then [documents[n]] else []
  }

  function ExistingVersions(documents: seq<Document>, f: Filing): (r: seq<ExistingVersion>) {
    var family := Family(documents, f);
    seq(|family|, i requires 0 <= i < |family| => ExistingVersion(family[i].id, family[i].version, family[i].contentHash))
  }

  function NewDocument(w: World, f: Filing, hash: Digest): Document {
    var decision := DetermineVersion(ExistingVersions(w.tables.documents, f));
    Document(w.nextId, f, decision.version, decision.supersedes, hash, RawKey(f, hash), Pending)
  }

  function AddDocument(w: World, d: Document): World {
    w.(tables := Tables(w.tables.documents + [d], w.tables.chunks), nextId := w.nextId + 1)
  }

  function Rows(first: nat, documentId: nat, pieces: seq<Piece>, embeddings: seq<Embedding>, n: nat): seq<ChunkRow>
    requires n <= |pieces| && n <= |embeddings|
  {
    seq(n, k requires 0 <= k < n => ChunkRow(first + k, documentId, pieces[k], embeddings[k].model, first + k))
  }

  function Points(first: nat, d: Document, pieces: seq<Piece>, embeddings: seq<Embedding>, sparse: seq<SparseVector>, n: nat): seq<Point>
    requires n <= |pieces| && n <= |embeddings| && n <= |sparse|
  {
    seq(n, k requires 0 <= k < n =>
      Point(first + k, embeddings[k].vector, sparse[k], d.filing, d.id, first + k, pieces[k].text, pieces[k].section))
  }

  function Upsert(points: map<nat, Point>, batch: seq<Point>, all: bool, reached: set<nat>): map<nat, Point> {
    if batch == [] then points
    else
      var n := |batch| - 1;
      var before := Upsert(points, batch[..n], all, reached);
      if all || n in reached then before[batch[n].id := batch[n]] else before
  }

  /** Embedding and indexing the pieces of the last document; false is an exception. */
  function Indexed(w: World, d: Document, pieces: seq<Piece>, s: Script): (World, bool) {
    if pieces == [] then (w, true)
    else if s.embeddings.None? || s.sparse.None? then (w, false)
    else
      var e, v := s.embeddings.value, s.sparse.value;
      var n := Min(|pieces|, Min(|e|, |v|));
      var drawn := w.(nextId := w.nextId + n);
      if |e| != |pieces| || |v| != |pieces| then (drawn, false)
      else
        (drawn.(tables := Tables(w.tables.documents, w.tables.chunks + Rows(w.nextId, d.id, pieces, e, n)),
                points := Upsert(w.points, Points(w.nextId, d, pieces, e, v, n), s.upserted, s.reached)),
         s.upserted)
  }

  function MarkSucceeded(tables: Tables): Tables
    requires tables.documents != []
  {
    var n := |tables.documents| - 1;
    Tables(tables.documents[..n] + [tables.documents[n].(status := Succeeded)], tables.chunks)
  }

  /** From the stored raw bytes on. */
  function Processed(w: World, f: Filing, hash: Digest, s: Script): (World, Outcome) {
    if s.parsed.None? then (w, Failed)
    else
      var d := NewDocument(w, f, hash);
      var added := AddDocument(w, d);
      if !s.flushed then (added, Failed)
      else
        var (indexed, ok) := Indexed(added, d, s.parsed.value, s);
        if !ok then (indexed, Failed)
        else (indexed.(tables := MarkSucceeded(indexed.tables)), Outcome.Ingested(d.id, |s.parsed.value|))
  }

  /** A write to object storage replaces what the key held. */
  function PutObject(w: World, key: string, raw: Bytes): World {
    w.(objects := w.objects[key := raw], puts := w.puts + [key])
  }

  function Ingest(w: World, hashOf: Hashing, f: Filing, s: Script): (World, Outcome) {
    if s.fetched.None? then (w, Failed)
    else
      var raw := s.fetched.value;
      var known := Find(w.tables.documents, hashOf(raw));
      if known.Some? then (w, SkippedDuplicate(known.value))
      else
        var put := if s.put.LostBefore? then w else PutObject(w, RawKey(f, hashOf(raw)), raw);
        if s.put.Stored? then Processed(put, f, hashOf(raw), s) else (put, Failed)
  }

  // ---- Transactions -----------------------------------------------------------------------------

  datatype Item = Item(filing: Filing, script: Script)

  /** Several filings ingested in one transaction, and whether the commit at its end succeeds. */
  datatype Batch = Batch(items: seq<Item>, commits: bool)

  /** Ingest until the first failure. */
  function IngestAll(w: World, hashOf: Hashing, items: seq<Item>): (World, bool) {
    if items == [] then (w, true)
    else
      var n := |items| - 1;
      var (before, ok) := IngestAll(w, hashOf, items[..n]);
      if !ok then (before, false)
      else
        var (after, outcome) := Ingest(before, hashOf, items[n].filing, items[n].script);
        (after, outcome != Failed)
  }

  /** A transaction: its rows become visible only when nothing failed and the commit succeeds. */
  function Transaction(w: World, hashOf: Hashing, b: Batch): World {
    var (after, ok) := IngestAll(w, hashOf, b.items);
    if ok && b.commits then after else after.(tables := w.tables)
  }

  function History(w: World, hashOf: Hashing, batches: seq<Batch>): World {
    if batches == [] then w
    else Transaction(History(w, hashOf, batches[..|batches| - 1]), hashOf, batches[|batches| - 1])
  }

  const EMPTY: World := World(map[], map[], Tables([], []), 0, [])

  // ---- The stores -------------------------------------------------------------------------------

  class Pipeline {
    const hashOf: Hashing
    var objects: map<string, Bytes>
    var points: map<nat, Point>
    var committed: Tables
    var documents: seq<Document>
    var chunks: seq<ChunkRow>
    var nextId: nat
    var puts: seq<string>

    constructor (hashOf: Hashing)
      ensures this.hashOf == hashOf && Seen() == EMPTY && committed == Tables([], [])
    {
      this.hashOf := hashOf;
      objects, points, committed, documents, chunks, nextId, puts := map[], map[], Tables([], []), [], [], 0, [];
    }

    ghost function Seen(): World
      reads this
    {
      World(objects, points, Tables(documents, chunks), nextId, puts)
    }

    method FreshId() returns (id: nat)
      modifies this`nextId
      ensures id == old(nextId) && nextId == old(nextId) + 1
    {
      id := nextId;
      nextId := nextId + 1;
    }

    method BuildRows(d: Document, pieces: seq<Piece>, embeddings: seq<Embedding>, sparse: seq<SparseVector>)
      returns (rows: seq<ChunkRow>, batch: seq<Point>, exhausted: bool)
      modifies this`nextId
      ensures var n := Min(|pieces|, Min(|embeddings|, |sparse|));
              && nextId == old(nextId) + n
              && rows == Rows(old(nextId), d.id, pieces, embeddings, n)
              && batch == Points(old(nextId), d, pieces, embeddings, sparse, n)
      ensures exhausted <==> |embeddings| == |pieces| && |sparse| == |pieces|
    {
      rows, batch := [], [];
      var k := 0;
      while k < |pieces| && k < |embeddings| && k < |sparse|
        invariant k <= |pieces| && k <= |embeddings| && k <= |sparse|
        invariant nextId == old(nextId) + k
        invariant rows == Rows(old(nextId), d.id, pieces, embeddings, k)
        invariant batch == Points(old(nextId), d, pieces, embeddings, sparse, k)
      {
        var id := FreshId();
        rows := rows + [ChunkRow(id, d.id, pieces[k], embeddings[k].model, id)];
        batch := batch + [Point(id, embeddings[k].vector, sparse[k], d.filing, d.id, id, pieces[k].text, pieces[k].section)];
        k := k + 1;
      }
      exhausted := |embeddings| == |pieces| && |sparse| == |pieces|;
    }

    method IndexChunks(d: Document, pieces: seq<Piece>, s: Script) returns (ok: bool)
      modifies this`points, this`chunks, this`nextId
      ensures (Seen(), ok) == Indexed(old(Seen()), d, pieces, s)
    {
      if pieces == [] { return true; }
      if s.embeddings.None? || s.sparse.None? { return false; }
      var rows, batch, exhausted := BuildRows(d, pieces, s.embeddings.value, s.sparse.value);
      if !exhausted { return false; }
      chunks := chunks + rows;
      points := Upsert(points, batch, s.upserted, s.reached);
      ok := s.upserted;
    }

    method IngestFiling(f: Filing, s: Script) returns (outcome: Outcome)
      modifies this`objects, this`points, this`documents, this`chunks, this`nextId, this`puts
      ensures (Seen(), outcome) == Ingest(old(Seen()), hashOf, f, s)
    {
      hide Upsert, RawKey, DetermineVersion, ExistingVersions;
      if s.fetched.None? { return Failed; }
      var raw := s.fetched.value;
      var hash := hashOf(raw);
      var known := Find(documents, hash);
      if known.Some? { return SkippedDuplicate(known.value); }
      var key := RawKey(f, hash);
      if s.put.LostBefore? { return Failed; }
      objects, puts := objects[key := raw], puts + [key];
      if s.put.LostAfter? { return Failed; }
      var decision := DetermineVersion(ExistingVersions(documents, f));
      if s.parsed.None? { return Failed; }
      ghost var stored := Seen();
      var id := FreshId();
      var document := Document(id, f, decision.version, decision.supersedes, hash, key, Pending);
      documents := documents + [document];
      if !s.flushed { return Failed; }
      ghost var added := Seen();
      assert document == NewDocument(stored, f, hash) && added == AddDocument(stored, document);
      var ok := IndexChunks(document, s.parsed.value, s);
      if !ok { return Failed; }
      var n := |documents| - 1;
      documents := documents[..n] + [documents[n].(status := Succeeded)];
      outcome := Outcome.Ingested(document.id, |s.parsed.value|);
    }

    method Commit()
      modifies this`committed
      ensures committed == Seen().tables
    {
      committed := Tables(documents, chunks);
    }

    method Rollback()
      modifies this`documents, this`chunks
      ensures Seen() == old(Seen()).(tables := committed)
    {
      documents, chunks := committed.documents, committed.chunks;
    }

    /** A caller's transaction around the ingests. */
    method RunBatch(b: Batch)
      requires committed == Seen().tables
      modifies this
      ensures Seen() == Transaction(old(Seen()), hashOf, b) && committed == Seen().tables
    {
      hide Ingest;
      var ok, i := true, 0;
      while ok && i < |b.items|
        invariant 0 <= i <= |b.items| && committed == old(Seen()).tables
        invariant (Seen(), ok) == IngestAll(old(Seen()), hashOf, b.items[..i])
      {
        assert b.items[..i + 1][..i] == b.items[..i];
        var outcome := IngestFiling(b.items[i].filing, b.items[i].script);
        ok := outcome != Failed;
        i := i + 1;
      }
      StopsAtFailure(old(Seen()), hashOf, b.items, i);
      if ok && b.commits { Commit(); } else { Rollback(); }
    }
  }

  lemma {:induction false} StopsAtFailure(w: World, hashOf: Hashing, items: seq<Item>, i: nat)
    requires i <= |items| && (i < |items| ==> !IngestAll(w, hashOf, items[..i]).1)
    ensures IngestAll(w, hashOf, items) == IngestAll(w, hashOf, items[..i])
  {
    if i == |items| {
      assert items[..i] == items;
    } else {
      var n := |items| - 1;
      assert items[..n][..i] == items[..i];
      if i < n { StopsAtFailure(w, hashOf, items[..n], i); }
    }
  }
}
