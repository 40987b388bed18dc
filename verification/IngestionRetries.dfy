/** Retrying after a rollback: the digest gate sees committed documents, not stored objects
    (tradegraph/src/rag/ingestion/pipeline.py:64-84, 173-179). */
module IngestionRetries {
  import opened Helpers
  import opened Versions
  import opened Ingestion
  import opened IngestionSafety

  ghost predicate HasDigest(documents: seq<Document>, hash: Digest) {
    exists i :: 0 <= i < |documents| && documents[i].contentHash == hash
  }

  /** Exactly when an ingest writes to object storage: when no visible document has the digest of the fetched bytes
      and the write is not lost on the way. It is then one write, under the key of filing and digest. */
  lemma PutExactly(w: World, hashOf: Hashing, f: Filing, s: Script)
    requires s.fetched.Some?
    ensures var (v, hash) := (Ingest(w, hashOf, f, s).0, hashOf(s.fetched.value));
            v.puts == w.puts + if !HasDigest(w.tables.documents, hash) && !s.put.LostBefore? then [RawKey(f, hash)] else []
  {
    hide RawKey, Upsert, Rows, Points, DetermineVersion, ExistingVersions;
    FindMeaning(w.tables.documents, hashOf(s.fetched.value));
    assert w.puts + [] == w.puts;
  }

  predicate RolledBack(w: World, hashOf: Hashing, b: Batch) { !(IngestAll(w, hashOf, b.items).1 && b.commits) }

  /** After a rolled-back transaction, whatever it had written, an ingest of any bytes writes them again exactly
      when no document committed before it has their digest and the write is not lost on the way. */
  lemma WrittenAgainExactly(w: World, hashOf: Hashing, b: Batch, f: Filing, s: Script)
    requires RolledBack(w, hashOf, b) && s.fetched.Some?
    ensures var (after, hash) := (Transaction(w, hashOf, b), hashOf(s.fetched.value));
            && after.tables == w.tables
            && Ingest(after, hashOf, f, s).0.puts == after.puts +
                 if !HasDigest(w.tables.documents, hash) && !s.put.LostBefore? then [RawKey(f, hash)] else []
  {
    hide IngestAll, Ingest, RawKey, HasDigest;
    PutExactly(Transaction(w, hashOf, b), hashOf, f, s);
  }

  /** A concrete retry: the bytes were stored and the parse raised, the transaction is rolled back, and the next
      ingest of the same filing stores the same bytes under the same key once more. */
  lemma RetryWritesAgain(hashOf: Hashing, f: Filing, raw: Bytes, again: Script)
    requires again.fetched == Some(raw) && !again.put.LostBefore?
    ensures var failing := Script(Some(raw), Stored, None, true, None, None, true, {});
            var after := Transaction(EMPTY, hashOf, Batch([Item(f, failing)], true));
            var key := RawKey(f, hashOf(raw));
            && RolledBack(EMPTY, hashOf, Batch([Item(f, failing)], true))
            && after.tables == EMPTY.tables && after.puts == [key] && key in after.objects
            && Ingest(after, hashOf, f, again).0.puts == [key, key]
  {
    hide RawKey, HasDigest, Ingest, IngestAll;
    var failing := Script(Some(raw), Stored, None, true, None, None, true, {});
    var b := Batch([Item(f, failing)], true);
    OneItem(EMPTY, hashOf, Item(f, failing));
    FailsAtParse(EMPTY, hashOf, f, failing);
    NoDigest(hashOf(raw));
    PutExactly(EMPTY, hashOf, f, failing);
    WrittenAgainExactly(EMPTY, hashOf, b, f, again);
  }

  lemma OneItem(w: World, hashOf: Hashing, item: Item)
    ensures var (v, outcome) := Ingest(w, hashOf, item.filing, item.script);
            IngestAll(w, hashOf, [item]) == (v, outcome != Failed)
  {
    hide Ingest;
    assert [item][..0] == [];
    assert IngestAll(w, hashOf, []) == (w, true);
  }

  lemma FailsAtParse(w: World, hashOf: Hashing, f: Filing, s: Script)
    requires s.fetched.Some? && s.put.Stored? && s.parsed.None? && w.tables.documents == []
    ensures Ingest(w, hashOf, f, s) == (PutObject(w, RawKey(f, hashOf(s.fetched.value)), s.fetched.value), Failed)
  {
    hide RawKey;
  }

  lemma NoDigest(hash: Digest)
    ensures !HasDigest([], hash)
  {
  }

  // ---- Transactions that commit -----------------------------------------------------------------

  lemma {:induction false} EveryItemHasDocument(w: World, hashOf: Hashing, items: seq<Item>, k: nat)
    requires Good(w, hashOf) && IngestAll(w, hashOf, items).1 && k < |items|
    ensures items[k].script.fetched.Some?
    ensures HasDigest(IngestAll(w, hashOf, items).0.tables.documents, hashOf(items[k].script.fetched.value))
    decreases |items|
  {
    hide Ingest, Good;
    var n := |items| - 1;
    IngestAllMeaning(w, hashOf, items[..n]);
    var before := IngestAll(w, hashOf, items[..n]).0;
    ItemHasDocument(before, hashOf, items[n]);
    if k < n {
      EveryItemHasDocument(w, hashOf, items[..n], k);
      var hash := hashOf(items[k].script.fetched.value);
      var i :| 0 <= i < |before.tables.documents| && before.tables.documents[i].contentHash == hash;
      assert IngestAll(w, hashOf, items).0.tables.documents[i].contentHash == hash;
    }
  }

  lemma ItemHasDocument(w: World, hashOf: Hashing, item: Item)
    requires Good(w, hashOf) && Ingest(w, hashOf, item.filing, item.script).1 != Failed
    ensures var v := Ingest(w, hashOf, item.filing, item.script).0;
            && item.script.fetched.Some? && w.tables.documents <= v.tables.documents
            && HasDigest(v.tables.documents, hashOf(item.script.fetched.value))
  {
    hide RawKey, Processed, Good;
    IngestKeepsGood(w, hashOf, item.filing, item.script);
    var hash := hashOf(item.script.fetched.value);
    FindMeaning(w.tables.documents, hash);
    if !HasDigest(w.tables.documents, hash) {
      var put := PutObject(w, RawKey(item.filing, hash), item.script.fetched.value);
      GoodIsSound(w, hashOf);
      IngestGrows(w, hashOf, item.filing, item.script.(put := LostAfter));
      ProcessedMeaning(put, hashOf, item.filing, hash, item.script);
      FinishedDigest(put, item.filing, hash);
      var v := Ingest(w, hashOf, item.filing, item.script).0;
      assert v.tables.documents[|w.tables.documents|].contentHash == hash;
    }
  }

  lemma GoodIsSound(w: World, hashOf: Hashing)
    requires Good(w, hashOf)
    ensures Sound(w, hashOf)
  {
  }

  lemma FinishedDigest(w: World, f: Filing, hash: Digest)
    ensures Finished(w, f, hash).contentHash == hash
  {
  }

  /** What a transaction makes visible: when it commits, all its items' documents, each with the digest of the fetched
      bytes; otherwise nothing. It commits exactly when no item failed and the commit itself succeeds. */
  lemma VisibleExactly(w: World, hashOf: Hashing, b: Batch)
    requires Good(w, hashOf)
    ensures var v := Transaction(w, hashOf, b);
            && (RolledBack(w, hashOf, b) ==> v.tables == w.tables)
            && (!RolledBack(w, hashOf, b) ==> forall k :: 0 <= k < |b.items| ==>
                  && b.items[k].script.fetched.Some?
                  && HasDigest(v.tables.documents, hashOf(b.items[k].script.fetched.value)))
            && (RolledBack(w, hashOf, b) <==> !b.commits || exists k :: 0 <= k < |b.items| && FailsAt(w, hashOf, b.items, k))
  {
    hide IngestAll, HasDigest, FailsAt;
    FailsSomewhere(w, hashOf, b.items);
    if !RolledBack(w, hashOf, b) {
      forall k | 0 <= k < |b.items|
        ensures b.items[k].script.fetched.Some?
        ensures HasDigest(Transaction(w, hashOf, b).tables.documents, hashOf(b.items[k].script.fetched.value))
      {
        EveryItemHasDocument(w, hashOf, b.items, k);
      }
    }
  }

  /** Item `k` is the first that fails. */
  predicate FailsAt(w: World, hashOf: Hashing, items: seq<Item>, k: nat)
    requires k < |items|
  {
    && IngestAll(w, hashOf, items[..k]).1
    && Ingest(IngestAll(w, hashOf, items[..k]).0, hashOf, items[k].filing, items[k].script).1 == Failed
  }

  lemma {:induction false} FailsSomewhere(w: World, hashOf: Hashing, items: seq<Item>)
    ensures !IngestAll(w, hashOf, items).1 <==> exists k :: 0 <= k < |items| && FailsAt(w, hashOf, items, k)
  {
    hide Ingest;
    if items != [] {
      var n := |items| - 1;
      FailsSomewhere(w, hashOf, items[..n]);
      forall k | 0 <= k < n ensures FailsAt(w, hashOf, items[..n], k) <==> FailsAt(w, hashOf, items, k) {
        assert items[..n][..k] == items[..k] && items[..n][k] == items[k];
      }
      if k :| 0 <= k < |items| && FailsAt(w, hashOf, items, k) { assert k == n || FailsAt(w, hashOf, items[..n], k); }
      if k :| 0 <= k < n && FailsAt(w, hashOf, items[..n], k) { assert FailsAt(w, hashOf, items, k); }
      if !IngestAll(w, hashOf, items).1 && IngestAll(w, hashOf, items[..n]).1 { assert FailsAt(w, hashOf, items, n); }
    }
  }
}
