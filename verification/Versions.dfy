/** Document versions (tradegraph/src/rag/ingestion/dedup.py:46-67). */
module Versions {
  import opened Helpers
  datatype ExistingVersion = ExistingVersion(documentId: nat, version: int, contentHash: string)
  datatype VersionDecision = VersionDecision(version: int, supersedes: Option<nat>)

  /** The position of the first of the highest versions. */
  function Latest(existing: seq<ExistingVersion>): (r: nat)
    requires existing != []
    ensures r < |existing|
    ensures forall i :: 0 <= i < |existing| ==> existing[i].version <= existing[r].version
    ensures forall i :: 0 <= i < r ==> existing[i].version < existing[r].version
  {
    var n := |existing| - 1;
    if n == 0 then 0
    else
      var before := Latest(existing[..n]);
      assert forall i :: 0 <= i < n ==> existing[..n][i] == existing[i];
      if existing[n].version > existing[before].version then n else before
  }

  function DetermineVersion(existing: seq<ExistingVersion>): VersionDecision {
    if existing == [] then VersionDecision(1, None)
    else
      var latest := existing[Latest(existing)];
      VersionDecision(latest.version + 1, Some(latest.documentId))
  }

  /** The rows come from a query without an order. With distinct versions the decision does not depend on
      it: the new version is one above every existing one and points at the highest. */
  lemma DecisionIgnoresOrder(a: seq<ExistingVersion>, b: seq<ExistingVersion>)
    requires multiset(a) == multiset(b)
    requires forall i, j :: 0 <= i < j < |a| ==> a[i].version != a[j].version
    ensures DetermineVersion(a) == DetermineVersion(b)
    ensures forall v :: v in a ==> v.version < DetermineVersion(a).version
  {
    assert |a| == |multiset(a)| == |multiset(b)| == |b|;
    if a != [] {
      var x, y := a[Latest(a)], b[Latest(b)];
      assert x in multiset(a) && y in multiset(b);
      assert y in a && x in b;
      var i :| 0 <= i < |a| && a[i] == y;
      var j :| 0 <= j < |b| && b[j] == x;
    }
  }
}
