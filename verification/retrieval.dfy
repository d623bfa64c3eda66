/** The similarity-threshold filter of `RAGSystem.retrieve_relevant_chunks`:
    the store library's ranked answer to one query is turned into retrieved
    chunks, keeping those whose distance is absent or below 0.8, in ranked
    order. The ranking itself and the float arithmetic behind the distances
    belong to the store library; distances are modelled as reals. */
module Retrieval {
  import opened Wrappers

  /** Metadata as read back from the store; a key may be missing. */
  datatype ChunkMeta = ChunkMeta(pdfFilename: Option<string>, page: Option<int>)

  datatype RetrievedChunk = RetrievedChunk(text: string, metadata: ChunkMeta, distance: Option<real>)

  /** The library's answer for one query embedding: parallel lists, the
      distances possibly absent. */
  datatype QueryResult = QueryResult(documents: seq<string>, metadatas: seq<ChunkMeta>, distances: Option<seq<real>>)

  predicate WellFormed(r: QueryResult) {
    && |r.metadatas| == |r.documents|
    && (r.distances.Some? ==> |r.distances.value| == |r.documents|)
  }

  /** Cosine distance at or above this is "unrelated". */
  const Threshold: real := 0.8

  /** A chunk is kept iff it has no distance or one strictly below 0.8. */
  predicate Keep(distance: Option<real>) {
    distance.None? || distance.value < Threshold
  }

  /** The edge cases: exactly 0.8 is dropped; 0.79 and no distance are kept. */
  lemma ThresholdEdges()
    ensures !Keep(Some(0.8)) && Keep(Some(0.79)) && Keep(None)
  {
  }

  function ChunkAt(r: QueryResult, i: nat): RetrievedChunk
    requires WellFormed(r) && i < |r.documents|
  {
    RetrievedChunk(r.documents[i], r.metadatas[i], if r.distances.Some? then Some(r.distances.value[i]) else None)
  }

  /** Reference definition: the chunks among the first n ranked results
      that pass the threshold, in ranked order. */
  function KeptAmong(r: QueryResult, n: nat): seq<RetrievedChunk>
    requires WellFormed(r) && n <= |r.documents|
  {
    if n == 0 then []
    else KeptAmong(r, n - 1) + (if Keep(ChunkAt(r, n - 1).distance) then [ChunkAt(r, n - 1)] else [])
  }

  /** Ranked positions, among the first n, of the results that pass. */
  function PassingAmong(r: QueryResult, n: nat): seq<nat>
    requires WellFormed(r) && n <= |r.documents|
  {
    if n == 0 then []
    else PassingAmong(r, n - 1) + (if Keep(ChunkAt(r, n - 1).distance) then [n - 1] else [])
  }

  /** The kept chunks are the passing results in ranked order: the k-th kept
      chunk is the result at the k-th passing position, those positions
      increase, and a position passes iff its distance is kept. */
  lemma {:induction false} KeptAmongSpec(r: QueryResult, n: nat)
    requires WellFormed(r) && n <= |r.documents|
    ensures var kept := KeptAmong(r, n); var pos := PassingAmong(r, n);
      && |kept| == |pos|
      && (forall k :: 0 <= k < |pos| ==> pos[k] < n && kept[k] == ChunkAt(r, pos[k]))
      && (forall k, l :: 0 <= k < l < |pos| ==> pos[k] < pos[l])
      && (forall i :: 0 <= i < n ==> (i in pos <==> Keep(ChunkAt(r, i).distance)))
  {
    if n > 0 {
      KeptAmongSpec(r, n - 1);
    }
  }

  /** The filtering loop. */
  method FilterByThreshold(r: QueryResult) returns (kept: seq<RetrievedChunk>)
    requires WellFormed(r)
    ensures kept == KeptAmong(r, |r.documents|)
    ensures forall k :: 0 <= k < |kept| ==> Keep(kept[k].distance)
    ensures forall i :: 0 <= i < |r.documents| && Keep(ChunkAt(r, i).distance) ==> ChunkAt(r, i) in kept
  {
    kept := [];
    var i := 0;
    while i < |r.documents|
      invariant 0 <= i <= |r.documents|
      invariant kept == KeptAmong(r, i)
    {
      var distance := if r.distances.Some? then Some(r.distances.value[i]) else None;
      if distance.None? || distance.value < Threshold {
        kept := kept + [RetrievedChunk(r.documents[i], r.metadatas[i], distance)];
      }
      i := i + 1;
    }
    KeptAmongSpec(r, |r.documents|);
    var pos := PassingAmong(r, |r.documents|);
    forall i | 0 <= i < |r.documents| && Keep(ChunkAt(r, i).distance)
      ensures ChunkAt(r, i) in kept
    {
      var k :| 0 <= k < |pos| && pos[k] == i;
      assert kept[k] == ChunkAt(r, i);
    }
  }
}
