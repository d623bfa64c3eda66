/** The vector-store adapter (`backend/vector_store.py`). The collection is a
    sequence of stored records; the nearest-neighbour search, cosine distances
    and persistence belong to the store library and are not modelled. The
    random `uuid4` ids are modelled by a counter that hands out fresh ids. */
module VectorStore {
  import opened Wrappers
  import opened Chunker

  type Embedding = seq<real>

  /** The metadata written next to every stored chunk. */
  datatype Metadata = Metadata(pdfFilename: string, page: int, chunkIndex: int, totalPages: int)

  datatype Record = Record(id: nat, text: string, metadata: Metadata, embedding: Embedding)

  /** The collection, and the next id the fresh-id oracle will hand out. */
  datatype Store = Store(records: seq<Record>, nextId: nat)

  datatype StoreError =
    | MissingEmbeddings        // `embeddings is None`: ValueError raised by the adapter
    | EmbeddingCountMismatch   // one embedding per chunk is enforced by the store library

  /** Outcome of an add: the store afterwards and the error raised, if any. */
  datatype AddOutcome = AddOutcome(store: Store, error: Option<StoreError>)

  /** The query handed to the store library. */
  datatype QueryRequest = QueryRequest(queryEmbeddings: seq<Embedding>, nResults: int, filter: Option<map<string, string>>)

  /** Ids are pairwise distinct and all below the oracle's counter. */
  predicate Valid(s: Store) {
    && (forall i, j :: 0 <= i < j < |s.records| ==> s.records[i].id != s.records[j].id)
    && (forall i :: 0 <= i < |s.records| ==> s.records[i].id < s.nextId)
  }

  /** A freshly opened store: the old collection is dropped and an empty one created. */
  function Open(): (s: Store)
    ensures Valid(s) && Size(s) == 0
  {
    Store([], 0)
  }

  /** `get_collection_size`. */
  function Size(s: Store): nat {
    |s.records|
  }

  /** The ids held by a sequence of records. */
  function Ids(records: seq<Record>): set<nat>
    decreases |records|
  {
    if records == [] then {} else {records[0].id} + Ids(records[1..])
  }

  /** `count()` is the number of distinct documents in the collection: in a
      consistent store it equals the number of distinct ids. */
  lemma SizeCountsIds(s: Store)
    requires Valid(s)
    ensures Size(s) == |Ids(s.records)|
  {
    DistinctIdsCount(s.records);
  }

  /** Pairwise distinct ids are as many as the records. */
  lemma {:induction false} DistinctIdsCount(records: seq<Record>)
    requires forall i, j :: 0 <= i < j < |records| ==> records[i].id != records[j].id
    ensures |Ids(records)| == |records|
    decreases |records|
  {
    if records != [] {
      var rest := records[1..];
      DistinctIdsCount(rest);
      forall k | 0 <= k < |rest|
        ensures rest[k].id != records[0].id
      {
        assert rest[k] == records[k + 1];
      }
      IdAbsent(rest, records[0].id);
    }
  }

  /** An id no record carries is not in the set. */
  lemma {:induction false} IdAbsent(records: seq<Record>, id: nat)
    requires forall k :: 0 <= k < |records| ==> records[k].id != id
    ensures id !in Ids(records)
    decreases |records|
  {
    if records != [] {
      IdAbsent(records[1..], id);
    }
  }

  /** The metadata `add_documents` writes for one chunk; a missing page total
      reads as 0. */
  function MetadataFor(c: Chunk, pdfFilename: string): (m: Metadata)
    ensures m.pdfFilename == pdfFilename && m.page == c.page && m.chunkIndex == c.chunkIndex
    ensures c.totalPages.Some? ==> m.totalPages == c.totalPages.value
    ensures c.totalPages.None? ==> m.totalPages == 0
  {
    Metadata(pdfFilename, c.page, c.chunkIndex, c.totalPages.GetOr(0))
  }

  function NewRecords(chunks: seq<Chunk>, pdfFilename: string, embeddings: seq<Embedding>, firstId: nat): seq<Record>
    requires |embeddings| == |chunks|
  {
    seq(|chunks|, k requires 0 <= k < |chunks| =>
      Record(firstId + k, chunks[k].text, MetadataFor(chunks[k], pdfFilename), embeddings[k]))
  }

  /** `add_documents`: without embeddings it raises and the store is untouched;
      otherwise every chunk is appended with its own fresh id, its text, its
      embedding and its metadata, and the old records stay as they were. */
  function AddDocuments(s: Store, chunks: seq<Chunk>, pdfFilename: string, embeddings: Option<seq<Embedding>>): (r: AddOutcome)
    ensures embeddings.None? ==> r.error == Some(MissingEmbeddings)
    ensures embeddings.Some? && |embeddings.value| != |chunks| ==> r.error == Some(EmbeddingCountMismatch)
    ensures r.error.Some? ==> r.store == s
    ensures r.error.None? <==> embeddings.Some? && |embeddings.value| == |chunks|
    ensures r.error.None? ==> Size(r.store) == Size(s) + |chunks|
    ensures r.error.None? ==> r.store.records[..|s.records|] == s.records
    ensures r.error.None? ==> forall k :: 0 <= k < |chunks| ==>
      && r.store.records[|s.records| + k].text == chunks[k].text
      && r.store.records[|s.records| + k].metadata == MetadataFor(chunks[k], pdfFilename)
      && r.store.records[|s.records| + k].embedding == embeddings.value[k]
    ensures Valid(s) ==> Valid(r.store)
  {
    if embeddings.None? then AddOutcome(s, Some(MissingEmbeddings))
    else if |embeddings.value| != |chunks| then AddOutcome(s, Some(EmbeddingCountMismatch))
    else
      var s' := Store(s.records + NewRecords(chunks, pdfFilename, embeddings.value, s.nextId), s.nextId + |chunks|);
      AppendRecords(s, chunks, pdfFilename, embeddings.value);
      AddOutcome(s', None)
  }

  /** Appending the new records keeps the old ones as a prefix, stores each
      chunk at its own offset, and keeps ids distinct and below the counter. */
  lemma AppendRecords(s: Store, chunks: seq<Chunk>, pdfFilename: string, embeddings: seq<Embedding>)
    requires |embeddings| == |chunks|
    ensures var s' := Store(s.records + NewRecords(chunks, pdfFilename, embeddings, s.nextId), s.nextId + |chunks|);
      && |s'.records| == |s.records| + |chunks|
      && s'.records[..|s.records|] == s.records
      && (forall k :: 0 <= k < |chunks| ==>
            && s'.records[|s.records| + k].text == chunks[k].text
            && s'.records[|s.records| + k].metadata == MetadataFor(chunks[k], pdfFilename)
            && s'.records[|s.records| + k].embedding == embeddings[k])
      && (Valid(s) ==> Valid(s'))
  {
    var added := NewRecords(chunks, pdfFilename, embeddings, s.nextId);
    var s' := Store(s.records + added, s.nextId + |chunks|);
    assert s'.records[..|s.records|] == s.records;
    forall k | 0 <= k < |chunks|
      ensures s'.records[|s.records| + k] == added[k]
    {
    }
    if Valid(s) {
      forall i | 0 <= i < |s'.records|
        ensures s'.records[i].id < s'.nextId
        ensures i >= |s.records| ==> s'.records[i].id == s.nextId + (i - |s.records|)
      {
      }
      forall i, j | 0 <= i < j < |s'.records|
        ensures s'.records[i].id != s'.records[j].id
      {
      }
    }
  }

  /** The result count sent to the library: capped at the collection size,
      except that an empty collection gets the request unchanged. */
  function ClampResults(nResults: int, count: nat): (n: int)
    ensures count > 0 ==> n <= nResults && n <= count && (n == nResults || n == count)
    ensures count == 0 ==> n == nResults
  {
    if count > 0 then (if nResults <= count then nResults else count) else nResults
  }

  /** `query`: the count is clamped and a filter is forwarded only when it is
      present and non-empty. */
  function Query(s: Store, queryEmbeddings: seq<Embedding>, nResults: int, where: Option<map<string, string>>): (q: QueryRequest)
    ensures q.queryEmbeddings == queryEmbeddings
    ensures q.nResults == ClampResults(nResults, Size(s))
    ensures q.filter.Some? <==> where.Some? && |where.value| > 0
    ensures q.filter.Some? ==> q.filter == where
  {
    QueryRequest(queryEmbeddings, ClampResults(nResults, Size(s)), if where.Some? && |where.value| > 0 then where else None)
  }

  /** `delete_collection`: the collection is dropped and recreated empty; ids
      already handed out stay used. */
  function DeleteCollection(s: Store): (s': Store)
    ensures Size(s') == 0
    ensures Valid(s) ==> Valid(s')
  {
    Store([], s.nextId)
  }

  /** After a clear the store takes new documents at once: adding n chunks
      with n embeddings succeeds and leaves exactly n records. */
  lemma ClearThenAdd(s: Store, chunks: seq<Chunk>, pdfFilename: string, embeddings: seq<Embedding>)
    requires |embeddings| == |chunks|
    ensures AddDocuments(DeleteCollection(s), chunks, pdfFilename, Some(embeddings)).error.None?
    ensures Size(AddDocuments(DeleteCollection(s), chunks, pdfFilename, Some(embeddings)).store) == |chunks|
  {
  }
}
