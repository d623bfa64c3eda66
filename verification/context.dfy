/** The context assembler, first half of `RAGSystem.generate_answer`:
    retrieved chunks are grouped by (file name, page) into sources numbered in
    first-seen order; each source yields one context line and one citation. */
module Context {
  import opened Wrappers
  import opened Text
  import opened Retrieval

  /** A page as read from the metadata; a missing page reads as 'Unknown',
      which never equals a page number. */
  datatype PageRef = PageNo(n: int) | UnknownPage

  /** The deduplication key: (file name, page). */
  datatype SourceKey = SourceKey(pdfFilename: string, page: PageRef)

  /** Chunks sharing one key, with the number the key was first given. */
  datatype Source = Source(num: nat, key: SourceKey, chunks: seq<string>)

  datatype Citation = Citation(source: int, pdfFilename: string, page: PageRef, textSnippet: string)

  /** What the assembler hands to the prompt builder and the reconciler. */
  datatype Assembly = Assembly(context: string, citations: seq<Citation>, numSources: nat)

  const Unknown: string := "Unknown"
  const SnippetLength: nat := 200
  const Ellipsis: string := "..."

  /** `metadata.get('pdf_filename', 'Unknown')`, `metadata.get('page', 'Unknown')`. */
  function KeyOf(c: RetrievedChunk): SourceKey {
    SourceKey(c.metadata.pdfFilename.GetOr(Unknown),
              if c.metadata.page.Some? then PageNo(c.metadata.page.value) else UnknownPage)
  }

  function PageText(p: PageRef): string {
    match p
    case PageNo(n) => IntToString(n)
    case UnknownPage => Unknown
  }

  // ---------------------------------------------------------------------------
  // Grouping

  /** Position of the source with key `key`, if there is one. */
  function IndexOfKey(sources: seq<Source>, key: SourceKey): (r: Option<nat>)
    ensures r.Some? ==> r.value < |sources| && sources[r.value].key == key
    ensures r.None? ==> forall i :: 0 <= i < |sources| ==> sources[i].key != key
    decreases |sources|
  {
    if sources == [] then None
    else if sources[|sources| - 1].key == key then Some(|sources| - 1)
    else IndexOfKey(sources[..|sources| - 1], key)
  }

  /** One step of the grouping loop: a seen key gets the chunk's text
      appended, a new key opens the next-numbered source. */
  function AddChunk(sources: seq<Source>, c: RetrievedChunk): seq<Source> {
    match IndexOfKey(sources, KeyOf(c))
    case Some(j) => sources[j := sources[j].(chunks := sources[j].chunks + [c.text])]
    case None => sources + [Source(|sources| + 1, KeyOf(c), [c.text])]
  }

  /** The grouping loop over the chunks, in order. */
  function Group(chunks: seq<RetrievedChunk>): seq<Source>
    decreases |chunks|
  {
    if chunks == [] then [] else AddChunk(Group(chunks[..|chunks| - 1]), chunks[|chunks| - 1])
  }

  /** Reference definition: the texts of the chunks with a given key, in order. */
  function TextsWithKey(chunks: seq<RetrievedChunk>, key: SourceKey): seq<string>
    decreases |chunks|
  {
    if chunks == [] then []
    else
      var last := chunks[|chunks| - 1];
      TextsWithKey(chunks[..|chunks| - 1], key) + (if KeyOf(last) == key then [last.text] else [])
  }

  /** Key `a` shows up among the chunks strictly before key `b` does. */
  ghost predicate SeenBefore(chunks: seq<RetrievedChunk>, a: SourceKey, b: SourceKey) {
    exists p :: 0 <= p < |chunks| && KeyOf(chunks[p]) == a &&
      forall q :: 0 <= q <= p ==> KeyOf(chunks[q]) != b
  }

  /** Some chunk carries the key. */
  ghost predicate KeySeen(chunks: seq<RetrievedChunk>, key: SourceKey) {
    exists p :: 0 <= p < |chunks| && KeyOf(chunks[p]) == key
  }

  /** Some source carries the key. */
  ghost predicate HasSource(sources: seq<Source>, key: SourceKey) {
    exists i :: 0 <= i < |sources| && sources[i].key == key
  }

  /** Some citation names the key. */
  ghost predicate IsCited(cs: seq<Citation>, key: SourceKey) {
    exists k :: 0 <= k < |cs| && SourceKey(cs[k].pdfFilename, cs[k].page) == key
  }

  /** The shape of one grouping step. */
  lemma AddChunkShape(sources: seq<Source>, c: RetrievedChunk)
    ensures IndexOfKey(sources, KeyOf(c)).Some? ==>
      && |AddChunk(sources, c)| == |sources|
      && forall i :: 0 <= i < |sources| ==>
           && AddChunk(sources, c)[i].key == sources[i].key
           && AddChunk(sources, c)[i].num == sources[i].num
           && AddChunk(sources, c)[i].chunks
              == sources[i].chunks + (if i == IndexOfKey(sources, KeyOf(c)).value then [c.text] else [])
    ensures IndexOfKey(sources, KeyOf(c)).None? ==>
      AddChunk(sources, c) == sources + [Source(|sources| + 1, KeyOf(c), [c.text])]
  {
  }

  /** Sources are numbered 1, 2, ... by position and their keys are pairwise
      distinct. */
  lemma {:induction false} GroupNumbering(chunks: seq<RetrievedChunk>)
    ensures forall i :: 0 <= i < |Group(chunks)| ==> Group(chunks)[i].num == i + 1
    ensures forall i, j :: 0 <= i < j < |Group(chunks)| ==> Group(chunks)[i].key != Group(chunks)[j].key
    decreases |chunks|
  {
    if chunks != [] {
      var n := |chunks| - 1;
      GroupNumbering(chunks[..n]);
      AddChunkShape(Group(chunks[..n]), chunks[n]);
    }
  }

  /** Every source's key comes from some chunk, and every chunk's key has a
      source. */
  lemma GroupCoverage(chunks: seq<RetrievedChunk>)
    ensures forall i :: 0 <= i < |Group(chunks)| ==> KeySeen(chunks, Group(chunks)[i].key)
    ensures forall p :: 0 <= p < |chunks| ==> HasSource(Group(chunks), KeyOf(chunks[p]))
  {
    GroupKeysSeen(chunks);
    GroupKeysCover(chunks);
  }

  lemma {:induction false} GroupKeysSeen(chunks: seq<RetrievedChunk>)
    ensures forall i :: 0 <= i < |Group(chunks)| ==> KeySeen(chunks, Group(chunks)[i].key)
    decreases |chunks|
  {
    if chunks != [] {
      var n := |chunks| - 1;
      var init := chunks[..n];
      var c := chunks[n];
      var before := Group(init);
      var after := Group(chunks);
      assert after == AddChunk(before, c);
      GroupKeysSeen(init);
      AddChunkShape(before, c);
      forall i | 0 <= i < |after| ensures KeySeen(chunks, after[i].key) {
        if i < |before| {
          var p :| 0 <= p < |init| && KeyOf(init[p]) == before[i].key;
          assert chunks[p] == init[p];
        } else {
          assert KeyOf(chunks[n]) == after[i].key;
        }
      }
    }
  }

  lemma GroupKeysCover(chunks: seq<RetrievedChunk>)
    ensures forall p :: 0 <= p < |chunks| ==> HasSource(Group(chunks), KeyOf(chunks[p]))
  {
    forall p | 0 <= p < |chunks|
      ensures HasSource(Group(chunks), KeyOf(chunks[p]))
    {
      ChunkKeyHasSource(chunks, p);
    }
  }

  lemma {:induction false} ChunkKeyHasSource(chunks: seq<RetrievedChunk>, p: nat)
    requires p < |chunks|
    ensures HasSource(Group(chunks), KeyOf(chunks[p]))
    decreases |chunks|
  {
    var n := |chunks| - 1;
    var init := chunks[..n];
    var c := chunks[n];
    var before := Group(init);
    var after := Group(chunks);
    assert after == AddChunk(before, c);
    AddChunkShape(before, c);
    if p < n {
      ChunkKeyHasSource(init, p);
      assert chunks[p] == init[p];
      var i :| 0 <= i < |before| && before[i].key == KeyOf(init[p]);
      assert after[i].key == KeyOf(chunks[p]);
    } else if IndexOfKey(before, KeyOf(c)).Some? {
      var j := IndexOfKey(before, KeyOf(c)).value;
      assert after[j].key == KeyOf(chunks[p]);
    } else {
      assert after[|before|].key == KeyOf(chunks[p]);
    }
  }

  /** Each source holds exactly the texts of the chunks with its key, in
      encounter order. */
  lemma {:induction false} GroupTexts(chunks: seq<RetrievedChunk>)
    ensures forall i :: 0 <= i < |Group(chunks)| ==> Group(chunks)[i].chunks == TextsWithKey(chunks, Group(chunks)[i].key)
    decreases |chunks|
  {
    if chunks != [] {
      var n := |chunks| - 1;
      var init := chunks[..n];
      var c := chunks[n];
      var before := Group(init);
      var after := Group(chunks);
      assert after == AddChunk(before, c);
      GroupTexts(init);
      GroupNumbering(init);
      GroupCoverage(init);
      AddChunkShape(before, c);
      assert forall key :: TextsWithKey(chunks, key) == TextsWithKey(init, key) + (if KeyOf(c) == key then [c.text] else []);
      if IndexOfKey(before, KeyOf(c)).None? {
        TextsWithKeyAbsent(init, KeyOf(c));
      }
    }
  }

  lemma SeenBeforeExtend(init: seq<RetrievedChunk>, c: RetrievedChunk, a: SourceKey, b: SourceKey)
    requires SeenBefore(init, a, b)
    ensures SeenBefore(init + [c], a, b)
  {
    var p :| 0 <= p < |init| && KeyOf(init[p]) == a && forall q :: 0 <= q <= p ==> KeyOf(init[q]) != b;
    assert (init + [c])[p] == init[p];
    assert forall q :: 0 <= q <= p ==> (init + [c])[q] == init[q];
  }

  lemma SeenBeforeNew(init: seq<RetrievedChunk>, c: RetrievedChunk, a: SourceKey)
    requires KeySeen(init, a)
    requires forall q :: 0 <= q < |init| ==> KeyOf(init[q]) != KeyOf(c)
    ensures SeenBefore(init + [c], a, KeyOf(c))
  {
    var p :| 0 <= p < |init| && KeyOf(init[p]) == a;
    assert (init + [c])[p] == init[p];
    assert forall q :: 0 <= q <= p ==> (init + [c])[q] == init[q];
  }

  /** Sources come in the order their keys were first seen. */
  lemma {:induction false} GroupOrder(chunks: seq<RetrievedChunk>)
    ensures forall i, j :: 0 <= i < j < |Group(chunks)| ==>
      SeenBefore(chunks, Group(chunks)[i].key, Group(chunks)[j].key)
    decreases |chunks|
  {
    if chunks != [] {
      var n := |chunks| - 1;
      var init := chunks[..n];
      var c := chunks[n];
      assert chunks == init + [c];
      var before := Group(init);
      var after := Group(chunks);
      assert after == AddChunk(before, c);
      GroupOrder(init);
      GroupCoverage(init);
      AddChunkShape(before, c);
      forall i, j | 0 <= i < j < |after|
        ensures SeenBefore(chunks, after[i].key, after[j].key)
      {
        if j < |before| {
          SeenBeforeExtend(init, c, before[i].key, before[j].key);
        } else {
          assert forall q :: 0 <= q < |init| ==> KeyOf(init[q]) != KeyOf(c);
          SeenBeforeNew(init, c, before[i].key);
        }
      }
    }
  }

  lemma TextsWithKeyAbsent(chunks: seq<RetrievedChunk>, key: SourceKey)
    requires forall p :: 0 <= p < |chunks| ==> KeyOf(chunks[p]) != key
    ensures TextsWithKey(chunks, key) == []
    decreases |chunks|
  {
    if chunks != [] {
      TextsWithKeyAbsent(chunks[..|chunks| - 1], key);
    }
  }

  /** Every source holds at least one chunk. */
  lemma {:induction false} GroupNonEmpty(chunks: seq<RetrievedChunk>)
    ensures forall i :: 0 <= i < |Group(chunks)| ==> Group(chunks)[i].chunks != []
    decreases |chunks|
  {
    if chunks != [] {
      var n := |chunks| - 1;
      GroupNonEmpty(chunks[..n]);
      AddChunkShape(Group(chunks[..n]), chunks[n]);
    }
  }

  // ---------------------------------------------------------------------------
  // Context lines and citations

  /** The first chunk cut to 200 characters, with "..." when it was longer. */
  function Snippet(text: string): (r: string)
    ensures |text| <= SnippetLength ==> r == text
    ensures |text| > SnippetLength ==> |r| == SnippetLength + |Ellipsis| && r[..SnippetLength] == text[..SnippetLength]
    ensures |text| > SnippetLength ==> EndsWith(r, Ellipsis)
  {
    if |text| > SnippetLength then text[..SnippetLength] + Ellipsis else text
  }

  function ContextLine(s: Source): string {
    "[Source " + NatToString(s.num) + " - Page " + PageText(s.key.page) + "]: " + Join(s.chunks, " ")
  }

  function CitationOf(s: Source): Citation
    requires s.chunks != []
  {
    Citation(s.num, s.key.pdfFilename, s.key.page, Snippet(s.chunks[0]))
  }

  /** The context block's lines, one per source in source order. */
  function ContextLines(chunks: seq<RetrievedChunk>): (lines: seq<string>)
    ensures |lines| == |Group(chunks)|
  {
    var sources := Group(chunks);
    seq(|sources|, k requires 0 <= k < |sources| => ContextLine(sources[k]))
  }

  /** The citations, one per source in source order. */
  function Citations(chunks: seq<RetrievedChunk>): (citations: seq<Citation>)
    ensures |citations| == |Group(chunks)|
  {
    var sources := Group(chunks);
    GroupNonEmpty(chunks);
    seq(|sources|, k requires 0 <= k < |sources| => CitationOf(sources[k]))
  }

  /** The assembler's output: the lines joined by blank lines, the citations
      and the number of distinct sources. */
  function Assemble(chunks: seq<RetrievedChunk>): (a: Assembly)
    ensures a.numSources == |a.citations| == |Group(chunks)|
    ensures a.context == Join(ContextLines(chunks), "\n\n")
  {
    Assembly(Join(ContextLines(chunks), "\n\n"), Citations(chunks), |Group(chunks)|)
  }

  /** Citations are numbered 1..m in order, one per distinct (file, page)
      key: no two share a key, each key is some retrieved chunk's, and every
      retrieved chunk's key is cited. */
  lemma AssembleCitations(chunks: seq<RetrievedChunk>)
    ensures var cs := Assemble(chunks).citations;
      && (forall k :: 0 <= k < |cs| ==> cs[k].source == k + 1)
      && (forall k, l :: 0 <= k < l < |cs| ==>
            SourceKey(cs[k].pdfFilename, cs[k].page) != SourceKey(cs[l].pdfFilename, cs[l].page))
      && (forall k :: 0 <= k < |cs| ==> KeySeen(chunks, SourceKey(cs[k].pdfFilename, cs[k].page)))
      && (forall p :: 0 <= p < |chunks| ==> IsCited(cs, KeyOf(chunks[p])))
  {
    var sources := Group(chunks);
    var cs := Assemble(chunks).citations;
    GroupNumbering(chunks);
    GroupCoverage(chunks);
    GroupNonEmpty(chunks);
    assert forall k :: 0 <= k < |cs| ==> cs[k] == CitationOf(sources[k]);
    assert forall k :: 0 <= k < |cs| ==> SourceKey(cs[k].pdfFilename, cs[k].page) == sources[k].key;
    forall p | 0 <= p < |chunks|
      ensures IsCited(cs, KeyOf(chunks[p]))
    {
      var k :| 0 <= k < |sources| && sources[k].key == KeyOf(chunks[p]);
      assert SourceKey(cs[k].pdfFilename, cs[k].page) == KeyOf(chunks[p]);
    }
  }

  /** Source k+1's context line is "[Source k+1 - Page p]: " followed by the
      space-joined texts of all chunks with its key, in encounter order; its
      snippet is taken from the first of them. Keys come in first-seen order. */
  lemma AssembleLines(chunks: seq<RetrievedChunk>, k: nat)
    requires k < |Group(chunks)|
    ensures var key := Group(chunks)[k].key;
      && TextsWithKey(chunks, key) != []
      && ContextLines(chunks)[k]
         == "[Source " + NatToString(k + 1) + " - Page " + PageText(key.page) + "]: " + Join(TextsWithKey(chunks, key), " ")
      && Assemble(chunks).citations[k].textSnippet == Snippet(TextsWithKey(chunks, key)[0])
      && forall j :: k < j < |Group(chunks)| ==> SeenBefore(chunks, key, Group(chunks)[j].key)
  {
    GroupNumbering(chunks);
    GroupTexts(chunks);
    GroupNonEmpty(chunks);
    GroupOrder(chunks);
  }

  /** Two chunks from the same file and page, whatever their texts, make one
      source holding both texts in order, and one citation. */
  lemma SamePageMerges(a: RetrievedChunk, b: RetrievedChunk)
    requires KeyOf(a) == KeyOf(b)
    ensures Group([a, b]) == [Source(1, KeyOf(a), [a.text, b.text])]
    ensures |Assemble([a, b]).citations| == 1
  {
    assert [a, b][..1] == [a];
    assert [a][..0] == [];
    var one := Group([a]);
    assert one == AddChunk(Group([]), a);
    assert one == [Source(1, KeyOf(a), [a.text])];
    assert IndexOfKey(one, KeyOf(b)) == Some(0);
    assert Group([a, b]) == AddChunk(one, b);
    assert [a.text] + [b.text] == [a.text, b.text];
  }
}
