/** The PDF chunker (`backend/pdf_parser.py`): each page's text is cut into
    sentence-packed chunks of bounded length, and the non-blank chunks are
    emitted with their page number and position. Text extraction itself is
    outside the model: a document is the sequence of its page texts. */
module Chunker {
  import opened Wrappers
  import opened Text

  /** Sentence separator used by the splitter. */
  const SentenceSep: string := ". "

  /** Chunk size the parser asks for on every page. */
  const PageChunkSize: nat := 500

  /** One emitted chunk. `totalPages` is optional because the store reads it
      with a default; the parser always sets it. */
  datatype Chunk = Chunk(text: string, page: int, chunkIndex: int, totalPages: Option<int>)

  /** Newlines become spaces before sentence splitting. */
  function Flatten(text: string): string {
    ReplaceAll(text, "\n", " ")
  }

  /** Each sentence followed by the separator it was split on. */
  function Dotted(sentences: seq<string>): string
    decreases |sentences|
  {
    if sentences == [] then "" else sentences[0] + SentenceSep + Dotted(sentences[1..])
  }

  /** The greedy packing loop, continued from buffer `cur`: the buffer is
      flushed only when it is non-empty and the next sentence would push it
      past `size`; the remaining buffer is flushed at the end if non-empty. */
  function PackFrom(sentences: seq<string>, cur: string, size: int): seq<string>
    decreases |sentences|
  {
    if sentences == [] then
      (if cur != "" then [cur] else [])
    else if |cur| + |sentences[0]| > size && cur != "" then
      [cur] + PackFrom(sentences[1..], sentences[0] + SentenceSep, size)
    else
      PackFrom(sentences[1..], cur + sentences[0] + SentenceSep, size)
  }

  function Pack(sentences: seq<string>, size: int): seq<string> {
    PackFrom(sentences, "", size)
  }

  /** Packing neither loses nor invents characters: the chunks concatenate to
      the buffer followed by every sentence with its separator restored. */
  lemma {:induction false} PackConcat(sentences: seq<string>, cur: string, size: int)
    ensures Concat(PackFrom(sentences, cur, size)) == cur + Dotted(sentences)
    decreases |sentences|
  {
    if sentences == [] {
      if cur != "" {
        assert Concat([cur]) == cur + Concat([]);
      }
    } else {
      var s0 := sentences[0];
      var tail := Dotted(sentences[1..]);
      assert Dotted(sentences) == s0 + SentenceSep + tail;
      if |cur| + |s0| > size && cur != "" {
        var rest := PackFrom(sentences[1..], s0 + SentenceSep, size);
        PackConcat(sentences[1..], s0 + SentenceSep, size);
        assert ([cur] + rest)[1..] == rest;
        assert Concat([cur] + rest) == cur + Concat(rest);
      } else {
        PackConcat(sentences[1..], cur + s0 + SentenceSep, size);
        assert cur + s0 + SentenceSep + tail == cur + (s0 + SentenceSep + tail);
      }
    }
  }

  /** Every chunk the packer emits is non-empty. */
  lemma {:induction false} PackNonEmpty(sentences: seq<string>, cur: string, size: int)
    ensures forall k :: 0 <= k < |PackFrom(sentences, cur, size)| ==> PackFrom(sentences, cur, size)[k] != ""
    decreases |sentences|
  {
    if sentences == [] {
    } else if |cur| + |sentences[0]| > size && cur != "" {
      PackNonEmpty(sentences[1..], sentences[0] + SentenceSep, size);
    } else {
      PackNonEmpty(sentences[1..], cur + sentences[0] + SentenceSep, size);
    }
  }

  /** With at least one sentence the packer emits at least one chunk. */
  lemma {:induction false} PackSomething(sentences: seq<string>, cur: string, size: int)
    requires sentences != [] || cur != ""
    ensures |PackFrom(sentences, cur, size)| >= 1
    decreases |sentences|
  {
    if sentences != [] {
      if |cur| + |sentences[0]| > size && cur != "" {
      } else {
        PackSomething(sentences[1..], cur + sentences[0] + SentenceSep, size);
      }
    }
  }

  /** Restoring the separators after `split` gives the flattened text plus one
      trailing separator. */
  lemma {:induction false} DottedJoin(sentences: seq<string>)
    requires |sentences| >= 1
    ensures Dotted(sentences) == Join(sentences, SentenceSep) + SentenceSep
    decreases |sentences|
  {
    if |sentences| > 1 {
      DottedJoin(sentences[1..]);
    }
  }

  /** The fixed-width fallback: a chunk longer than `size` is cut into pieces of
      `size` characters, the last one holding the rest. */
  function HardSplit(chunk: string, size: int): (pieces: seq<string>)
    requires size > 0
    ensures |pieces| >= 1
    ensures forall k :: 0 <= k < |pieces| ==> |pieces[k]| <= size
    ensures forall k :: 0 <= k < |pieces| - 1 ==> |pieces[k]| == size
    ensures chunk != "" ==> forall k :: 0 <= k < |pieces| ==> pieces[k] != ""
    decreases |chunk|
  {
    if |chunk| <= size then [chunk] else [chunk[..size]] + HardSplit(chunk[size..], size)
  }

  /** The pieces concatenate back to the chunk. */
  lemma {:induction false} HardSplitConcat(chunk: string, size: int)
    requires size > 0
    ensures Concat(HardSplit(chunk, size)) == chunk
    decreases |chunk|
  {
    if |chunk| > size {
      HardSplitConcat(chunk[size..], size);
      assert ([chunk[..size]] + HardSplit(chunk[size..], size))[1..] == HardSplit(chunk[size..], size);
    }
  }

  function Min(a: int, b: int): int {
    if a <= b then a else b
  }

  lemma MulSucc(j: int, size: int)
    ensures (j + 1) * size == j * size + size
  {
  }

  /** A chunk of length L is cut into ceil(L/size) pieces: the piece count n
      is the one with (n-1)*size < L <= n*size. */
  lemma {:induction false} HardSplitCount(chunk: string, size: int)
    requires size > 0 && chunk != ""
    ensures (|HardSplit(chunk, size)| - 1) * size < |chunk| <= |HardSplit(chunk, size)| * size
    decreases |chunk|
  {
    if |chunk| > size {
      var n := |HardSplit(chunk[size..], size)|;
      HardSplitCount(chunk[size..], size);
      MulSucc(n - 1, size);
      MulSucc(n, size);
    }
  }

  /** The pieces are exactly what `range(0, len(chunk), size)` slices out:
      piece k is chunk[k*size : (k+1)*size], cut short at the end. */
  lemma HardSplitIsRangeSlicing(chunk: string, size: int)
    requires size > 0 && chunk != ""
    ensures forall k :: 0 <= k < |HardSplit(chunk, size)| ==>
      k * size < |chunk| && HardSplit(chunk, size)[k] == chunk[k * size..Min((k + 1) * size, |chunk|)]
  {
    forall k | 0 <= k < |HardSplit(chunk, size)|
      ensures k * size < |chunk| && HardSplit(chunk, size)[k] == chunk[k * size..Min((k + 1) * size, |chunk|)]
    {
      PieceAt(chunk, size, k);
    }
  }

  lemma SliceShift(s: string, d: nat, i: nat, j: nat)
    requires d <= |s| && i <= j <= |s| - d
    ensures s[d..][i..j] == s[d + i..d + j]
  {
  }

  /** Piece k of the fixed-width split, one index at a time. */
  lemma {:induction false} PieceAt(chunk: string, size: int, k: nat)
    requires size > 0 && k < |HardSplit(chunk, size)|
    ensures k * size < |chunk| || (k == 0 && chunk == "")
    ensures k * size <= Min((k + 1) * size, |chunk|) <= |chunk|
    ensures HardSplit(chunk, size)[k] == chunk[k * size..Min((k + 1) * size, |chunk|)]
    decreases k
  {
    if |chunk| <= size {
      assert k == 0;
    } else if k == 0 {
    } else {
      var rest := chunk[size..];
      PieceAt(rest, size, k - 1);
      var a := (k - 1) * size;
      var b := k * size;
      var c := (k + 1) * size;
      MulSucc(k - 1, size);
      MulSucc(k, size);
      assert a + size == b && b + size == c;
      assert HardSplit(chunk, size)[k] == HardSplit(rest, size)[k - 1];
      var m := Min(b, |rest|);
      assert m + size == Min(c, |chunk|);
      SliceShift(chunk, size, a, m);
    }
  }

  /** Every packed chunk passed through the fixed-width fallback, in order. */
  function HardSplitAll(chunks: seq<string>, size: int): (pieces: seq<string>)
    requires size > 0
    ensures forall k :: 0 <= k < |pieces| ==> |pieces[k]| <= size
    ensures (forall k :: 0 <= k < |chunks| ==> chunks[k] != "") ==>
      forall k :: 0 <= k < |pieces| ==> pieces[k] != ""
    ensures |chunks| >= 1 ==> |pieces| >= 1
    decreases |chunks|
  {
    if chunks == [] then [] else HardSplit(chunks[0], size) + HardSplitAll(chunks[1..], size)
  }

  lemma {:induction false} HardSplitAllConcat(chunks: seq<string>, size: int)
    requires size > 0
    ensures Concat(HardSplitAll(chunks, size)) == Concat(chunks)
    decreases |chunks|
  {
    if chunks != [] {
      HardSplitConcat(chunks[0], size);
      HardSplitAllConcat(chunks[1..], size);
      ConcatAppend(HardSplit(chunks[0], size), HardSplitAll(chunks[1..], size));
    }
  }

  /** `PDFParser._split_text_into_chunks(text, size)`. Short text (empty text
      included) is returned whole; longer text is sentence-packed and then
      cut so that no chunk exceeds `size`, without dropping a character. */
  function SplitTextIntoChunks(text: string, size: int): (chunks: seq<string>)
    requires size > 0
    ensures |text| <= size ==> chunks == [text]
    ensures |chunks| >= 1
    ensures forall k :: 0 <= k < |chunks| ==> |chunks[k]| <= size
    ensures |text| > size ==> Concat(chunks) == Flatten(text) + SentenceSep
    ensures |text| > size ==> forall k :: 0 <= k < |chunks| ==> chunks[k] != ""
  {
    if |text| <= size then [text]
    else
      var sentences := SplitOn(Flatten(text), SentenceSep);
      var packed := Pack(sentences, size);
      PackConcat(sentences, "", size);
      PackNonEmpty(sentences, "", size);
      PackSomething(sentences, "", size);
      DottedJoin(sentences);
      SplitJoin(Flatten(text), SentenceSep);
      HardSplitAllConcat(packed, size);
      HardSplitAll(packed, size)
  }

  /** The chunks of one page's text, as the parser splits it. */
  function PagePieces(pageText: string): seq<string> {
    SplitTextIntoChunks(pageText, PageChunkSize)
  }

  /** The chunks emitted for one page: every piece whose stripped text is
      non-blank, stripped, tagged with the page, its index in `pieces` and the
      page total. */
  function EmitPage(pieces: seq<string>, page: int, total: int): seq<Chunk>
    decreases |pieces|
  {
    if pieces == [] then []
    else
      var last := |pieces| - 1;
      var before := EmitPage(pieces[..last], page, total);
      if Strip(pieces[last]) != "" then before + [Chunk(Strip(pieces[last]), page, last, Some(total))]
      else before
  }

  /** What an emitted chunk of a page carries. */
  predicate EmittedFrom(c: Chunk, pieces: seq<string>, page: int, total: int) {
    && c.page == page && c.totalPages == Some(total)
    && 0 <= c.chunkIndex < |pieces|
    && c.text == Strip(pieces[c.chunkIndex]) && c.text != ""
  }

  /** Every emitted chunk is a stripped, non-blank piece of the page, and
      chunk indices increase along the output. */
  lemma {:induction false} EmitPageSound(pieces: seq<string>, page: int, total: int)
    ensures forall k :: 0 <= k < |EmitPage(pieces, page, total)| ==>
      EmittedFrom(EmitPage(pieces, page, total)[k], pieces, page, total)
    ensures forall k, l :: 0 <= k < l < |EmitPage(pieces, page, total)| ==>
      EmitPage(pieces, page, total)[k].chunkIndex < EmitPage(pieces, page, total)[l].chunkIndex
    decreases |pieces|
  {
    if pieces != [] {
      var last := |pieces| - 1;
      var init := pieces[..last];
      EmitPageSound(init, page, total);
      assert forall i :: 0 <= i < last ==> init[i] == pieces[i];
    }
  }

  /** Some chunk of `cs` is tagged with this page and chunk index. */
  ghost predicate Emitted(cs: seq<Chunk>, page: int, i: int) {
    exists k :: 0 <= k < |cs| && cs[k].page == page && cs[k].chunkIndex == i
  }

  /** Every non-blank piece of the page is emitted. */
  lemma {:induction false} EmitPageComplete(pieces: seq<string>, page: int, total: int, i: int)
    requires 0 <= i < |pieces| && Strip(pieces[i]) != ""
    ensures Emitted(EmitPage(pieces, page, total), page, i)
    decreases |pieces|
  {
    var last := |pieces| - 1;
    var init := pieces[..last];
    var before := EmitPage(init, page, total);
    var r := EmitPage(pieces, page, total);
    if i == last {
      assert r[|before|].page == page && r[|before|].chunkIndex == i;
    } else {
      assert init[i] == pieces[i];
      EmitPageComplete(init, page, total, i);
      var k :| 0 <= k < |before| && before[k].page == page && before[k].chunkIndex == i;
      assert r[k] == before[k];
    }
  }

  /** Lexicographic (page, chunk index) order: page-major emission. */
  predicate Precedes(a: Chunk, b: Chunk) {
    a.page < b.page || (a.page == b.page && a.chunkIndex < b.chunkIndex)
  }

  /** Chunks emitted for the first `|pages|` pages of a `total`-page document,
      page p (0-based) having been split into `pages[p]`. */
  function ParsePages(pages: seq<seq<string>>, total: int): seq<Chunk>
    decreases |pages|
  {
    if pages == [] then []
    else
      var last := |pages| - 1;
      ParsePages(pages[..last], total) + EmitPage(pages[last], last + 1, total)
  }

  /** The split of every page, in page order. */
  function SplitPages(pageTexts: seq<string>): (pages: seq<seq<string>>)
    ensures |pages| == |pageTexts|
    ensures forall p :: 0 <= p < |pages| ==> pages[p] == PagePieces(pageTexts[p])
  {
    seq(|pageTexts|, p requires 0 <= p < |pageTexts| => PagePieces(pageTexts[p]))
  }

  /** `PDFParser.parse_pdf` over the page texts of one document: pages are
      numbered from 1 and every chunk carries the page count. */
  function ParsePdf(pageTexts: seq<string>): seq<Chunk> {
    ParsePages(SplitPages(pageTexts), |pageTexts|)
  }

  /** Every emitted chunk is the stripped, non-blank piece at its recorded
      index of its recorded 1-based page, and carries the page total. */
  lemma {:induction false} ParsePagesSound(pages: seq<seq<string>>, total: int)
    ensures forall k :: 0 <= k < |ParsePages(pages, total)| ==>
      && 1 <= ParsePages(pages, total)[k].page <= |pages|
      && EmittedFrom(ParsePages(pages, total)[k], pages[ParsePages(pages, total)[k].page - 1],
                     ParsePages(pages, total)[k].page, total)
    decreases |pages|
  {
    if pages != [] {
      var last := |pages| - 1;
      var before := ParsePages(pages[..last], total);
      var here := EmitPage(pages[last], last + 1, total);
      ParsePagesSound(pages[..last], total);
      EmitPageSound(pages[last], last + 1, total);
      var r := before + here;
      forall k | 0 <= k < |r|
        ensures 1 <= r[k].page <= |pages| && EmittedFrom(r[k], pages[r[k].page - 1], r[k].page, total)
      {
        if k < |before| {
          assert r[k] == before[k];
          assert pages[..last][r[k].page - 1] == pages[r[k].page - 1];
        } else {
          assert r[k] == here[k - |before|];
        }
      }
    }
  }

  /** Every non-blank piece of every page is emitted. */
  lemma {:induction false} ParsePagesComplete(pages: seq<seq<string>>, total: int, p: int, i: int)
    requires 0 <= p < |pages| && 0 <= i < |pages[p]| && Strip(pages[p][i]) != ""
    ensures Emitted(ParsePages(pages, total), p + 1, i)
    decreases |pages|
  {
    var last := |pages| - 1;
    var before := ParsePages(pages[..last], total);
    var here := EmitPage(pages[last], last + 1, total);
    var r := before + here;
    assert r == ParsePages(pages, total);
    if p < last {
      assert pages[..last][p] == pages[p];
      ParsePagesComplete(pages[..last], total, p, i);
      var k :| 0 <= k < |before| && before[k].page == p + 1 && before[k].chunkIndex == i;
      assert r[k] == before[k];
    } else {
      EmitPageComplete(pages[last], last + 1, total, i);
      var k :| 0 <= k < |here| && here[k].page == p + 1 && here[k].chunkIndex == i;
      assert r[|before| + k] == here[k];
    }
  }

  /** Emission is page-major, and within a page in chunk-index order. */
  lemma {:induction false} ParsePagesOrdered(pages: seq<seq<string>>, total: int)
    ensures forall k, l :: 0 <= k < l < |ParsePages(pages, total)| ==>
      Precedes(ParsePages(pages, total)[k], ParsePages(pages, total)[l])
    decreases |pages|
  {
    if pages != [] {
      var last := |pages| - 1;
      var before := ParsePages(pages[..last], total);
      var here := EmitPage(pages[last], last + 1, total);
      ParsePagesOrdered(pages[..last], total);
      ParsePagesSound(pages[..last], total);
      EmitPageSound(pages[last], last + 1, total);
      var r := before + here;
      forall k, l | 0 <= k < l < |r| ensures Precedes(r[k], r[l]) {
        if l < |before| {
          assert r[k] == before[k] && r[l] == before[l];
        } else if k >= |before| {
          assert r[k] == here[k - |before|] && r[l] == here[l - |before|];
        } else {
          assert r[k] == before[k] && r[l] == here[l - |before|];
          assert EmittedFrom(here[l - |before|], pages[last], last + 1, total);
        }
      }
    }
  }

  /** Every chunk `parse_pdf` emits is the stripped, non-blank piece at its
      recorded index of its recorded 1-based page, with the page count. */
  lemma ParsePdfSound(pageTexts: seq<string>, k: int)
    requires 0 <= k < |ParsePdf(pageTexts)|
    ensures 1 <= ParsePdf(pageTexts)[k].page <= |pageTexts|
    ensures EmittedFrom(ParsePdf(pageTexts)[k], PagePieces(pageTexts[ParsePdf(pageTexts)[k].page - 1]),
                        ParsePdf(pageTexts)[k].page, |pageTexts|)
  {
    var pages := SplitPages(pageTexts);
    ParsePagesSound(pages, |pageTexts|);
    var c := ParsePdf(pageTexts)[k];
    assert pages[c.page - 1] == PagePieces(pageTexts[c.page - 1]);
  }

  /** `parse_pdf` emits every non-blank piece of every page. */
  lemma ParsePdfComplete(pageTexts: seq<string>, p: int, i: int)
    requires 0 <= p < |pageTexts| && 0 <= i < |PagePieces(pageTexts[p])|
    requires Strip(PagePieces(pageTexts[p])[i]) != ""
    ensures Emitted(ParsePdf(pageTexts), p + 1, i)
  {
    var pages := SplitPages(pageTexts);
    assert pages[p] == PagePieces(pageTexts[p]);
    ParsePagesComplete(pages, |pageTexts|, p, i);
  }

  /** `parse_pdf` emits page-major, in chunk-index order within a page. */
  lemma ParsePdfOrdered(pageTexts: seq<string>)
    ensures forall k, l :: 0 <= k < l < |ParsePdf(pageTexts)| ==>
      Precedes(ParsePdf(pageTexts)[k], ParsePdf(pageTexts)[l])
  {
    ParsePagesOrdered(SplitPages(pageTexts), |pageTexts|);
  }
}
