# PDF question answering: retrieval-augmented pipeline, modelled in Dafny

This project models the core of a small retrieval-augmented question-answering
service over uploaded PDFs. Each part is a pure Dafny function, or a method
where the source has a loop worth following, and lemmas state what each part
promises. The parts are:

- **Chunker** (`chunker.dfy`). A page's text is cut into sentence-packed
  chunks of at most 500 characters, with a fixed-width fallback. Every
  non-blank chunk is emitted with its 1-based page, its index and the page
  count.
- **Vector-store adapter** (`vector_store.dfy`). The collection is a sequence
  of records with fresh ids. It covers adding chunks with their embeddings,
  clamping a query's result count to the collection size, and dropping the
  collection.
- **Threshold filter** (`retrieval.dfy`). A ranked query answer keeps the
  chunks whose cosine distance is absent or below 0.8, in ranked order.
- **Classifier** (`classifier.dfy`). The lower-cased question is matched
  against four keyword lists in priority order. The first list that matches
  decides the question type and the number of chunks to retrieve.
- **Context assembler** (`context.dfy`). Retrieved chunks are grouped by
  (file name, page) into sources, numbered in first-seen order. Each source
  gives one context line and one citation with a 200-character snippet.
- **Prompt builder** (`prompt.dfy`). The base instructions, the block for the
  question type, the context, the question, and a closing line naming the
  number of sources.
- **Citation reconciler** (`reconcile.dfy`). The model's answer is scanned
  for `[Source n]` markers, matched case-insensitively with any whitespace.
  The cited citations are kept and renumbered 1..k, and the markers are
  rewritten to match. When nothing valid is cited, the answer and all
  citations are returned unchanged.
- **Pipeline** (`rag.dfy`). `generate_answer` and `ask_question`. The
  embedding service, the store's nearest-neighbour search and the chat model
  are function parameters. A model failure is a `Result` error carrying the
  message the source raises.
- **HTTP helpers** (`api.dfy`). The `.pdf` upload guard, the question
  guard, and the OpenRouter model-name normalisation. Also the quiz-size
  parameter, with Python's `int()` on a decoded JSON value.

`text.dfy` holds the string operations the source takes from Python:
`strip`, `split`, `join`, `replace`, `lower`, `in`, `endswith`, and printing
and reading integers. `wrappers.dfy` holds `Option` and `Result`.

`_split_text_into_chunks` returns `[""]` for empty text, not an empty list,
because its length test runs first (backend/pdf_parser.py:68-69).

## Model

| member | source | states |
|---|---|---|
| `Chunker.SplitTextIntoChunks` | backend/pdf_parser.py:56-99 | Text of at most `chunk_size` characters, empty text included, comes back whole as a single chunk. Longer text gives at least one chunk, each non-empty and at most `chunk_size` long. Together they spell the newline-flattened text followed by one `". "`. |
| `Chunker.PackConcat` | backend/pdf_parser.py:74-87 | Sentence packing loses and invents no characters: the packed chunks concatenate to the sentences with their `". "` separators restored. |
| `Chunker.PackNonEmpty` | backend/pdf_parser.py:77-87 | The packer never emits an empty chunk. |
| `Chunker.DottedJoin` | backend/pdf_parser.py:75 | Restoring `". "` after each sentence of the split gives the flattened text plus one trailing separator. |
| `Chunker.HardSplit` | backend/pdf_parser.py:89-97 | The fixed-width fallback gives at least one piece. Every piece is at most `chunk_size` long, all but the last exactly that long, and none is empty for a non-empty chunk. |
| `Chunker.HardSplitConcat` | backend/pdf_parser.py:96-97 | The fixed-width pieces concatenate back to the chunk. |
| `Chunker.HardSplitCount` | backend/pdf_parser.py:96-97 | A chunk of length L is cut into exactly ceil(L / `chunk_size`) pieces. |
| `Chunker.HardSplitIsRangeSlicing` | backend/pdf_parser.py:96-97 | Piece k is `chunk[k*size : (k+1)*size]`, cut short at the end: exactly what the `range` loop slices out. |
| `Chunker.HardSplitAllConcat` | backend/pdf_parser.py:89-98 | Running the fallback over every packed chunk keeps the concatenated text. |
| `Chunker.EmitPageSound` | backend/pdf_parser.py:42-49 | Each chunk emitted for a page is the stripped, non-blank piece at its recorded index. It carries the page and the page total, and indices increase along the output. |
| `Chunker.EmitPageComplete` | backend/pdf_parser.py:42-49 | Every piece whose stripped text is non-blank is emitted, tagged with the page and the piece's index. |
| `Chunker.ParsePdfSound` | backend/pdf_parser.py:33-49 | Every chunk `parse_pdf` emits has a page in 1..page count. Its text is the stripped, non-blank piece at its recorded index of that page's split, and it carries the page count. |
| `Chunker.ParsePdfComplete` | backend/pdf_parser.py:33-49 | Every non-blank piece of every page is emitted, tagged with its 1-based page and its index. |
| `Chunker.ParsePdfOrdered` | backend/pdf_parser.py:33-49 | Chunks come out page by page, and within a page in index order. |
| `VectorStore.Open` | backend/vector_store.py:30-40 | A freshly opened store is empty and its ids are consistent. |
| `VectorStore.MetadataFor` | backend/vector_store.py:57-62 | Stored metadata carries the file name, the chunk's page and index, and its page total, or 0 when the total is missing. |
| `VectorStore.AddDocuments` | backend/vector_store.py:42-77 | Missing embeddings raise and leave the store as it was, and so does an embedding count that differs from the chunk count. Otherwise every chunk is appended after the old records, which are unchanged, with its text, metadata and embedding. Ids stay pairwise distinct. |
| `VectorStore.AppendRecords` | backend/vector_store.py:64-77 | The appended records follow the old ones, one per chunk at its own offset, with fresh ids above every old id. |
| `VectorStore.ClampResults` | backend/vector_store.py:93-97 | For a non-empty collection the count is the smaller of the request and the collection size. For an empty collection the request passes unchanged. |
| `VectorStore.Query` | backend/vector_store.py:79-109 | The query embeddings pass unchanged with the clamped count. A filter is forwarded iff one is given and it is non-empty. |
| `VectorStore.DeleteCollection` | backend/vector_store.py:111-117 | After a delete the collection is empty, and ids stay consistent. |
| `VectorStore.ClearThenAdd` | backend/vector_store.py:111-117 | Adding n chunks with n embeddings to a just-cleared collection succeeds and leaves exactly n documents. |
| `VectorStore.SizeCountsIds` | backend/vector_store.py:119-121 | In a consistent store the reported size equals the number of distinct document ids. |
| `Retrieval.KeptAmongSpec` | backend/rag_system.py:106-121 | The kept chunks are exactly the results that pass, in ranked order. The k-th kept chunk is the result at the k-th passing position, and a position passes iff its distance is absent or below 0.8. |
| `Retrieval.FilterByThreshold` | backend/rag_system.py:106-121 | The loop returns exactly the reference filter's output. Every kept chunk passes the threshold, and every passing result is kept. |
| `Retrieval.ThresholdEdges` | backend/rag_system.py:115 | The threshold is strict: a distance of exactly 0.8 is dropped, 0.79 is kept, and a missing distance is kept. |
| `Classifier.Classify` | backend/rag_system.py:328-367 | The recommended chunk count is the one belonging to the chosen question type. |
| `Classifier.AnyKeywordIsMention` | backend/rag_system.py:343 | `any(keyword in text ...)` holds iff some keyword of the list occurs at some position of the text. |
| `Classifier.ClassifySpec` | backend/rag_system.py:338-367 | The type follows where keywords occur in the lower-cased question. The first matching list wins, in the order summary, procedure, compare, fact. Fact also needs fewer than 10 words and otherwise falls through to Default. Each outcome is stated both ways. |
| `Classifier.ClassifyCaseInsensitive` | backend/rag_system.py:338 | Questions differing only in letter case are classified the same. |
| `Classifier.SummaryBeatsProcedure` | backend/rag_system.py:341-350 | "Summarize the steps" is a summary question (40 chunks), since the summary list is tried first. |
| `Classifier.KeywordInsideWord` | backend/rag_system.py:347-349 | Matching is by substring: the procedure keyword "way" is found inside "always". |
| `Context.GroupNumbering` | backend/rag_system.py:147-165 | Sources are numbered 1, 2, … in order, and no two share a (file, page) key. |
| `Context.GroupCoverage` | backend/rag_system.py:148-165 | Every source's key is some chunk's key, and every chunk's key has a source. |
| `Context.GroupTexts` | backend/rag_system.py:154-164 | A source holds the texts of exactly the chunks with its key, in encounter order. |
| `Context.GroupOrder` | backend/rag_system.py:147-165 | Sources appear in the order their keys were first seen. |
| `Context.Snippet` | backend/rag_system.py:176 | A snippet of at most 200 characters is kept whole. A longer one is its first 200 characters followed by `...`. |
| `Context.Assemble` | backend/rag_system.py:184-187 | The number of sources announced equals the number of citations and of distinct keys. The context is the per-source lines, one per source in source order, separated by blank lines. |
| `Context.AssembleCitations` | backend/rag_system.py:143-182 | Citations are numbered 1..m, one per distinct (file, page), each taken from some retrieved chunk. Every retrieved chunk's key is cited. |
| `Context.AssembleLines` | backend/rag_system.py:167-184 | Source k+1's line is `[Source k+1 - Page p]: ` followed by all the texts with its key, space-joined in order. Its snippet comes from the first of them, and later sources' keys were first seen later. |
| `Context.SamePageMerges` | backend/rag_system.py:152-156 | Two chunks from one file and page make one source holding both texts, and one citation. |
| `Prompt.InstructionFor` | backend/rag_system.py:250 | An unknown question type gets the Default block. |
| `Prompt.InstructionForCategory` | backend/rag_system.py:209-250 | Each classifier type's name selects that type's block, and any other name selects the Default block. |
| `Prompt.LayoutParts` | backend/rag_system.py:252-261 | In the prompt layout the base text comes first and the instruction follows the blank line after it. The context and question appear verbatim, and the closing line ends the prompt. |
| `Prompt.BuildPrompt` | backend/rag_system.py:252-261 | The prompt starts with the base instructions, then the type's block after a blank line. It contains the context and the question, and ends with the closing directive naming the source count. |
| `Prompt.ClosingNumberUnique` | backend/rag_system.py:261 | The closing directive at the end of a text determines the source count it names. |
| `Prompt.PromptNamesSourceCount` | backend/rag_system.py:187-261 | Equal prompts announce equal source counts: the announced count can be read back from the prompt. |
| `Reconciler.MatchAt` | backend/rag_system.py:286-287 | A marker match, when there is one, ends after at least 9 characters and within the text. |
| `Reconciler.MatchIsPattern` | backend/rag_system.py:286 | The greedy matcher finds a match iff the pattern `\[Source\s+(\d+)\]` (case-insensitive) matches at the start, and then it finds that very match and number. |
| `Reconciler.PatternMatch` | backend/rag_system.py:286 | Wherever the pattern occurs at the start of the text, the matcher returns that match's end and number. |
| `Reconciler.MatchIsLocal` | backend/rag_system.py:286 | A match depends only on the text up to its closing bracket. |
| `Reconciler.TokenizeRoundTrip` | backend/rag_system.py:287 | The left-to-right scan into plain characters and markers loses nothing: its segments spell the answer back. |
| `Reconciler.CitedNumbersSpec` | backend/rag_system.py:287-289 | A number is found by `findall` iff some scanned marker carries it. |
| `Reconciler.NewMarkerMatches` | backend/rag_system.py:315 | A rewritten `[Source k]` is itself a whole marker for k. |
| `Reconciler.ValidCited` | backend/rag_system.py:284-292 | A number counts as cited iff some marker names it and some citation carries it. |
| `Reconciler.KeepCitedSpec` | backend/rag_system.py:298-303 | The filtered list holds exactly the citations with cited numbers, in their order, and stays ascending. |
| `Reconciler.NewNumber` | backend/rag_system.py:305-309 | The remap sends an old number to a position 1..k whose citation has that number, and is undefined for numbers no kept citation has. |
| `Reconciler.NewNumberSpec` | backend/rag_system.py:302-309 | On the sorted list the remap sends the j-th kept citation's number to j+1 and preserves order. |
| `Reconciler.Rewrite` | backend/rag_system.py:312-318 | Substitution works segment by segment and keeps the number of segments. |
| `Reconciler.Renumber` | backend/rag_system.py:305-309 | The j-th kept citation is returned unchanged apart from its number, which becomes j+1. |
| `Reconciler.Reconcile` | backend/rag_system.py:283-321 | When no valid number is cited, answer and citations are returned unchanged. Otherwise the returned citations are numbered 1..k. |
| `Reconciler.RetokenizeRewrite` | backend/rag_system.py:312-318 | Scanning the rewritten answer finds exactly the rewritten segments. New markers carry their new numbers, and no marker appears from the surrounding text. |
| `Reconciler.ReconcileCitations` | backend/rag_system.py:296-309 | The returned citations are exactly the input citations the answer names, kept in order and renumbered 1..k. |
| `Reconciler.RewriteNamedMarker` | backend/rag_system.py:312-315 | A marker naming a citation becomes `[Source j]`, where j is that citation's position in the kept list. |
| `Reconciler.RewriteUnnamedMarker` | backend/rag_system.py:316 | A marker naming no citation is left as written. |
| `Reconciler.ReconcileShape` | backend/rag_system.py:296-318 | The new answer scans into the old answer's segments with the markers rewritten, beside the renumbered citations. |
| `Reconciler.ReconcileKeepsText` | backend/rag_system.py:312-318 | Every plain character and every marker naming no citation is unchanged, position by position. |
| `Reconciler.ReconcileRenumbersMarkers` | backend/rag_system.py:305-318 | Every marker naming an input citation becomes `[Source j]`, and the j-th returned citation is that citation renumbered to j. |
| `Reconciler.ReconcileCitesAll` | backend/rag_system.py:296-318 | Every returned citation is named by its new number somewhere in the returned answer. |
| `Reconciler.ReconcileNoClash` | backend/rag_system.py:312-318 | With citations numbered 1..m, every marker in the new answer numbered within 1..k is one that was rewritten, never a leftover marker for a source that does not exist. |
| `Rag.LlmErrorMessage` | backend/rag_system.py:274-279 | An error mentioning 401 or an unknown user is reported as an authentication failure, any other as a failed API call. Either way the message ends with the original error text. |
| `Rag.GenerateAnswer` | backend/rag_system.py:136-140 | With nothing retrieved, the fixed "couldn't find" answer is returned with no citations. |
| `Rag.EmptyRetrievalSkipsModel` | backend/rag_system.py:136-140 | With nothing retrieved the chat model is never consulted, and the answer succeeds. |
| `Rag.GenerateAnswerPrompt` | backend/rag_system.py:186-281 | The model is sent the prompt built from the question type, the assembled context, the question and the distinct-source count. `generate_answer` fails exactly when that call fails. |
| `Rag.GenerateAnswerCitations` | backend/rag_system.py:143-326 | A successful answer over a non-empty retrieval carries at least one citation. Citations are numbered 1..k, each with a distinct (file, page) key taken from a retrieved chunk. |
| `Rag.AnswerFromCitations` | backend/rag_system.py:283-321 | Reconciling any model reply against a non-empty retrieval's citations leaves at least one citation. The citations are numbered 1..k, with distinct (file, page) keys from retrieved chunks. |
| `Rag.ReconcileKeepsKeys` | backend/rag_system.py:296-309 | When something is cited, reconciling keeps at least one citation. Their keys stay distinct and come from retrieved chunks. |
| `Rag.RenumberKeepsKeys` | backend/rag_system.py:298-309 | Filtering and renumbering a key-distinct citation list keeps its keys distinct and from retrieved chunks. |
| `Rag.ResultCount` | backend/rag_system.py:384-385 | An explicit `n_results` is used as given. Otherwise the classifier's count for the question is used. |
| `Rag.AskQuestion` | backend/rag_system.py:369-393 | The store is queried once, with the question's embedding, no filter and the clamped count. The threshold filter keeps what it keeps. The answer is generated under the question's classified type. |
| `Api.UploadGuardExamples` | main.py:102-103 | Only names ending in `.pdf` are accepted, case-sensitively: `REPORT.PDF` and `report.pdf.txt` are refused. |
| `Api.QuestionGuardSpec` | main.py:148-150 | A missing question, `null` or an empty string is refused. Any non-empty string question is accepted. |
| `Api.NormalizeModelName` | main.py:158-188 | No override is produced iff the model name is absent or empty. With OpenRouter, a name holding a `/` is sent with every `claude-3.5` rewritten to `claude-3-5`. A bare name gets its provider from the first prefix it starts with, tried in the order `gpt`, `claude`, `llama`, `gemini`: `openai/`, `anthropic/` with every `3.5` rewritten to `3-5`, `meta/`, `google/`. Any other bare name gets `openai/`. |
| `Api.SlashedNamesUseHyphens` | main.py:163-170 | With OpenRouter, a name that already names a provider comes out with `claude-3.5` replaced throughout, and no `claude-3.5` is left in it. |
| `Api.NoClaudeDotLeft` | main.py:167 | `replace('claude-3.5', 'claude-3-5')` leaves no `claude-3.5` anywhere, not even one spanning a rewritten occurrence. |
| `Api.DirectPassesThrough` | main.py:186-188 | Without OpenRouter a model name is used as given. |
| `Api.OpenRouterNamesProvider` | main.py:162-184 | With OpenRouter every override contains a `/`. A name that already had a provider keeps its length. |
| `Api.NoDottedVersionLeft` | main.py:177 | `replace('3.5', '3-5')` leaves no `3.5` anywhere. |
| `Api.ClaudeNamesUseHyphens` | main.py:175-178 | A bare Claude name becomes `anthropic/` plus the name with every `3.5` rewritten, and the result holds no `3.5`. |
| `Api.PythonIntRoundTrip` | main.py:281 | `int()` reads a printed integer back as that integer. |
| `Api.IntOf` | main.py:281 | An integer converts to itself. `null`, lists and objects give a type error. |
| `Api.PaddingIsSkipped` | main.py:281 | `int()` of a string reads the same number whatever whitespace padding surrounds it. |
| `Api.SeparatorsAreNotPadding` | main.py:281 | A string starting with one of the separators U+001C..U+001F fails to convert, even though `str.isspace()` holds for them. |
| `Api.QuizCount` | main.py:278-285 | The quiz size is always within 1..20. |
| `Api.QuizCountSpec` | main.py:278-285 | The supplied `num_questions` is used iff it converts to an integer within 1..20. Otherwise the size is 10. |
| `Api.QuizCountExamples` | main.py:278-285 | The edges: 20 is kept, 21 and 0 give 10, `true` gives 1, 19.9 truncates to 19, and `null` and `"\u001c5"` give 10. |

## Left out

- The embedding service, the store library's nearest-neighbour search and the chat model are external calls. They are function parameters of `Rag.AskQuestion` and `Rag.GenerateAnswer`. The system message, temperature and token limit sent with the prompt are not modelled.
- The store library's ranking, cosine distances, persistence and on-disk state are out of scope. Distances are modelled as reals, so floating-point rounding is not modelled.
- `uuid4` ids are modelled by a counter that hands out fresh ids. Only their distinctness is used.
- Text extraction by the PDF reader is not modelled. A document is the sequence of its page texts, and reader errors, re-raised as "Error parsing PDF", are out of scope.
- `str.lower` is modelled on ASCII letters only. `\d` in the marker pattern and digits in `int()` are ASCII only. Case-insensitive matching covers ASCII letters and the long s (U+017F), the only non-ASCII character that folds into `source`.
- `Chunker.SplitTextIntoChunks`: requires a positive chunk size. In Python, `range` with step 0 raises, and the only caller passes 500.
- `Reconciler.Reconcile`: requires strictly ascending citation numbers, which is what the assembler produces, so the source's sort by number is the identity. Unsorted input lists are not modelled.
- `VectorStore.AddDocuments`: an embedding count different from the chunk count is modelled as an error of the store library, with the store left unchanged. The library's exact exception text is not modelled, and neither is what it does with an empty batch.
- `Rag.AskQuestion`: failures of the embedding service and of the store query, which propagate as exceptions in the source, are not modelled. Embedding and search are total function parameters.
- `Rag.GenerateAnswer`: a model reply with no content (`message.content` of `None`) is not modelled. The reply is a string.
- `Api.IntOf`: a JSON float is a real and is truncated toward zero. Infinity and NaN, which make `int()` raise, are not modelled. Non-string model names in a request are not modelled either.
- The HTTP routes, status codes and error wrapping of the web layer are not modelled. The upload's file writing, the server start-up and the quiz generator itself are left out too.
- The chat route passes `model_name=` to `ask_question`, which takes no such parameter (main.py:191). The quiz route calls `generate_quiz_questions` (main.py:289), which `backend/rag_system.py` does not define. Both call sites would raise at run time. The model covers the helpers' values up to those calls and not the calls themselves.
- The figure-generation scripts and the Word converter are outside the core.
