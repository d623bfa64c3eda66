/** The answer pipeline of `RAGSystem`: `generate_answer` (assembly, prompt,
    model call, reconciliation) and `ask_question` (classification, retrieval
    count, query, threshold filter, answer). The embedding service, the
    store's nearest-neighbour search and the chat model are parameters. */
module Rag {
  import opened Wrappers
  import opened Text
  import opened Classifier
  import opened Retrieval
  import opened Context
  import opened Prompt
  import opened Reconciler
  import VectorStore

  /** The fixed answer for an empty retrieval. */
  const NoInfoAnswer: string :=
    "I couldn't find relevant information in the uploaded PDFs to answer your question."


  /** The message raised when the model call fails: an authentication
      failure when the error text mentions 401 or an unknown user, a generic
      failure otherwise. */
  function LlmErrorMessage(error: string): (message: string)
    ensures (Contains(error, "401") || Contains(error, "User not found")) ==>
      message == "Authentication failed. Please check your API key. Error: " + error
    ensures !(Contains(error, "401") || Contains(error, "User not found")) ==>
      message == "Error calling LLM API: " + error
    ensures EndsWith(message, error)
  {
    var message :=
      if Contains(error, "401") || Contains(error, "User not found") then
        "Authentication failed. Please check your API key. Error: " + error
      else "Error calling LLM API: " + error;
    assert message[|message| - |error|..] == error;
    message
  }

  /** `generate_answer`. The chat model maps a prompt to its answer text or
      to an error message. */
  function GenerateAnswer(question: string, chunks: seq<RetrievedChunk>, questionType: string,
                          llm: string -> Result<string, string>): (r: Result<Reconciled, string>)
    ensures chunks == [] ==> r == Ok(Reconciled(NoInfoAnswer, []))
  {
    if chunks == [] then Ok(Reconciled(NoInfoAnswer, []))
    else
      var assembly := Assemble(chunks);
      var prompt := BuildPrompt(question, questionType, assembly.context, assembly.numSources);
      match llm(prompt)
      case Err(e) => Err(LlmErrorMessage(e))
      case Ok(raw) => Ok(AnswerFrom(raw, chunks))
  }

  /** The model's raw answer reconciled against the assembled citations. */
  function AnswerFrom(raw: string, chunks: seq<RetrievedChunk>): (r: Reconciled)
    ensures ValidCited(Tokenize(raw), Assemble(chunks).citations) == {} ==>
      r == Reconciled(raw, Assemble(chunks).citations)
  {
    AssembleCitations(chunks);
    Reconcile(raw, Assemble(chunks).citations)
  }

  /** With nothing retrieved the model is never consulted: any two models
      give the same result. */
  lemma EmptyRetrievalSkipsModel(question: string, questionType: string,
                                 llm: string -> Result<string, string>, llm': string -> Result<string, string>)
    ensures GenerateAnswer(question, [], questionType, llm) == GenerateAnswer(question, [], questionType, llm')
    ensures GenerateAnswer(question, [], questionType, llm).Ok?
  {
  }

  /** The model sees the base instructions, the block for the question's
      type, the assembled context, the question, and the count of distinct
      sources; it fails exactly when the model call fails. */
  lemma GenerateAnswerPrompt(question: string, chunks: seq<RetrievedChunk>, questionType: string,
                             llm: string -> Result<string, string>)
    requires chunks != []
    ensures var a := Assemble(chunks);
      var prompt := BuildPrompt(question, questionType, a.context, a.numSources);
      && BaseInstructions <= prompt
      && OccursAt(prompt, InstructionFor(questionType), |BaseInstructions| + 2)
      && Contains(prompt, a.context) && Contains(prompt, question)
      && EndsWith(prompt, ClosingDirective(|Group(chunks)|))
      && (GenerateAnswer(question, chunks, questionType, llm).Err? <==> llm(prompt).Err?)
  {
  }

  function CiteKey(c: Citation): SourceKey {
    SourceKey(c.pdfFilename, c.page)
  }

  /** No two citations share a (file, page). */
  predicate KeysDistinct(cs: seq<Citation>) {
    forall k, l :: 0 <= k < l < |cs| ==> CiteKey(cs[k]) != CiteKey(cs[l])
  }

  /** Every citation names a (file, page) some retrieved chunk came from. */
  ghost predicate KeysFrom(cs: seq<Citation>, chunks: seq<RetrievedChunk>) {
    forall k :: 0 <= k < |cs| ==> KeySeen(chunks, CiteKey(cs[k]))
  }

  /** What the caller gets back with a non-empty retrieval: at least one
      citation, numbered 1..k, each naming a distinct (file, page) that some
      retrieved chunk came from. */
  lemma GenerateAnswerCitations(question: string, chunks: seq<RetrievedChunk>, questionType: string,
                                llm: string -> Result<string, string>)
    requires chunks != []
    requires GenerateAnswer(question, chunks, questionType, llm).Ok?
    ensures var cs := GenerateAnswer(question, chunks, questionType, llm).value.citations;
      && |cs| >= 1
      && (forall k :: 0 <= k < |cs| ==> cs[k].source == k + 1)
      && KeysFrom(cs, chunks)
      && KeysDistinct(cs)
  {
    var a := Assemble(chunks);
    var prompt := BuildPrompt(question, questionType, a.context, a.numSources);
    AnswerFromCitations(llm(prompt).value, chunks);
  }

  lemma AnswerFromCitations(raw: string, chunks: seq<RetrievedChunk>)
    requires chunks != []
    ensures var cs := AnswerFrom(raw, chunks).citations;
      && |cs| >= 1
      && (forall k :: 0 <= k < |cs| ==> cs[k].source == k + 1)
      && KeysFrom(cs, chunks)
      && KeysDistinct(cs)
  {
    AssembleCitations(chunks);
    GroupNonEmpty(chunks);
    var all := Assemble(chunks).citations;
    assert |all| >= 1;
    if ValidCited(Tokenize(raw), all) != {} {
      ReconcileKeepsKeys(raw, all, chunks);
    }
  }

  /** Reconciling keeps the citations' (file, page) pairs distinct and
      pointing at retrieved chunks, and keeps at least one citation. */
  lemma ReconcileKeepsKeys(raw: string, all: seq<Citation>, chunks: seq<RetrievedChunk>)
    requires Ascending(all) && KeysDistinct(all) && KeysFrom(all, chunks)
    requires ValidCited(Tokenize(raw), all) != {}
    ensures var cs := Reconcile(raw, all).citations;
      && |cs| >= 1
      && (forall k :: 0 <= k < |cs| ==> cs[k].source == k + 1)
      && KeysFrom(cs, chunks)
      && KeysDistinct(cs)
  {
    var cited := ValidCited(Tokenize(raw), all);
    ReconcileShape(raw, all);
    var n :| n in cited;
    var i :| 0 <= i < |all| && all[i].source == n;
    RenumberKeepsKeys(all, cited, chunks, i);
  }

  lemma RenumberKeepsKeys(all: seq<Citation>, cited: set<int>, chunks: seq<RetrievedChunk>, i: nat)
    requires Ascending(all) && KeysDistinct(all) && KeysFrom(all, chunks)
    requires i < |all| && all[i].source in cited
    ensures var cs := Renumber(KeepCited(all, cited));
      |cs| >= 1 && KeysFrom(cs, chunks) && KeysDistinct(cs)
  {
    var kept := KeepCited(all, cited);
    KeepCitedSpec(all, cited);
    var cs := Renumber(kept);
    assert all[i] in kept;
    forall k | 0 <= k < |cs|
      ensures KeySeen(chunks, CiteKey(cs[k]))
    {
      var p :| 0 <= p < |all| && all[p] == kept[k];
      assert CiteKey(cs[k]) == CiteKey(all[p]);
    }
    forall k, l | 0 <= k < l < |cs|
      ensures CiteKey(cs[k]) != CiteKey(cs[l])
    {
      var p :| 0 <= p < |all| && all[p] == kept[k];
      var q :| 0 <= q < |all| && all[q] == kept[l];
      assert kept[k].source < kept[l].source;
      assert p != q;
      assert CiteKey(cs[k]) == CiteKey(all[p]) && CiteKey(cs[l]) == CiteKey(all[q]);
    }
  }

  /** The count asked of the store: an explicit `n_results` is used as
      given, otherwise the count the question's category recommends. */
  function ResultCount(question: string, nResults: Option<int>): (n: int)
    ensures nResults.Some? ==> n == nResults.value
    ensures nResults.None? ==> n == Classify(question).0.RetrievalCount()
  {
    match nResults
    case Some(n) => n
    case None => Classify(question).1
  }

  /** `ask_question`: classify, query the store for the question's embedding,
      filter by distance, answer from what is left. `embed` stands for the
      embedding service and `search` for the store library's ranked search. */
  method AskQuestion(store: VectorStore.Store, question: string, nResults: Option<int>,
                     embed: string -> VectorStore.Embedding,
                     search: VectorStore.QueryRequest -> QueryResult,
                     llm: string -> Result<string, string>)
    returns (request: VectorStore.QueryRequest, chunks: seq<RetrievedChunk>, r: Result<Reconciled, string>)
    requires forall q :: WellFormed(search(q))
    ensures request.queryEmbeddings == [embed(question)] && request.filter.None?
    ensures request.nResults == VectorStore.ClampResults(ResultCount(question, nResults), VectorStore.Size(store))
    ensures chunks == KeptAmong(search(request), |search(request).documents|)
    ensures r == GenerateAnswer(question, chunks, Classify(question).0.Name(), llm)
  {
    var classified := Classify(question);
    var count := ResultCount(question, nResults);
    request := VectorStore.Query(store, [embed(question)], count, None);
    chunks := FilterByThreshold(search(request));
    r := GenerateAnswer(question, chunks, classified.0.Name(), llm);
  }
}
