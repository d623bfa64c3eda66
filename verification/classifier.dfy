/** The question classifier (`RAGSystem.classify_question_type`): keyword
    lists are tried in a fixed priority order against the lower-cased
    question, and the first list with a keyword occurring anywhere in it (as a
    plain substring) decides the category and the number of chunks to
    retrieve. */
module Classifier {
  import opened Text

  datatype Category = Summary | Procedure | CompareAnalyze | Fact | Default {
    /** The category's name, as passed on to the prompt builder. */
    function Name(): string {
      match this
      case Summary => "Summary"
      case Procedure => "Procedure"
      case CompareAnalyze => "Compare/Analyze"
      case Fact => "Fact"
      case Default => "Default"
    }

    /** How many chunks the category asks the store for. */
    function RetrievalCount(): nat {
      match this
      case Summary => 40
      case Procedure => 40
      case CompareAnalyze => 30
      case Fact => 8
      case Default => 25
    }
  }

  const SummaryKeywords: seq<string> :=
    ["summary", "summarize", "overview", "main points", "key findings",
     "conclusion", "what is the gist", "briefly explain"]

  const ProcedureKeywords: seq<string> :=
    ["step", "steps", "process", "procedure", "how to", "how do",
     "method", "way", "list", "sequence", "order", "workflow"]

  const CompareKeywords: seq<string> :=
    ["compare", "difference", "different", "versus", "vs", "vs.",
     "similar", "similarity", "analyze", "analysis", "contrast",
     "relationship", "between"]

  const FactKeywords: seq<string> :=
    ["what is", "what are", "who is", "when", "where", "which",
     "define", "definition", "meaning"]

  /** A fact question must have fewer words than this. */
  const FactWordLimit: nat := 10

  /** `any(keyword in text for keyword in keywords)`. */
  predicate AnyKeyword(text: string, keywords: seq<string>) {
    exists k :: 0 <= k < |keywords| && Contains(text, keywords[k])
  }

  /** Some keyword of the list occurs at some position of the text. */
  ghost predicate Mentions(text: string, keywords: seq<string>) {
    exists k, i :: 0 <= k < |keywords| && OccursAt(text, keywords[k], i)
  }

  lemma AnyKeywordIsMention(text: string, keywords: seq<string>)
    ensures AnyKeyword(text, keywords) <==> Mentions(text, keywords)
  {
    forall k | 0 <= k < |keywords|
      ensures Contains(text, keywords[k]) <==> exists i :: OccursAt(text, keywords[k], i)
    {
      ContainsIff(text, keywords[k]);
    }
  }

  /** The priority chain over the lower-cased question `q` of `words` words. */
  function CategoryOf(q: string, words: nat): Category {
    if AnyKeyword(q, SummaryKeywords) then Summary
    else if AnyKeyword(q, ProcedureKeywords) then Procedure
    else if AnyKeyword(q, CompareKeywords) then CompareAnalyze
    else if AnyKeyword(q, FactKeywords) && words < FactWordLimit then Fact
    else Default
  }

  /** `classify_question_type`: (category, recommended chunk count). */
  function Classify(question: string): (r: (Category, nat))
    ensures r.1 == r.0.RetrievalCount()
  {
    var category := CategoryOf(Lower(question), WordCount(question));
    (category, category.RetrievalCount())
  }

  /** The category in terms of where keywords occur in the lower-cased
      question: first matching list wins, and Fact also needs a short
      question, falling through to Default otherwise. */
  lemma ClassifySpec(question: string)
    ensures var q := Lower(question); var c := Classify(question).0;
      && (c == Summary <==> Mentions(q, SummaryKeywords))
      && (c == Procedure <==> !Mentions(q, SummaryKeywords) && Mentions(q, ProcedureKeywords))
      && (c == CompareAnalyze <==>
            !Mentions(q, SummaryKeywords) && !Mentions(q, ProcedureKeywords) && Mentions(q, CompareKeywords))
      && (c == Fact <==>
            && !Mentions(q, SummaryKeywords) && !Mentions(q, ProcedureKeywords) && !Mentions(q, CompareKeywords)
            && Mentions(q, FactKeywords) && WordCount(question) < FactWordLimit)
      && (c == Default <==>
            && !Mentions(q, SummaryKeywords) && !Mentions(q, ProcedureKeywords) && !Mentions(q, CompareKeywords)
            && (!Mentions(q, FactKeywords) || WordCount(question) >= FactWordLimit))
  {
    var q := Lower(question);
    AnyKeywordIsMention(q, SummaryKeywords);
    AnyKeywordIsMention(q, ProcedureKeywords);
    AnyKeywordIsMention(q, CompareKeywords);
    AnyKeywordIsMention(q, FactKeywords);
  }

  /** Classification depends on the question only through its lower-cased
      form: questions differing only in letter case get the same result. */
  lemma ClassifyCaseInsensitive(a: string, b: string)
    requires Lower(a) == Lower(b)
    ensures Classify(a) == Classify(b)
  {
    WordCountLower(a);
    WordCountLower(b);
    assert WordCount(a) == WordCount(b);
  }

  /** A question asking to summarise steps is a summary question: the
      summary list is tried before the procedure list. */
  lemma SummaryBeatsProcedure()
    ensures Classify("Summarize the steps") == (Summary, 40)
  {
    var q := Lower("Summarize the steps");
    assert q == "summarize the steps";
    assert "summarize" <= q;
    assert Contains(q, SummaryKeywords[1..][0]);
    assert AnyKeyword(q, SummaryKeywords[1..]);
    assert AnyKeyword(q, SummaryKeywords);
  }

  /** Matching is by substring: the procedure keyword "way" occurs inside
      "always". */
  lemma KeywordInsideWord()
    ensures Mentions("always", ProcedureKeywords)
  {
    var s := "always";
    assert s[2..5] == "way";
    assert OccursAt(s, ProcedureKeywords[7], 2);
  }
}
