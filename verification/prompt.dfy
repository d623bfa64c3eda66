/** The prompt builder, middle of `RAGSystem.generate_answer`: fixed base
    instructions, the block of instructions for the question's category, the
    assembled context, the question and a closing directive naming the number
    of sources. */
module Prompt {
  import opened Text
  import opened Classifier

  /** The instructions every prompt starts with. */
  const BaseInstructions: string :=
    "You are a helpful assistant that answers questions based on the provided context from PDF documents. \n" +
    "CRITICAL: Use ONLY the information from the context to answer the question. \n" +
    "\n" +
    "If the context does NOT contain relevant information to answer the question, you MUST clearly state:\n" +
    "\"I cannot answer this question based on the provided PDF documents. The documents do not contain information about [topic].\"\n" +
    "\n" +
    "DO NOT make up information or use knowledge outside the provided context. If the question is about something not in the documents, explicitly say so. \n" +
    "\n" +
    "IMPORTANT FORMATTING REQUIREMENTS:\n" +
    "1. Format your answer using Markdown for better readability:\n" +
    "   - Use **bold** for key terms and important concepts\n" +
    "   - Use bullet points (-) or numbered lists for multiple items\n" +
    "   - Use line breaks to separate paragraphs\n" +
    "   - Use headings (##) for main sections if the answer is long\n" +
    "2. Cite ALL relevant sources: Use [Source 1], [Source 2], etc. for each piece of information you reference.\n"

  const SummaryInstructions: string :=
    "SPECIFIC INSTRUCTIONS FOR SUMMARY QUESTIONS:\n" +
    "- Extract core conclusions and key findings\n" +
    "- Ignore minor details, focus on main points\n" +
    "- Keep the answer concise and well-structured\n" +
    "- Organize information logically (most important points first)\n" +
    "- Use bullet points or short paragraphs\n" +
    "- Cite sources for each main point"

  const FactInstructions: string :=
    "SPECIFIC INSTRUCTIONS FOR FACTUAL QUESTIONS:\n" +
    "- Answer the specific question directly and precisely\n" +
    "- Cite the source for the fact\n" +
    "- Do not expand on unrelated information\n" +
    "- Keep the answer focused and concise\n" +
    "- If multiple sources mention the same fact, cite all relevant sources"

  const ProcedureInstructions: string :=
    "SPECIFIC INSTRUCTIONS FOR PROCEDURE/STEP QUESTIONS:\n" +
    "- List ALL steps in the correct sequence\n" +
    "- Use numbered lists (1., 2., 3., etc.) for sequential steps\n" +
    "- Include complete information from all relevant sources\n" +
    "- Read through ALL provided " +
    "sources carefully to find every step\n" +
    "- If steps are mentioned across multiple sources, combine them in order\n" +
    "- Be thorough - do not skip any steps mentioned in the context\n" +
    "- Cite the source for each step or group of steps"

  const CompareInstructions: string :=
    "SPECIFIC INSTRUCTIONS FOR COMPARISON/ANALYSIS QUESTIONS:\n" +
    "- Compare different aspects clearly\n" +
    "- Provide structured analysis with clear sections\n" +
    "- Use headings or bullet points to organize comparisons\n" +
    "- Cite sources for each comparison point\n" +
    "- Maintain clarity and structure throughout\n" +
    "- Highlight key differences and similarities"

  const DefaultInstructions: string :=
    "SPECIFIC INSTRUCTIONS:\n" +
    "- Answer the question based on the context provided\n" +
    "- Structure your answer clearly with proper formatting\n" +
    "- Start with a brief direct answer, then provide details\n" +
    "- Use lists when listing multiple points\n" +
    "- Ensure accuracy by using only information from the context"

  /** The instruction table, keyed by category name. */
  const TypeInstructions: map<string, string> := map[
    "Summary" := SummaryInstructions,
    "Fact" := FactInstructions,
    "Procedure" := ProcedureInstructions,
    "Compare/Analyze" := CompareInstructions,
    "Default" := DefaultInstructions]

  /** Reference reading of the table per category. */
  function CategoryInstructions(c: Category): string {
    match c
    case Summary => SummaryInstructions
    case Procedure => ProcedureInstructions
    case CompareAnalyze => CompareInstructions
    case Fact => FactInstructions
    case Default => DefaultInstructions
  }

  /** `type_instructions.get(question_type, type_instructions['Default'])`. */
  function InstructionFor(questionType: string): (instruction: string)
    ensures questionType !in TypeInstructions ==> instruction == DefaultInstructions
  {
    if questionType in TypeInstructions then TypeInstructions[questionType] else TypeInstructions["Default"]
  }

  /** Every category's name selects that category's block, and a name that
      is none of them falls back to the default block. */
  lemma InstructionForCategory(c: Category, other: string)
    requires forall d: Category :: other != d.Name()
    ensures InstructionFor(c.Name()) == CategoryInstructions(c)
    ensures InstructionFor(other) == DefaultInstructions
  {
    assert other != Summary.Name() && other != Procedure.Name() && other != CompareAnalyze.Name()
      && other != Fact.Name() && other != Default.Name();
    assert other !in TypeInstructions;
    match c
    case Summary => assert TypeInstructions[c.Name()] == SummaryInstructions;
    case Procedure => assert TypeInstructions[c.Name()] == ProcedureInstructions;
    case CompareAnalyze => assert TypeInstructions[c.Name()] == CompareInstructions;
    case Fact => assert TypeInstructions[c.Name()] == FactInstructions;
    case Default => assert TypeInstructions[c.Name()] == DefaultInstructions;
  }

  /** The last part of the prompt: it names the range of source numbers. */
  function ClosingDirective(numSources: nat): string {
    ClosingLead + NatToString(numSources) + ClosingTail
  }

  const ClosingLead: string :=
    "\n\nAnswer the question based on the context above. Make sure to cite ALL relevant sources (Source 1 through Source "
  const ClosingTail: string := ") that contain information relevant to the answer:"

  /** `sub` sits right after `pre` in `pre + sub + post`. */
  lemma OccursBetween(pre: string, sub: string, post: string)
    ensures OccursAt(pre + sub + post, sub, |pre|)
    ensures Contains(pre + sub + post, sub)
  {
    var s := pre + sub + post;
    assert s[|pre|..|pre| + |sub|] == sub;
    assert OccursAt(s, sub, |pre|);
    ContainsIff(s, sub);
  }

  const ContextHeading: string := "\n\nContext from PDF documents:\n"
  const QuestionHeading: string := "\n\nQuestion: "

  /** The prompt's layout around its five variable parts. */
  function Layout(base: string, instruction: string, context: string, question: string, closing: string): string {
    PromptBody(base, instruction, context, question) + closing
  }

  /** Everything before the closing directive. */
  function PromptBody(base: string, instruction: string, context: string, question: string): string {
    base + "\n\n" + instruction + ContextHeading + context + QuestionHeading + question
  }

  /** Where each part lands in the layout. */
  lemma LayoutParts(base: string, instruction: string, context: string, question: string, closing: string)
    ensures var prompt := Layout(base, instruction, context, question, closing);
      && base <= prompt
      && OccursAt(prompt, instruction, |base| + 2)
      && Contains(prompt, context) && Contains(prompt, question)
      && EndsWith(prompt, closing)
  {
    var lead := base + "\n\n";
    var a := lead + instruction;
    var b := a + ContextHeading;
    var c := b + context;
    var d := c + QuestionHeading;
    var e := d + question;
    var prompt := e + closing;
    assert prompt == Layout(base, instruction, context, question, closing);
    assert prompt == lead + instruction + (ContextHeading + context + QuestionHeading + question + closing) by {
      assert a + ContextHeading + context + QuestionHeading + question + closing
          == a + (ContextHeading + context + QuestionHeading + question + closing);
    }
    OccursBetween(lead, instruction, ContextHeading + context + QuestionHeading + question + closing);
    assert prompt == b + context + (QuestionHeading + question + closing);
    OccursBetween(b, context, QuestionHeading + question + closing);
    assert prompt == d + question + closing;
    OccursBetween(d, question, closing);
    assert prompt[..|base|] == base by {
      assert prompt[..|e|] == e;
      assert e[..|base|] == base;
    }
    assert prompt[|prompt| - |closing|..] == closing;
  }

  /** The prompt sent to the model: it starts with the base instructions,
      the category's block follows the blank line after them, the context and
      the question appear verbatim, and it ends with the closing directive. */
  function BuildPrompt(question: string, questionType: string, context: string, numSources: nat): (prompt: string)
    ensures BaseInstructions <= prompt
    ensures OccursAt(prompt, InstructionFor(questionType), |BaseInstructions| + 2)
    ensures Contains(prompt, context) && Contains(prompt, question)
    ensures EndsWith(prompt, ClosingDirective(numSources))
  {
    LayoutParts(BaseInstructions, InstructionFor(questionType), context, question, ClosingDirective(numSources));
    Layout(BaseInstructions, InstructionFor(questionType), context, question, ClosingDirective(numSources))
  }

  /** Length of the run of digits a string ends with. */
  function TrailingDigits(s: string): (n: nat)
    ensures n <= |s|
    decreases |s|
  {
    if s == [] || !IsDigit(s[|s| - 1]) then 0 else 1 + TrailingDigits(s[..|s| - 1])
  }

  lemma {:induction false} TrailingDigitsAfter(a: string, d: string)
    requires |a| > 0 && !IsDigit(a[|a| - 1]) && AllDigits(d)
    ensures TrailingDigits(a + d) == |d|
    decreases |d|
  {
    if d == [] {
      assert a + d == a;
    } else {
      var d0 := d[..|d| - 1];
      assert (a + d)[..|a + d| - 1] == a + d0;
      TrailingDigitsAfter(a, d0);
    }
  }

  /** A run of digits after a non-digit is determined by the whole string. */
  lemma DigitRunUnique(a: string, d: string, a': string, d': string)
    requires a + d == a' + d'
    requires |a| > 0 && !IsDigit(a[|a| - 1]) && |a'| > 0 && !IsDigit(a'[|a'| - 1])
    requires AllDigits(d) && AllDigits(d')
    ensures d == d'
  {
    var s := a + d;
    TrailingDigitsAfter(a, d);
    TrailingDigitsAfter(a', d');
    assert d == s[|a|..];
    assert d' == s[|a'|..];
  }

  /** A number printed between a fixed lead ending in a non-digit and a
      fixed tail is pinned down by the whole string. */
  lemma NumberBetweenUnique(e: string, lead: string, n: nat, tail: string, e': string, n': nat)
    requires |lead| > 0 && !IsDigit(lead[|lead| - 1])
    requires e + (lead + NatToString(n) + tail) == e' + (lead + NatToString(n') + tail)
    ensures n == n'
  {
    var d := NatToString(n);
    var d' := NatToString(n');
    var p := e + (lead + d + tail);
    var m := |p| - |tail|;
    assert (e + lead) + d == p[..m];
    assert (e' + lead) + d' == p[..m];
    DigitRunUnique(e + lead, d, e' + lead, d');
    DigitsRoundTrip(n);
    DigitsRoundTrip(n');
  }

  /** The closing directive at the end of a string pins down its number. */
  lemma ClosingNumberUnique(e: string, n: nat, e': string, n': nat)
    requires e + ClosingDirective(n) == e' + ClosingDirective(n')
    ensures n == n'
  {
    assert ClosingLead[|ClosingLead| - 1] == ' ';
    NumberBetweenUnique(e, ClosingLead, n, ClosingTail, e', n');
  }

  /** The prompt pins down the number of sources it announces: two prompts
      that are equal announce the same number. */
  lemma PromptNamesSourceCount(question: string, questionType: string, context: string, numSources: nat,
                               question': string, questionType': string, context': string, numSources': nat)
    requires BuildPrompt(question, questionType, context, numSources) == BuildPrompt(question', questionType', context', numSources')
    ensures numSources == numSources'
  {
    var e := PromptBody(BaseInstructions, InstructionFor(questionType), context, question);
    var e' := PromptBody(BaseInstructions, InstructionFor(questionType'), context', question');
    ClosingNumberUnique(e, numSources, e', numSources');
  }
}
