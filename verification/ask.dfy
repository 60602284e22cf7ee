/**
 The "Ask" handler of the answer page as a pure function. The vector store and
 the text-generation model are parameters (`search`, `generate`); the handler
 returns what it would show together with the trace of calls it makes into
 those external services, so that "nothing is loaded for a blank question"
 can be stated.
 */
module Ask {
  import opened Text
  import opened Seqs
  import opened FirstSeen
  import opened Retrieved

  // ---------------------------------------------------------------------------
  // The question guard

  /** `question.strip() == ""`: holds exactly for questions made only of whitespace, the empty question included. */
  predicate IsBlank(question: string): (blank: bool)
    ensures blank <==> AllSpace(question)
  {
    StripEmptyIffAllSpace(question);
    Strip(question) == ""
  }

  /** The empty question and an all-space question are rejected. */
  lemma BlankExamples()
    ensures IsBlank("") && IsBlank("   ")
  {
    assert AllSpace("   ") by {
      forall k | 0 <= k < 3 ensures IsSpace("   "[k]) {
        assert "   "[k] == ' ';
      }
    }
  }

  // ---------------------------------------------------------------------------
  // Answer modes

  const Explain2: string := "Explain (2 Marks)"
  const Explain5: string := "Explain (5 Marks)"
  const Explain10: string := "Explain (10 Marks)"
  const ShowAll: string := "Show All Related Content"
  const BuildNotes: string := "Build Topic Notes (Exam)"

  /** The options of the "Answer Mode" radio button, in display order. */
  const Modes: seq<string> := [Explain2, Explain5, Explain10, ShowAll, BuildNotes]

  /** `mode in ["Explain (10 Marks)", "Build Topic Notes (Exam)"]`: the topic branch. */
  predicate IsTopicMode(mode: string): (topic: bool)
    ensures topic <==> mode == Explain10 || mode == BuildNotes
  {
    mode in [Explain10, BuildNotes]
  }

  /** Only "Explain (10 Marks)" and "Build Topic Notes (Exam)" take the topic branch; "Show All Related Content" is generative. */
  lemma ModeDispatch(question: string, search: (string, nat) -> seq<Doc>, generate: (string, nat) -> string)
    requires !IsBlank(question)
    ensures forall m :: m in Modes ==>
      (Handle(question, m, search, generate).response.Answer? <==> m in [Explain2, Explain5, ShowAll])
    ensures forall m :: m in Modes ==>
      (Handle(question, m, search, generate).response.TopicNotes? <==> m == Explain10 || m == BuildNotes)
  {
  }

  const ShortBudget: nat := 120
  const LongBudget: nat := 250

  /** `120 if "2 Marks" in mode else 250`: the short budget exactly for modes mentioning "2 Marks". */
  function MaxNewTokens(mode: string): (n: nat)
    ensures n == ShortBudget <==> Contains(mode, "2 Marks")
    ensures n == ShortBudget || n == LongBudget
  {
    if Contains(mode, "2 Marks") then ShortBudget else LongBudget
  }

  /** A mode without the digit 2 gets the long budget. */
  lemma LongBudgetWithoutTwo(mode: string)
    requires '2' !in mode
    ensures MaxNewTokens(mode) == LongBudget
  {
    MissingFirstChar(mode, "2 Marks");
  }

  /** "Explain (2 Marks)" gets the short budget. */
  lemma MaxNewTokensOfExplain2()
    ensures MaxNewTokens(Explain2) == ShortBudget
  {
    assert Explain2 == "Explain (" + "2 Marks" + ")";
    assert OccursAt(Explain2, "2 Marks", 9);
  }

  /** Every other radio option gets the long budget. */
  lemma MaxNewTokensOfOtherModes()
    ensures MaxNewTokens(Explain5) == LongBudget
    ensures MaxNewTokens(ShowAll) == LongBudget
    ensures MaxNewTokens(Explain10) == LongBudget && MaxNewTokens(BuildNotes) == LongBudget
  {
    LongBudgetWithoutTwo(Explain5);
    LongBudgetWithoutTwo(ShowAll);
    LongBudgetWithoutTwo(Explain10);
    LongBudgetWithoutTwo(BuildNotes);
  }

  // ---------------------------------------------------------------------------
  // Context and prompt of the generative branch

  /** How many chunks the question search asks for. */
  const QuestionK: nat := 6
  /** How many of them go into the prompt. */
  const ContextDocs: nat := 4

  function Content(d: Doc): string {
    d.pageContent
  }

  /** The chunks that reach the prompt: `docs[:4]`. */
  function ContextHead(docs: seq<Doc>): (head: seq<Doc>)
    ensures |head| <= ContextDocs && |head| <= |docs| && head == docs[..|head|]
    ensures |head| == ContextDocs || head == docs
  {
    if |docs| <= ContextDocs then docs else docs[..ContextDocs]
  }

  /** `"\n\n".join([d.page_content for d in docs][:4])`. */
  function Context(docs: seq<Doc>): (context: string)
    ensures |docs| == 0 ==> context == ""
    ensures |docs| > 0 ==> StartsWith(context, docs[0].pageContent)
  {
    Join(Map(ContextHead(docs), Content), "\n\n")
  }

  /** Chunks after the fourth never reach the prompt. */
  lemma ContextIgnoresLaterDocs(docs: seq<Doc>, more: seq<Doc>)
    requires |docs| >= ContextDocs
    ensures Context(docs + more) == Context(docs)
  {
    assert (docs + more)[..ContextDocs] == docs[..ContextDocs];
  }

  /** With at most four chunks, all of them are used, in order. */
  lemma ContextOfFewDocs(docs: seq<Doc>)
    requires |docs| <= ContextDocs
    ensures Context(docs) == Join(Map(docs, Content), "\n\n")
  {
  }

  /** With no chunk retrieved the context is empty; `Handle` still answers in a generative mode. */
  lemma ContextOfNoDocs()
    ensures Context([]) == ""
  {
  }

  /** The context is the first chunks' text plus exactly two characters per break between them. */
  lemma ContextLength(docs: seq<Doc>)
    requires |docs| > 0
    ensures |Context(docs)| == TotalLength(Map(ContextHead(docs), Content)) + 2 * (|ContextHead(docs)| - 1)
  {
    JoinLength(Map(ContextHead(docs), Content), "\n\n");
  }

  const PromptHead: string := "Answer using ONLY the notes below.\n\nNOTES:\n"
  const PromptMiddle: string := "\n\nQUESTION:\n"
  const PromptTail: string := "\n\nANSWER:"

  /** The f-string prompt: the context and the question inserted verbatim into the fixed template. */
  function Prompt(context: string, question: string): (p: string)
    ensures |p| == |PromptHead| + |context| + |PromptMiddle| + |question| + |PromptTail|
    ensures p[..|PromptHead|] == PromptHead
    ensures p[|PromptHead|..|PromptHead| + |context|] == context
    ensures p[|PromptHead| + |context|..|PromptHead| + |context| + |PromptMiddle|] == PromptMiddle
    ensures p[|PromptHead| + |context| + |PromptMiddle|..|p| - |PromptTail|] == question
    ensures p[|p| - |PromptTail|..] == PromptTail
  {
    PromptHead + context + PromptMiddle + question + PromptTail
  }

  datatype Option<T> = None | Some(value: T)

  /**
   Reads a prompt back, given how long its context is (the context may itself
   contain the markers, so the length is what pins it down).
   */
  function ParsePrompt(p: string, contextLength: nat): Option<(string, string)> {
    var h := |PromptHead|;
    var m := |PromptMiddle|;
    var t := |PromptTail|;
    if |p| < h + contextLength + m + t then None
    else if p[..h] != PromptHead then None
    else if p[h + contextLength..h + contextLength + m] != PromptMiddle then None
    else if p[|p| - t..] != PromptTail then None
    else Some((p[h..h + contextLength], p[h + contextLength + m..|p| - t]))
  }

  /** Reading a prompt back yields the context and question it was built from. */
  lemma PromptRoundTrip(context: string, question: string)
    ensures ParsePrompt(Prompt(context, question), |context|) == Some((context, question))
  {
  }

  /** Whatever reads back as a prompt is the prompt of what it reads back to. */
  lemma ParsePromptSound(p: string, contextLength: nat)
    requires ParsePrompt(p, contextLength).Some?
    ensures Prompt(ParsePrompt(p, contextLength).value.0, ParsePrompt(p, contextLength).value.1) == p
  {
    var h := |PromptHead|;
    var m := |PromptMiddle|;
    var t := |PromptTail|;
    var n := contextLength;
    assert p == p[..h] + p[h..h + n] + p[h + n..h + n + m] + p[h + n + m..|p| - t] + p[|p| - t..];
  }

  // ---------------------------------------------------------------------------
  // Topic branch

  /** The fixed topics searched one by one in the topic branch. */
  const Topics: seq<string> :=
    ["software specification", "software development", "software validation", "software evolution"]

  /** How many chunks each topic search asks for. */
  const TopicK: nat := 5

  /** The excerpts printed under one topic heading. */
  datatype Section = Section(topic: string, excerpts: seq<Excerpt>)

  /** One section per topic; `seen` restarts for every topic. */
  function TopicSections(search: (string, nat) -> seq<Doc>): (sections: seq<Section>)
    ensures |sections| == |Topics|
    ensures forall i :: 0 <= i < |sections| ==> sections[i].topic == Topics[i]
    ensures forall i :: 0 <= i < |sections| ==> sections[i].excerpts == TopicExcerpts(search(Topics[i], TopicK))
    ensures forall i :: 0 <= i < |sections| ==> IsLongExcerptList(sections[i].excerpts)
  {
    var sections := Map(Topics, (t: string) => Section(t, TopicExcerpts(search(t, TopicK))));
    forall i | 0 <= i < |sections| ensures IsLongExcerptList(sections[i].excerpts) {
      assert sections[i].excerpts == TopicExcerpts(search(Topics[i], TopicK));
    }
    sections
  }

  /** Every excerpt long enough and no two alike once lower-cased. */
  predicate IsLongExcerptList(es: seq<Excerpt>) {
    && (forall i :: 0 <= i < |es| ==> IsLongExcerpt(es[i]))
    && (forall i, j :: 0 <= i < j < |es| ==> ExcerptKey(es[i]) != ExcerptKey(es[j]))
  }

  /**
   De-duplication is per topic, not across topics: one long chunk that every
   topic search returns is shown once under every topic.
   */
  lemma SeenResetPerTopic(d: Doc, search: (string, nat) -> seq<Doc>)
    requires IsLongExcerpt(ExcerptOf(d))
    requires forall t :: t in Topics ==> search(t, TopicK) == [d]
    ensures forall i :: 0 <= i < |Topics| ==> TopicSections(search)[i].excerpts == [ExcerptOf(d)]
  {
    forall i | 0 <= i < |Topics| ensures TopicSections(search)[i].excerpts == [ExcerptOf(d)] {
      assert search(Topics[i], TopicK) == [d];
      var all := Map([d], ExcerptOf);
      assert all == [ExcerptOf(d)];
      assert all[1..] == [];
    }
  }

  // ---------------------------------------------------------------------------
  // The handler

  /** Calls into the embedding model, the vector store and the generator. */
  datatype Call =
    | LoadEmbeddings
    | LoadIndex
    | Search(query: string, k: nat)
    | LoadGenerator
    | Generate(prompt: string, maxNewTokens: nat)

  datatype Response =
    | Warning(message: string)
    | TopicNotes(sections: seq<Section>)
    | Answer(text: string, sources: seq<Citation>)

  /** What one press of "Ask" does: the calls it makes, in order, and what it shows. */
  datatype Run = Run(calls: seq<Call>, response: Response)

  const BlankWarning: string := "Please enter a question."

  /** How many generation calls a trace holds. */
  function GenerateCount(calls: seq<Call>): nat {
    if |calls| == 0 then 0
    else (if calls[0].Generate? then 1 else 0) + GenerateCount(calls[1..])
  }

  lemma {:induction false} GenerateCountAppend(a: seq<Call>, b: seq<Call>)
    ensures GenerateCount(a + b) == GenerateCount(a) + GenerateCount(b)
  {
    if |a| > 0 {
      GenerateCountAppend(a[1..], b);
      assert (a + b)[0] == a[0];
      assert (a + b)[1..] == a[1..] + b;
    } else {
      assert a + b == b;
    }
  }

  /** The calls made before the branch: load the embedding model and the index, search for the question. */
  function Prelude(question: string): (calls: seq<Call>)
    ensures |calls| == 3 && GenerateCount(calls) == 0
    ensures calls[|calls| - 1] == Search(question, QuestionK)
    ensures forall i :: 0 <= i < |calls| - 1 ==> !calls[i].Search?
  {
    var calls := [LoadEmbeddings, LoadIndex, Search(question, QuestionK)];
    NoGenerate(calls);
    calls
  }

  /**
   The handler. A blank question gets a warning and no call at all; otherwise
   the index is loaded and searched first; the topic modes show topic sections
   and never call the generator; every other mode calls the generator exactly
   once and lists the de-duplicated sources of the question's chunks.
   */
  function Handle(question: string, mode: string,
                  search: (string, nat) -> seq<Doc>,
                  generate: (string, nat) -> string): (run: Run)
    ensures run.response.Warning? <==> IsBlank(question)
    ensures IsBlank(question) ==> run.calls == []
    ensures !IsBlank(question) ==> |run.calls| >= 3 && run.calls[..3] == Prelude(question)
    ensures run.response.TopicNotes? <==> !IsBlank(question) && IsTopicMode(mode)
    ensures run.response.Answer? <==> !IsBlank(question) && !IsTopicMode(mode)
    ensures GenerateCount(run.calls) == if run.response.Answer? then 1 else 0
    ensures run.response.Answer? ==> run.response.sources == Citations(search(question, QuestionK))
  {
    if IsBlank(question) then Run([], Warning(BlankWarning))
    else if IsTopicMode(mode) then TopicRun(question, search)
    else AnswerRun(question, mode, search, generate)
  }

  /** The topic branch: after the prelude, one search per topic and no generation. */
  function TopicRun(question: string, search: (string, nat) -> seq<Doc>): (run: Run)
    ensures |run.calls| >= 3 && run.calls[..3] == Prelude(question)
    ensures GenerateCount(run.calls) == 0
    ensures run.response.TopicNotes?
  {
    var searches := Map(Topics, (t: string) => Search(t, TopicK));
    NoGenerate(searches);
    NoGenerate(Prelude(question));
    GenerateCountAppend(Prelude(question), searches);
    Run(Prelude(question) + searches, TopicNotes(TopicSections(search)))
  }

  /** The generative branch: after the prelude, the generator is loaded and called once. */
  function AnswerRun(question: string, mode: string,
                     search: (string, nat) -> seq<Doc>,
                     generate: (string, nat) -> string): (run: Run)
    ensures |run.calls| >= 3 && run.calls[..3] == Prelude(question)
    ensures GenerateCount(run.calls) == 1
    ensures run.response.Answer? && run.response.sources == Citations(search(question, QuestionK))
  {
    var docs := search(question, QuestionK);
    var prompt := Prompt(Context(docs), question);
    var budget := MaxNewTokens(mode);
    var tail := [LoadGenerator, Generate(prompt, budget)];
    NoGenerate(Prelude(question));
    GenerateCountOfTail(prompt, budget);
    GenerateCountAppend(Prelude(question), tail);
    Run(Prelude(question) + tail, Answer(generate(prompt, budget), Citations(docs)))
  }

  lemma {:induction false} NoGenerate(calls: seq<Call>)
    requires forall i :: 0 <= i < |calls| ==> !calls[i].Generate?
    ensures GenerateCount(calls) == 0
  {
    if |calls| > 0 {
      NoGenerate(calls[1..]);
    }
  }

  lemma GenerateCountOfTail(prompt: string, budget: nat)
    ensures GenerateCount([LoadGenerator, Generate(prompt, budget)]) == 1
  {
    var tail := [LoadGenerator, Generate(prompt, budget)];
    var last := [Generate(prompt, budget)];
    assert last[1..] == [];
    assert GenerateCount(last) == 1;
    assert tail[1..] == last;
  }

  /** In a generative mode, the one generation call gets the prompt built from the first chunks and the mode's budget. */
  lemma GenerateCallOfAnswer(question: string, mode: string,
                             search: (string, nat) -> seq<Doc>,
                             generate: (string, nat) -> string)
    requires !IsBlank(question) && !IsTopicMode(mode)
    ensures var prompt := Prompt(Context(search(question, QuestionK)), question);
            var run := Handle(question, mode, search, generate);
            && run.calls == Prelude(question) + [LoadGenerator, Generate(prompt, MaxNewTokens(mode))]
            && Generate(prompt, MaxNewTokens(mode)) in run.calls
            && run.response.text == generate(prompt, MaxNewTokens(mode))
  {
    var prompt := Prompt(Context(search(question, QuestionK)), question);
    var run := Handle(question, mode, search, generate);
    assert run.calls[4] == Generate(prompt, MaxNewTokens(mode));
  }

  /** In a topic mode, each topic is searched once with k = 5, after the question search. */
  lemma TopicSearches(question: string, mode: string,
                      search: (string, nat) -> seq<Doc>,
                      generate: (string, nat) -> string)
    requires !IsBlank(question) && IsTopicMode(mode)
    ensures var run := Handle(question, mode, search, generate);
            && |run.calls| == 3 + |Topics|
            && (forall i :: 0 <= i < |Topics| ==> run.calls[3 + i] == Search(Topics[i], TopicK))
            && run.response.sections == TopicSections(search)
  {
  }
}
