/**
 The two-stage graph of agent.py:104-109 over the shared `AgentState`
 (agent.py:17-21): START, then `retrieve`, then `generate`, then END. Each
 node returns a partial update, which the graph merges into the state.
 */
module Pipeline {
  import opened Wrappers
  import opened Text
  import opened ResponseParser
  import opened Retrieval

  /** The state record; a key that no node has written yet is `None`. */
  datatype AgentState = AgentState(
    question: string,
    contextChunks: Option<seq<string>>,
    answer: Option<string>,
    confidenceScore: Option<real>)

  /** The keys a node may return; `None` means the node leaves that key alone. */
  datatype StateUpdate = StateUpdate(
    contextChunks: Option<seq<string>>,
    answer: Option<string>,
    confidenceScore: Option<real>)

  /** The state the graph is invoked with: only the question is set. */
  function InitialState(question: string): AgentState {
    AgentState(question, None, None, None)
  }

  function Override<T>(current: Option<T>, written: Option<T>): Option<T> {
    if written.Some? then written else current
  }

  /** Merging a node's update: the keys it returns replace the old values, the others stay. */
  function Merge(s: AgentState, u: StateUpdate): (t: AgentState)
    ensures t.question == s.question
    ensures u.contextChunks.Some? ==> t.contextChunks == u.contextChunks
    ensures u.contextChunks.None? ==> t.contextChunks == s.contextChunks
    ensures u.answer.Some? ==> t.answer == u.answer
    ensures u.answer.None? ==> t.answer == s.answer
    ensures u.confidenceScore.Some? ==> t.confidenceScore == u.confidenceScore
    ensures u.confidenceScore.None? ==> t.confidenceScore == s.confidenceScore
  {
    AgentState(
      s.question,
      Override(s.contextChunks, u.contextChunks),
      Override(s.answer, u.answer),
      Override(s.confidenceScore, u.confidenceScore))
  }

  /** `{"context_chunks": unique_chunks}`. */
  function RetrieveUpdate(chunks: seq<string>): StateUpdate {
    StateUpdate(Some(chunks), None, None)
  }

  /** `{"answer": ans_part, "confidence_score": score_part}`. */
  function GenerateUpdate(g: Generation): StateUpdate {
    StateUpdate(None, Some(g.answer), Some(g.confidenceScore))
  }

  /** The retrieve stage writes `context_chunks` and nothing else. */
  lemma RetrieveWritesOnlyChunks(s: AgentState, chunks: seq<string>)
    ensures Merge(s, RetrieveUpdate(chunks)) == s.(contextChunks := Some(chunks))
  {
  }

  /** The generate stage writes `answer` and `confidence_score` and nothing else. */
  lemma GenerateWritesOnlyAnswer(s: AgentState, g: Generation)
    ensures Merge(s, GenerateUpdate(g))
      == s.(answer := Some(g.answer), confidenceScore := Some(g.confidenceScore))
  {
  }

  /** The separator between chunks in the prompt. */
  const ChunkSeparator: string := "\n\n"

  /** `context_text`: the chunks joined by blank lines. */
  function ContextText(chunks: seq<string>): string {
    Join(chunks, ChunkSeparator)
  }

  /** Every chunk appears in the context text, and the text adds only the separators. */
  lemma ContextTextHasChunks(chunks: seq<string>)
    ensures forall k :: 0 <= k < |chunks| ==> Contains(ContextText(chunks), chunks[k])
    ensures |ContextText(chunks)|
      == TotalLength(chunks) + (if chunks == [] then 0 else (|chunks| - 1) * |ChunkSeparator|)
  {
    forall k | 0 <= k < |chunks| ensures Contains(ContextText(chunks), chunks[k]) {
      JoinContainsParts(chunks, ChunkSeparator, k);
    }
    if chunks != [] {
      JoinLength(chunks, ChunkSeparator);
    }
  }

  /*
   The answer prompt of agent.py:65-84, before the context, between the
   context and the question, and after the question. The text is exact; it is
   cut into short literals only because long string literals are costly for
   the verifier, and the cut points carry no meaning.
   */
  function PromptHead(): string {
    "\n"
    + "    You are a professional "
    + "technical assistant. Answer "
    + "the user's question using "
    + "ONLY the provided Context.\n"
    + "    \n"
    + "    STRICT RULES:\n"
    + "    1. Provide a "
    + "COMPREHENSIVE and DETAILED "
    + "answer based on the "
    + "available information in "
    + "the context. \n"
    + "    2. If the context "
    + "contains a full explanation "
    + "(e.g., regarding \"Data "
    + "Management Practices\"), "
    + "include all the key "
    + "technical points.\n"
    + "    3. If the Context does "
    + "not contain the answer, say "
    + "exactly: \"Answer: I cannot "
    + "find the answer in the "
    + "provided PDF.\" and "
    + "\"Score: 0.0\"\n"
    + "    4. Do NOT explain why "
    + "you cannot find the answer "
    + "or use external knowledge.\n"
    + "    5. The Score must be a "
    + "clean numerical value "
    + "between 0.0 and 1.0. Do NOT "
    + "include extra symbols like "
    + "asterisks, tags, or "
    + "internal reasoning.\n"
    + "\n"
    + "    Context:\n"
    + "    "
  }
  function PromptMiddle(): string {
    "\n"
    + "    \n"
    + "    Question: \n"
    + "    "
  }
  function PromptTail(): string {
    "\n"
    + "    \n"
    + "    Required Output Format:\n"
    + "    Answer: [Provide the "
    + "full, detailed response "
    + "here]\n"
    + "    Score: [Numerical value "
    + "only, e.g., 1.0]\n"
    + "    "
  }

  /** Both values filled into a three-part template occur in the result. */
  lemma FilledTemplate(a: string, x: string, b: string, y: string, c: string)
    ensures Contains(a + x + b + y + c, x) && Contains(a + x + b + y + c, y)
  {
    assert a + x + b + y + c == a + x + (b + y + c);
    ContainsMiddle(a, x, b + y + c);
    assert a + x + b + y + c == (a + x + b) + y + c;
    ContainsMiddle(a + x + b, y, c);
  }

  /** The answer prompt: the fixed instructions with the context and the question filled in. */
  function GenerationPrompt(context: string, question: string): (p: string)
    ensures Contains(p, context) && Contains(p, question)
  {
    FilledTemplate(PromptHead(), context, PromptMiddle(), question, PromptTail());
    PromptHead() + context + PromptMiddle() + question + PromptTail()
  }

  /** `generate_node` without its print: prompt the model, parse its reply. */
  function GenerateNode(s: AgentState, llm: string -> string): (g: Generation)
    requires s.contextChunks.Some?
    ensures g.confidenceScore >= 0.0
    ensures var reply := llm(GenerationPrompt(ContextText(s.contextChunks.value), s.question));
      !HasMarkers(reply) ==> g == Generation(Strip(reply), MissingMarkerScore)
  {
    ParseResponse(llm(GenerationPrompt(ContextText(s.contextChunks.value), s.question)))
  }

  /** The generate stage reads only `question` and `context_chunks` of the state. */
  lemma GenerateReadsQuestionAndChunks(s: AgentState, t: AgentState, llm: string -> string)
    requires s.contextChunks.Some?
    requires s.question == t.question && s.contextChunks == t.contextChunks
    ensures GenerateNode(s, llm) == GenerateNode(t, llm)
  {
  }

  /**
   `rag_app.invoke({"question": question})`: the question is kept, the chunks
   are the retrieve stage's, and the answer and score are the parse of the
   model's reply to a prompt holding those chunks and the question.
   */
  method RunPipeline(question: string, llm: string -> string, retriever: string -> seq<Document>)
    returns (final: AgentState)
    ensures final.question == question
    ensures final.contextChunks.Some?
    ensures var chunks := final.contextChunks.value;
      && NoDuplicates(chunks)
      && (forall c :: c in chunks ==> c in Candidates(question, llm, retriever))
      && |chunks| == (if |Candidates(question, llm, retriever)| <= MaxContextChunks
                      then |Candidates(question, llm, retriever)| else MaxContextChunks)
      && (|Candidates(question, llm, retriever)| <= MaxContextChunks
          ==> forall c :: c in Candidates(question, llm, retriever) ==> c in chunks)
    ensures var reply := llm(GenerationPrompt(ContextText(final.contextChunks.value), question));
      && final.answer == Some(ParseResponse(reply).answer)
      && final.confidenceScore == Some(ParseResponse(reply).confidenceScore)
    ensures final.confidenceScore.value >= 0.0
  {
    var state := InitialState(question);
    var chunks := RetrieveNode(question, llm, retriever);
    state := Merge(state, RetrieveUpdate(chunks));
    var g := GenerateNode(state, llm);
    state := Merge(state, GenerateUpdate(g));
    final := state;
  }
}
