# Retrieval-augmented question answering agent, modelled in Dafny

This project models the answer pipeline of `agent.py`. The pipeline is a
two-stage graph over a shared state record `{question, context_chunks, answer,
confidence_score}`:

- **retrieve** asks the language model for alternative search terms. The search
  queries are the question itself followed by the non-blank lines of that reply,
  each stripped. Every query goes to the vector-store retriever. The pooled
  documents are deduplicated by page text, and at most six of them are kept, in
  set order.
- **generate** joins the chunks with blank lines and places them, with the
  question, into a fixed instruction prompt. It then parses the model's reply
  into an answer and a confidence score. There are three outcomes:
  - both `Answer:` and `Score:` present and a readable score: the parsed answer
    and score;
  - a marker missing: the whole reply, stripped, with score 0.0;
  - a score that `float()` rejects: the whole reply, stripped, with score 0.5.

The language model is a parameter `llm: string -> string` (prompt to reply
text), and the retriever is a parameter `retriever: string -> seq<Document>`.

Modules, one per file:

- `Wrappers` defines `Option`.
- `Text` models Python's `strip`, `in`, `split` and `join`.
- `Score` models the digit/dot filter and `float()` on its output, as exact reals.
- `ResponseParser` models the parse of `generate_node`.
- `Scenarios` holds concrete replies and what the parse makes of them.
- `Retrieval` models `retrieve_node`.
- `Pipeline` models the state record, the merging of node updates, the prompt
  and a whole run.

The parse, as the code does it:

- The answer is the text after the **first** `Answer:`, up to the next
  `Answer:` or `Score:` or the end, stripped (`ResponseParser.AnswerIsFirstSegment`).
- The score region is the text between the **first and second `Score:` of the
  whole reply**, even when that `Score:` comes before `Answer:`
  (`ResponseParser.ScoreIsFirstRegion`).
- The filter keeps every `.` of the score region. A second dot makes `float()`
  fail, so the score falls back to 0.5.
- The score is never negative, because no sign survives the filter.
- The score is not bounded by 1. A reply scored `8/10` is filtered to `810`
  and gives 810.0 (`Scenarios.FractionScoreReply`).

## Model

| member | source | states |
|---|---|---|
| Text.Strip | agent.py:91 | `strip()` leaves no surrounding whitespace, never lengthens, and gives the empty string exactly for an all-whitespace input |
| Text.StripUnique | agent.py:91 | whitespace around a trimmed string is exactly what `strip()` removes: stripping `a + m + b` gives back `m` |
| Text.StripIdempotent | agent.py:91 | stripping twice is stripping once |
| Text.Contains | agent.py:90 | `sep in s` holds exactly when `sep` occurs at some index of `s` |
| Text.Find | agent.py:90 | the index found is an occurrence and no earlier index is one; no index is found exactly when there is no occurrence |
| Text.Split | agent.py:91 | `split` gives at least one piece, and two or more exactly when the separator occurs |
| Text.SplitJoin | agent.py:46 | joining the pieces of a split with the separator gives the original string back |
| Text.SplitPiecesFree | agent.py:46 | no piece of a split contains the separator |
| Text.SplitSecond | agent.py:92 | the second piece runs from just after the first occurrence to the next occurrence or the end |
| Text.Join | agent.py:62 | `sep.join(parts)`: its meaning is given by Text.SplitJoin, Text.JoinContainsParts and Text.JoinLength |
| Text.JoinContainsParts | agent.py:62 | every part occurs in the joined string |
| Text.JoinLength | agent.py:62 | the joined length is the parts' total plus one separator between neighbours |
| Score.KeepScoreChars | agent.py:93 | the filtered score holds only digits and dots and is no longer than its input |
| Score.KeepScoreCharsAppend | agent.py:93 | the filter works character by character and keeps order: filtering a concatenation concatenates the filtered parts |
| Score.KeepScoreCharsKeepsAll | agent.py:93 | a digit/dot string passes the filter unchanged |
| Score.KeepScoreCharsDropsAll | agent.py:93 | a string with no digit and no dot filters to nothing |
| Score.StripThenKeep | agent.py:92-93 | stripping the score region before filtering changes nothing |
| Score.ParseDecimal | agent.py:94 | `float()` of a filtered score succeeds exactly when it has a digit and at most one dot |
| Score.ParseDecimalBounds | agent.py:94 | a parsed score is non-negative and lies between its whole part and the next integer |
| Score.ParseWholeNumber | agent.py:94 | a run of digits parses to the number it denotes |
| Score.ParseAtDot | agent.py:94 | digits around one dot parse to whole + fraction / 10^(fraction digits) |
| ResponseParser.HasMarkers | agent.py:90 | the test that both `Answer:` and `Score:` occur; ResponseParser.ParseResponse splits its three outcomes on it |
| ResponseParser.RawAnswer | agent.py:91 | the unstripped answer contains neither `Answer:` nor `Score:` |
| ResponseParser.AnswerText | agent.py:91 | `ans_part` has no surrounding whitespace and contains neither marker |
| ResponseParser.RawScore | agent.py:92 | the unstripped score region contains no `Score:` |
| ResponseParser.ScoreDigits | agent.py:92-93 | `score_val` holds only digits and dots |
| ResponseParser.ParseResponse | agent.py:89-102 | markers missing gives (stripped reply, 0.0); markers present but score rejected gives (stripped reply, 0.5); otherwise the stripped first answer segment and the parsed score; the score is never negative |
| ResponseParser.RawAnswerSpan | agent.py:91 | the raw answer is the text from just after the first `Answer:` up to the next `Answer:` or `Score:`, or the end |
| ResponseParser.AnswerIsFirstSegment | agent.py:91 | the answer is that run of the reply, stripped |
| ResponseParser.RawScoreSpan | agent.py:92 | the raw score region is the text from just after the first `Score:` of the whole reply up to the next `Score:`, or the end |
| ResponseParser.ScoreIsFirstRegion | agent.py:92-93 | the score digits are that region of the reply, filtered |
| ResponseParser.ScoreDigitsOfRawScore | agent.py:92-93 | filtering the stripped score region equals filtering the unstripped one |
| ResponseParser.AnswerBetween | agent.py:91 | any run that ends at the first marker after the first `Answer:` is the one the answer is taken from |
| ResponseParser.ScoreBetween | agent.py:92-93 | any run that ends at the first `Score:` after the first `Score:` is the one the score is taken from |
| ResponseParser.FormattedRoundTrip | agent.py:81-94 | a reply laid out as the prompt asks (`Answer:` ans `Score:` sc, where ans has neither marker and sc has no `Score:`) parses back to ans stripped and sc filtered |
| ResponseParser.FormattedParse | agent.py:89-94 | such a reply with a readable score gives exactly that answer and that score |
| Scenarios.FilterDropsAsterisks | agent.py:93 | `**0.8**` filters to `0.8` |
| Scenarios.FilterDropsComment | agent.py:93 | `0.8 (high)` filters to `0.8` |
| Scenarios.FilterJoinsFraction | agent.py:93 | `8/10` filters to `810` |
| Scenarios.ParseFraction | agent.py:94 | `0.8` parses to 0.8 |
| Scenarios.ParseWhole | agent.py:94 | `810` parses to 810.0 |
| Scenarios.ParseRejects | agent.py:94 | the empty string, `.` and `1.2.3` are rejected |
| Scenarios.WellFormattedReply | agent.py:89-94 | `Answer: Yes\nScore: 0.9` gives answer `Yes` and score 0.9 |
| Scenarios.FractionScoreReply | agent.py:93-94 | a reply scored ` 8/10` gets score 810.0 |
| Scenarios.WordScoreReply | agent.py:98-100 | a reply scored ` high` falls back to the whole stripped reply and 0.5 |
| Scenarios.UnmarkedReply | agent.py:95-97 | a reply without markers is kept whole, with score 0.0 |
| Retrieval.ExpansionPrompt | agent.py:45 | the expansion prompt contains the question |
| Retrieval.NonBlankStripped | agent.py:49 | every kept term is non-empty and has no surrounding whitespace, and there are no more terms than lines |
| Retrieval.NonBlankStrippedMembers | agent.py:49 | a term is kept exactly when it is the non-empty stripped form of some line |
| Retrieval.NonBlankStrippedAppend | agent.py:49 | the terms of two blocks of lines are the terms of the first followed by those of the second |
| Retrieval.SearchQueries | agent.py:49 | the question is the first query, and there is at most one more query per line of the expansion |
| Retrieval.SearchTermsClean | agent.py:46-49 | every query after the question is non-empty, trimmed, free of line breaks, and the stripped form of a line of the expansion |
| Retrieval.SearchTermsComplete | agent.py:46-49 | every line of the expansion that is not blank is searched, stripped |
| Retrieval.OneLineExpansion | agent.py:46-49 | an expansion without a line break adds at most its own stripped text as a query |
| Retrieval.Accumulated | agent.py:51-53 | `all_docs` after each query in turn; its members and length are given by Retrieval.AccumulatedMembers and Retrieval.AccumulatedLength |
| Retrieval.AccumulatedMembers | agent.py:51-53 | a document is pooled exactly when some query retrieved it |
| Retrieval.AccumulatedLength | agent.py:51-53 | the pool is as long as all the results together, with nothing dropped |
| Retrieval.CollectDocuments | agent.py:51-53 | the loop's `all_docs` is the results of the queries concatenated in query order |
| Retrieval.ContentSet | agent.py:56 | `set([doc.page_content for doc in all_docs])`, the distinct page texts of the pool |
| Retrieval.SetToList | agent.py:56 | `list(set(...))` holds every element of the set exactly once |
| Retrieval.Take | agent.py:56 | `[:n]` is the prefix of length min(n, length) |
| Retrieval.Candidates | agent.py:42-56 | the distinct page texts of all documents the search queries retrieved; Retrieval.CandidateMembers characterises it |
| Retrieval.RetrieveNode | agent.py:39-58 | the chunks are distinct retrieved page texts, min(6, number of distinct texts) of them, and all of them when there are at most six |
| Retrieval.CandidateMembers | agent.py:49-56 | a candidate chunk is exactly the text of a document some query retrieved, and the question's own results are always candidates |
| Pipeline.InitialState | agent.py:115 | the state the graph is invoked with: only `question` is set |
| Pipeline.Merge | agent.py:104-109 | merging a node's update replaces exactly the keys it returns, and the question is never changed |
| Pipeline.RetrieveUpdate | agent.py:58 | the update returned by the retrieve stage; Pipeline.RetrieveWritesOnlyChunks gives its effect |
| Pipeline.GenerateUpdate | agent.py:102 | the update returned by the generate stage; Pipeline.GenerateWritesOnlyAnswer gives its effect |
| Pipeline.RetrieveWritesOnlyChunks | agent.py:58 | the retrieve stage writes `context_chunks` and nothing else |
| Pipeline.GenerateWritesOnlyAnswer | agent.py:102 | the generate stage writes `answer` and `confidence_score` and nothing else |
| Pipeline.ContextText | agent.py:62 | `context_text`; Pipeline.ContextTextHasChunks gives its content and length |
| Pipeline.ContextTextHasChunks | agent.py:62 | every chunk appears in the context text, which adds only the blank-line separators |
| Pipeline.GenerationPrompt | agent.py:65-84 | the answer prompt contains the context text and the question |
| Pipeline.GenerateNode | agent.py:59-102 | the generate stage gives a non-negative score, and a reply without both markers gives the whole stripped reply with score 0.0 |
| Pipeline.GenerateReadsQuestionAndChunks | agent.py:62-86 | the generate stage reads only `question` and `context_chunks`: two states that agree on them give the same result |
| Pipeline.RunPipeline | agent.py:104-111 | after a run the question is unchanged, the chunks satisfy all of Retrieval.RetrieveNode's contract, and the answer and score are the parse of the model's reply to the prompt built from those chunks and the question |

## Left out

- Logging: the `print` calls in both nodes (agent.py:41, 61) and the `__main__` block (agent.py:114-116).
- Configuration: `load_dotenv`, the embedding model, the Chroma store and the chat-model client (agent.py:14, 23-36). Their behaviour comes in only through the `llm` and `retriever` parameters.
- Retrieval.RetrieveNode: the retriever's limit of five documents per query (agent.py:29) is not assumed; the model allows any number.
- Retrieval.Document: document metadata is left out, because the agent reads only `page_content`.
- Retrieval.SetToList: the element order of a Python set (hash order) is left unspecified; the model allows any order.
- Pipeline.RunPipeline: the language model is a function, so the same prompt always gives the same reply. The real model is nondeterministic; the model fixes one reply per prompt.
- Pipeline.RunPipeline: exceptions raised by the model client or the retriever are not modelled. They propagate out of the nodes in the source.
- Pipeline.GenerateNode: requires `context_chunks` to be set. The graph order guarantees this, so the `KeyError` path cannot arise in a run.
- LangGraph's graph compilation and execution machinery is not modelled beyond the fixed START → retrieve → generate → END order and the merging of returned keys.
- Text.Strip: only the ASCII whitespace that `str.isspace` accepts is removed; non-ASCII Unicode whitespace is left out.
- Score.IsDigit: only ASCII digits are kept. `str.isdigit` also accepts other Unicode digits (such as superscripts), on which `float()` may fail.
- Score.ParseDecimal: the result is an exact real. It does not model IEEE-754 rounding of `float()`, or overflow to infinity on very long digit strings.
- Pipeline.PromptHead: the prompt wording is reproduced exactly, but the model proves only that the context and the question are placed in it.
