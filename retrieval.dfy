/**
 The first stage of the agent, `retrieve_node` (agent.py:39-58): ask the
 language model for alternative search terms, search for the question and
 every term, pool the documents found, and keep at most six distinct page
 contents in no particular order.
 */
module Retrieval {
  import opened Text

  /** A retrieved document; only its text is used by the agent. */
  datatype Document = Document(pageContent: string)

  /** How many distinct chunks reach the answer stage. */
  const MaxContextChunks: nat := 6

  /** The line separator the expansion reply is split on. */
  const Newline: string := "\n"

  /** The prompt asking for alternative search terms. */
  function ExpansionPrompt(question: string): (p: string)
    ensures Contains(p, question)
  {
    var before, after := "Provide 3 alternative search terms for: '", "'. Output only the terms.";
    ContainsMiddle(before, question, after);
    before + question + after
  }

  /** Every string occurs in any string that has it in the middle. */
  lemma ContainsMiddle(a: string, b: string, c: string)
    ensures Contains(a + b + c, b)
  {
    var s := a + b + c;
    assert s[|a|..|a| + |b|] == b;
    assert OccursAt(s, b, |a|);
  }

  /** `[v.strip() for v in lines if v.strip()]`. */
  function NonBlankStripped(lines: seq<string>): (terms: seq<string>)
    ensures |terms| <= |lines|
    ensures forall t :: t in terms ==> t != "" && Trimmed(t)
  {
    if lines == [] then []
    else
      var t := Strip(lines[0]);
      (if t != "" then [t] else []) + NonBlankStripped(lines[1..])
  }

  /** A term is kept exactly when it is the non-blank stripped form of some line. */
  lemma {:induction false} NonBlankStrippedMembers(lines: seq<string>, t: string)
    ensures t in NonBlankStripped(lines) <==> t != "" && exists v :: v in lines && Strip(v) == t
  {
    if lines != [] {
      NonBlankStrippedMembers(lines[1..], t);
      assert forall v :: v in lines <==> v == lines[0] || v in lines[1..];
    }
  }

  /** Lines that are blank after stripping add no term; the others keep their order. */
  lemma {:induction false} NonBlankStrippedAppend(a: seq<string>, b: seq<string>)
    ensures NonBlankStripped(a + b) == NonBlankStripped(a) + NonBlankStripped(b)
  {
    if a != [] {
      assert (a + b)[0] == a[0] && (a + b)[1..] == a[1..] + b;
      NonBlankStrippedAppend(a[1..], b);
      var t := if Strip(a[0]) != "" then [Strip(a[0])] else [];
      assert NonBlankStripped(a + b) == t + NonBlankStripped(a[1..] + b);
    } else {
      assert a + b == b;
    }
  }

  /** `search_queries`: the question itself, then the non-blank lines of the expansion, stripped. */
  function SearchQueries(question: string, expansion: string): (qs: seq<string>)
    ensures |qs| >= 1 && qs[0] == question
    ensures |qs| <= 1 + |Split(expansion, Newline)|
  {
    [question] + NonBlankStripped(Split(expansion, Newline))
  }

  /**
   Each search term after the question is non-empty, has no surrounding
   whitespace and no line break, and comes from a line of the expansion.
   */
  lemma SearchTermsClean(question: string, expansion: string, k: nat)
    requires 1 <= k < |SearchQueries(question, expansion)|
    ensures var t := SearchQueries(question, expansion)[k];
      && t != "" && Trimmed(t) && !Contains(t, Newline)
      && exists v :: v in Split(expansion, Newline) && Strip(v) == t
  {
    var lines := Split(expansion, Newline);
    var t := SearchQueries(question, expansion)[k];
    assert t in NonBlankStripped(lines);
    NonBlankStrippedMembers(lines, t);
    var v :| v in lines && Strip(v) == t;
    StrippedLineClean(expansion, v);
  }

  /** A line of the expansion, stripped, holds no line break. */
  lemma StrippedLineClean(expansion: string, v: string)
    requires v in Split(expansion, Newline)
    ensures !Contains(Strip(v), Newline)
  {
    var lines := Split(expansion, Newline);
    var j :| 0 <= j < |lines| && lines[j] == v;
    assert !Contains(v, Newline) by {
      SplitPiecesFree(expansion, Newline, j);
    }
    StripIsSlice(v);
    var i := LeadingSpaces(v);
    SliceFree(v, Newline, i, i + |Strip(v)|);
  }

  /** Every non-blank line of the expansion is searched, stripped. */
  lemma SearchTermsComplete(question: string, expansion: string, v: string)
    requires v in Split(expansion, Newline) && Strip(v) != ""
    ensures Strip(v) in SearchQueries(question, expansion)
  {
    NonBlankStrippedMembers(Split(expansion, Newline), Strip(v));
  }

  /** A one-line expansion gives at most one extra search term: the line itself, stripped. */
  lemma OneLineExpansion(question: string, expansion: string)
    requires !Contains(expansion, Newline)
    ensures SearchQueries(question, expansion)
      == [question] + (if Strip(expansion) != "" then [Strip(expansion)] else [])
  {
    assert Split(expansion, Newline) == [expansion];
  }

  /** `all_docs` after extending it with the results of each query in turn. */
  function Accumulated(queries: seq<string>, retriever: string -> seq<Document>): seq<Document>
  {
    if queries == [] then []
    else Accumulated(queries[..|queries| - 1], retriever) + retriever(queries[|queries| - 1])
  }

  /** A document is pooled exactly when some query retrieved it. */
  lemma {:induction false} AccumulatedMembers(queries: seq<string>, retriever: string -> seq<Document>, d: Document)
    ensures d in Accumulated(queries, retriever)
      <==> exists k :: 0 <= k < |queries| && d in retriever(queries[k])
  {
    if queries != [] {
      var init := queries[..|queries| - 1];
      AccumulatedMembers(init, retriever, d);
      assert forall k :: 0 <= k < |init| ==> init[k] == queries[k];
    }
  }

  /** Nothing is dropped or added: the pool is as long as all the results together. */
  lemma {:induction false} AccumulatedLength(queries: seq<string>, retriever: string -> seq<Document>)
    ensures |Accumulated(queries, retriever)| == ResultCount(queries, retriever)
  {
    if queries != [] {
      AccumulatedLength(queries[..|queries| - 1], retriever);
    }
  }

  /** The total number of results of the queries. */
  function ResultCount(queries: seq<string>, retriever: string -> seq<Document>): nat
  {
    if queries == [] then 0
    else ResultCount(queries[..|queries| - 1], retriever) + |retriever(queries[|queries| - 1])|
  }

  /** The loop of agent.py:51-53. */
  method CollectDocuments(queries: seq<string>, retriever: string -> seq<Document>)
    returns (allDocs: seq<Document>)
    ensures allDocs == Accumulated(queries, retriever)
  {
    allDocs := [];
    var i := 0;
    while i < |queries|
      invariant 0 <= i <= |queries|
      invariant allDocs == Accumulated(queries[..i], retriever)
    {
      assert queries[..i + 1][..i] == queries[..i];
      allDocs := allDocs + retriever(queries[i]);
      i := i + 1;
    }
    assert queries[..|queries|] == queries;
  }

  /** `set([doc.page_content for doc in all_docs])`. */
  function ContentSet(docs: seq<Document>): set<string> {
    set d | d in docs :: d.pageContent
  }

  predicate NoDuplicates(xs: seq<string>) {
    forall i, j :: 0 <= i < j < |xs| ==> xs[i] != xs[j]
  }

  /** `list(s)`: every element once, in an order the model leaves open. */
  method SetToList(s: set<string>) returns (xs: seq<string>)
    ensures NoDuplicates(xs)
    ensures forall x :: x in xs <==> x in s
    ensures |xs| == |s|
  {
    xs := [];
    var rest := s;
    while rest != {}
      invariant rest <= s
      invariant forall x :: x in xs <==> x in s && x !in rest
      invariant NoDuplicates(xs)
      invariant |xs| + |rest| == |s|
      decreases |rest|
    {
      var x :| x in rest;
      xs := xs + [x];
      rest := rest - {x};
    }
  }

  /** `xs[:n]`. */
  function Take(xs: seq<string>, n: nat): (r: seq<string>)
    ensures |r| == if |xs| <= n then |xs| else n
    ensures r == xs[..|r|]
  {
    if |xs| <= n then xs else xs[..n]
  }

  /** The distinct page contents retrieve_node chooses from. */
  function Candidates(question: string, llm: string -> string, retriever: string -> seq<Document>): set<string> {
    ContentSet(Accumulated(SearchQueries(question, llm(ExpansionPrompt(question))), retriever))
  }

  /**
   `retrieve_node` without its print: the chunks are distinct page contents of
   retrieved documents, six of them when there are at least six, and all of
   them otherwise.
   */
  method RetrieveNode(question: string, llm: string -> string, retriever: string -> seq<Document>)
    returns (chunks: seq<string>)
    ensures NoDuplicates(chunks)
    ensures forall c :: c in chunks ==> c in Candidates(question, llm, retriever)
    ensures |chunks| == if |Candidates(question, llm, retriever)| <= MaxContextChunks
      then |Candidates(question, llm, retriever)| else MaxContextChunks
    ensures |Candidates(question, llm, retriever)| <= MaxContextChunks
      ==> forall c :: c in Candidates(question, llm, retriever) ==> c in chunks
  {
    var expansion := llm(ExpansionPrompt(question));
    var queries := SearchQueries(question, expansion);
    var allDocs := CollectDocuments(queries, retriever);
    var unique := SetToList(ContentSet(allDocs));
    chunks := Take(unique, MaxContextChunks);
  }

  /**
   A chunk candidate is exactly the text of a document that one of the
   search queries retrieved; the question's own results are always among them.
   */
  lemma CandidateMembers(question: string, llm: string -> string, retriever: string -> seq<Document>, c: string)
    ensures var qs := SearchQueries(question, llm(ExpansionPrompt(question)));
      c in Candidates(question, llm, retriever)
      <==> exists k, d :: 0 <= k < |qs| && d in retriever(qs[k]) && d.pageContent == c
    ensures forall d :: d in retriever(question) ==> d.pageContent in Candidates(question, llm, retriever)
  {
    var qs := SearchQueries(question, llm(ExpansionPrompt(question)));
    forall d ensures d in Accumulated(qs, retriever) <==> exists k :: 0 <= k < |qs| && d in retriever(qs[k]) {
      AccumulatedMembers(qs, retriever, d);
    }
  }
}
