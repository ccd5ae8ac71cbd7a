/** `ChatManager` (src/llm/chat_manager.py): how `ask_question` turns the
    conversational chain's result into a response (sources, confidence,
    error text), the chat memory it keeps, and the history and summary
    views of that memory.

    The chain (retriever, prompt and language model) is an oracle: for one
    call it either returns an answer with its source documents or raises
    with some message. The summarising language model is an oracle from the
    history to a text or an error. */
module Chat {
  import opened Outcomes
  import opened Text
  import opened Documents

  /** LangChain message types and the names `message.type` gives them. */
  datatype Role = Human | Ai | System

  function RoleName(role: Role): string {
    match role
    case Human => "human"
    case Ai => "ai"
    case System => "system"
  }

  /** One message of the conversation memory. */
  datatype Message = Message(role: Role, content: string)

  /** One `{role, content}` entry of `get_chat_history`. */
  datatype HistoryEntry = HistoryEntry(role: string, content: string)

  /** One `{filename, content, score}` entry of a response's sources. The
      score is `None` when the document's metadata holds `None` for it. */
  datatype Source = Source(filename: string, content: string, score: Option<real>)

  /** The response dictionary; `question` is absent from the response to a
      blank question. */
  datatype ChatResponse = ChatResponse(answer: string, sources: seq<Source>, confidence: real, question: Option<string>)

  /** What the chain returns: its answer and, when the key is present, its
      source documents. */
  datatype ChainResult = ChainResult(answer: string, sourceDocuments: Option<seq<Document>>)

  const InvalidQuestionAnswer := "Por favor, proporciona una pregunta v\U{e1}lida."
  const ErrorAnswerPrefix := "Lo siento, ocurri\U{f3} un error al procesar tu pregunta: "
  const UnknownFilename := "Desconocido"
  const NoHistorySummary := "No hay historial de conversaci\U{f3}n."
  const SummaryErrorText := "Error generando resumen de la conversaci\U{f3}n."
  const SnippetLength := 200
  const Ellipsis := "..."

  /** `content[:200] + "..."`. */
  function Snippet(content: string): string {
    content[..if |content| < SnippetLength then |content| else SnippetLength] + Ellipsis
  }

  /** A snippet is the first min(200, n) characters of the content followed
      by "...", even when nothing was cut. */
  lemma SnippetShape(content: string)
    ensures var s, n := Snippet(content), if |content| < 200 then |content| else 200;
      && |s| == n + 3
      && s[..n] == content[..n]
      && s[n..] == "..."
      && (|content| <= 200 ==> s == content + "...")
  {
  }

  /** The source entry of one document: its file name or "Desconocido",
      its snippet, and its score or 0.0 when the key is absent. */
  function SourceOf(doc: Document): Source {
    Source(doc.metadata.filename.GetOr(UnknownFilename), Snippet(doc.pageContent), doc.metadata.score.GetOr(Some(0.0)))
  }

  /** The source list of a response: one entry per document, in order. */
  function SourcesOf(docs: seq<Document>): seq<Source>
    decreases |docs|
  {
    if docs == [] then [] else SourcesOf(docs[..|docs| - 1]) + [SourceOf(docs[|docs| - 1])]
  }

  /** Exactly one source per document, in the same order. */
  lemma {:induction false} SourcesOfShape(docs: seq<Document>)
    ensures |SourcesOf(docs)| == |docs|
    ensures forall i :: 0 <= i < |docs| ==> SourcesOf(docs)[i] == SourceOf(docs[i])
    decreases |docs|
  {
    if docs != [] {
      var n := |docs| - 1;
      SourcesOfShape(docs[..n]);
      assert forall i :: 0 <= i < n ==> docs[..n][i] == docs[i];
    }
  }

  /** A source keeps the document's file name and score, with
      "Desconocido" for a missing file name and 0.0 for a missing score; a
      score present as `None` stays `None`. */
  lemma SourceDefaults(doc: Document)
    ensures var s, m := SourceOf(doc), doc.metadata;
      && s.content == Snippet(doc.pageContent)
      && s.filename == (if m.filename.Some? then m.filename.value else "Desconocido")
      && s.score == (if m.score.Some? then m.score.value else Some(0.0))
  {
  }

  /** The loop of `ask_question` that builds the source list. */
  method BuildSources(docs: seq<Document>) returns (sources: seq<Source>)
    ensures sources == SourcesOf(docs)
  {
    sources := [];
    var i := 0;
    while i < |docs|
      invariant 0 <= i <= |docs|
      invariant sources == SourcesOf(docs[..i])
    {
      assert docs[..i + 1][..i] == docs[..i];
      sources := sources + [SourceOf(docs[i])];
      i := i + 1;
    }
    assert docs[..i] == docs;
  }

  /** `[s["score"] for s in sources if s["score"] is not None]`. */
  function Scores(sources: seq<Source>): seq<real>
    decreases |sources|
  {
    if sources == [] then []
    else
      var last := sources[|sources| - 1];
      Scores(sources[..|sources| - 1]) + (if last.score.Some? then [last.score.value] else [])
  }

  /** Python's `sum` over reals. */
  function Sum(xs: seq<real>): real
    decreases |xs|
  {
    if xs == [] then 0.0 else Sum(xs[..|xs| - 1]) + xs[|xs| - 1]
  }

  /** `confidence`: the mean of the scores that are not `None`, or 0.0 when
      there are none (no sources, or only `None` scores). */
  function Confidence(sources: seq<Source>): real {
    var scores := Scores(sources);
    if |scores| == 0 then 0.0 else Sum(scores) / (|scores| as real)
  }

  /** Which scores are kept and how many: there are none exactly when
      every score is `None`, each kept one is a score of some source, every
      present score is kept, and there are as many kept scores as sources
      with a score. `ScoresSum` adds that they total the present scores. */
  lemma {:induction false} ScoresExactly(sources: seq<Source>)
    ensures Scores(sources) == [] <==> forall i :: 0 <= i < |sources| ==> sources[i].score.None?
    ensures forall x :: x in Scores(sources) ==> exists i :: 0 <= i < |sources| && sources[i].score == Some(x)
    ensures forall i :: 0 <= i < |sources| && sources[i].score.Some? ==> sources[i].score.value in Scores(sources)
    ensures |Scores(sources)| == |set i | 0 <= i < |sources| && sources[i].score.Some?|
    decreases |sources|
  {
    if sources != [] {
      var n := |sources| - 1;
      var prefix := sources[..n];
      ScoresExactly(prefix);
      assert forall i :: 0 <= i < n ==> prefix[i] == sources[i];
      forall x | x in Scores(sources)
        ensures exists i :: 0 <= i < |sources| && sources[i].score == Some(x)
      {
        if x !in Scores(prefix) {
          assert sources[n].score == Some(x);
        }
      }
    }
    ScoresKeepPresent(sources);
    ScoresCount(sources);
  }

  lemma {:induction false} ScoresKeepPresent(sources: seq<Source>)
    ensures forall i :: 0 <= i < |sources| && sources[i].score.Some? ==> sources[i].score.value in Scores(sources)
    decreases |sources|
  {
    if sources != [] {
      var n := |sources| - 1;
      var prefix := sources[..n];
      ScoresKeepPresent(prefix);
      assert forall i :: 0 <= i < n ==> prefix[i] == sources[i];
    }
  }

  lemma {:induction false} ScoresCount(sources: seq<Source>)
    ensures |Scores(sources)| == |set i | 0 <= i < |sources| && sources[i].score.Some?|
    decreases |sources|
  {
    if sources != [] {
      ScoresCount(sources[..|sources| - 1]);
      PresentCount(sources);
    }
  }

  /** The sources with a score, counted one source at a time. */
  lemma PresentCount(sources: seq<Source>)
    requires sources != []
    ensures var n := |sources| - 1;
      |set i | 0 <= i < |sources| && sources[i].score.Some?| ==
      |set i | 0 <= i < n && sources[..n][i].score.Some?| + (if sources[n].score.Some? then 1 else 0)
  {
    var n := |sources| - 1;
    var prefix := sources[..n];
    var all := set i | 0 <= i < |sources| && sources[i].score.Some?;
    var before := set i | 0 <= i < n && prefix[i].score.Some?;
    assert forall i :: 0 <= i < n ==> prefix[i] == sources[i];
    if sources[n].score.Some? {
      assert all == before + {n};
    } else {
      assert all == before;
    }
  }

  /** Every source's score, with `None` as 0.0: what the kept scores add
      up to, since a `None` adds nothing. */
  function ScoresOrZero(sources: seq<Source>): seq<real> {
    seq(|sources|, i requires 0 <= i < |sources| => sources[i].score.GetOr(0.0))
  }

  /** The kept scores add up to the sum of every present score, each
      counted as often as it occurs: leaving out the `None` scores leaves
      out nothing of the sum. */
  lemma {:induction false} ScoresSum(sources: seq<Source>)
    ensures Sum(Scores(sources)) == Sum(ScoresOrZero(sources))
    decreases |sources|
  {
    if sources != [] {
      var n := |sources| - 1;
      var prefix := sources[..n];
      ScoresSum(prefix);
      var w := ScoresOrZero(sources);
      assert w[..n] == ScoresOrZero(prefix);
      assert Sum(w) == Sum(ScoresOrZero(prefix)) + sources[n].score.GetOr(0.0);
      if sources[n].score.Some? {
        SumSnoc(Scores(prefix), sources[n].score.value);
      } else {
        assert Scores(prefix) + [] == Scores(prefix);
      }
    }
  }

  /** `confidence` is the mean of the present scores: their total over
      their number, or 0.0 when no source has a score. */
  lemma ConfidenceIsMean(sources: seq<Source>)
    ensures var present := |set i | 0 <= i < |sources| && sources[i].score.Some?|;
      Confidence(sources) == if present == 0 then 0.0 else Sum(ScoresOrZero(sources)) / (present as real)
  {
    ScoresCount(sources);
    ScoresSum(sources);
  }

  /** A sum of values in [lo, hi] lies between lo and hi times the count. */
  lemma {:induction false} SumBounds(xs: seq<real>, lo: real, hi: real)
    requires forall x :: x in xs ==> lo <= x <= hi
    ensures lo * (|xs| as real) <= Sum(xs) <= hi * (|xs| as real)
    decreases |xs|
  {
    if xs != [] {
      var n := |xs| - 1;
      assert forall x :: x in xs[..n] ==> x in xs;
      SumBounds(xs[..n], lo, hi);
      assert xs[n] in xs;
    }
  }

  /** The confidence is a mean: when some score is present and every
      present score lies in [lo, hi], so does the confidence. */
  lemma ConfidenceBetween(sources: seq<Source>, lo: real, hi: real)
    requires exists i :: 0 <= i < |sources| && sources[i].score.Some?
    requires forall i :: 0 <= i < |sources| && sources[i].score.Some? ==> lo <= sources[i].score.value <= hi
    ensures lo <= Confidence(sources) <= hi
  {
    ScoresBetween(sources, lo, hi);
    MeanOfBounded(Scores(sources), lo, hi);
  }

  /** The mean of values in [lo, hi] lies in [lo, hi]. */
  lemma MeanOfBounded(xs: seq<real>, lo: real, hi: real)
    requires xs != []
    requires forall x :: x in xs ==> lo <= x <= hi
    ensures lo <= Sum(xs) / (|xs| as real) <= hi
  {
    SumBounds(xs, lo, hi);
    MeanBetween(Sum(xs), |xs| as real, lo, hi);
  }

  lemma ScoresBetween(sources: seq<Source>, lo: real, hi: real)
    requires exists i :: 0 <= i < |sources| && sources[i].score.Some?
    requires forall i :: 0 <= i < |sources| && sources[i].score.Some? ==> lo <= sources[i].score.value <= hi
    ensures Scores(sources) != []
    ensures forall x :: x in Scores(sources) ==> lo <= x <= hi
  {
    ScoresExactly(sources);
    forall x | x in Scores(sources)
      ensures lo <= x <= hi
    {
      var i :| 0 <= i < |sources| && sources[i].score == Some(x);
    }
  }

  lemma MeanBetween(sum: real, n: real, lo: real, hi: real)
    requires n > 0.0 && lo * n <= sum <= hi * n
    ensures lo <= sum / n <= hi
  {
    assert sum / n * n == sum;
  }

  /** When every present score is the same value, that value is the
      confidence. */
  lemma ConfidenceOfEqualScores(sources: seq<Source>, c: real)
    requires exists i :: 0 <= i < |sources| && sources[i].score.Some?
    requires forall i :: 0 <= i < |sources| && sources[i].score.Some? ==> sources[i].score.value == c
    ensures Confidence(sources) == c
  {
    ConfidenceBetween(sources, c, c);
  }

  /** No present score, no confidence. */
  lemma ConfidenceWithoutScores(sources: seq<Source>)
    requires forall i :: 0 <= i < |sources| ==> sources[i].score.None?
    ensures Confidence(sources) == 0.0
  {
    ScoresExactly(sources);
  }

  lemma ScoresSnoc(sources: seq<Source>, s: Source)
    ensures Scores(sources + [s]) == Scores(sources) + (if s.score.Some? then [s.score.value] else [])
  {
    assert (sources + [s])[..|sources|] == sources;
  }

  lemma SumSnoc(xs: seq<real>, x: real)
    ensures Sum(xs + [x]) == Sum(xs) + x
  {
    assert (xs + [x])[..|xs|] == xs;
  }

  /** Worked example: scores 0.9 and 0.7 give a confidence of 0.8. */
  lemma ConfidenceOfTwoScores(f: string, c: string)
    ensures Confidence([Source(f, c, Some(0.9)), Source(f, c, Some(0.7))]) == 0.8
  {
    var high, low := Source(f, c, Some(0.9)), Source(f, c, Some(0.7));
    ScoresOfTwo(high, low);
    assert [0.9] + [0.7] == [0.9, 0.7];
    SumOfTwo(0.9, 0.7);
    assert Scores([high, low]) == [0.9, 0.7];
  }

  /** Worked example: a score present as `None` is left out of the mean. */
  lemma ConfidenceSkipsNone(f: string, c: string)
    ensures Confidence([Source(f, c, Some(0.9)), Source(f, c, None), Source(f, c, Some(0.7))]) == 0.8
  {
    var high, none, low := Source(f, c, Some(0.9)), Source(f, c, None), Source(f, c, Some(0.7));
    ScoresOfTwo(high, none);
    ScoresSnoc([high, none], low);
    assert [high, none] + [low] == [high, none, low];
    assert [0.9] + [] == [0.9];
    assert [0.9] + [0.7] == [0.9, 0.7];
    SumOfTwo(0.9, 0.7);
    assert Scores([high, none, low]) == [0.9, 0.7];
  }

  /** Worked example: a document without a score key counts as 0.0. */
  lemma ConfidenceCountsMissingAsZero(c: string)
    ensures Confidence(SourcesOf([Document(c, EmptyMetadata.(score := Some(Some(0.9)))), Document(c, EmptyMetadata)])) == 0.45
  {
    var scored, unscored := Document(c, EmptyMetadata.(score := Some(Some(0.9)))), Document(c, EmptyMetadata);
    SourcesOfTwo(scored, unscored);
    assert SourceOf(scored).score == Some(0.9);
    assert SourceOf(unscored).score == Some(0.0);
    ScoresOfTwo(SourceOf(scored), SourceOf(unscored));
    assert [0.9] + [0.0] == [0.9, 0.0];
    SumOfTwo(0.9, 0.0);
    assert Scores([SourceOf(scored), SourceOf(unscored)]) == [0.9, 0.0];
  }

  lemma SourcesOfTwo(a: Document, b: Document)
    ensures SourcesOf([a, b]) == [SourceOf(a), SourceOf(b)]
  {
    assert [a, b][..1] == [a];
    assert [a][..0] == [];
    assert SourcesOf([a]) == [] + [SourceOf(a)] == [SourceOf(a)];
    assert [SourceOf(a)] + [SourceOf(b)] == [SourceOf(a), SourceOf(b)];
  }

  lemma ScoresOfTwo(a: Source, b: Source)
    ensures Scores([a, b]) == (if a.score.Some? then [a.score.value] else []) + (if b.score.Some? then [b.score.value] else [])
  {
    ScoresSnoc([], a);
    assert [] + [a] == [a];
    ScoresSnoc([a], b);
    assert [a] + [b] == [a, b];
  }

  lemma SumOfTwo(x: real, y: real)
    ensures Sum([x, y]) == x + y
  {
    SumSnoc([], x);
    assert [] + [x] == [x];
    SumSnoc([x], y);
    assert [x] + [y] == [x, y];
  }

  /** The response `ask_question` returns for `question` when the chain
      would produce `outcome`. */
  function Respond(question: string, outcome: Result<ChainResult, string>): ChatResponse {
    if Strip(question) == "" then ChatResponse(InvalidQuestionAnswer, [], 0.0, None)
    else
      match outcome
      case Failure(e) => ChatResponse(ErrorAnswerPrefix + e, [], 0.0, Some(question))
      case Success(result) =>
        var sources := SourcesOf(result.sourceDocuments.GetOr([]));
        ChatResponse(result.answer, sources, Confidence(sources), Some(question))
  }

  /** A blank question gets the fixed prompt, no sources, confidence 0.0 and
      no `question` key, whatever the chain would have done. */
  lemma BlankQuestion(question: string, outcome: Result<ChainResult, string>)
    requires AllSpace(question)
    ensures Respond(question, outcome) == ChatResponse("Por favor, proporciona una pregunta v\U{e1}lida.", [], 0.0, None)
  {
    StripEmptyIff(question);
  }

  /** The response carries the question exactly when it is not blank. */
  lemma QuestionEchoedUnlessBlank(question: string, outcome: Result<ChainResult, string>)
    ensures Respond(question, outcome).question == if AllSpace(question) then None else Some(question)
  {
    StripEmptyIff(question);
  }

  /** A failure of the chain becomes the apology followed by the error
      text, with no sources and confidence 0.0. */
  lemma ChainFailure(question: string, message: string)
    requires !AllSpace(question)
    ensures Respond(question, Failure(message)) ==
      ChatResponse("Lo siento, ocurri\U{f3} un error al procesar tu pregunta: " + message, [], 0.0, Some(question))
  {
    StripEmptyIff(question);
  }

  /** On success the response carries the chain's answer, one source per
      source document in order, and their mean score. */
  lemma ChainSuccess(question: string, result: ChainResult)
    requires !AllSpace(question)
    ensures var r, docs := Respond(question, Success(result)), result.sourceDocuments.GetOr([]);
      && r.answer == result.answer
      && r.question == Some(question)
      && |r.sources| == |docs|
      && (forall i :: 0 <= i < |docs| ==> r.sources[i] == SourceOf(docs[i]))
      && r.confidence == Confidence(r.sources)
  {
    StripEmptyIff(question);
    SourcesOfShape(result.sourceDocuments.GetOr([]));
  }

  /** The `{role, content}` view of the memory. */
  function HistoryOf(messages: seq<Message>): seq<HistoryEntry>
    decreases |messages|
  {
    if messages == [] then []
    else
      var last := messages[|messages| - 1];
      HistoryOf(messages[..|messages| - 1]) + [HistoryEntry(RoleName(last.role), last.content)]
  }

  /** One entry per message, in order, with the message type as role. */
  lemma {:induction false} HistoryOfShape(messages: seq<Message>)
    ensures |HistoryOf(messages)| == |messages|
    ensures forall i :: 0 <= i < |messages| ==>
      HistoryOf(messages)[i] == HistoryEntry(RoleName(messages[i].role), messages[i].content)
    decreases |messages|
  {
    if messages != [] {
      var n := |messages| - 1;
      HistoryOfShape(messages[..n]);
      assert forall i :: 0 <= i < n ==> messages[..n][i] == messages[i];
    }
  }

  class ChatManager {
    /** The conversation memory, oldest message first. */
    var memory: seq<Message>

    constructor ()
      ensures memory == []
    {
      memory := [];
    }

    /** `ask_question`. A blank question is answered at once and leaves the
        memory alone. Otherwise the chain runs; on success it records the
        question and then the answer in the memory, and on failure the
        memory is untouched. */
    method AskQuestion(question: string, outcome: Result<ChainResult, string>) returns (response: ChatResponse)
      modifies this
      ensures response == Respond(question, outcome)
      ensures memory ==
        if !AllSpace(question) && outcome.Success?
        then old(memory) + [Message(Human, question), Message(Ai, outcome.value.answer)]
        else old(memory)
    {
      StripEmptyIff(question);
      if Strip(question) == "" {
        return ChatResponse(InvalidQuestionAnswer, [], 0.0, None);
      }
      match outcome
      case Failure(e) =>
        response := ChatResponse(ErrorAnswerPrefix + e, [], 0.0, Some(question));
      case Success(result) =>
        memory := memory + [Message(Human, question), Message(Ai, result.answer)];
        var sources: seq<Source> := [];
        if result.sourceDocuments.Some? {
          sources := BuildSources(result.sourceDocuments.value);
        }
        response := ChatResponse(result.answer, sources, Confidence(sources), Some(question));
    }

    /** `get_chat_history`: one `{role, content}` entry per message. */
    method GetChatHistory() returns (history: seq<HistoryEntry>)
      ensures history == HistoryOf(memory)
    {
      history := [];
      var i := 0;
      while i < |memory|
        invariant 0 <= i <= |memory|
        invariant history == HistoryOf(memory[..i])
      {
        assert memory[..i + 1][..i] == memory[..i];
        history := history + [HistoryEntry(RoleName(memory[i].role), memory[i].content)];
        i := i + 1;
      }
      assert memory[..i] == memory;
    }

    /** `clear_memory`. */
    method ClearMemory()
      modifies this
      ensures memory == []
    {
      memory := [];
    }

    /** `get_conversation_summary`: the fixed text when there is no history;
        otherwise the model's summary of the history, or the fixed error
        text when the model call fails. */
    method GetConversationSummary(summarize: seq<HistoryEntry> -> Result<string, string>) returns (summary: string)
      ensures memory == [] ==> summary == "No hay historial de conversaci\U{f3}n."
      ensures memory != [] ==>
        summary == match summarize(HistoryOf(memory))
                   case Success(text) => text
                   case Failure(_) => "Error generando resumen de la conversaci\U{f3}n."
    {
      var history := GetChatHistory();
      HistoryOfShape(memory);
      if |history| == 0 {
        return NoHistorySummary;
      }
      match summarize(history)
      case Success(text) =>
        summary := text;
      case Failure(_) =>
        summary := SummaryErrorText;
    }
  }
}
