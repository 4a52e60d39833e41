/** The ask route of routes/ask.js with its three services (embedding, vector
    search, chat completion) taken as inputs. The handler is a chain of early
    returns followed by string assembly; it is modelled as a function whose
    result records which service calls were issued and the response sent. */
module Ask {
  import opened Shared

  const TopK: nat := 3
  const QuestionRequired := "Question is required"
  const EmbeddingFailed := "Failed to generate embedding"
  const GenericFailure := "Failed to generate answer."
  const NotFoundAnswer := "I couldn't find any relevant information in the document."
  const NoAnswer := "No answer generated."
  const SystemInstruction := "You are a helpful and precise assistant. Answer the question based ONLY on the context provided."
  const CompletionModel := "llama-3.3-70b-versatile"
  const ContextSeparator := "\n\n"
  const PreviewLength: nat := 100
  const Ellipsis := "..."

  /** A search match, reduced to the text stored in its metadata. */
  datatype Match = Match(text: string)

  /** What the vector search gave back: it threw, it answered without a
      `matches` field, or it answered with a list of matches. */
  datatype SearchResult = SearchFailed(message: string) | NoMatchList | Matches(matches: seq<Match>)

  /** What the completion service gave back: it threw, or it answered with a
      list of choices, each reduced to its optional `message.content`. */
  datatype CompletionResult = CompletionFailed(message: string) | Choices(contents: seq<Option<string>>)

  datatype Role = System | User
  datatype Message = Message(role: Role, content: string)

  datatype QueryRequest<T> = QueryRequest(vector: seq<T>, topK: nat, includeMetadata: bool, filter: Option<string>)
  datatype CompletionRequest = CompletionRequest(messages: seq<Message>, model: string)

  /** The JSON response: `{answer, sources?}` or an error status with `{error}`. */
  datatype Response = Answer(answer: string, sources: Option<seq<string>>) | Error(status: nat, error: string)

  /** One run of the handler: the service requests it issued, and its response. */
  datatype Exchange<T> = Exchange(
    embedded: Option<string>,
    query: Option<QueryRequest<T>>,
    completion: Option<CompletionRequest>,
    response: Response)

  /** `error.message || "Failed to generate answer."` for a caught exception. */
  function FailureMessage(message: string): (r: string)
    ensures r != ""
    ensures message != "" ==> r == message
    ensures message == "" ==> r == GenericFailure
  {
    if message == "" then GenericFailure else message
  }

  /** `documentId ? { docId: documentId } : undefined`. */
  function QueryFilter(documentId: Option<string>): (filter: Option<string>)
    ensures forall d :: filter == Some(d) <==> documentId == Some(d) && d != ""
    ensures filter.None? <==> !Truthy(documentId)
  {
    if Truthy(documentId) then Some(documentId.value) else None
  }

  /** `parts.join(sep)`. */
  function Join(parts: seq<string>, sep: string): string
  {
    if |parts| == 0 then ""
    else if |parts| == 1 then parts[0]
    else Join(parts[..|parts| - 1], sep) + sep + parts[|parts| - 1]
  }

  /** Where part `k` begins in `Join(parts, sep)`: each earlier part and its separator come first. */
  function PartOffset(parts: seq<string>, sep: string, k: nat): nat
    requires k <= |parts|
  {
    if k == 0 then 0 else PartOffset(parts, sep, k - 1) + |parts[k - 1]| + |sep|
  }

  lemma {:induction false} PartOffsetOfPrefix(parts: seq<string>, sep: string, m: nat, k: nat)
    requires k <= m <= |parts|
    ensures PartOffset(parts[..m], sep, k) == PartOffset(parts, sep, k)
  {
    if k > 0 {
      PartOffsetOfPrefix(parts, sep, m, k - 1);
    }
  }

  /** The joined string is as long as its parts and the separators between them. */
  lemma {:induction false} JoinLength(parts: seq<string>, sep: string)
    requires |parts| > 0
    ensures |Join(parts, sep)| + |sep| == PartOffset(parts, sep, |parts|)
  {
    var n := |parts|;
    if n > 1 {
      JoinLength(parts[..n - 1], sep);
      PartOffsetOfPrefix(parts, sep, n - 1, n - 1);
    }
  }

  /** Part `k` sits in the joined string at its offset. */
  lemma {:induction false} JoinPlacesPart(parts: seq<string>, sep: string, k: nat)
    requires k < |parts|
    ensures var o := PartOffset(parts, sep, k);
            o + |parts[k]| <= |Join(parts, sep)| && Join(parts, sep)[o..o + |parts[k]|] == parts[k]
  {
    var n := |parts|;
    if n > 1 {
      var init := parts[..n - 1];
      var ji := Join(init, sep);
      JoinLength(init, sep);
      PartOffsetOfPrefix(parts, sep, n - 1, n - 1);
      PartOffsetOfPrefix(parts, sep, n - 1, k);
      var o := PartOffset(parts, sep, k);
      if k < n - 1 {
        JoinPlacesPart(init, sep, k);
        assert init[k] == parts[k];
        assert Join(parts, sep)[o..o + |parts[k]|] == ji[o..o + |parts[k]|];
      }
    }
  }

  /** The separator follows every part but the last. */
  lemma {:induction false} JoinPlacesSeparator(parts: seq<string>, sep: string, k: nat)
    requires k + 1 < |parts|
    ensures var e := PartOffset(parts, sep, k) + |parts[k]|;
            e + |sep| <= |Join(parts, sep)| && Join(parts, sep)[e..e + |sep|] == sep
  {
    var n := |parts|;
    var init := parts[..n - 1];
    var ji := Join(init, sep);
    JoinLength(init, sep);
    PartOffsetOfPrefix(parts, sep, n - 1, n - 1);
    PartOffsetOfPrefix(parts, sep, n - 1, k);
    var e := PartOffset(parts, sep, k) + |parts[k]|;
    assert init[k] == parts[k];
    if k + 1 < n - 1 {
      JoinPlacesSeparator(init, sep, k);
      PartOffsetOfPrefix(parts, sep, n - 1, k + 1);
      assert Join(parts, sep)[e..e + |sep|] == ji[e..e + |sep|];
    }
  }

  /** `matches.map(match => match.metadata.text)`. */
  function Texts(matches: seq<Match>): seq<string>
  {
    seq(|matches|, k requires 0 <= k < |matches| => matches[k].text)
  }

  /** The context block: the match texts, in order, separated by blank lines. */
  function Context(matches: seq<Match>): string
  {
    Join(Texts(matches), ContextSeparator)
  }

  /** Two matches "A" and "B" give the context "A\n\nB". */
  lemma ContextOfTwo()
    ensures Context([Match("A"), Match("B")]) == "A\n\nB"
  {
    var texts := Texts([Match("A"), Match("B")]);
    assert texts == ["A", "B"];
    assert texts[..1] == ["A"];
  }

  /** The user message: `Context:\n${context}\n\nQuestion: ${question}`. The
      context and the question can be read back from it at fixed places. */
  function UserPrompt(context: string, question: string): (prompt: string)
    ensures |prompt| == |context| + |question| + 21
    ensures prompt[..9] == "Context:\n"
    ensures prompt[9..9 + |context|] == context
    ensures prompt[9 + |context|..21 + |context|] == "\n\nQuestion: "
    ensures prompt[21 + |context|..] == question
  {
    "Context:\n" + context + "\n\nQuestion: " + question
  }

  /** A source citation: `text.substring(0, 100) + "..."`. */
  function Preview(text: string): (r: string)
    ensures |r| == Min(|text|, PreviewLength) + |Ellipsis| <= PreviewLength + |Ellipsis|
    ensures r[..|r| - |Ellipsis|] == text[..|r| - |Ellipsis|]
    ensures r[|r| - |Ellipsis|..] == Ellipsis
    ensures |text| <= PreviewLength ==> r == text + Ellipsis
  {
    Slice(text, 0, PreviewLength) + Ellipsis
  }

  /** The sources list: one preview per match, in match order. */
  function Sources(matches: seq<Match>): (sources: seq<string>)
    ensures |sources| == |matches|
    ensures forall k :: 0 <= k < |matches| ==>
              |sources[k]| <= PreviewLength + |Ellipsis| &&
              sources[k] == matches[k].text[..Min(|matches[k].text|, PreviewLength)] + Ellipsis
  {
    seq(|matches|, k requires 0 <= k < |matches| => Preview(matches[k].text))
  }

  /** `completion.choices[0]?.message?.content || "No answer generated."`. */
  function AnswerText(contents: seq<Option<string>>): (answer: string)
    ensures answer != ""
    ensures answer == NoAnswer || (|contents| > 0 && contents[0] == Some(answer))
    ensures |contents| > 0 && Truthy(contents[0]) ==> answer == contents[0].value
  {
    if |contents| > 0 && Truthy(contents[0]) then contents[0].value else NoAnswer
  }

  /** The messages sent to the completion service. */
  function CompletionMessages(context: string, question: string): seq<Message>
  {
    [Message(System, SystemInstruction), Message(User, UserPrompt(context, question))]
  }

  /** The ask handler. `question` and `documentId` come from the request body;
      `embedding`, `search` and `completion` are what the three services give
      back when they are called. */
  function HandleAsk<T>(question: Option<string>, documentId: Option<string>,
                        embedding: EmbedOutcome<T>, search: SearchResult, completion: CompletionResult): (x: Exchange<T>)
    // A missing or empty question is rejected before any service is called.
    ensures !Truthy(question) <==> x.response == Error(400, QuestionRequired)
    ensures !Truthy(question) ==> x.embedded.None? && x.query.None? && x.completion.None?
    ensures Truthy(question) ==> x.embedded == question
    // Without embedding values there is no search.
    ensures x.query.Some? <==> Truthy(question) && embedding.Values?
    ensures Truthy(question) && embedding.NoValues? ==> x.response == Error(500, EmbeddingFailed)
    ensures x.query.Some? ==>
              x.query.value.topK == TopK && x.query.value.includeMetadata &&
              x.query.value.filter == QueryFilter(documentId) &&
              embedding.Values? &&
              |x.query.value.vector| == Min(|embedding.values|, EmbeddingDimension) &&
              x.query.value.vector == embedding.values[..|x.query.value.vector|]
    // Without matches there is no completion call, and a fixed answer with no sources.
    ensures x.completion.Some? <==> x.query.Some? && search.Matches? && |search.matches| > 0
    ensures x.query.Some? && (search.NoMatchList? || (search.Matches? && |search.matches| == 0)) ==>
              x.response == Answer(NotFoundAnswer, None)
    ensures x.completion.Some? ==>
              x.completion.value == CompletionRequest(CompletionMessages(Context(search.matches), question.value), CompletionModel)
    // A completed exchange answers with one source preview per match.
    ensures x.completion.Some? && completion.Choices? ==>
              x.response == Answer(AnswerText(completion.contents), Some(Sources(search.matches)))
    // A service call that throws ends the exchange with a 500 carrying its message.
    ensures Truthy(question) && embedding.Fail? ==>
              x.response == Error(500, FailureMessage(embedding.message))
    ensures x.query.Some? && search.SearchFailed? ==>
              x.completion.None? && x.response == Error(500, FailureMessage(search.message))
    ensures x.completion.Some? && completion.CompletionFailed? ==>
              x.response == Error(500, FailureMessage(completion.message))
    // Any other error status is a 500 with a non-empty message.
    ensures x.response.Error? ==> x.response.status in {400, 500} && x.response.error != ""
  {
    if !Truthy(question) then
      Exchange(None, None, None, Error(400, QuestionRequired))
    else
      match embedding
      case Fail(message) =>
        Exchange(question, None, None, Error(500, FailureMessage(message)))
      case NoValues =>
        Exchange(question, None, None, Error(500, EmbeddingFailed))
      case Values(raw) =>
        var query := QueryRequest(Truncate(raw), TopK, true, QueryFilter(documentId));
        match search
        case SearchFailed(message) =>
          Exchange(question, Some(query), None, Error(500, FailureMessage(message)))
        case NoMatchList =>
          Exchange(question, Some(query), None, Answer(NotFoundAnswer, None))
        case Matches(matches) =>
          if |matches| == 0 then
            Exchange(question, Some(query), None, Answer(NotFoundAnswer, None))
          else
            var request := CompletionRequest(CompletionMessages(Context(matches), question.value), CompletionModel);
            match completion
            case CompletionFailed(message) =>
              Exchange(question, Some(query), Some(request), Error(500, FailureMessage(message)))
            case Choices(contents) =>
              Exchange(question, Some(query), Some(request), Answer(AnswerText(contents), Some(Sources(matches))))
  }
}
