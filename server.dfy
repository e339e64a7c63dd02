/**
 * The `/ask` endpoint of the question-answering server: validate the
 * query, look it up in the note collection, and either report that
 * nothing matched or ask the language model to answer from the retrieved
 * notes. The collection search and the model call are parameters.
 */
module Server {
  import opened Wrappers
  import opened Text

  /** What a search asks of the collection. */
  datatype QueryRequest = QueryRequest(queryTexts: seq<string>, nResults: nat, fields: seq<string>)

  datatype ChatMessage = ChatMessage(role: string, content: string)

  /** What the chat-completion endpoint is asked. */
  datatype CompletionRequest = CompletionRequest(model: string, messages: seq<ChatMessage>)

  /** A JSON reply `{key: value}` with its HTTP status. */
  datatype Response = Response(status: nat, key: string, value: string)

  const ResultsPerQuery: nat := 2
  const Model := "llama3.2:1b"
  const Delimiter := "\n---\n"
  const NoQueryError := "No query provided"
  const NoMatchAnswer := "\U{274C} No matching content found in your Obsidian notes."

  /** The instructions placed before the retrieved context in the system prompt. */
  const Preamble :=
    "\nYou are an assistant that answers questions using only the provided notes context.\n\n"
    + "Rules:\n- Only use information from the context below\n"
    + "- If the context doesn't have enough information, say \"I don't have enough information in your notes to answer this\"\n"
    + "- Be helpful and conversational\n\nContext from your notes:\n"

  /** The search for one query text: two results, with documents, distances and metadata. */
  function QueryFor(query: string): QueryRequest {
    QueryRequest([query], ResultsPerQuery, ["documents", "distances", "metadatas"])
  }

  /** Python's `str.isspace` for one character. */
  predicate PyIsSpace(c: char) {
    ('\t' <= c <= '\r') || ('\U{1C}' <= c <= '\U{1F}') || c == ' ' || c == '\U{85}' || c == '\U{A0}'
    || c == '\U{1680}' || ('\U{2000}' <= c <= '\U{200A}') || c == '\U{2028}' || c == '\U{2029}'
    || c == '\U{202F}' || c == '\U{205F}' || c == '\U{3000}'
  }

  /** `doc.strip() == ""`. */
  predicate IsBlank(doc: string) {
    Trim(doc, PyIsSpace) == ""
  }

  /** A document is blank exactly when every character of it is whitespace. */
  lemma BlankIffAllSpace(doc: string)
    ensures IsBlank(doc) <==> forall k :: 0 <= k < |doc| ==> PyIsSpace(doc[k])
  {
    TrimEmptyIffBlank(doc, PyIsSpace);
  }

  /** The search found nothing worth answering from. */
  predicate NoMatch(documents: seq<string>) {
    |documents| == 0 || forall k :: 0 <= k < |documents| ==> IsBlank(documents[k])
  }

  /** The retrieved documents joined by the delimiter. */
  function Context(documents: seq<string>): (ctx: string)
    ensures forall k :: 0 <= k < |documents| ==> |documents[k]| <= |ctx|
  {
    var ctx := Join(documents, Delimiter);
    forall k | 0 <= k < |documents| ensures |documents[k]| <= |ctx| {
      var pos := JoinContains(documents, Delimiter, k);
    }
    ctx
  }

  function SystemPrompt(documents: seq<string>): string {
    Preamble + Context(documents) + "\n"
  }

  /** The model call: the system prompt with the context, then the user's query. */
  function CompletionFor(query: string, documents: seq<string>): CompletionRequest {
    CompletionRequest(Model, [ChatMessage("system", SystemPrompt(documents)), ChatMessage("user", query)])
  }

  /**
   * The `/ask` handler. `query` is the request's `query` field (`None`
   * when absent), `search` the documents the collection returns for the
   * first query text, and `complete` the content of the model's first choice.
   */
  function Ask(query: Option<string>, search: QueryRequest -> seq<string>,
               complete: CompletionRequest -> string): (r: Response)
    ensures r.status == 400 <==> query.None? || query.value == ""
    ensures r.status == 400 ==> r.key == "error" && r.value == NoQueryError
    ensures r.status != 400 ==> r.status == 200 && r.key == "answer"
  {
    var q := if query.Some? then query.value else "";
    if q == "" then Response(400, "error", NoQueryError)
    else
      var documents := search(QueryFor(q));
      if NoMatch(documents) then Response(200, "answer", NoMatchAnswer)
      else Response(200, "answer", complete(CompletionFor(q, documents)))
  }

  /** A missing or empty query is refused before the collection or the model is consulted. */
  lemma EmptyQueryRefused(search: QueryRequest -> seq<string>, search': QueryRequest -> seq<string>,
                          complete: CompletionRequest -> string, complete': CompletionRequest -> string)
    ensures Ask(None, search, complete) == Ask(Some(""), search', complete')
    ensures Ask(None, search, complete) == Response(400, "error", NoQueryError)
  {
  }

  /** A blank but non-empty query is not refused: it is searched like any other. */
  lemma BlankQuerySearched(q: string, search: QueryRequest -> seq<string>, complete: CompletionRequest -> string)
    requires q != ""
    ensures Ask(Some(q), search, complete).status == 200
    ensures !NoMatch(search(QueryFor(q))) ==>
      Ask(Some(q), search, complete).value == complete(CompletionFor(q, search(QueryFor(q))))
  {
  }

  /**
   * The handler makes one search, for the single query text with two
   * results, and at most one model call; nothing else of `search` or
   * `complete` affects the response.
   */
  lemma AskReadsOnlyItsRequests(q: string, search: QueryRequest -> seq<string>, search': QueryRequest -> seq<string>,
                                complete: CompletionRequest -> string, complete': CompletionRequest -> string)
    requires search(QueryFor(q)) == search'(QueryFor(q))
    requires complete(CompletionFor(q, search(QueryFor(q)))) == complete'(CompletionFor(q, search(QueryFor(q))))
    ensures QueryFor(q).queryTexts == [q] && QueryFor(q).nResults == 2
    ensures Ask(Some(q), search, complete) == Ask(Some(q), search', complete')
  {
  }

  /** When the search returns only blank documents the model is never asked. */
  lemma NoMatchSkipsModel(q: string, search: QueryRequest -> seq<string>,
                          complete: CompletionRequest -> string, complete': CompletionRequest -> string)
    requires q != ""
    requires forall k :: 0 <= k < |search(QueryFor(q))| ==> forall j :: 0 <= j < |search(QueryFor(q))[k]| ==> PyIsSpace(search(QueryFor(q))[k][j])
    ensures Ask(Some(q), search, complete) == Ask(Some(q), search, complete')
    ensures Ask(Some(q), search, complete) == Response(200, "answer", NoMatchAnswer)
  {
    var docs := search(QueryFor(q));
    forall k | 0 <= k < |docs| ensures IsBlank(docs[k]) {
      BlankIffAllSpace(docs[k]);
    }
  }

  /** One document with a non-space character is enough for the model to be asked. */
  lemma OneContentfulDocument(q: string, search: QueryRequest -> seq<string>,
                              complete: CompletionRequest -> string, k: nat, j: nat)
    requires q != ""
    requires k < |search(QueryFor(q))| && j < |search(QueryFor(q))[k]|
    requires !PyIsSpace(search(QueryFor(q))[k][j])
    ensures Ask(Some(q), search, complete) == Response(200, "answer", complete(CompletionFor(q, search(QueryFor(q)))))
  {
    BlankIffAllSpace(search(QueryFor(q))[k]);
  }

  /**
   * The model is asked with the system prompt first and the query second,
   * and every retrieved document appears verbatim in the system prompt,
   * right after the instructions, the earlier documents and one delimiter.
   */
  lemma PromptCarriesDocuments(q: string, documents: seq<string>, k: nat) returns (pos: nat)
    requires k < |documents|
    ensures var req := CompletionFor(q, documents);
      req.model == Model && |req.messages| == 2
      && req.messages[0].role == "system" && req.messages[1] == ChatMessage("user", q)
    ensures pos == |Preamble| + if k == 0 then 0 else |Join(documents[..k], Delimiter)| + |Delimiter|
    ensures var p := CompletionFor(q, documents).messages[0].content;
      pos + |documents[k]| <= |p| && p[pos..pos + |documents[k]|] == documents[k]
  {
    PromptShape(q, documents);
    pos := DocumentInPrompt(Preamble, documents, k);
  }

  lemma DocumentInPrompt(pre: string, documents: seq<string>, k: nat) returns (pos: nat)
    requires k < |documents|
    ensures pos == |pre| + if k == 0 then 0 else |Join(documents[..k], Delimiter)| + |Delimiter|
    ensures var p := pre + Context(documents) + "\n";
      pos + |documents[k]| <= |p| && p[pos..pos + |documents[k]|] == documents[k]
  {
    var at := DocumentInContext(documents, k);
    pos := |pre| + at;
    SliceOfMiddle(pre, Context(documents), "\n", at, |documents[k]|);
  }

  lemma DocumentInContext(documents: seq<string>, k: nat) returns (at: nat)
    requires k < |documents|
    ensures at == if k == 0 then 0 else |Join(documents[..k], Delimiter)| + |Delimiter|
    ensures at + |documents[k]| <= |Context(documents)|
    ensures Context(documents)[at..at + |documents[k]|] == documents[k]
  {
    at := JoinContains(documents, Delimiter, k);
  }

  lemma PromptShape(q: string, documents: seq<string>)
    ensures var req := CompletionFor(q, documents);
      req.model == Model && |req.messages| == 2
      && req.messages[0] == ChatMessage("system", Preamble + Context(documents) + "\n")
      && req.messages[1] == ChatMessage("user", q)
  {
  }
}
