# Obsidian notes question answering, modelled in Dafny

The system keeps a vector collection in step with an Obsidian vault of
markdown notes, and answers questions from it. The model covers three parts.

- **The ingester**
  - Normalises every note's text by removing embedded media `![[...]]` and
    replacing `[[Target|Alias]]` / `[[Target]]` links with the text they
    show (`clean_obsidian`).
  - Splits each note into chunks and gives chunk `i` of a note the id
    `relpath_chunk_i`.
  - Upserts the chunks into an id -> entry collection.
  - Does this for every `.md` file found when the vault is first walked,
    and for every created or modified `.md` file the watcher reports.
- **The `/ask` handler of the server**
  - Refuses an empty query.
  - Searches the collection for two results.
  - Gives a fixed "no match" answer when nothing but blank documents
    comes back.
  - Otherwise asks the language model, with the documents joined into the
    system prompt.
- **The chat page**
  - `handleAsk` appends the user's message, then either an error message
    or the reply. The reply is picked from `answer` / `error` / a default,
    stripped of `<think>...</think>` blocks, trimmed, and revealed word by
    word into a streaming assistant message that is finally marked as
    complete.
  - `startNewChat` resets the list to the greeting.

Layout:

| File | Module | Contents |
|---|---|---|
| `wrappers.dfy` | `Wrappers` | `Option`, `Result` |
| `text.dfy` | `Text` | prefix and suffix tests, `IndexOf`, JavaScript `split` and `join` with their round trips, Python and JavaScript `trim` over a whitespace predicate, decimal rendering of chunk numbers |
| `spans.dfy` | `Spans` | one scanner for a non-greedy `OPEN.*?CLOSE` regular expression replaced by nothing; used by the media rule and by the `<think>` rule |
| `obsidian.dfy` | `Obsidian` | `clean_obsidian` |
| `ingester.dfy` | `Ingester` | chunk ids, the collection as a class, processing one file, the initial walk, the watcher's handlers |
| `server.dfy` | `Server` | the `/ask` handler as a pure function |
| `page.dfy` | `Page` | the message list as a class, plus the pure steps it is built from |

The regular expressions are modelled as the scanners Python's and
JavaScript's engines run for them:
- `!\[\[.*?\]\]` matches at a `![[` and ends at the first `]]` after it. If
  a newline comes first, the attempt fails and one character is kept.
- `\[\[([^\|\]]+)\|?([^\]]*)\]\]` with backtracking matches at a `[[` exactly
  when:
  - the text up to the next `]` is non-empty;
  - that text does not start with `|`;
  - that `]` is followed by another `]`.

  The target is the text before the first `|`; the alias is the rest.

Blank queries: `server.py` refuses only a missing or empty query. A query
made of spaces is searched (`Server.BlankQuerySearched`); only the page
refuses blank input, before it sends anything.

## Model

| member | source | states |
|---|---|---|
| Text.JoinSplit | ui/ui/src/app/page.tsx:58-64 | splitting at a character and joining with it gives back the original text |
| Text.SplitJoin | ui/ui/src/app/page.tsx:59 | words without the separator, joined and split again, are the same words |
| Text.Join | server/server.py:41 | definition of `sep.join(parts)`: the parts in order with one separator between each adjacent pair, `""` for no parts; JoinContains, JoinPrefix, JoinSplit and SplitJoin state its properties |
| Text.Split | ui/ui/src/app/page.tsx:59 | `split(' ')` gives at least one piece, and no piece contains the separator |
| Text.JoinContains | server/server.py:41 | every part occurs verbatim in the joined text, right after the earlier parts and one separator: the text starts with the join of the earlier parts, the separator and the part, and the part's position is that prefix's length |
| Text.TrimStart | ui/ui/src/app/page.tsx:44 | the result is a suffix of the input; every removed character is whitespace; the result starts with non-whitespace or is empty |
| Text.TrimEnd | ui/ui/src/app/page.tsx:44 | the result is a prefix of the input; every removed character is whitespace; the result ends with non-whitespace or is empty |
| Text.TrimBoundaries | ui/ui/src/app/page.tsx:44 | a trimmed text neither starts nor ends with whitespace |
| Text.Trim | ui/ui/src/app/page.tsx:44 | definition of `trim()` / `strip()` for a given whitespace set: TrimEnd of TrimStart; TrimFacts, TrimIsInfix and TrimEmptyIffBlank state what it keeps |
| Text.TrimFacts | ui/ui/src/app/page.tsx:44 | trimming never lengthens the text, cuts out an infix with only whitespace outside it, and leaves no whitespace at either end |
| Text.TrimEmptyIffBlank | server/server.py:37 | `strip()` gives `""` exactly when every character is whitespace |
| Text.NatToDecimal | ingester/ingester.py:41 | `str(i)` is a non-empty digit string with no leading zero |
| Text.DecimalRoundTrip | ingester/ingester.py:41 | reading the decimal rendering of `i` gives back `i` |
| Text.DecimalInjective | ingester/ingester.py:41 | different chunk numbers render differently |
| Spans.FindClose | ingester/ingester.py:24 | the non-greedy body ends at the first closing delimiter it can reach, or there is none |
| Spans.BodyEndUnique | ingester/ingester.py:24 | a non-greedy match can end in only one place |
| Spans.RemoveSpans | ui/ui/src/app/page.tsx:43 | removing matches never lengthens the text |
| Spans.RemoveSpansPrefix | ingester/ingester.py:24 | text where no match can start is copied through unchanged |
| Spans.RemoveSpansNoOpen | ui/ui/src/app/page.tsx:43 | text where the opening delimiter never occurs is unchanged |
| Spans.RemoveSpansLiteral | ingester/ingester.py:24 | a character where no match starts is copied and scanning moves on by one character |
| Spans.RemoveSpansSpan | ingester/ingester.py:24 | a complete span at the front contributes nothing, and scanning resumes after it |
| Spans.NoOpenExtend | ingester/ingester.py:24 | whether a match can start before a position is decided by the text up to the end of an opening there, whatever follows |
| Spans.RemoveSpansAfter | ui/ui/src/app/page.tsx:43 | a complete span after text in which no opening starts is deleted without a trace |
| Spans.RemoveSpansUnclosed | ingester/ingester.py:24 | an opening delimiter whose closing one cannot be reached keeps its first character |
| Obsidian.MatchLink | ingester/ingester.py:25 | whatever the link rule matches is a well-formed link at that position |
| Obsidian.MatchLinkComplete | ingester/ingester.py:25 | every well-formed link at a position is matched, with that inner text |
| Obsidian.SplitAlias | ingester/ingester.py:25 | the target has no `\|`; with a `\|`, target + `\|` + alias is the inner text; without one, the alias is empty |
| Obsidian.SplitAliasOf | ingester/ingester.py:25 | `Target\|Alias` splits back into exactly that target and alias |
| Obsidian.Display | ingester/ingester.py:25 | a link's shown text is no longer than its inner text |
| Obsidian.ResolveLinks | ingester/ingester.py:25 | resolving links never lengthens the text |
| Obsidian.Clean | ingester/ingester.py:23-26 | cleaning never lengthens the text |
| Obsidian.StripMedia | ingester/ingester.py:24 | the embed pass: removing `![[...]]` spans, one line at a time, never lengthens the text |
| Obsidian.PlainMediaBody | ingester/ingester.py:24 | any text without `]` or newline can be an embed's body |
| Obsidian.MediaSpanRemoved | ingester/ingester.py:24 | every `![[...]]` embed on one line, after text in which no embed starts, is removed entirely |
| Obsidian.MediaBrokenByNewline | ingester/ingester.py:24 | an embed that spans a newline is not removed; its `!` is kept |
| Obsidian.ResolveLinksPrefix | ingester/ingester.py:25 | text in which no link starts passes through link resolution unchanged, whatever follows it |
| Obsidian.ResolveLinksLiteral | ingester/ingester.py:25 | a character where no link matches is copied and scanning moves on by one character |
| Obsidian.MatchLinkAppend | ingester/ingester.py:25 | a link match reads no further than the first `]]`: text ending in `]]` decides it, whatever follows |
| Obsidian.NoLinkExtend | ingester/ingester.py:25 | whether a link starts before a position is decided by text ending in `]]` after it |
| Obsidian.LinkResolved | ingester/ingester.py:25 | a matched link is replaced by exactly what it shows |
| Obsidian.AliasLink | ingester/ingester.py:25 | `[[Target\|Alias]]` with a non-empty alias becomes exactly `Alias` |
| Obsidian.TargetLink | ingester/ingester.py:25 | `[[Target]]` and `[[Target\|]]` both become exactly `Target` |
| Obsidian.EmptyAliasLink | ingester/ingester.py:25 | `[[Target\|]]` becomes exactly `Target`, since the empty alias is falsy |
| Obsidian.EmptyTargetKept | ingester/ingester.py:25 | `[[\|x]]` is not a link and is kept literally |
| Obsidian.ResolveLinksNoLink | ingester/ingester.py:25 | text without `[[` has nothing to resolve |
| Obsidian.CleanWithoutBrackets | ingester/ingester.py:23-26 | text without `[[` is returned unchanged |
| Obsidian.CleanRemovesMedia | ingester/ingester.py:24-25 | media removal runs first, so an embed after text in which no embed starts leaves nothing (never `!x`), and links are resolved over the text around it; when no link starts in the text before it, that text is kept as is |
| Obsidian.CleanResolvesLink | ingester/ingester.py:23-26 | a link after text in which no link starts, with no embed starting before its `]]`, becomes what it shows, and cleaning continues after it |
| Obsidian.CleanCheckboxExample | ingester/ingester.py:23-26 | `- [x] see [[Note]]` cleans to `- [x] see Note`: a checkbox is not a link |
| Obsidian.CleanBangExample | ingester/ingester.py:23-26 | `Hi! ![[p]]` cleans to `Hi! `: an exclamation mark before an embed is kept |
| Obsidian.CleanWithoutBracketChar | ingester/ingester.py:23-26 | text without `[` is returned unchanged |
| Obsidian.CleanAliasInSentence | ingester/ingester.py:23-26 | a sentence with one aliased link reads with the alias in its place |
| Obsidian.CleanTargetInSentence | ingester/ingester.py:23-26 | a sentence with one plain link reads with the target in its place |
| Obsidian.CleanMediaExample | ingester/ingester.py:24-25 | `![[diagram.png]]` cleans to the empty text |
| Ingester.ChunkIdDigits | ingester/ingester.py:41 | the digits at the end of a chunk id are its chunk number |
| Ingester.ChunkId | ingester/ingester.py:41 | definition of `f"{relpath}_chunk_{i}"`: the relative path, `_chunk_` and the decimal rendering of i |
| Ingester.ChunkIdUnique | ingester/ingester.py:41 | equal chunk ids come from the same path and the same chunk number |
| Ingester.ChunkIds | ingester/ingester.py:41 | `n` ids, `relpath_chunk_i` for i = 0..n-1, pairwise distinct |
| Ingester.Upserted | ingester/ingester.py:43-48 | after an upsert, each id maps to its batch entry; the key set is the old keys plus the ids; every other key is unchanged |
| Ingester.UpsertIdempotent | ingester/ingester.py:43-48 | upserting the same batch twice is the same as once |
| Ingester.ValidBatch | ingester/ingester.py:43-48 | definition: ids, documents, metadata and embeddings of equal length and no id twice |
| Ingester.Accepts | ingester/ingester.py:43-51 | definition: a valid batch with at least one id, the only batch the collection writes |
| Ingester.Collection.constructor | ingester/ingester.py:19-20 | the collection opens with what storage holds |
| Ingester.Collection.Upsert | ingester/ingester.py:43-48 | a non-empty batch with equal-length lists and distinct ids is upserted; any other batch is rejected and nothing changes |
| Ingester.BatchFor | ingester/ingester.py:38-48 | the four lists have the length of the chunk list, and the ids are distinct |
| Ingester.CleanDocuments | ingester/ingester.py:33-34 | definition: each loaded document, in order, with its text replaced by `clean_obsidian` of it and its metadata kept |
| Ingester.SplitDocuments | ingester/ingester.py:35-36 | definition: the splitter applied to each document in order, each chunk carrying its document's metadata |
| Ingester.ChunksOf | ingester/ingester.py:32-36 | definition: the loaded documents cleaned, then split into chunks |
| Ingester.AfterIngest | ingester/ingester.py:29-51 | definition of one file's ingestion on the store: unchanged when loading fails or the model is unavailable; otherwise the upsert of the file's batch, which changes nothing for a file with no chunks |
| Ingester.ProcessAndUpsert | ingester/ingester.py:29-51 | the collection becomes the one-file ingestion result; a load or model failure, or a note with no chunks (its empty upsert is refused), is reported and leaves it unchanged; success reports the chunk count |
| Ingester.IngestedChunks | ingester/ingester.py:38-48 | after ingestion, chunk i is stored under `relpath_chunk_i` with its text, metadata and embedding |
| Ingester.IngestKeepsOtherKeys | ingester/ingester.py:43-48 | a key that is not one of the file's new ids keeps its entry, or stays absent |
| Ingester.OtherFilesUntouched | ingester/ingester.py:41-48 | ingesting one file never changes another file's chunks |
| Ingester.StaleChunksSurvive | ingester/ingester.py:41-48 | when a file now has fewer chunks, its old higher-numbered chunks stay unchanged |
| Ingester.ReingestIdempotent | ingester/ingester.py:29-51 | processing an unchanged file again changes nothing |
| Ingester.IsMarkdown | ingester/ingester.py:66 | definition of `endswith('.md')` |
| Ingester.JoinPath | ingester/ingester.py:67 | definition of `os.path.join(root, file)` as `root + "/" + file` |
| Ingester.JoinPathMarkdown | ingester/ingester.py:66-67 | a joined path ends in `.md` exactly when its file name does |
| Ingester.MarkdownIn | ingester/ingester.py:65-67 | from one directory, only `.md` paths are kept, and no more than its files |
| Ingester.MarkdownInExactly | ingester/ingester.py:65-67 | a file of a directory is selected exactly when its name ends in `.md` |
| Ingester.MarkdownFiles | ingester/ingester.py:63-67 | every path the walk selects ends in `.md` |
| Ingester.CollectMarkdown | ingester/ingester.py:63-67 | the nested walk loops collect exactly the walk's `.md` paths, in walk order |
| Ingester.MarkdownInSound | ingester/ingester.py:65-67 | every path collected from a directory is one of its `.md` names joined to its path |
| Ingester.MarkdownFilesSound | ingester/ingester.py:63-67 | every selected path is a `.md` file of a directory the walk reached, joined to that directory's path |
| Ingester.MarkdownFilesComplete | ingester/ingester.py:63-67 | every `.md` file the walk reaches is selected |
| Ingester.NoMarkdownSelectsNothing | ingester/ingester.py:69-72 | a walk that reaches no `.md` file selects nothing |
| Ingester.MarkdownInNone | ingester/ingester.py:65-67 | a directory without `.md` files contributes nothing |
| Ingester.InitialIngestion | ingester/ingester.py:54-79 | a missing vault processes nothing; otherwise exactly the walk's `.md` files are processed, in walk order |
| Ingester.IngestAll | ingester/ingester.py:76-77 | definition: the selected files processed one after another, in order, each from the store the previous one left |
| Ingester.OnCreated | ingester/ingester.py:83-86 | a created path is processed exactly when it is a non-directory `.md` path; otherwise nothing changes |
| Ingester.OnModified | ingester/ingester.py:87-90 | a modified path is processed exactly when it is a non-directory `.md` path; otherwise nothing changes |
| Ingester.Handles | ingester/ingester.py:84 | definition of the handlers' filter: not a directory and a path ending in `.md` |
| Server.BlankIffAllSpace | server/server.py:37 | a document is blank exactly when all its characters are Python whitespace |
| Server.PyIsSpace | server/server.py:37 | definition of Python's `str.isspace` for one character, as a fixed set |
| Server.IsBlank | server/server.py:37 | definition of `doc.strip() == ""` |
| Server.NoMatch | server/server.py:37 | definition: no documents, or every document blank |
| Server.QueryFor | server/server.py:27-31 | definition of the search: the query as the only query text, two results, documents, distances and metadata |
| Server.Context | server/server.py:41 | every retrieved document fits inside the joined context |
| Server.SystemPrompt | server/server.py:43-53 | definition: the instructions, the joined context and a final newline |
| Server.CompletionFor | server/server.py:60-66 | definition of the model call: `llama3.2:1b` with exactly two messages, the system prompt first and the query as a user message second |
| Server.Ask | server/server.py:21-69 | the status is 400 exactly for a missing or empty query, with the error message; every other reply is 200 with an `answer` |
| Server.EmptyQueryRefused | server/server.py:23-25 | a missing or empty query gets the same 400 reply whatever the collection and model would return |
| Server.BlankQuerySearched | server/server.py:23-31 | a non-empty query, even a blank one, is searched and answered with status 200 |
| Server.AskReadsOnlyItsRequests | server/server.py:27-31 | the only search is for the query text alone with two results; the reply depends only on that search and the one model call |
| Server.NoMatchSkipsModel | server/server.py:37-38 | when every retrieved document is whitespace, the answer is the fixed no-match text whatever the model would say |
| Server.OneContentfulDocument | server/server.py:37-69 | one document with a non-space character is enough: the answer is the model's reply, unchanged |
| Server.PromptCarriesDocuments | server/server.py:41-66 | the model gets the system prompt, then the query as a user message; each document appears verbatim in the system prompt, right after the instructions, the earlier documents and one delimiter |
| Server.DocumentInPrompt | server/server.py:41-53 | after any text placed before the context, each document sits verbatim right after that text, the earlier documents and one delimiter |
| Page.PickText | ui/ui/src/app/page.tsx:42 | the text is `answer` if non-empty, else `error` if non-empty, else the default; it is never empty |
| Page.Truthy | ui/ui/src/app/page.tsx:42 | definition of JavaScript truthiness for a string field: present and non-empty |
| Page.StripThink | ui/ui/src/app/page.tsx:43 | removing think blocks never lengthens the text |
| Text.TrimIsInfix | ui/ui/src/app/page.tsx:44 | trimming cuts out an infix and drops only whitespace around it |
| Page.ResponseText | ui/ui/src/app/page.tsx:42-44 | the shown text is the picked text with its think blocks removed, cut to an infix with only whitespace outside it; it neither starts nor ends with whitespace |
| Page.JsIsSpace | ui/ui/src/app/page.tsx:44 | definition of the whitespace `trim()` removes, as a fixed character set |
| Page.IsBlank | ui/ui/src/app/page.tsx:28 | definition of `!query.trim()` |
| Page.PlainThinkBody | ui/ui/src/app/page.tsx:43 | any text without `<` can be a think block's body, across lines |
| Page.ThinkBlockRemoved | ui/ui/src/app/page.tsx:43 | a `<think>...</think>` block after text in which no block starts, newlines included, is removed without a trace |
| Page.ThinkAfterComparisonExample | ui/ui/src/app/page.tsx:43 | `if a < b <think>x</think>ok` becomes `if a < b ok`: a lone `<` does not start a block |
| Page.StripThinkPlain | ui/ui/src/app/page.tsx:43 | text without `<` is unchanged by think removal |
| Page.ThinkOnlyAnswer | ui/ui/src/app/page.tsx:42-44 | an answer that is only a think block is shown as the empty text |
| Page.PlainAnswerShown | ui/ui/src/app/page.tsx:42-44 | a plain answer with no surrounding whitespace is shown exactly |
| Page.ErrorShownWhenNoAnswer | ui/ui/src/app/page.tsx:42-44 | with no usable answer, the error is shown, cleaned the same way |
| Page.Words | ui/ui/src/app/page.tsx:59 | the streamed words are at least one, and none contains a space |
| Page.StreamedPrefix | ui/ui/src/app/page.tsx:58-64 | after each word the shown text is a prefix of the reply; after the last it is the whole reply |
| Text.JoinPrefix | ui/ui/src/app/page.tsx:58-64 | joining the first i words gives a prefix of joining all of them |
| Page.WithLastContent | ui/ui/src/app/page.tsx:65-72 | a streaming update keeps the length, role, flag and every earlier message; it sets the content only of a streaming assistant message |
| Page.LaterUpdateWins | ui/ui/src/app/page.tsx:65-72 | two streaming updates in a row leave only the later text |
| Page.SameContentNoChange | ui/ui/src/app/page.tsx:65-72 | writing the content a message already has changes nothing |
| Page.Finalised | ui/ui/src/app/page.tsx:76-83 | finalising keeps the length, every earlier message and the last message's role and content; it clears streaming on an assistant message and leaves a user message alone |
| Page.FinalisedIsFinal | ui/ui/src/app/page.tsx:65-83 | finalising is idempotent, and later streaming updates no longer change a finalised list |
| Page.ReplyFinalised | ui/ui/src/app/page.tsx:51-83 | an empty streaming reply that receives a text and is finalised becomes a plain assistant message with that text |
| Page.ChatPage.constructor | ui/ui/src/app/page.tsx:13-16 | the page starts with an empty input and only the greeting |
| Page.ChatPage.StartNewChat | ui/ui/src/app/page.tsx:100-102 | the list becomes exactly the greeting; the input is kept |
| Page.ChatPage.HandleAsk | ui/ui/src/app/page.tsx:27-92 | a blank input changes nothing. Otherwise the input is cleared and the query is sent as typed. Exactly two messages are appended: the user's, then an assistant message, not streaming, holding `Error calling API.` when the request threw and the response text of the parsed reply otherwise. Earlier messages are unchanged |
| Page.ChatPage.ShowReply | ui/ui/src/app/page.tsx:41-91 | exactly one assistant message is appended: the error text on failure, the cleaned reply otherwise, not streaming |
| Page.ChatPage.StreamWords | ui/ui/src/app/page.tsx:57-73 | after the word loop the streaming message holds exactly the reply text; the loop keeps the shown text equal to the words so far joined by spaces |

## Left out

- The markdown loader, the recursive character splitter and the sentence-embedding model are foreign libraries. They are fields of `Ingester.Env`, each a function from its input. The loader may fail; the embedding model may be unavailable. A failure inside the splitter or the encoder is not modelled.
- The vector store's persistence, its storage path derived with `uuid5`, and its nearest-neighbour search are not modelled. The collection is an id -> entry map. The server's search is a parameter returning the first query's documents.
- `os.path.relpath` is a parameter of `Ingester.Env`. `os.path.join` is modelled as `root + "/" + name`, and `os.path.exists` as a flag.
- `os.walk` is given as its sequence of visited directories with their file names. Its subdirectory lists are not modelled.
- The watchdog observer thread, the event delivery, the sleep loop and concurrent runs of the handlers are not modelled. Events are processed one at a time.
- Flask, CORS, JSON parsing and the HTTP call to the chat-completion service are not modelled. The model's reply is a parameter returning the first choice's content.
- The page's fetch is a parameter. Its outcome is a parsed reply or a thrown error. Non-string `answer` or `error` values, and React's asynchronous batching of state updates, are not modelled. The `loading` and `streaming` flags, rendering, scrolling and the 50 ms delay between words are also left out.
- Page.ChatPage.HandleAsk: runs one request without interruption. In the page the fetch (ui/ui/src/app/page.tsx:35) and the delay before each word (ui/ui/src/app/page.tsx:62) are awaited, and the "New Chat" button (ui/ui/src/app/page.tsx:161-165) stays enabled, so `startNewChat` can empty the list in between. The user's message, or the streamed reply whose guarded updates then find no assistant message, is lost. That interleaving with `StartNewChat` is not modelled.
- Ingester.Collection.Upsert: refusing an empty batch follows ChromaDB's id validation, which is not part of this model; a note that splits into no chunks is therefore reported as an error and writes nothing.
- Page.WithLastContent: the JavaScript copies the list but assigns through the shared last message object. The model updates a value, so the aliasing of that object with the previous list is not captured.
- All console output (`print`, status lines) is left out.
- Python's `str.isspace` and JavaScript's whitespace class are modelled as fixed character sets (`Server.PyIsSpace`, `Page.JsIsSpace`). Text is a sequence of Unicode scalar values, not UTF-16 code units.
- Obsidian.Clean: its own contract bounds only the length. What it computes is stated by the `Clean...` lemmas, span by span.
- Obsidian.StripMedia: its own contract bounds only the length. What it computes is stated by `MediaSpanRemoved`, `MediaBrokenByNewline` and the `RemoveSpans...` lemmas it instantiates.
- Obsidian.ResolveLinks: its own contract bounds only the length. What it computes is stated by `LinkResolved`, `AliasLink`, `TargetLink`, `EmptyTargetKept` and `ResolveLinksPrefix`.
- Obsidian.Display: its own contract bounds only the length. Which of target and alias it shows is stated by `AliasLink` and `TargetLink`.
- Spans.RemoveSpans: its own contract bounds only the length. What it computes is stated by the `RemoveSpans...` lemmas.
- Page.StripThink: its own contract bounds only the length. What it computes is stated by `ThinkBlockRemoved`, `StripThinkPlain` and `ThinkOnlyAnswer`.
- Server.Ask: a search (server/server.py:27-31) or a model call (server/server.py:60-66) that raises is outside any `try`, so Flask answers 500. Neither failure is modelled: `search` and `complete` always return. The model's content may also be `None`, which the service sends back as `{"answer": null}`; `complete` returns a string, so that reply is not modelled either.
- Ingester.ProcessAndUpsert: the store is assumed to accept every non-empty valid batch. An upsert that raises for another reason (storage or connection errors, caught at ingester/ingester.py:50-51, leaving the store as it was) is not modelled. `AfterIngest` therefore always stores such a batch.
- Server.Context: its own contract says only that each document fits. Where each document sits (right after the earlier documents and one delimiter) is stated by `Text.JoinContains` and `Server.PromptCarriesDocuments`.
