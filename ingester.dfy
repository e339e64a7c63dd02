/**
 * The note ingester: turns each markdown file of the vault into chunk
 * entries of a persistent id -> entry collection.
 *
 * A file is loaded, every loaded document's text is normalised by
 * `Obsidian.Clean`, the documents are split into chunks, each chunk gets
 * the id `relpath + "_chunk_" + i`, and the four parallel lists (ids,
 * texts, metadatas, embeddings) go to one upsert. Any failure is caught and
 * leaves the collection as it was. The loader, the splitter, the embedding
 * model and the relative-path computation are collaborators given in `Env`.
 */
module Ingester {
  import opened Wrappers
  import opened Text
  import Obsidian

  /** A chunk's metadata record, as produced by the loader (its `source` path). */
  type Metadata = map<string, string>

  /** An embedding vector; never computed with here. */
  type Embedding = seq<real>

  datatype Document = Document(pageContent: string, metadata: Metadata)

  datatype Chunk = Chunk(pageContent: string, metadata: Metadata)

  /** What the collection stores under one id. */
  datatype Entry = Entry(document: string, metadata: Metadata, embedding: Embedding)

  /** The four parallel lists handed to one upsert. */
  datatype Batch = Batch(ids: seq<string>, documents: seq<string>, metadatas: seq<Metadata>, embeddings: seq<Embedding>)

  /** The result of processing one file; a failure is reported, never raised. */
  datatype Outcome = Ingested(chunks: nat) | Failed(reason: string)

  /**
   * The collaborators of one ingestion run:
   *  - `load`: the markdown loader of a path (its documents, or the error it raised);
   *  - `split`: the recursive character splitter (chunk size 500, overlap 100) on one text;
   *  - `encode`: the sentence-embedding model, `None` when it cannot be constructed;
   *  - `relPath`: the path relative to the vault root.
   */
  datatype Env = Env(
    load: string -> Result<seq<Document>, string>,
    split: string -> seq<string>,
    encode: Option<string -> Embedding>,
    relPath: string -> string)

  const ChunkTag := "_chunk_"

  // ---- Chunk ids ------------------------------------------------------------

  /** The id of chunk `i` of the file at `relPath`. */
  function ChunkId(relPath: string, i: nat): string
  {
    relPath + ChunkTag + NatToDecimal(i)
  }

  /** The trailing run of digits of an id is exactly its chunk number. */
  lemma ChunkIdDigits(relPath: string, i: nat, d: nat)
    requires d <= |ChunkId(relPath, i)|
    requires AllDigits(ChunkId(relPath, i)[|ChunkId(relPath, i)| - d..])
    ensures d <= |NatToDecimal(i)|
  {
    var id, n := ChunkId(relPath, i), NatToDecimal(i);
    assert id[|id| - |n| - 1] == '_';
    forall j | |id| - d <= j < |id| ensures '0' <= id[j] <= '9' {
      assert id[j] == id[|id| - d..][j - (|id| - d)];
    }
  }

  /** Chunk ids never collide: not within a file and not across files. */
  lemma ChunkIdUnique(p: string, i: nat, q: string, j: nat)
    requires ChunkId(p, i) == ChunkId(q, j)
    ensures p == q && i == j
  {
    var id := ChunkId(p, i);
    var a, b := NatToDecimal(i), NatToDecimal(j);
    assert id[|id| - |a|..] == a;
    assert id[|id| - |b|..] == b;
    ChunkIdDigits(q, j, |a|);
    ChunkIdDigits(p, i, |b|);
    assert a == b;
    DecimalInjective(i, j);
    assert p == id[..|p|] && q == id[..|q|];
  }

  /** The ids of chunks 0 .. n-1 of one file. */
  function ChunkIds(relPath: string, n: nat): (ids: seq<string>)
    ensures |ids| == n
    ensures forall i :: 0 <= i < n ==> ids[i] == ChunkId(relPath, i)
    ensures forall a, b :: 0 <= a < b < n ==> ids[a] != ids[b]
  {
    var ids := seq(n, i requires 0 <= i < n => ChunkId(relPath, i));
    assert forall a, b :: 0 <= a < b < n ==> ids[a] != ids[b] by {
      forall a, b | 0 <= a < b < n ensures ids[a] != ids[b] {
        if ids[a] == ids[b] { ChunkIdUnique(relPath, a, relPath, b); }
      }
    }
    ids
  }

  // ---- Batches and the collection ----------------------------------------------

  /** Four equally long lists and no id twice: what an upsert accepts. */
  predicate ValidBatch(b: Batch) {
    && |b.documents| == |b.ids|
    && |b.metadatas| == |b.ids|
    && |b.embeddings| == |b.ids|
    && forall x, y :: 0 <= x < y < |b.ids| ==> b.ids[x] != b.ids[y]
  }

  /**
   * What the store accepts: a well-formed batch with at least one id
   * (ChromaDB's id validation refuses an empty list of ids).
   */
  predicate Accepts(b: Batch) {
    ValidBatch(b) && |b.ids| > 0
  }

  function EntryAt(b: Batch, i: nat): Entry
    requires ValidBatch(b) && i < |b.ids|
  {
    Entry(b.documents[i], b.metadatas[i], b.embeddings[i])
  }

  /** The batch without its last position. */
  function Front(b: Batch): (f: Batch)
    requires ValidBatch(b) && |b.ids| > 0
    ensures ValidBatch(f) && |f.ids| == |b.ids| - 1
  {
    var n := |b.ids| - 1;
    Batch(b.ids[..n], b.documents[..n], b.metadatas[..n], b.embeddings[..n])
  }

  /**
   * The collection after upserting `b` into `m`: every id of the batch is
   * created or fully replaced by its entry, every other key is untouched.
   */
  function Upserted(m: map<string, Entry>, b: Batch): (r: map<string, Entry>)
    requires ValidBatch(b)
    ensures forall k :: k in r <==> k in m || k in b.ids
    ensures forall i :: 0 <= i < |b.ids| ==> r[b.ids[i]] == EntryAt(b, i)
    ensures forall k :: k in m && k !in b.ids ==> r[k] == m[k]
    decreases |b.ids|
  {
    if |b.ids| == 0 then m
    else
      var n := |b.ids| - 1;
      var prev := Upserted(m, Front(b));
      UpsertLast(m, b, prev);
      prev[b.ids[n] := EntryAt(b, n)]
  }

  /** The last position of a batch, upserted after the others, completes the upsert of the whole batch. */
  lemma UpsertLast(m: map<string, Entry>, b: Batch, prev: map<string, Entry>)
    requires ValidBatch(b) && |b.ids| > 0
    requires forall k :: k in prev <==> k in m || k in Front(b).ids
    requires forall i :: 0 <= i < |Front(b).ids| ==> prev[Front(b).ids[i]] == EntryAt(Front(b), i)
    requires forall k :: k in m && k !in Front(b).ids ==> prev[k] == m[k]
    ensures var r := prev[b.ids[|b.ids| - 1] := EntryAt(b, |b.ids| - 1)];
      && (forall k :: k in r <==> k in m || k in b.ids)
      && (forall i :: 0 <= i < |b.ids| ==> r[b.ids[i]] == EntryAt(b, i))
      && (forall k :: k in m && k !in b.ids ==> r[k] == m[k])
  {
    var n := |b.ids| - 1;
    var f := Front(b);
    assert b.ids == f.ids + [b.ids[n]];
    forall i | 0 <= i < n ensures f.ids[i] == b.ids[i] && EntryAt(f, i) == EntryAt(b, i) && b.ids[i] != b.ids[n] {
    }
  }

  /** Upserting the same batch twice is the same as upserting it once. */
  lemma UpsertIdempotent(m: map<string, Entry>, b: Batch)
    requires ValidBatch(b)
    ensures Upserted(Upserted(m, b), b) == Upserted(m, b)
  {
    BatchDecides(Upserted(m, b), Upserted(Upserted(m, b), b), b);
  }

  /** Two maps holding the same keys, agreeing off the batch and both holding the batch's entries, are equal. */
  lemma BatchDecides(once: map<string, Entry>, twice: map<string, Entry>, b: Batch)
    requires ValidBatch(b)
    requires forall k :: k in twice <==> k in once || k in b.ids
    requires forall i :: 0 <= i < |b.ids| ==>
      b.ids[i] in once && b.ids[i] in twice && once[b.ids[i]] == EntryAt(b, i) && twice[b.ids[i]] == EntryAt(b, i)
    requires forall k :: k in once && k !in b.ids ==> k in twice && twice[k] == once[k]
    ensures twice == once
  {
    forall k | k in once ensures twice[k] == once[k] {
      if k in b.ids {
        var i :| 0 <= i < |b.ids| && b.ids[i] == k;
      }
    }
    assert twice.Keys == once.Keys;
  }

  /**
   * The vector store collection (a persistent ChromaDB collection): the
   * id -> entry map it holds, updated in place by `Upsert`.
   */
  class Collection {
    var entries: map<string, Entry>

    /** Opens the collection with what persisted storage holds. */
    constructor (stored: map<string, Entry>)
      ensures entries == stored
    {
      entries := stored;
    }

    /**
     * Upserts a batch; an empty batch, lists of unequal lengths or a
     * repeated id are rejected and nothing is written.
     */
    method Upsert(b: Batch) returns (ok: bool)
      modifies this
      ensures ok == Accepts(b)
      ensures entries == if ok then Upserted(old(entries), b) else old(entries)
    {
      ok := Accepts(b);
      if ok {
        entries := Upserted(entries, b);
      }
    }
  }

  // ---- One file -------------------------------------------------------------------

  /** Each loaded document with its text normalised. */
  function CleanDocuments(docs: seq<Document>): (r: seq<Document>)
  {
    seq(|docs|, i requires 0 <= i < |docs| => docs[i].(pageContent := Obsidian.Clean(docs[i].pageContent)))
  }

  /** The splitter applied to every document in order; each chunk keeps its document's metadata. */
  function SplitDocuments(docs: seq<Document>, split: string -> seq<string>): (chunks: seq<Chunk>)
    decreases |docs|
  {
    if |docs| == 0 then []
    else
      var d := docs[|docs| - 1];
      var texts := split(d.pageContent);
      SplitDocuments(docs[..|docs| - 1], split) + seq(|texts|, i requires 0 <= i < |texts| => Chunk(texts[i], d.metadata))
  }

  /** The upsert batch for the chunks of the file at `relPath`. */
  function BatchFor(relPath: string, chunks: seq<Chunk>, encode: string -> Embedding): (b: Batch)
    ensures ValidBatch(b) && |b.ids| == |chunks|
  {
    var n := |chunks|;
    Batch(ChunkIds(relPath, n),
          seq(n, i requires 0 <= i < n => chunks[i].pageContent),
          seq(n, i requires 0 <= i < n => chunks[i].metadata),
          seq(n, i requires 0 <= i < n => encode(chunks[i].pageContent)))
  }

  /** The chunks the loaded documents `docs` yield: cleaned, then split. */
  function ChunksOf(env: Env, docs: seq<Document>): seq<Chunk>
  {
    SplitDocuments(CleanDocuments(docs), env.split)
  }

  /** The collection after processing the file at `path`: unchanged on any failure. */
  function AfterIngest(m: map<string, Entry>, env: Env, path: string): map<string, Entry>
  {
    match env.load(path)
    case Failure(_) => m
    case Success(docs) =>
      match env.encode
      case None => m
      case Some(encode) => Upserted(m, BatchFor(env.relPath(path), ChunksOf(env, docs), encode))
  }

  /**
   * `process_and_upsert_md`: load, clean each document in place, split,
   * embed, upsert. Every failure is caught and reported in the outcome.
   */
  method ProcessAndUpsert(collection: Collection, env: Env, path: string) returns (outcome: Outcome)
    modifies collection
    ensures collection.entries == AfterIngest(old(collection.entries), env, path)
    ensures outcome.Ingested? <==>
      env.load(path).Success? && env.encode.Some? && |ChunksOf(env, env.load(path).value)| > 0
    ensures outcome.Ingested? ==> outcome.chunks == |ChunksOf(env, env.load(path).value)|
  {
    var loaded := env.load(path);
    if loaded.Failure? {
      return Failed(loaded.error);
    }
    var docs := loaded.value;
    for i := 0 to |docs|
      invariant |docs| == |loaded.value|
      invariant forall k :: 0 <= k < |docs| ==> docs[k] == if k < i then CleanDocuments(loaded.value)[k] else loaded.value[k]
    {
      docs := docs[i := docs[i].(pageContent := Obsidian.Clean(docs[i].pageContent))];
    }
    assert docs == CleanDocuments(loaded.value);
    var chunks := SplitDocuments(docs, env.split);
    if env.encode.None? {
      return Failed("the embedding model could not be loaded");
    }
    var batch := BatchFor(env.relPath(path), chunks, env.encode.value);
    var ok := collection.Upsert(batch);
    if !ok {
      return Failed("the collection refused the batch");
    }
    outcome := Ingested(|chunks|);
  }

  // ---- Properties of one file's ingestion ---------------------------------------

  /** After a successful run, chunk i of the file is stored under its id with its text, metadata and embedding. */
  lemma IngestedChunks(m: map<string, Entry>, env: Env, path: string, i: nat)
    requires env.load(path).Success? && env.encode.Some?
    requires i < |ChunksOf(env, env.load(path).value)|
    ensures var c, id := ChunksOf(env, env.load(path).value)[i], ChunkId(env.relPath(path), i);
      id in AfterIngest(m, env, path)
      && AfterIngest(m, env, path)[id] == Entry(c.pageContent, c.metadata, env.encode.value(c.pageContent))
  {
    var chunks := ChunksOf(env, env.load(path).value);
    var b := BatchFor(env.relPath(path), chunks, env.encode.value);
    assert b.ids[i] == ChunkId(env.relPath(path), i);
  }

  /** A key that is none of the file's new chunk ids keeps its entry (or stays absent). */
  lemma IngestKeepsOtherKeys(m: map<string, Entry>, env: Env, path: string, k: string)
    requires env.load(path).Success? ==>
      forall i :: 0 <= i < |ChunksOf(env, env.load(path).value)| ==> k != ChunkId(env.relPath(path), i)
    ensures k in AfterIngest(m, env, path) <==> k in m
    ensures k in m ==> AfterIngest(m, env, path)[k] == m[k]
  {
    if env.load(path).Success? && env.encode.Some? {
      var b := BatchFor(env.relPath(path), ChunksOf(env, env.load(path).value), env.encode.value);
      assert k !in b.ids;
    }
  }

  /** Re-ingesting another file never touches this file's chunks. */
  lemma OtherFilesUntouched(m: map<string, Entry>, env: Env, path: string, q: string, j: nat)
    requires q != env.relPath(path)
    ensures ChunkId(q, j) in AfterIngest(m, env, path) <==> ChunkId(q, j) in m
    ensures ChunkId(q, j) in m ==> AfterIngest(m, env, path)[ChunkId(q, j)] == m[ChunkId(q, j)]
  {
    forall i: nat | ChunkId(q, j) == ChunkId(env.relPath(path), i) ensures false {
      ChunkIdUnique(q, j, env.relPath(path), i);
    }
    IngestKeepsOtherKeys(m, env, path, ChunkId(q, j));
  }

  /** When a file shrinks to n chunks, its old chunks n, n+1, ... stay in the collection unchanged. */
  lemma StaleChunksSurvive(m: map<string, Entry>, env: Env, path: string, k: nat)
    requires env.load(path).Success? ==> k >= |ChunksOf(env, env.load(path).value)|
    requires ChunkId(env.relPath(path), k) in m
    ensures var id := ChunkId(env.relPath(path), k);
      id in AfterIngest(m, env, path) && AfterIngest(m, env, path)[id] == m[id]
  {
    var p := env.relPath(path);
    forall i: nat | ChunkId(p, k) == ChunkId(p, i) ensures i == k {
      ChunkIdUnique(p, k, p, i);
    }
    IngestKeepsOtherKeys(m, env, path, ChunkId(p, k));
  }

  /** Re-ingesting an unchanged file changes nothing more. */
  lemma ReingestIdempotent(m: map<string, Entry>, env: Env, path: string)
    ensures AfterIngest(AfterIngest(m, env, path), env, path) == AfterIngest(m, env, path)
  {
    if env.load(path).Success? && env.encode.Some? {
      UpsertIdempotent(m, BatchFor(env.relPath(path), ChunksOf(env, env.load(path).value), env.encode.value));
    }
  }

  // ---- The initial walk and file events --------------------------------------------

  /** One directory reached by the walk of the vault: its path and its file names in listing order. */
  datatype WalkStep = WalkStep(root: string, files: seq<string>)

  /** A created or modified path reported by the file-system watcher. */
  datatype FileEvent = FileEvent(isDirectory: bool, srcPath: string)

  predicate IsMarkdown(name: string) {
    EndsWith(name, ".md")
  }

  /** `os.path.join(root, name)`, with `/` as the separator. */
  function JoinPath(root: string, name: string): string {
    root + "/" + name
  }

  /** The joined path ends in `.md` exactly when the file name does. */
  lemma JoinPathMarkdown(root: string, name: string)
    ensures IsMarkdown(JoinPath(root, name)) <==> IsMarkdown(name)
  {
    var p := JoinPath(root, name);
    if |name| >= 3 {
      assert p[|p| - 3..] == name[|name| - 3..];
    } else if |p| >= 3 {
      assert p[|root|] == '/';
      assert p[|p| - 3..][|root| - (|p| - 3)] == '/';
      DiffersAt(p[|p| - 3..], ".md", |root| - (|p| - 3));
    }
  }

  /** The markdown files of one directory, joined to its path, in listing order. */
  function MarkdownIn(root: string, files: seq<string>): (paths: seq<string>)
    ensures |paths| <= |files|
    ensures forall k :: 0 <= k < |paths| ==> IsMarkdown(paths[k])
    decreases |files|
  {
    if |files| == 0 then []
    else
      var name := files[|files| - 1];
      JoinPathMarkdown(root, name);
      MarkdownIn(root, files[..|files| - 1]) + (if IsMarkdown(name) then [JoinPath(root, name)] else [])
  }

  /** Exactly the markdown names of the directory, joined to its path, are collected. */
  lemma {:induction false} MarkdownInExactly(root: string, files: seq<string>, name: string)
    ensures JoinPath(root, name) in MarkdownIn(root, files) <==> name in files && IsMarkdown(name)
    decreases |files|
  {
    if |files| > 0 {
      var front, last := files[..|files| - 1], files[|files| - 1];
      MarkdownInExactly(root, front, name);
      assert files == front + [last];
      assert JoinPath(root, name) == JoinPath(root, last) ==> name == last by {
        if JoinPath(root, name) == JoinPath(root, last) {
          assert name == JoinPath(root, name)[|root| + 1..];
        }
      }
    }
  }

  /** Every path collected from a directory is one of its markdown names joined to its path. */
  lemma {:induction false} MarkdownInSound(root: string, files: seq<string>, path: string)
    requires path in MarkdownIn(root, files)
    ensures exists name :: name in files && IsMarkdown(name) && path == JoinPath(root, name)
    decreases |files|
  {
    var front, last := files[..|files| - 1], files[|files| - 1];
    if path in MarkdownIn(root, front) {
      MarkdownInSound(root, front, path);
      var name :| name in front && IsMarkdown(name) && path == JoinPath(root, name);
      assert name in files;
    } else {
      assert last in files && IsMarkdown(last) && path == JoinPath(root, last);
    }
  }

  /** The markdown files of the whole walk, directory by directory, in walk order. */
  function MarkdownFiles(walk: seq<WalkStep>): (paths: seq<string>)
    ensures forall k :: 0 <= k < |paths| ==> IsMarkdown(paths[k])
    decreases |walk|
  {
    if |walk| == 0 then []
    else
      var step := walk[|walk| - 1];
      MarkdownFiles(walk[..|walk| - 1]) + MarkdownIn(step.root, step.files)
  }

  /** Every markdown file the walk reaches is selected. */
  lemma {:induction false} MarkdownFilesComplete(walk: seq<WalkStep>, step: WalkStep, name: string)
    requires step in walk && name in step.files && IsMarkdown(name)
    ensures JoinPath(step.root, name) in MarkdownFiles(walk)
    decreases |walk|
  {
    var last := walk[|walk| - 1];
    MarkdownInExactly(step.root, step.files, name);
    if step != last {
      assert walk == walk[..|walk| - 1] + [last];
      MarkdownFilesComplete(walk[..|walk| - 1], step, name);
    }
  }

  /** Every selected path is a markdown file of a directory the walk reached, joined to that directory's path. */
  lemma {:induction false} MarkdownFilesSound(walk: seq<WalkStep>, path: string)
    requires path in MarkdownFiles(walk)
    ensures exists step, name :: step in walk && name in step.files && IsMarkdown(name) && path == JoinPath(step.root, name)
    decreases |walk|
  {
    var front, last := walk[..|walk| - 1], walk[|walk| - 1];
    if path in MarkdownFiles(front) {
      MarkdownFilesSound(front, path);
      var step, name :| step in front && name in step.files && IsMarkdown(name) && path == JoinPath(step.root, name);
      assert step in walk;
    } else {
      MarkdownInSound(last.root, last.files, path);
      assert last in walk;
    }
  }

  /** A walk that reaches no markdown file selects nothing. */
  lemma {:induction false} NoMarkdownSelectsNothing(walk: seq<WalkStep>)
    requires forall s, name :: s in walk && name in s.files ==> !IsMarkdown(name)
    ensures MarkdownFiles(walk) == []
    decreases |walk|
  {
    if |walk| > 0 {
      var step := walk[|walk| - 1];
      NoMarkdownSelectsNothing(walk[..|walk| - 1]);
      MarkdownInNone(step.root, step.files);
    }
  }

  lemma {:induction false} MarkdownInNone(root: string, files: seq<string>)
    requires forall name :: name in files ==> !IsMarkdown(name)
    ensures MarkdownIn(root, files) == []
    decreases |files|
  {
    if |files| > 0 {
      assert forall name :: name in files[..|files| - 1] ==> name in files;
      MarkdownInNone(root, files[..|files| - 1]);
    }
  }

  /** The collection after processing each path in order. */
  function IngestAll(m: map<string, Entry>, env: Env, paths: seq<string>): map<string, Entry>
    decreases |paths|
  {
    if |paths| == 0 then m
    else AfterIngest(IngestAll(m, env, paths[..|paths| - 1]), env, paths[|paths| - 1])
  }

  /** The walk loop of `initial_ingestion`: every `.md` file of every directory, joined to its path, in walk order. */
  method CollectMarkdown(walk: seq<WalkStep>) returns (markdownFiles: seq<string>)
    ensures markdownFiles == MarkdownFiles(walk)
  {
    markdownFiles := [];
    for w := 0 to |walk|
      invariant markdownFiles == MarkdownFiles(walk[..w])
    {
      var step := walk[w];
      for f := 0 to |step.files|
        invariant markdownFiles == MarkdownFiles(walk[..w]) + MarkdownIn(step.root, step.files[..f])
      {
        assert step.files[..f + 1][..f] == step.files[..f];
        if IsMarkdown(step.files[f]) {
          markdownFiles := markdownFiles + [JoinPath(step.root, step.files[f])];
        }
      }
      assert step.files[..|step.files|] == step.files;
      assert walk[..w + 1][..w] == walk[..w];
    }
    assert walk[..|walk|] == walk;
  }

  /**
   * `initial_ingestion`: nothing when the vault is missing; otherwise walk
   * it, collect every file whose name ends in `.md`, and process them in
   * that order. Returns the paths it processed.
   */
  method InitialIngestion(collection: Collection, env: Env, vaultExists: bool, walk: seq<WalkStep>)
    returns (processed: seq<string>)
    modifies collection
    ensures processed == if vaultExists then MarkdownFiles(walk) else []
    ensures collection.entries == IngestAll(old(collection.entries), env, processed)
  {
    if !vaultExists {
      return [];
    }
    var markdownFiles := CollectMarkdown(walk);
    if |markdownFiles| == 0 {
      return [];
    }
    for i := 0 to |markdownFiles|
      invariant collection.entries == IngestAll(old(collection.entries), env, markdownFiles[..i])
    {
      assert markdownFiles[..i + 1][..i] == markdownFiles[..i];
      var outcome := ProcessAndUpsert(collection, env, markdownFiles[i]);
    }
    assert markdownFiles[..|markdownFiles|] == markdownFiles;
    processed := markdownFiles;
  }

  /** The watcher acts only on non-directory paths ending in `.md`. */
  predicate Handles(e: FileEvent) {
    !e.isDirectory && IsMarkdown(e.srcPath)
  }

  /** `on_created`: processes a created markdown file, ignores everything else. */
  method OnCreated(collection: Collection, env: Env, e: FileEvent) returns (outcome: Option<Outcome>)
    modifies collection
    ensures outcome.Some? <==> Handles(e)
    ensures collection.entries == if Handles(e) then AfterIngest(old(collection.entries), env, e.srcPath) else old(collection.entries)
  {
    outcome := None;
    if Handles(e) {
      var o := ProcessAndUpsert(collection, env, e.srcPath);
      outcome := Some(o);
    }
  }

  /** `on_modified`: processes a modified markdown file, ignores everything else. */
  method OnModified(collection: Collection, env: Env, e: FileEvent) returns (outcome: Option<Outcome>)
    modifies collection
    ensures outcome.Some? <==> Handles(e)
    ensures collection.entries == if Handles(e) then AfterIngest(old(collection.entries), env, e.srcPath) else old(collection.entries)
  {
    outcome := None;
    if Handles(e) {
      var o := ProcessAndUpsert(collection, env, e.srcPath);
      outcome := Some(o);
    }
  }
}
