/** `TextEmbeddingHandler`: chunks a text with the injected chunker and embeds
    the chunks with the injected embedder, batch first and one by one when the
    embedder has no `embed_batch`. */
module Handler {
  import opened Wrappers
  import opened Interfaces
  import opened Chunkers
  import opened Paths
  import FS = FileSystem

  /** The chunker used when none is given: `FixedSizeChunker(512, 50)`. */
  const DefaultChunker: ValidChunker := FixedSize(512, 50)

  /** `[embed(c) for c in chunks]`: the first exception propagates. */
  function EmbedEach(embed: string -> Result<Vector>, chunks: seq<string>): (r: Result<seq<Vector>>)
    ensures r.Ok? ==> (|r.value| == |chunks| &&
      forall i :: 0 <= i < |chunks| ==> embed(chunks[i]) == Ok(r.value[i]))
    ensures (exists i :: 0 <= i < |chunks| && embed(chunks[i]).Err?) ==> r.Err?
  {
    if chunks == [] then Ok([])
    else
      var v :- embed(chunks[0]);
      var rest :- EmbedEach(embed, chunks[1..]);
      assert forall i :: 1 <= i < |chunks| ==> chunks[i] == chunks[1..][i - 1];
      Ok([v] + rest)
  }

  /** The `try embed_batch / except AttributeError` step: the batch call when
      the embedder has one and it does not raise `AttributeError`, otherwise
      `np.array` of the individual embeddings. */
  function Embeddings(e: Embedder, chunks: seq<string>): Result<Array> {
    var batch := if e.embedBatch.Some? then e.embedBatch.value(chunks) else Err(AttributeError("embed_batch"));
    if batch.Err? && batch.error.AttributeError? then
      var vs :- EmbedEach(e.embed, chunks);
      Stack(vs)
    else batch
  }

  /** Specification of `TextEmbeddingHandler.embed_text`. */
  function EmbedTextSpec(e: Embedder, c: Chunker, text: string): Result<(seq<string>, Array)>
    requires c.Valid()
  {
    if text == [] then Err(ValueError("text cannot be empty"))
    else
      var chunks := ChunkSpec(c, text);
      if chunks == [] then Err(ValueError("chunker produced no chunks"))
      else
        var emb :- Embeddings(e, chunks);
        if emb.Length() != |chunks| then Err(RuntimeError("Embedding count mismatch"))
        // the debug message reads `shape[1]`, which a one-dimensional result lacks
        else if emb.Flat? then Err(IndexError("tuple index out of range"))
        else Ok((chunks, emb))
  }

  class TextEmbeddingHandler {
    var embedder: Embedder
    var chunker: ValidChunker

    constructor (embedder: Embedder, chunker: ValidChunker)
      ensures this.embedder == embedder && this.chunker == chunker
    {
      this.embedder := embedder;
      this.chunker := chunker;
    }

    /** `TextEmbeddingHandler(embedder, chunker=None)`: a missing embedder raises;
        a missing chunker becomes `FixedSizeChunker(512, 50)`. */
    static method Create(embedder: Option<Embedder>, chunker: Option<ValidChunker>) returns (r: Result<TextEmbeddingHandler>)
      ensures embedder.None? <==> r.Err?
      ensures r.Err? ==> r.error == ValueError("embedder cannot be None")
      ensures r.Ok? ==> (fresh(r.value) && r.value.embedder == embedder.value &&
        r.value.chunker == chunker.GetOr(DefaultChunker))
    {
      if embedder.None? {
        return Err(ValueError("embedder cannot be None"));
      }
      var h := new TextEmbeddingHandler(embedder.value, chunker.GetOr(DefaultChunker));
      return Ok(h);
    }

    /** `set_chunker`: `None` raises and keeps the old chunker. */
    method SetChunker(c: Option<ValidChunker>) returns (o: Outcome)
      modifies this
      ensures embedder == old(embedder)
      ensures c.None? ==> o == Fail(ValueError("chunker cannot be None")) && chunker == old(chunker)
      ensures c.Some? ==> o == Pass && chunker == c.value
    {
      if c.None? {
        return Fail(ValueError("chunker cannot be None"));
      }
      chunker := c.value;
      return Pass;
    }

    /** `embed_text` */
    method EmbedText(text: string) returns (r: Result<(seq<string>, Array)>)
      ensures r == EmbedTextSpec(embedder, chunker, text)
    {
      if text == [] {
        return Err(ValueError("text cannot be empty"));
      }
      var chunks := Chunk(chunker, text);
      if chunks == [] {
        return Err(ValueError("chunker produced no chunks"));
      }
      var emb :- Embeddings(embedder, chunks);
      if emb.Length() != |chunks| {
        return Err(RuntimeError("Embedding count mismatch"));
      }
      if emb.Flat? {
        return Err(IndexError("tuple index out of range"));
      }
      return Ok((chunks, emb));
    }

    /** `embed_file`: extract the text, then `embed_text`. */
    method EmbedFile(fs: FS.FileSystem, p: Path) returns (r: Result<(seq<string>, Array)>)
      ensures r == (var t := FS.ExtractText(fs, p); if t.Err? then Err(t.error) else EmbedTextSpec(embedder, chunker, t.value))
    {
      var text :- FS.ExtractText(fs, p);
      r := EmbedText(text);
    }

    /** `get_estimated_chunk_count` */
    function EstimatedChunkCount(text: string): (n: int)
      reads this
      ensures n >= 1
      ensures text != [] ==> n == Estimate(chunker, |text|)
    {
      ChunkerContract(chunker, text, |text|);
      if text == [] then 1 else Estimate(chunker, |text|)
    }

    /** `get_file_estimated_chunk_count`: the estimate for the file size, at least one. */
    function FileEstimatedChunkCount(fs: FS.FileSystem, p: Path): (r: Result<int>)
      reads this
      ensures r.Ok? <==> fs.Exists(p)
      ensures r.Ok? ==> r.value >= 1 && r.value >= Estimate(chunker, fs.nodes[p].size)
      ensures r.Ok? ==> r.value == Estimate(chunker, fs.nodes[p].size)
    {
      var size :- FS.FileSize(fs, p);
      Ok(Max(1, Estimate(chunker, size)))
    }
  }

  // ---------------------------------------------------------------- properties

  /** A successful `embed_text` returns exactly the chunker's output and one
      embedding row per chunk, and only for non-empty text. */
  lemma EmbedTextShape(e: Embedder, c: Chunker, text: string)
    requires c.Valid()
    ensures var r := EmbedTextSpec(e, c, text);
      r.Ok? ==> (text != [] && r.value.0 == ChunkSpec(c, text) && r.value.0 != [] &&
        r.value.1.Grid? && |r.value.1.rows| == |r.value.0|)
    ensures text == [] ==> EmbedTextSpec(e, c, text) == Err(ValueError("text cannot be empty"))
  {
  }

  /** For non-empty text, `embed_text` succeeds exactly when the embedding
      step succeeds with a two-dimensional array of one row per chunk: with
      either chunker strategy the "no chunks" error cannot happen. */
  lemma EmbedTextSucceeds(e: Embedder, c: Chunker, text: string)
    requires c.Valid() && text != []
    ensures ChunkSpec(c, text) != []
    ensures var chunks := ChunkSpec(c, text);
      var emb := Embeddings(e, chunks);
      EmbedTextSpec(e, c, text).Ok? <==> (emb.Ok? && emb.value.Grid? && |emb.value.rows| == |chunks|)
  {
    ChunkerContract(c, text, |text|);
  }

  /** With an embedder that honours its contract, a successful `embed_batch`
      always passes the row-count check. */
  lemma ContractExcludesMismatch(e: Embedder, c: Chunker, text: string)
    requires c.Valid() && HonoursContract(e) && e.embedBatch.Some? && text != []
    requires e.embedBatch.value(ChunkSpec(c, text)).Ok?
    ensures EmbedTextSpec(e, c, text).Ok?
  {
    EmbedTextSucceeds(e, c, text);
    var chunks := ChunkSpec(c, text);
    var b := e.embedBatch.value(chunks);
    assert b.value.Grid? && |b.value.rows| == |chunks|;
  }

  /** Without `embed_batch`, row `i` is `embed(chunks[i])`, in chunk order. */
  lemma FallbackInChunkOrder(e: Embedder, c: Chunker, text: string)
    requires c.Valid() && e.embedBatch.None?
    ensures var r := EmbedTextSpec(e, c, text);
      r.Ok? ==> forall i :: 0 <= i < |r.value.0| ==> e.embed(r.value.0[i]) == Ok(r.value.1.rows[i])
  {
  }

  /** An empty file is an error, never a file with zero chunks. */
  lemma EmptyFileFails(e: Embedder, c: Chunker, fs: FS.FileSystem, p: Path)
    requires c.Valid() && FS.ExtractText(fs, p) == Ok("")
    ensures var t := FS.ExtractText(fs, p);
      (if t.Err? then Err(t.error) else EmbedTextSpec(e, c, t.value)) == Err(ValueError("text cannot be empty"))
  {
  }
}
