/** `TextFileHandler` and `DefaultFileHandler`, and the result dictionary the
    handlers build, as a record. */
module FileHandlers {
  import opened Wrappers
  import opened Interfaces
  import opened Metadata
  import opened Handler
  import FS = FileSystem

  /** The `"metadata"` entry of a result (the float size views are not modelled). */
  datatype FileInfo = FileInfo(
    filePath: string,
    fileName: string,
    fileExtension: string,
    fileSizeBytes: int,
    modifiedTime: Option<int>,
    createdTime: Option<int>)

  /** The `"embeddings"` entry of a processed result. */
  datatype EmbeddingsInfo = EmbeddingsInfo(
    chunks: seq<string>,
    embeddings: Array,
    numChunks: int,
    embeddingDimension: int)

  /** A handler's result: `processed` with embeddings, or not processed with a
      reason (`embeddings` is `None`). */
  datatype ProcessingResult = ProcessingResult(
    metadata: FileInfo,
    embeddings: Option<EmbeddingsInfo>,
    processed: bool,
    reason: Option<string>)

  function Info(m: FileMetadata): FileInfo {
    FileInfo(m.filePath, m.fileName, m.fileExtension, m.fileSizeBytes, m.modifiedTime, m.createdTime)
  }

  /** The extensions `TextFileHandler` accepts. */
  const TextHandlerExtensions: set<string> := {".txt", ".docx"}

  /** `TextFileHandler.can_handle` */
  predicate TextCanHandle(m: FileMetadata)
    ensures TextCanHandle(m) ==> m.isTextType
    ensures TextCanHandle(m) <==> m.isTextType && (m.fileExtension == ".txt" || m.fileExtension == ".docx")
  {
    m.isTextType && m.fileExtension in TextHandlerExtensions
  }

  /** Specification of `TextFileHandler.process` for a given embedder and chunker. */
  function TextProcessSpec(e: Embedder, c: Chunkers.ValidChunker, fs: FS.FileSystem, m: FileMetadata): Result<ProcessingResult> {
    if !TextCanHandle(m) then Err(ValueError("Cannot handle file type"))
    else
      var t := FS.ExtractText(fs, m.filePath);
      if t.Err? then Err(t.error)
      else
        var pair :- EmbedTextSpec(e, c, t.value);
        var (chunks, embeddings) := pair;
        Ok(ProcessingResult(Info(m),
          Some(EmbeddingsInfo(chunks, embeddings, |chunks|, embeddings.Dimension())), true, None))
  }

  class TextFileHandler {
    const embeddingHandler: TextEmbeddingHandler

    constructor (embeddingHandler: TextEmbeddingHandler)
      ensures this.embeddingHandler == embeddingHandler
    {
      this.embeddingHandler := embeddingHandler;
    }

    /** `TextFileHandler(embedding_handler)`: `None` raises. */
    static method Create(embeddingHandler: Option<TextEmbeddingHandler>) returns (r: Result<TextFileHandler>)
      ensures embeddingHandler.None? <==> r.Err?
      ensures r.Err? ==> r.error == ValueError("embedding_handler cannot be None")
      ensures r.Ok? ==> fresh(r.value) && r.value.embeddingHandler == embeddingHandler.value
    {
      if embeddingHandler.None? {
        return Err(ValueError("embedding_handler cannot be None"));
      }
      var h := new TextFileHandler(embeddingHandler.value);
      return Ok(h);
    }

    /** `TextFileHandler.process` */
    method Process(fs: FS.FileSystem, m: FileMetadata) returns (r: Result<ProcessingResult>)
      ensures r == TextProcessSpec(embeddingHandler.embedder, embeddingHandler.chunker, fs, m)
    {
      if !TextCanHandle(m) {
        return Err(ValueError("Cannot handle file type"));
      }
      var er := embeddingHandler.EmbedFile(fs, m.filePath);
      var pair :- er;
      var (chunks, embeddings) := pair;
      return Ok(ProcessingResult(Info(m),
        Some(EmbeddingsInfo(chunks, embeddings, |chunks|, embeddings.Dimension())), true, None));
    }
  }

  /** `DefaultFileHandler.can_handle`: always true. */
  predicate DefaultCanHandle(m: FileMetadata)
    ensures DefaultCanHandle(m)
  {
    true
  }

  /** The message `DefaultFileHandler.process` stores under `"reason"`. */
  function UnsupportedReason(extension: string): string {
    "File type '" + extension + "' is not supported for embedding processing"
  }

  /** `DefaultFileHandler.process` */
  function DefaultProcess(m: FileMetadata): (r: ProcessingResult)
    ensures !r.processed && r.embeddings.None? && r.metadata == Info(m)
    ensures r.reason == Some(UnsupportedReason(m.fileExtension))
  {
    ProcessingResult(Info(m), None, false, Some(UnsupportedReason(m.fileExtension)))
  }

  class DefaultFileHandler {
    constructor ()
    {
    }
  }

  // ---------------------------------------------------------------- properties

  /** `process` refuses exactly the files `can_handle` refuses; an accepted
      file is processed with `num_chunks == len(chunks)`, the chunks and
      embeddings of `embed_file` passed through, and the dimension read from
      the array's second axis. */
  lemma TextProcessShape(e: Embedder, c: Chunkers.ValidChunker, fs: FS.FileSystem, m: FileMetadata)
    ensures !TextCanHandle(m) ==> TextProcessSpec(e, c, fs, m) == Err(ValueError("Cannot handle file type"))
    ensures var r := TextProcessSpec(e, c, fs, m);
      r.Ok? ==> (TextCanHandle(m) && r.value.processed && r.value.embeddings.Some? &&
        var info := r.value.embeddings.value;
        var t := FS.ExtractText(fs, m.filePath);
        t.Ok? && EmbedTextSpec(e, c, t.value) == Ok((info.chunks, info.embeddings)) &&
        info.numChunks == |info.chunks| >= 1 &&
        info.embeddings.Grid? && |info.embeddings.rows| == info.numChunks &&
        info.embeddingDimension == info.embeddings.cols)
  {
    var t := FS.ExtractText(fs, m.filePath);
    if TextCanHandle(m) && t.Ok? {
      EmbedTextShape(e, c, t.value);
    }
  }

  /** The text handler accepts only text files with an extension it supports;
      for metadata built by `from_path` that is the same as `is_text_type`. */
  lemma TextCanHandleIsTextType(fs: FS.FileSystem, p: Paths.Path)
    requires fs.Exists(p)
    ensures TextCanHandle(FromPath(fs, p).value) <==> FromPath(fs, p).value.isTextType
  {
  }
}
