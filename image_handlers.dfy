/** `ImageFileHandler`. As written, `can_handle` reads `metadata.is_image_type`,
    an attribute `FileMetadata` does not have, so every call raises
    `AttributeError`. The corrected handler tests the extension alone. */
module ImageHandlers {
  import opened Wrappers
  import opened Interfaces
  import opened Metadata
  import opened FileHandlers

  const ImageExtensions: set<string> := {".png", ".jpg", ".jpeg"}

  /** An image embedder: file path to a vector (or array). */
  type ImageEmbedder = string -> Result<Array>

  /** `FileMetadata` attribute lookup by name: only the declared fields exist. */
  function BoolAttribute(m: FileMetadata, name: string): Result<bool> {
    if name == "is_text_type" then Ok(m.isTextType)
    else Err(AttributeError("'FileMetadata' object has no attribute '" + name + "'"))
  }

  /** `ImageFileHandler.can_handle` as written. */
  function CanHandleAsWritten(m: FileMetadata): (r: Result<bool>)
    ensures r.Err? && r.error.AttributeError?
  {
    assert "is_image_type" != "is_text_type";
    match BoolAttribute(m, "is_image_type")
    case Err(e) => Err(e)
    case Ok(isImage) => Ok(isImage && m.fileExtension in ImageExtensions)
  }

  /** `ImageFileHandler.process` as written: the `can_handle` check raises first. */
  function ProcessAsWritten(embed: ImageEmbedder, m: FileMetadata): (r: Result<ProcessingResult>)
    ensures r.Err? && r.error == CanHandleAsWritten(m).error
  {
    match CanHandleAsWritten(m)
    case Err(e) => Err(e)
    case Ok(ok) => if !ok then Err(ValueError("Cannot handle file type")) else ImageResult(embed, m)
  }

  /** The corrected `can_handle`: the extension is a supported image type. */
  predicate CanHandle(m: FileMetadata)
    ensures CanHandle(m) <==> m.fileExtension == ".png" || m.fileExtension == ".jpg" || m.fileExtension == ".jpeg"
  {
    m.fileExtension in ImageExtensions
  }

  /** The result shaping after a successful embedding: one chunk (the path),
      the embedding as one row when it is a vector, its dimension. */
  function ImageResult(embed: ImageEmbedder, m: FileMetadata): Result<ProcessingResult> {
    var embedding :- embed(m.filePath);
    var rows := if embedding.Flat? then Grid([embedding.v], |embedding.v|) else embedding;
    Ok(ProcessingResult(Info(m),
      Some(EmbeddingsInfo([m.filePath], rows, 1, embedding.Dimension())), true, None))
  }

  /** The corrected `process`. */
  function Process(embed: ImageEmbedder, m: FileMetadata): (r: Result<ProcessingResult>)
    ensures !CanHandle(m) ==> r == Err(ValueError("Cannot handle file type"))
    ensures CanHandle(m) ==> (r.Ok? <==> embed(m.filePath).Ok?)
    ensures r.Ok? ==>
      (r.value.processed && r.value.embeddings.Some? &&
       r.value.embeddings.value.chunks == [m.filePath] && r.value.embeddings.value.numChunks == 1)
  {
    if !CanHandle(m) then Err(ValueError("Cannot handle file type"))
    else ImageResult(embed, m)
  }

  class ImageFileHandler {
    const imageEmbedder: ImageEmbedder

    constructor (imageEmbedder: ImageEmbedder)
      ensures this.imageEmbedder == imageEmbedder
    {
      this.imageEmbedder := imageEmbedder;
    }

    /** `ImageFileHandler(image_embedder)`: `None` raises. */
    static method Create(imageEmbedder: Option<ImageEmbedder>) returns (r: Result<ImageFileHandler>)
      ensures imageEmbedder.None? <==> r.Err?
      ensures r.Err? ==> r.error == ValueError("image_embedder cannot be None")
      ensures r.Ok? ==> fresh(r.value) && r.value.imageEmbedder == imageEmbedder.value
    {
      if imageEmbedder.None? {
        return Err(ValueError("image_embedder cannot be None"));
      }
      var h := new ImageFileHandler(imageEmbedder.value);
      return Ok(h);
    }
  }

  /** The corrected handler refuses non-image files; an accepted file has one
      chunk, its own path, one embedding row, and the vector's length as
      dimension. */
  lemma ProcessShape(embed: ImageEmbedder, m: FileMetadata)
    ensures !CanHandle(m) ==> Process(embed, m) == Err(ValueError("Cannot handle file type"))
    ensures var r := Process(embed, m);
      r.Ok? ==> (r.value.processed && r.value.embeddings.Some? &&
        var info := r.value.embeddings.value;
        info.chunks == [m.filePath] && info.numChunks == 1 &&
        (embed(m.filePath).value.Flat? ==>
          info.embeddings == Grid([embed(m.filePath).value.v], |embed(m.filePath).value.v|) &&
          info.embeddingDimension == |embed(m.filePath).value.v|))
  {
  }
}
