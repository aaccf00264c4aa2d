/** `FileMetadata`: the record `from_path` builds from a path and its `stat`. */
module Metadata {
  import opened Wrappers
  import opened Paths
  import opened Text
  import FS = FileSystem

  /** The extensions `from_path` classifies as text. */
  const TextExtensions: set<string> := {".txt", ".docx"}

  /** The dataclass fields; `file_size_kb` and `file_size_mb` are float views
      of `fileSizeBytes` and are not modelled. */
  datatype FileMetadata = FileMetadata(
    filePath: Path,
    fileName: string,
    fileExtension: string,
    fileSizeBytes: int,
    isTextType: bool,
    modifiedTime: Option<int>,
    createdTime: Option<int>)

  /** `FileMetadata.from_path` */
  function FromPath(fs: FS.FileSystem, p: Path): (r: Result<FileMetadata>)
    ensures r.Err? <==> !fs.Exists(p)
    ensures r.Err? ==> r.error.FileNotFoundError?
    ensures r.Ok? ==> var m := r.value;
      m.filePath == p && m.fileName == Name(p) &&
      m.fileExtension == LowerStr(Suffix(p)) &&
      m.fileSizeBytes == fs.nodes[p].size &&
      m.modifiedTime == Some(fs.nodes[p].mtime) && m.createdTime == Some(fs.nodes[p].ctime)
  {
    if !fs.Exists(p) then Err(FileNotFoundError("File not found"))
    else
      var node := fs.nodes[p];
      var extension := LowerSuffix(p);
      Ok(FileMetadata(p, Name(p), extension, node.size, extension in TextExtensions,
                      Some(node.mtime), Some(node.ctime)))
  }

  /** A file is text exactly when its lower-cased suffix is `.txt` or `.docx`,
      whatever the case of the name. */
  lemma TextClassification(fs: FS.FileSystem, p: Path)
    requires fs.Exists(p)
    ensures FromPath(fs, p).value.isTextType <==> LowerStr(Suffix(p)) in TextExtensions
    ensures FromPath(fs, p).value.isTextType ==> Suffix(p) != [] && |Suffix(p)| in {4, 5}
  {
  }

  /** Classification depends only on the suffix up to case. */
  lemma ClassificationIgnoresCase(fs: FS.FileSystem, p: Path, q: Path)
    requires fs.Exists(p) && fs.Exists(q) && LowerStr(Suffix(p)) == LowerStr(Suffix(q))
    ensures FromPath(fs, p).value.isTextType == FromPath(fs, q).value.isTextType
    ensures FromPath(fs, p).value.fileExtension == FromPath(fs, q).value.fileExtension
  {
  }
}
