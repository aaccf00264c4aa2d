/** The file system as the core sees it through `os.stat`, `open` and the text
    extractors: a map from resolved paths to nodes. Content hashing (SHA-256) and
    text extraction are opaque and stored per file. */
module FileSystem {
  import opened Wrappers
  import opened Paths

  datatype Node =
    | File(size: int, mtime: int, ctime: int, contentHash: string, text: Result<string>)
    | Dir(size: int, mtime: int, ctime: int)

  datatype FileSystem = FileSystem(nodes: map<Path, Node>) {
    /** `Path(p).exists()` */
    predicate Exists(p: Path) { p in nodes }
    /** `Path(p).is_file()` */
    predicate IsFile(p: Path) { p in nodes && nodes[p].File? }
    /** `Path(p).is_dir()` */
    predicate IsDir(p: Path) { p in nodes && nodes[p].Dir? }

    /** Every path is resolved (absolute and normalised). */
    predicate Resolved() {
      forall q :: q in nodes ==> WellFormed(q)
    }

    /** `Path(p).mkdir(parents=True, exist_ok=True)` for a path whose parent exists. */
    function MakeDir(p: Path): (fs: FileSystem)
      ensures fs.Exists(p) && (forall q :: q in nodes ==> q in fs.nodes && fs.nodes[q] == nodes[q])
      ensures p !in nodes ==> fs.IsDir(p)
      ensures forall q :: q != p ==> (q in fs.nodes <==> q in nodes)
    {
      if p in nodes then this else FileSystem(nodes[p := Dir(0, 0, 0)])
    }
  }

  /** `IndexManager.compute_file_hash`: SHA-256 of the file's bytes; opening a
      directory or a missing path raises. */
  function ContentHash(fs: FileSystem, p: Path): (r: Result<string>)
    ensures r.Ok? <==> fs.IsFile(p)
  {
    if p !in fs.nodes then Err(FileNotFoundError("No such file or directory"))
    else match fs.nodes[p]
      case File(_, _, _, h, _) => Ok(h)
      case Dir(_, _, _) => Err(IsADirectoryError("Is a directory"))
  }

  /** `FileExtractor.extract_text`: the extracted text of a file, opaque. */
  function ExtractText(fs: FileSystem, p: Path): (r: Result<string>)
    ensures !fs.Exists(p) ==> r.Err? && r.error.FileNotFoundError?
  {
    if p !in fs.nodes then Err(FileNotFoundError("File not found"))
    else match fs.nodes[p]
      case File(_, _, _, _, t) => t
      case Dir(_, _, _) => Err(IsADirectoryError("Is a directory"))
  }

  /** `FileExtractor.get_file_size`: `st_size`, or `FileNotFoundError`. */
  function FileSize(fs: FileSystem, p: Path): (r: Result<int>)
    ensures r.Ok? <==> fs.Exists(p)
    ensures r.Ok? ==> r.value == fs.nodes[p].size
  {
    if p in fs.nodes then Ok(fs.nodes[p].size) else Err(FileNotFoundError("No such file or directory"))
  }
}
