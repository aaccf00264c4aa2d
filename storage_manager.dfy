/** `StorageManager`: per-file embeddings (`.npy`) and metadata (`.json`)
    records in the repository's `embeddings` and `metadata` directories, each
    named by a digest of the file's path. The two directories are maps from
    record path to content; a metadata record holds the value `json.load`
    gives back. */
module Storage {
  import opened Wrappers
  import opened Paths
  import opened Interfaces
  import opened FileHandlers
  import Repo

  /** The Python values a metadata dictionary can hold. `Stamp` is the
      `isoformat()` string of a datetime; `NpScalar` is a numpy integer or
      floating scalar and `NpArray` a numpy array. Dictionaries keep their
      insertion order. */
  datatype PyValue =
    | PNone
    | PBool(b: bool)
    | PInt(i: int)
    | PFloat(r: real)
    | PStr(s: string)
    | Stamp(t: int)
    | NpScalar(x: real)
    | NpArray(a: Array)
    | PList(items: seq<PyValue>)
    | PTuple(items: seq<PyValue>)
    | PDict(entries: seq<(string, PyValue)>)

  /** `d[key] = value`: an existing key keeps its position, a new one goes last. */
  function DictSet(entries: seq<(string, PyValue)>, key: string, value: PyValue): (r: seq<(string, PyValue)>)
    ensures (key, value) in r
    ensures forall i :: 0 <= i < |entries| && entries[i].0 != key ==> entries[i] in r
    ensures forall e :: e in r ==> e == (key, value) || e in entries
  {
    if entries == [] then [(key, value)]
    else if entries[0].0 == key then [(key, value)] + entries[1..]
    else [entries[0]] + DictSet(entries[1..], key, value)
  }

  /** No numpy value anywhere inside. */
  predicate Serializable(v: PyValue) {
    match v
    case NpScalar(_) => false
    case NpArray(_) => false
    case PList(xs) => forall i :: 0 <= i < |xs| ==> Serializable(xs[i])
    case PTuple(xs) => forall i :: 0 <= i < |xs| ==> Serializable(xs[i])
    case PDict(es) => forall i :: 0 <= i < |es| ==> Serializable(es[i].1)
    case _ => true
  }

  function FloatList(v: Vector): (r: seq<PyValue>)
    ensures |r| == |v| && forall i :: 0 <= i < |v| ==> r[i] == PFloat(v[i])
  {
    seq(|v|, i requires 0 <= i < |v| => PFloat(v[i]))
  }

  /** `ndarray.tolist()`: nested lists of floats. */
  function ToList(a: Array): (r: PyValue)
    ensures r.PList? && Serializable(r) && |r.items| == a.Length()
  {
    match a
    case Flat(v) => PList(FloatList(v))
    case Grid(rows, _) => PList(seq(|rows|, i requires 0 <= i < |rows| => PList(FloatList(rows[i]))))
  }

  /** `_make_json_serializable` */
  function MakeSerializable(v: PyValue): (r: PyValue)
    ensures v.NpArray? ==> r == ToList(v.a)
    ensures v.NpScalar? ==> r == PFloat(v.x)
    ensures v.PDict? ==> (r.PDict? && |r.entries| == |v.entries| &&
      forall i :: 0 <= i < |v.entries| ==> r.entries[i] == (v.entries[i].0, MakeSerializable(v.entries[i].1)))
    ensures v.PList? ==> (r.PList? && |r.items| == |v.items| &&
      forall i :: 0 <= i < |v.items| ==> r.items[i] == MakeSerializable(v.items[i]))
    ensures v.PTuple? ==> (r.PTuple? && |r.items| == |v.items| &&
      forall i :: 0 <= i < |v.items| ==> r.items[i] == MakeSerializable(v.items[i]))
    ensures !(v.NpArray? || v.NpScalar? || v.PDict? || v.PList? || v.PTuple?) ==> r == v
    decreases v
  {
    match v
    case NpArray(a) => ToList(a)
    case NpScalar(x) => PFloat(x)
    case PDict(es) => PDict(seq(|es|, i requires 0 <= i < |es| => (es[i].0, MakeSerializable(es[i].1))))
    case PList(xs) => PList(seq(|xs|, i requires 0 <= i < |xs| => MakeSerializable(xs[i])))
    case PTuple(xs) => PTuple(seq(|xs|, i requires 0 <= i < |xs| => MakeSerializable(xs[i])))
    case _ => v
  }

  /** The result holds no numpy value. */
  lemma {:induction false} SerializableResult(v: PyValue)
    ensures Serializable(MakeSerializable(v))
    decreases v
  {
    match v
    case PDict(es) =>
      forall i | 0 <= i < |es| ensures Serializable(MakeSerializable(v).entries[i].1) {
        SerializableResult(es[i].1);
      }
    case PList(xs) =>
      forall i | 0 <= i < |xs| ensures Serializable(MakeSerializable(v).items[i]) {
        SerializableResult(xs[i]);
      }
    case PTuple(xs) =>
      forall i | 0 <= i < |xs| ensures Serializable(MakeSerializable(v).items[i]) {
        SerializableResult(xs[i]);
      }
    case _ =>
  }

  /** A value without numpy parts is left as it is. */
  lemma {:induction false} SerializableFixed(v: PyValue)
    requires Serializable(v)
    ensures MakeSerializable(v) == v
    decreases v
  {
    match v
    case PDict(es) =>
      forall i | 0 <= i < |es| ensures MakeSerializable(v).entries[i] == es[i] {
        SerializableFixed(es[i].1);
      }
    case PList(xs) =>
      forall i | 0 <= i < |xs| ensures MakeSerializable(v).items[i] == xs[i] {
        SerializableFixed(xs[i]);
      }
    case PTuple(xs) =>
      forall i | 0 <= i < |xs| ensures MakeSerializable(v).items[i] == xs[i] {
        SerializableFixed(xs[i]);
      }
    case _ =>
  }

  /** Applying the normaliser twice is applying it once. */
  lemma MakeSerializableIdempotent(v: PyValue)
    ensures MakeSerializable(MakeSerializable(v)) == MakeSerializable(v)
  {
    SerializableResult(v);
    SerializableFixed(MakeSerializable(v));
  }

  /** What `json.load` returns for what `json.dump` wrote: tuples come back as lists. */
  function Reloaded(v: PyValue): (r: PyValue)
    ensures v.PTuple? ==> r.PList? && |r.items| == |v.items|
    decreases v
  {
    match v
    case PDict(es) => PDict(seq(|es|, i requires 0 <= i < |es| => (es[i].0, Reloaded(es[i].1))))
    case PList(xs) => PList(seq(|xs|, i requires 0 <= i < |xs| => Reloaded(xs[i])))
    case PTuple(xs) => PList(seq(|xs|, i requires 0 <= i < |xs| => Reloaded(xs[i])))
    case _ => v
  }

  /** The `"metadata"` dictionary a handler result carries. */
  function InfoDict(info: FileInfo): seq<(string, PyValue)> {
    [("file_path", PStr(info.filePath)),
     ("file_name", PStr(info.fileName)),
     ("file_extension", PStr(info.fileExtension)),
     ("file_size_bytes", PInt(info.fileSizeBytes)),
     ("modified_time", if info.modifiedTime.Some? then Stamp(info.modifiedTime.value) else PNone),
     ("created_time", if info.createdTime.Some? then Stamp(info.createdTime.value) else PNone)]
  }

  /** `result["metadata"]` after `save_processing_result` has added
      `embeddings_info` (when the result has embeddings) and `processed`. */
  function SavedMetadata(result: ProcessingResult): (r: seq<(string, PyValue)>)
    ensures ("processed", PBool(result.processed)) in r
    ensures result.embeddings.Some? ==>
      ("embeddings_info", PDict([("num_chunks", PInt(result.embeddings.value.numChunks)),
                                 ("embedding_dimension", PInt(result.embeddings.value.embeddingDimension))])) in r
    ensures forall e :: e in InfoDict(result.metadata) ==> e in r
  {
    var md := InfoDict(result.metadata);
    var md := if result.embeddings.Some? then
        DictSet(md, "embeddings_info", PDict([("num_chunks", PInt(result.embeddings.value.numChunks)),
                                              ("embedding_dimension", PInt(result.embeddings.value.embeddingDimension))]))
      else md;
    DictSet(md, "processed", PBool(result.processed))
  }

  /** `get_storage_size`'s figures. */
  datatype StorageSize = StorageSize(embeddingsBytes: nat, metadataBytes: nat, totalBytes: nat)

  /** Sum of `size` over a set of record paths. */
  ghost function SizeSum(records: set<Path>, size: Path -> nat): nat {
    if records == {} then 0
    else
      var r :| r in records;
      size(r) + SizeSum(records - {r}, size)
  }

  class StorageManager {
    const embeddingsDir: Path
    const metadataDir: Path
    /** SHA-256 hex digest of a path's UTF-8 bytes. */
    const digest: string -> string
    var embeddingRecords: map<Path, Array>
    var metadataRecords: map<Path, PyValue>

    constructor (embeddingsDir: Path, metadataDir: Path, digest: string -> string,
                 embeddingRecords: map<Path, Array>, metadataRecords: map<Path, PyValue>)
      ensures this.embeddingsDir == embeddingsDir && this.metadataDir == metadataDir && this.digest == digest
      ensures this.embeddingRecords == embeddingRecords && this.metadataRecords == metadataRecords
    {
      this.embeddingsDir := embeddingsDir;
      this.metadataDir := metadataDir;
      this.digest := digest;
      this.embeddingRecords := embeddingRecords;
      this.metadataRecords := metadataRecords;
    }

    /** `StorageManager(repository)`: `None` raises; the records live in the
        repository's `embeddings` and `metadata` directories. */
    static method Create(repository: Option<Repo.Repository>, digest: string -> string,
                         embeddingRecords: map<Path, Array>, metadataRecords: map<Path, PyValue>)
      returns (r: Result<StorageManager>)
      ensures repository.None? <==> r.Err?
      ensures r.Err? ==> r.error == ValueError("repository cannot be None")
      ensures r.Ok? ==> (fresh(r.value) &&
        r.value.embeddingsDir == repository.value.config.embeddingsDir &&
        r.value.metadataDir == repository.value.config.metadataDir && r.value.digest == digest &&
        r.value.embeddingRecords == embeddingRecords && r.value.metadataRecords == metadataRecords)
    {
      if repository.None? {
        return Err(ValueError("repository cannot be None"));
      }
      var s := new StorageManager(repository.value.config.embeddingsDir, repository.value.config.metadataDir,
                                  digest, embeddingRecords, metadataRecords);
      return Ok(s);
    }

    /** `_get_embeddings_path` */
    function EmbeddingsPath(p: Path): (r: Path)
      reads this
      ensures |embeddingsDir| + 4 <= |r| && r[..|embeddingsDir|] == embeddingsDir
      ensures r[|r| - 4..] == ".npy"
    {
      Child(embeddingsDir, digest(p) + ".npy")
    }

    /** `_get_metadata_path` */
    function MetadataPath(p: Path): (r: Path)
      reads this
      ensures |metadataDir| + 5 <= |r| && r[..|metadataDir|] == metadataDir
      ensures r[|r| - 5..] == ".json"
    {
      Child(metadataDir, digest(p) + ".json")
    }

    /** `save_embeddings`: the array overwrites the path's record. */
    method SaveEmbeddings(p: Path, a: Array) returns (path: Path)
      modifies this
      ensures path == EmbeddingsPath(p)
      ensures embeddingRecords == old(embeddingRecords)[path := a]
      ensures metadataRecords == old(metadataRecords)
      ensures LoadEmbeddings(p) == Some(a)
      ensures forall q :: digest(q) != digest(p) ==> LoadEmbeddings(q) == old(LoadEmbeddings(q))
      ensures old(LoadEmbeddings(p)).Some? ==> |embeddingRecords| == |old(embeddingRecords)|
    {
      path := EmbeddingsPath(p);
      embeddingRecords := embeddingRecords[path := a];
      forall q | digest(q) != digest(p) ensures EmbeddingsPath(q) != path {
        RecordNameIsDigest(embeddingsDir, digest(q), digest(p), ".npy");
      }
    }

    /** `load_embeddings` */
    function LoadEmbeddings(p: Path): (r: Option<Array>)
      reads this
      ensures r.None? <==> EmbeddingsPath(p) !in embeddingRecords
      ensures forall q :: digest(q) == digest(p) ==> EmbeddingsPath(q) == EmbeddingsPath(p)
    {
      if EmbeddingsPath(p) in embeddingRecords then Some(embeddingRecords[EmbeddingsPath(p)]) else None
    }

    /** `save_metadata`: the normalised dictionary, as JSON, overwrites the record. */
    method SaveMetadata(p: Path, m: PyValue) returns (path: Path)
      modifies this
      ensures path == MetadataPath(p)
      ensures metadataRecords == old(metadataRecords)[path := Reloaded(MakeSerializable(m))]
      ensures embeddingRecords == old(embeddingRecords)
      ensures LoadMetadata(p) == Some(Reloaded(MakeSerializable(m)))
      ensures forall q :: digest(q) != digest(p) ==> LoadMetadata(q) == old(LoadMetadata(q))
      ensures old(LoadMetadata(p)).Some? ==> |metadataRecords| == |old(metadataRecords)|
    {
      path := MetadataPath(p);
      metadataRecords := metadataRecords[path := Reloaded(MakeSerializable(m))];
      forall q | digest(q) != digest(p) ensures MetadataPath(q) != path {
        RecordNameIsDigest(metadataDir, digest(q), digest(p), ".json");
      }
    }

    /** `load_metadata` */
    function LoadMetadata(p: Path): (r: Option<PyValue>)
      reads this
      ensures r.None? <==> MetadataPath(p) !in metadataRecords
      ensures forall q :: digest(q) == digest(p) ==> MetadataPath(q) == MetadataPath(p)
    {
      if MetadataPath(p) in metadataRecords then Some(metadataRecords[MetadataPath(p)]) else None
    }

    /** `save_processing_result`: embeddings come from the result when none
        are passed; the metadata is always written. Returns the two record
        paths and `result["metadata"]` as the call leaves it. */
    method SaveProcessingResult(p: Path, result: ProcessingResult, embeddings: Option<Array>)
      returns (embeddingsPath: Option<Path>, metadataPath: Path, metadata: seq<(string, PyValue)>)
      modifies this
      ensures var e := if embeddings.None? && result.embeddings.Some? then Some(result.embeddings.value.embeddings)
                       else embeddings;
        (e.None? ==> embeddingsPath.None? && embeddingRecords == old(embeddingRecords)) &&
        (e.Some? ==> (embeddingsPath == Some(EmbeddingsPath(p)) &&
          embeddingRecords == old(embeddingRecords)[EmbeddingsPath(p) := e.value]))
      ensures metadata == SavedMetadata(result) && metadataPath == MetadataPath(p)
      ensures metadataRecords == old(metadataRecords)[MetadataPath(p) := Reloaded(MakeSerializable(PDict(metadata)))]
    {
      var e := embeddings;
      if e.None? && result.embeddings.Some? {
        e := Some(result.embeddings.value.embeddings);
      }
      embeddingsPath := None;
      if e.Some? {
        var saved := SaveEmbeddings(p, e.value);
        embeddingsPath := Some(saved);
      }
      metadata := InfoDict(result.metadata);
      if result.embeddings.Some? {
        metadata := DictSet(metadata, "embeddings_info",
          PDict([("num_chunks", PInt(result.embeddings.value.numChunks)),
                 ("embedding_dimension", PInt(result.embeddings.value.embeddingDimension))]));
      }
      metadata := DictSet(metadata, "processed", PBool(result.processed));
      metadataPath := SaveMetadata(p, PDict(metadata));
    }

    /** `delete_file_data`: both records go; absent records are ignored. */
    method DeleteFileData(p: Path)
      modifies this
      ensures embeddingRecords == old(embeddingRecords) - {EmbeddingsPath(p)}
      ensures metadataRecords == old(metadataRecords) - {MetadataPath(p)}
    {
      embeddingRecords := embeddingRecords - {EmbeddingsPath(p)};
      metadataRecords := metadataRecords - {MetadataPath(p)};
    }

    /** `get_storage_size`, given each record's size on disk. */
    ghost function StorageSizeOf(size: Path -> nat): (s: StorageSize)
      reads this
      ensures s.totalBytes == s.embeddingsBytes + s.metadataBytes
      ensures embeddingRecords == map[] ==> s.embeddingsBytes == 0
      ensures metadataRecords == map[] ==> s.metadataBytes == 0
    {
      var e := SizeSum(embeddingRecords.Keys, size);
      var m := SizeSum(metadataRecords.Keys, size);
      StorageSize(e, m, e + m)
    }
  }

  /** Record names depend on the path's digest only: two paths share a record
      exactly when their digests agree. */
  lemma RecordNameIsDigest(dir: Path, d1: string, d2: string, ext: string)
    ensures Child(dir, d1 + ext) == Child(dir, d2 + ext) <==> d1 == d2
  {
    if Child(dir, d1 + ext) == Child(dir, d2 + ext) {
      var k := if dir == Root then |Root| else |dir| + 1;
      assert Child(dir, d1 + ext)[k..] == d1 + ext;
      assert Child(dir, d2 + ext)[k..] == d2 + ext;
      assert d1 == (d1 + ext)[..|d1|];
      assert d2 == (d2 + ext)[..|d2|];
    }
  }
}
