/** `RepositoryManager`: indexes one file or a directory of files into the
    change tracker, the vector store and the search index of a repository. */
module RepoManager {
  import opened Wrappers
  import opened Paths
  import opened Text
  import opened Seqs
  import FS = FileSystem
  import opened Metadata
  import opened FileHandlers
  import FileProcessor
  import Index
  import Storage
  import SearchCore
  import SearchSingle
  import Repo

  const NoProcessor: string := "FileProcessorRouter not set. Call set_processor() first."
  const SkipReason: string := "File has not changed since last indexing"

  /** The dictionary `index_file` returns. `metadata` is `result["metadata"]`
      as the call leaves it. */
  datatype IndexFileResult =
    | Skipped(filePath: Path, reason: string, entry: Option<Index.FileIndexEntry>)
    | Indexed(filePath: Path, processed: bool, metadata: seq<(string, Storage.PyValue)>,
              numChunks: Option<int>, embeddingDimension: Option<int>)

  /** `num_chunks` and `embedding_dimension` read from a result. */
  function NumChunksOf(result: ProcessingResult): Option<int> {
    if result.embeddings.Some? then Some(result.embeddings.value.numChunks) else None
  }

  function DimensionOf(result: ProcessingResult): Option<int> {
    if result.embeddings.Some? then Some(result.embeddings.value.embeddingDimension) else None
  }

  /** The vector store is written for processed results that carry embeddings. */
  predicate Stores(result: ProcessingResult) {
    result.processed && result.embeddings.Some?
  }

  /** The search index is updated when, in addition, there is at least one chunk. */
  predicate Searches(result: ProcessingResult) {
    Stores(result) && result.embeddings.value.chunks != [] && result.embeddings.value.embeddings.Shaped()
  }

  /** The `Indexed` reply of `index_file` for a path and its processing result. */
  function IndexedReply(p: Path, result: ProcessingResult): IndexFileResult {
    Indexed(p, result.processed,
            if Stores(result) then Storage.SavedMetadata(result) else Storage.InfoDict(result.metadata),
            NumChunksOf(result), DimensionOf(result))
  }

  /** Two tables hold the same rows for every path not listed in `ps`. */
  ghost predicate AgreeOutside<V>(a: map<Path, V>, b: map<Path, V>, ps: seq<Path>) {
    forall q :: q !in ps ==> (q in a <==> q in b) && (q in a ==> a[q] == b[q])
  }

  /** One more file of a loop over `files`: the rows outside the visited prefix
      are still those of `start`, and every routed file of it has a row. */
  lemma IndexedPrefixStep<V>(start: map<Path, V>, before: map<Path, V>, after: map<Path, V>,
                             files: seq<Path>, i: nat, routed: set<Path>)
    requires i < |files|
    requires AgreeOutside(start, before, files[..i]) && AgreeOutside(before, after, [files[i]])
    requires forall j :: 0 <= j < i && files[j] in routed ==> files[j] in before
    requires files[i] in routed ==> files[i] in after
    ensures AgreeOutside(start, after, files[..i + 1])
    ensures forall j :: 0 <= j < i + 1 && files[j] in routed ==> files[j] in after
  {
    AgreeOutsideStep(start, before, after, files[..i], files[i]);
    assert files[..i + 1] == files[..i] + [files[i]];
    forall j | 0 <= j < i && files[j] in routed && files[j] != files[i] ensures files[j] in after {
      assert files[j] in before && files[j] !in [files[i]];
    }
  }

  /** Agreement off `ps`, then off `[p]`, is agreement off `ps + [p]`. */
  lemma AgreeOutsideStep<V>(a: map<Path, V>, b: map<Path, V>, c: map<Path, V>, ps: seq<Path>, p: Path)
    requires AgreeOutside(a, b, ps) && AgreeOutside(b, c, [p])
    ensures AgreeOutside(a, c, ps + [p])
  {
    forall q | q !in ps + [p] ensures (q in a <==> q in c) && (q in a ==> a[q] == c[q]) {
      assert q !in ps && q !in [p];
    }
  }

  // ------------------------------------------------------------ file discovery

  /** A path `index_directory` picks up from the walk of `dir`. */
  predicate Eligible(fs: FS.FileSystem, dir: Path, recursive: bool, extensions: Option<seq<string>>, q: Path) {
    fs.IsFile(q) &&
    (if recursive then StrictlyBelow(q, dir) else q != dir && Parent(q) == dir) &&
    !HasComponent(q, Repo.RepoDirName) &&
    (extensions.None? || LowerSuffix(q) in Lowered(extensions.value))
  }

  /** `[e.lower() for e in extensions]` */
  function Lowered(exts: seq<string>): (r: seq<string>)
    ensures |r| == |exts| && forall i :: 0 <= i < |exts| ==> r[i] == LowerStr(exts[i])
  {
    seq(|exts|, i requires 0 <= i < |exts| => LowerStr(exts[i]))
  }

  /** Extensions without ASCII capitals are their own lower-cased list. */
  lemma LoweredFixed(exts: seq<string>)
    requires forall j, i :: 0 <= j < |exts| && 0 <= i < |exts[j]| ==> !('A' <= exts[j][i] <= 'Z')
    ensures Lowered(exts) == exts
  {
    forall j | 0 <= j < |exts| ensures LowerStr(exts[j]) == exts[j] {
      LowerStrFixed(exts[j]);
    }
  }

  /** `files_to_index` before sorting: the eligible paths of the walk, in walk order. */
  function Collected(fs: FS.FileSystem, dir: Path, recursive: bool, extensions: Option<seq<string>>,
                     walk: seq<Path>): (r: seq<Path>)
    ensures forall q :: q in r <==> q in walk && Eligible(fs, dir, recursive, extensions, q)
  {
    if walk == [] then []
    else
      var last := walk[|walk| - 1];
      Collected(fs, dir, recursive, extensions, walk[..|walk| - 1]) +
      (if Eligible(fs, dir, recursive, extensions, last) then [last] else [])
  }

  predicate StrictlySorted(s: seq<string>) {
    forall i, j :: 0 <= i < j < |s| ==> Less(s[i], s[j])
  }

  /** Insert `x` into a strictly sorted list unless it is already there. */
  function InsertSorted(x: string, s: seq<string>): (r: seq<string>)
    requires StrictlySorted(s)
    ensures StrictlySorted(r)
    ensures forall y :: y in r <==> y == x || y in s
  {
    if s == [] then [x]
    else if x == s[0] then s
    else if Less(x, s[0]) then
      assert forall j :: 0 <= j < |s| ==> Less(x, s[j]) by {
        forall j | 0 < j < |s| ensures Less(x, s[j]) {
          LessTransitive(x, s[0], s[j]);
        }
      }
      [x] + s
    else
      LessTotal(x, s[0]);
      var rest := InsertSorted(x, s[1..]);
      assert forall y :: y in rest ==> Less(s[0], y) by {
        forall y | y in rest ensures Less(s[0], y) {
          if y != x {
            var j :| 0 <= j < |s[1..]| && s[1..][j] == y;
            assert s[j + 1] == y;
          }
        }
      }
      assert forall j :: 0 < j < |[s[0]] + rest| ==> ([s[0]] + rest)[j] in rest by {
        forall j | 0 < j < |[s[0]] + rest| ensures ([s[0]] + rest)[j] in rest {
          assert ([s[0]] + rest)[j] == rest[j - 1];
        }
      }
      [s[0]] + rest
  }

  /** `sorted(set(paths), key=str)` */
  function SortedSet(s: seq<string>): (r: seq<string>)
    ensures StrictlySorted(r)
    ensures forall y :: y in r <==> y in s
  {
    if s == [] then [] else InsertSorted(s[|s| - 1], SortedSet(s[..|s| - 1]))
  }

  /** A strictly sorted list is determined by its elements. */
  lemma {:induction false} SortedIsUnique(a: seq<string>, b: seq<string>)
    requires StrictlySorted(a) && StrictlySorted(b)
    requires forall y :: y in a <==> y in b
    ensures a == b
  {
    assert a != [] ==> a[0] in b;
    assert b != [] ==> b[0] in a;
    if a != [] {
      assert a[0] == b[0] by {
        assert a[0] in b && b[0] in a;
        var i :| 0 <= i < |b| && b[i] == a[0];
        var j :| 0 <= j < |a| && a[j] == b[0];
        if a[0] != b[0] {
          assert i > 0 && j > 0;
          assert Less(b[0], a[0]) && Less(a[0], b[0]);
          LessAsymmetric(b[0], a[0]);
        }
      }
      forall y ensures y in a[1..] <==> y in b[1..] {
        if y in a[1..] {
          var k :| 0 <= k < |a[1..]| && a[1..][k] == y;
          assert Less(a[0], a[k + 1]);
          LessIrreflexive(y);
          assert y in b;
        }
        if y in b[1..] {
          var k :| 0 <= k < |b[1..]| && b[1..][k] == y;
          assert Less(b[0], b[k + 1]);
          LessIrreflexive(y);
          assert y in a;
        }
      }
      SortedIsUnique(a[1..], b[1..]);
    }
  }

  /** The files `index_directory` indexes, in order. */
  function FilesToIndex(fs: FS.FileSystem, dir: Path, recursive: bool, extensions: Option<seq<string>>,
                        walk: seq<Path>): seq<Path> {
    SortedSet(Collected(fs, dir, recursive, extensions, walk))
  }

  /** Whatever order the walk yields its paths in, the files to index are the
      eligible ones, each once, in ascending string order. */
  lemma FilesToIndexIsSortedEligible(fs: FS.FileSystem, dir: Path, recursive: bool, extensions: Option<seq<string>>,
                                     walk: seq<Path>, walk': seq<Path>)
    requires forall q :: q in walk <==> q in fs.nodes
    requires forall q :: q in walk' <==> q in fs.nodes
    ensures StrictlySorted(FilesToIndex(fs, dir, recursive, extensions, walk))
    ensures Distinct(FilesToIndex(fs, dir, recursive, extensions, walk))
    ensures forall q :: q in FilesToIndex(fs, dir, recursive, extensions, walk) <==> Eligible(fs, dir, recursive, extensions, q)
    ensures FilesToIndex(fs, dir, recursive, extensions, walk) == FilesToIndex(fs, dir, recursive, extensions, walk')
  {
    var files := FilesToIndex(fs, dir, recursive, extensions, walk);
    forall i, j | 0 <= i < j < |files| ensures files[i] != files[j] {
      LessIrreflexive(files[i]);
    }
    SortedIsUnique(files, FilesToIndex(fs, dir, recursive, extensions, walk'));
  }

  /** The statistics `index_directory` returns. */
  datatype DirectoryStats = DirectoryStats(totalFiles: nat, indexed: nat, skipped: nat, errors: nat,
                                           errorMessages: seq<string>)

  // ------------------------------------------------------------ index status

  function TextCount(es: seq<Index.FileIndexEntry>): nat {
    if es == [] then 0 else (if es[0].isTextType then 1 else 0) + TextCount(es[1..])
  }

  function NonTextCount(es: seq<Index.FileIndexEntry>): nat {
    if es == [] then 0 else (if es[0].isTextType then 0 else 1) + NonTextCount(es[1..])
  }

  /** `sum(e.num_chunks or 0 for e in entries if e.is_text_type)` */
  function TextChunks(es: seq<Index.FileIndexEntry>): int {
    if es == [] then 0
    else (if es[0].isTextType then es[0].numChunks.GetOr(0) else 0) + TextChunks(es[1..])
  }

  /** Every entry is either text or not. */
  lemma {:induction false} CountsPartition(es: seq<Index.FileIndexEntry>)
    ensures TextCount(es) + NonTextCount(es) == |es|
  {
    if es != [] {
      CountsPartition(es[1..]);
    }
  }

  /** Non-text entries never contribute chunks. */
  lemma {:induction false} TextChunksIgnoresNonText(es: seq<Index.FileIndexEntry>, e: Index.FileIndexEntry)
    requires !e.isTextType
    ensures TextChunks([e] + es) == TextChunks(es)
    ensures TextChunks(es + [e]) == TextChunks(es)
  {
    assert ([e] + es)[1..] == es;
    if es != [] {
      assert (es + [e])[1..] == es[1..] + [e];
      TextChunksIgnoresNonText(es[1..], e);
    }
  }

  /** `get_index_status` (the storage size is not part of this record). */
  datatype IndexStatus = IndexStatus(totalIndexedFiles: nat, textFiles: nat, nonTextFiles: int,
                                     totalChunks: int, repositoryPath: Path, workTreeRoot: Path)

  /** Case-insensitive extension filter of `list_indexed_files`; `None` and
      the empty string keep everything. */
  predicate ExtensionMatches(e: Index.FileIndexEntry, extension: Option<string>) {
    extension.None? || extension.value == "" || LowerStr(e.extension) == LowerStr(extension.value)
  }

  function Filtered(es: seq<Index.FileIndexEntry>, extension: Option<string>): (r: seq<Index.FileIndexEntry>)
    ensures |r| <= |es|
    ensures forall e :: e in r <==> e in es && ExtensionMatches(e, extension)
  {
    if es == [] then []
    else (if ExtensionMatches(es[0], extension) then [es[0]] else []) + Filtered(es[1..], extension)
  }

  class RepositoryManager {
    const repository: Repo.Repository
    const indexManager: Index.IndexManager
    const storageManager: Storage.StorageManager
    const searchManager: SearchSingle.SearchManager
    var processor: Option<FileProcessor.FileProcessorRouter>

    predicate Valid()
      reads this, indexManager, searchManager
    {
      indexManager.Valid() && searchManager.Valid()
    }

    constructor (repository: Repo.Repository, indexManager: Index.IndexManager,
                 storageManager: Storage.StorageManager, searchManager: SearchSingle.SearchManager,
                 processor: Option<FileProcessor.FileProcessorRouter>)
      requires indexManager.Valid() && searchManager.Valid()
      ensures Valid() && this.repository == repository && this.indexManager == indexManager
      ensures this.storageManager == storageManager && this.searchManager == searchManager
      ensures this.processor == processor
    {
      this.repository := repository;
      this.indexManager := indexManager;
      this.storageManager := storageManager;
      this.searchManager := searchManager;
      this.processor := processor;
    }

    /** `RepositoryManager(start_path, processor, create)`: opens or creates
        the repository, then the three stores on it, from their saved state. */
    static method Open(fs: FS.FileSystem, start: Path, create: bool,
                       processor: Option<FileProcessor.FileProcessorRouter>,
                       stored: Index.TableImage, digest: string -> string,
                       embeddingRecords: map<Path, Interfaces.Array>, metadataRecords: map<Path, Storage.PyValue>,
                       disk: SearchCore.Disk)
      returns (r: Result<RepositoryManager>, fs': FS.FileSystem)
      requires WellFormed(start) && fs.Resolved()
      requires Index.TableValid(stored.rows, stored.order)
      requires disk.Saved? ==> SearchCore.Written(disk.table)
      ensures r.Ok? <==> Repo.OpenSpec(fs, start, create).Ok?
      ensures r.Err? ==> r.error == Repo.OpenSpec(fs, start, create).error && fs' == fs
      ensures r.Ok? ==> (fresh(r.value) && r.value.Valid() && r.value.processor == processor &&
        (fs', r.value.repository.repoPath) == Repo.OpenSpec(fs, start, create).value &&
        r.value.indexManager.rows == stored.rows &&
        r.value.storageManager.embeddingRecords == embeddingRecords &&
        r.value.searchManager.Current() == SearchCore.Loaded(disk))
    {
      var repository;
      repository, fs' := Repo.Repository.Open(fs, start, create);
      if repository.Err? {
        return Err(repository.error), fs';
      }
      var index := Index.IndexManager.Create(Some(repository.value), stored);
      var storage := Storage.StorageManager.Create(Some(repository.value), digest, embeddingRecords, metadataRecords);
      var search := SearchSingle.SearchManager.Create(Some(repository.value), disk);
      var m := new RepositoryManager(repository.value, index.value, storage.value, search.value, processor);
      return Ok(m), fs';
    }

    /** `set_processor` */
    method SetProcessor(p: Option<FileProcessor.FileProcessorRouter>) returns (o: Outcome)
      modifies this
      ensures p.None? ==> o == Fail(ValueError("processor cannot be None")) && processor == old(processor)
      ensures p.Some? ==> o == Pass && processor == p
    {
      if p.None? {
        return Fail(ValueError("processor cannot be None"));
      }
      processor := p;
      return Pass;
    }

    /** The state the writes of `index_file` leave behind for a processed
        file: its change tracker row is the inserted one, moved to the end of
        the scan order; the vector store holds its embeddings and normalised
        metadata when the result carries embeddings; the search index is the
        replacing add when there are also chunks; nothing else changes. */
    twostate predicate Recorded(m: FileMetadata, result: ProcessingResult, fileHash: string, now: int)
      requires old(searchManager.Valid())
      reads this, indexManager, storageManager, searchManager
    {
      Index.InsertRow(m, fileHash, NumChunksOf(result), DimensionOf(result), now).Ok? &&
      indexManager.rows ==
        old(indexManager.rows)[m.filePath := Index.InsertRow(m, fileHash, NumChunksOf(result), DimensionOf(result), now).value] &&
      indexManager.order == Index.Upsert(old(indexManager.order), m.filePath) &&
      (Stores(result) ==>
        storageManager.embeddingRecords ==
          old(storageManager.embeddingRecords)[storageManager.EmbeddingsPath(m.filePath) := result.embeddings.value.embeddings] &&
        storageManager.metadataRecords ==
          old(storageManager.metadataRecords)[storageManager.MetadataPath(m.filePath) :=
            Storage.Reloaded(Storage.MakeSerializable(Storage.PDict(Storage.SavedMetadata(result))))]) &&
      (!Stores(result) ==>
        storageManager.embeddingRecords == old(storageManager.embeddingRecords) &&
        storageManager.metadataRecords == old(storageManager.metadataRecords)) &&
      (Searches(result) ==>
        (searchManager.Current(), searchManager.disk) ==
          (SearchCore.AddSpec(old(searchManager.Current()), old(searchManager.disk), m.filePath,
                              result.embeddings.value.chunks, result.embeddings.value.embeddings).0,
           SearchCore.AddSpec(old(searchManager.Current()), old(searchManager.disk), m.filePath,
                              result.embeddings.value.chunks, result.embeddings.value.embeddings).1)) &&
      (!Searches(result) ==>
        searchManager.Current() == old(searchManager.Current()) && searchManager.disk == old(searchManager.disk))
    }

    /** `index_file` returns its skip record: a processor is set, the file
        exists, `force` is off and the change tracker reports no change. */
    predicate SkipsFile(fs: FS.FileSystem, p: Path, force: bool)
      requires Valid()
      reads this, indexManager, searchManager
    {
      processor.Some? && fs.Exists(p) && !force &&
      indexManager.HasChanged(fs, FromPath(fs, p).value) == Ok(false)
    }

    /** `index_file` records the file: a processor is set, the path is a
        regular file the router processes, and `force` is on or the change
        tracker reports a change. */
    predicate IndexesFile(fs: FS.FileSystem, p: Path, force: bool)
      requires Valid()
      reads this, indexManager, searchManager
      reads if processor.Some? then {processor.value} else {}
      reads if processor.Some? then (set h | h in processor.value.handlers && h.TextH? :: h.t.embeddingHandler) else {}
    {
      processor.Some? && fs.IsFile(p) && FileProcessor.RouteSpec(processor.value.handlers, fs, p).Ok? &&
      (force || indexManager.HasChanged(fs, FromPath(fs, p).value) == Ok(true))
    }

    /** The writes of `index_file` once the file is processed: the change
        tracker entry first, then the vector store, then the search index,
        whose failure is swallowed. */
    method Record(m: FileMetadata, result: ProcessingResult, fileHash: string, now: int)
      returns (r: Result<IndexFileResult>)
      requires Valid()
      modifies indexManager, storageManager, searchManager
      ensures Valid()
      ensures Index.InsertRow(m, fileHash, NumChunksOf(result), DimensionOf(result), now).Err? ==>
        r == Err(Index.InsertRow(m, fileHash, NumChunksOf(result), DimensionOf(result), now).error) &&
        indexManager.rows == old(indexManager.rows) && indexManager.order == old(indexManager.order) &&
        unchanged(storageManager) && unchanged(searchManager)
      ensures Index.InsertRow(m, fileHash, NumChunksOf(result), DimensionOf(result), now).Ok? ==>
        r == Ok(IndexedReply(m.filePath, result)) && Recorded(m, result, fileHash, now)
    {
      var numChunks := NumChunksOf(result);
      var dimension := DimensionOf(result);
      var o := indexManager.AddEntry(m, fileHash, numChunks, dimension, now);
      if o.Fail? {
        return Err(o.error);
      }
      var metadata := StoreResult(m.filePath, result);
      return Ok(Indexed(m.filePath, result.processed, metadata, numChunks, dimension));
    }

    /** The vector store and search index writes of `index_file`; the
        metadata is what the reply reports. */
    method StoreResult(p: Path, result: ProcessingResult) returns (metadata: seq<(string, Storage.PyValue)>)
      requires searchManager.Valid()
      modifies storageManager, searchManager
      ensures searchManager.Valid()
      ensures metadata == (if Stores(result) then Storage.SavedMetadata(result) else Storage.InfoDict(result.metadata))
      ensures Stores(result) ==>
        storageManager.embeddingRecords ==
          old(storageManager.embeddingRecords)[storageManager.EmbeddingsPath(p) := result.embeddings.value.embeddings] &&
        storageManager.metadataRecords ==
          old(storageManager.metadataRecords)[storageManager.MetadataPath(p) :=
            Storage.Reloaded(Storage.MakeSerializable(Storage.PDict(Storage.SavedMetadata(result))))]
      ensures !Stores(result) ==> unchanged(storageManager)
      ensures Searches(result) ==>
        (searchManager.Current(), searchManager.disk) ==
          (SearchCore.AddSpec(old(searchManager.Current()), old(searchManager.disk), p,
                              result.embeddings.value.chunks, result.embeddings.value.embeddings).0,
           SearchCore.AddSpec(old(searchManager.Current()), old(searchManager.disk), p,
                              result.embeddings.value.chunks, result.embeddings.value.embeddings).1)
      ensures !Searches(result) ==> unchanged(searchManager)
    {
      metadata := Storage.InfoDict(result.metadata);
      if result.processed && result.embeddings.Some? {
        var info := result.embeddings.value;
        var _, _, saved := storageManager.SaveProcessingResult(p, result, Some(info.embeddings));
        metadata := saved;
        // A numpy array is rectangular; a ragged `Grid` has no numpy counterpart.
        if info.chunks != [] && info.embeddings.Shaped() {
          var _ := searchManager.Add(p, info.chunks, info.embeddings);
        }
      }
    }

    /** `index_file` */
    method IndexFile(fs: FS.FileSystem, p: Path, force: bool, now: int) returns (r: Result<IndexFileResult>)
      requires Valid()
      modifies indexManager, storageManager, searchManager
      ensures Valid()
      ensures processor.None? ==> r == Err(ValueError(NoProcessor))
      ensures processor.Some? && !fs.Exists(p) ==> r == Err(FileNotFoundError("File not found"))
      ensures r.Err? <==> !old(SkipsFile(fs, p, force)) && !old(IndexesFile(fs, p, force))
      ensures r.Err? ==> unchanged(indexManager) && unchanged(storageManager) && unchanged(searchManager)
      ensures r.Ok? && r.value.Skipped? <==> old(SkipsFile(fs, p, force))
      ensures r.Ok? && r.value.Skipped? ==>
        r.value == Skipped(p, SkipReason, old(indexManager.GetIndexEntry(p))) && indexManager.IsIndexed(p) &&
        unchanged(indexManager) && unchanged(storageManager) && unchanged(searchManager)
      ensures r.Ok? && r.value.Indexed? <==> old(IndexesFile(fs, p, force))
      ensures r.Ok? && r.value.Indexed? ==>
        processor.Some? && fs.IsFile(p) && old(FileProcessor.RouteSpec(processor.value.handlers, fs, p)).Ok? &&
        r.value == IndexedReply(p, old(FileProcessor.RouteSpec(processor.value.handlers, fs, p)).value) &&
        Recorded(FromPath(fs, p).value, old(FileProcessor.RouteSpec(processor.value.handlers, fs, p)).value,
                 FS.ContentHash(fs, p).value, now) &&
        indexManager.IsIndexed(p) && indexManager.HasChanged(fs, FromPath(fs, p).value) == Ok(false)
      ensures processor.Some? && fs.IsFile(p) && old(FileProcessor.RouteSpec(processor.value.handlers, fs, p)).Ok? ==>
        r.Ok? && indexManager.IsIndexed(p)
      ensures AgreeOutside(old(indexManager.rows), indexManager.rows, [p])
    {
      if processor.None? {
        return Err(ValueError(NoProcessor));
      }
      if !fs.Exists(p) {
        return Err(FileNotFoundError("File not found"));
      }
      var m := FromPath(fs, p).value;
      if !force {
        var changed :- indexManager.HasChanged(fs, m);
        if !changed {
          return Ok(Skipped(p, SkipReason, indexManager.GetIndexEntry(p)));
        }
      }
      r := ProcessAndRecord(fs, p, now);
    }

    /** The part of `index_file` after the change check: process the file,
        hash it and record the outcome in the three stores. */
    method ProcessAndRecord(fs: FS.FileSystem, p: Path, now: int) returns (r: Result<IndexFileResult>)
      requires Valid() && processor.Some? && fs.Exists(p)
      modifies indexManager, storageManager, searchManager
      ensures Valid()
      ensures r.Err? ==> unchanged(indexManager) && unchanged(storageManager) && unchanged(searchManager)
      ensures old(FileProcessor.RouteSpec(processor.value.handlers, fs, p)).Err? ==>
        r == Err(old(FileProcessor.RouteSpec(processor.value.handlers, fs, p)).error)
      ensures old(FileProcessor.RouteSpec(processor.value.handlers, fs, p)).Ok? && !fs.IsFile(p) ==>
        r == Err(FS.ContentHash(fs, p).error)
      ensures old(FileProcessor.RouteSpec(processor.value.handlers, fs, p)).Ok? && fs.IsFile(p) ==>
        r == Ok(IndexedReply(p, old(FileProcessor.RouteSpec(processor.value.handlers, fs, p)).value)) &&
        Recorded(FromPath(fs, p).value, old(FileProcessor.RouteSpec(processor.value.handlers, fs, p)).value,
                 FS.ContentHash(fs, p).value, now) &&
        indexManager.IsIndexed(p) && indexManager.HasChanged(fs, FromPath(fs, p).value) == Ok(false)
    {
      var routed := processor.value.ProcessFile(fs, p);
      if routed.Err? {
        return Err(routed.error);
      }
      var hashed := FS.ContentHash(fs, p);
      if hashed.Err? {
        return Err(hashed.error);
      }
      r := RecordFile(fs, p, routed.value, hashed.value, now);
    }

    /** `Record` for a file of the file system, hashed as it stands: the
        entry is always written and matches the file afterwards. */
    method RecordFile(fs: FS.FileSystem, p: Path, result: ProcessingResult, fileHash: string, now: int)
      returns (r: Result<IndexFileResult>)
      requires Valid() && fs.IsFile(p) && FS.ContentHash(fs, p) == Ok(fileHash)
      modifies indexManager, storageManager, searchManager
      ensures Valid()
      ensures r == Ok(IndexedReply(p, result)) && Recorded(FromPath(fs, p).value, result, fileHash, now)
      ensures indexManager.IsIndexed(p) && indexManager.HasChanged(fs, FromPath(fs, p).value) == Ok(false)
    {
      var m := FromPath(fs, p).value;
      ghost var rowsBefore := indexManager.rows;
      r := Record(m, result, fileHash, now);
      Index.UnchangedAfterAdd(rowsBefore, fs, p, NumChunksOf(result), DimensionOf(result), now);
    }

    /** `index_directory`: `walk` lists the file system's paths in the order
        `rglob` and `iterdir` meet them. */
    method IndexDirectory(fs: FS.FileSystem, walk: seq<Path>, directory: Option<Path>, recursive: bool,
                          extensions: Option<seq<string>>, force: bool, now: int)
      returns (r: Result<DirectoryStats>)
      requires Valid()
      requires forall q :: q in walk <==> q in fs.nodes
      modifies indexManager, storageManager, searchManager
      ensures Valid()
      ensures var dir := if directory.Some? then directory.value else repository.WorkTreeRoot();
        !fs.IsDir(dir) ==>
          (r == Err(ValueError("Directory not found")) &&
           unchanged(indexManager) && unchanged(storageManager) && unchanged(searchManager))
      ensures var dir := if directory.Some? then directory.value else repository.WorkTreeRoot();
        fs.IsDir(dir) ==>
          (r.Ok? &&
           r.value.totalFiles == |FilesToIndex(fs, dir, recursive, extensions, walk)| &&
           r.value.indexed + r.value.skipped + r.value.errors == r.value.totalFiles &&
           |r.value.errorMessages| == r.value.errors &&
           AgreeOutside(old(indexManager.rows), indexManager.rows, FilesToIndex(fs, dir, recursive, extensions, walk)) &&
           (processor.Some? ==>
              forall q :: (q in FilesToIndex(fs, dir, recursive, extensions, walk) &&
                           old(FileProcessor.RouteSpec(processor.value.handlers, fs, q)).Ok?) ==>
                indexManager.IsIndexed(q)))
    {
      var dir := if directory.Some? then directory.value else repository.WorkTreeRoot();
      if !fs.IsDir(dir) {
        return Err(ValueError("Directory not found"));
      }
      var collected: seq<Path> := [];
      for i := 0 to |walk|
        invariant collected == Collected(fs, dir, recursive, extensions, walk[..i])
      {
        assert walk[..i + 1][..i] == walk[..i];
        if Eligible(fs, dir, recursive, extensions, walk[i]) {
          collected := collected + [walk[i]];
        }
      }
      assert walk[..|walk|] == walk;
      var files := SortedSet(collected);
      ghost var routed := set q | q in files && processor.Some? && fs.IsFile(q) &&
        FileProcessor.RouteSpec(processor.value.handlers, fs, q).Ok?;
      var stats := IndexEach(fs, files, force, now, routed);
      return Ok(stats);
    }

    /** The loop of `index_directory` over the files to index: each file is
        indexed in turn, and a failure is counted and reported, not raised.
        `routed` holds files the router processes as it stands on entry;
        each of them is indexed afterwards. */
    method IndexEach(fs: FS.FileSystem, files: seq<Path>, force: bool, now: int, ghost routed: set<Path>)
      returns (stats: DirectoryStats)
      requires Valid()
      requires forall q :: q in routed ==>
        processor.Some? && fs.IsFile(q) && FileProcessor.RouteSpec(processor.value.handlers, fs, q).Ok?
      modifies indexManager, storageManager, searchManager
      ensures Valid()
      ensures stats.totalFiles == |files| && stats.indexed + stats.skipped + stats.errors == |files|
      ensures |stats.errorMessages| == stats.errors
      ensures AgreeOutside(old(indexManager.rows), indexManager.rows, files)
      ensures forall q :: q in files && q in routed ==> indexManager.IsIndexed(q)
    {
      var indexed, skipped, errors := 0, 0, 0;
      var messages: seq<string> := [];
      for i := 0 to |files|
        invariant Valid()
        invariant indexed + skipped + errors == i && |messages| == errors
        invariant AgreeOutside(old(indexManager.rows), indexManager.rows, files[..i])
        invariant forall j :: 0 <= j < i && files[j] in routed ==> files[j] in indexManager.rows
      {
        ghost var rowsBefore := indexManager.rows;
        var result := IndexStep(fs, files[i], force, now, files[i] in routed);
        IndexedPrefixStep(old(indexManager.rows), rowsBefore, indexManager.rows, files, i, routed);
        if result.Err? {
          errors := errors + 1;
          messages := messages + [files[i] + ": " + result.error.msg];
        } else if result.value.Indexed? {
          indexed := indexed + 1;
        } else {
          skipped := skipped + 1;
        }
      }
      assert files[..|files|] == files;
      return DirectoryStats(|files|, indexed, skipped, errors, messages);
    }

    /** One file of `IndexEach`: `IndexFile`, seen only through what the loop
        keeps track of (other rows kept, a routed file indexed). */
    method IndexStep(fs: FS.FileSystem, p: Path, force: bool, now: int, ghost routed: bool)
      returns (r: Result<IndexFileResult>)
      requires Valid()
      requires routed ==>
        processor.Some? && fs.IsFile(p) && FileProcessor.RouteSpec(processor.value.handlers, fs, p).Ok?
      modifies indexManager, storageManager, searchManager
      ensures Valid()
      ensures AgreeOutside(old(indexManager.rows), indexManager.rows, [p])
      ensures routed ==> r.Ok? && p in indexManager.rows
    {
      r := IndexFile(fs, p, force, now);
    }

    /** `reindex_all`: the whole work tree, recursively; `force` is `True`
        unless the caller passes `False`. */
    method ReindexAll(fs: FS.FileSystem, walk: seq<Path>, force: bool, now: int) returns (r: Result<DirectoryStats>)
      requires Valid()
      requires forall q :: q in walk <==> q in fs.nodes
      modifies indexManager, storageManager, searchManager
      ensures Valid()
      ensures !fs.IsDir(repository.WorkTreeRoot()) ==>
        (r == Err(ValueError("Directory not found")) &&
         unchanged(indexManager) && unchanged(storageManager) && unchanged(searchManager))
      ensures fs.IsDir(repository.WorkTreeRoot()) ==>
        (r.Ok? &&
         r.value.totalFiles == |FilesToIndex(fs, repository.WorkTreeRoot(), true, None, walk)| &&
         r.value.indexed + r.value.skipped + r.value.errors == r.value.totalFiles &&
         |r.value.errorMessages| == r.value.errors &&
         AgreeOutside(old(indexManager.rows), indexManager.rows, FilesToIndex(fs, repository.WorkTreeRoot(), true, None, walk)) &&
         (processor.Some? ==>
            forall q :: (q in FilesToIndex(fs, repository.WorkTreeRoot(), true, None, walk) &&
                         old(FileProcessor.RouteSpec(processor.value.handlers, fs, q)).Ok?) ==>
              indexManager.IsIndexed(q)))
    {
      r := IndexDirectory(fs, walk, Some(repository.WorkTreeRoot()), true, None, force, now);
    }

    /** `get_index_status` */
    function GetIndexStatus(): (s: IndexStatus)
      requires Valid()
      reads this, indexManager, searchManager
      ensures s.totalIndexedFiles == |indexManager.GetAllEntries()| == indexManager.IndexedFilesCount()
      ensures s.textFiles == TextCount(indexManager.GetAllEntries())
      ensures s.nonTextFiles == NonTextCount(indexManager.GetAllEntries())
      ensures s.textFiles + s.nonTextFiles == s.totalIndexedFiles
      ensures s.totalChunks == TextChunks(indexManager.GetAllEntries())
      ensures s.repositoryPath == repository.repoPath
      ensures s.workTreeRoot == Parent(s.repositoryPath)
    {
      var entries := indexManager.GetAllEntries();
      CountsPartition(entries);
      var text := TextCount(entries);
      IndexStatus(|entries|, text, |entries| - text, TextChunks(entries),
                  repository.repoPath, repository.WorkTreeRoot())
    }

    /** `list_indexed_files` */
    function ListIndexedFiles(extension: Option<string>): (es: seq<Index.FileIndexEntry>)
      requires Valid()
      reads this, indexManager, searchManager
      ensures |es| <= indexManager.IndexedFilesCount()
      ensures forall e :: e in es <==> e in indexManager.GetAllEntries() && ExtensionMatches(e, extension)
      ensures forall e :: e in es ==> indexManager.IsIndexed(e.filePath)
    {
      Filtered(indexManager.GetAllEntries(), extension)
    }
  }
}
