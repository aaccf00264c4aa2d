/** The state the web front end keeps between requests: the table of
    background indexing tasks, keyed by repository path, the registered
    folders, and the statistics it reports for a repository. */
module WebApp {
  import opened Wrappers
  import opened Paths
  import opened Text
  import opened Seqs
  import FS = FileSystem
  import Index
  import SearchCore
  import Repo
  import RepoManager
  import FileProcessor

  // ------------------------------------------------------------ tasks

  datatype Status = Starting | Indexing | Completed | Failed

  /** The `status` string of a task entry. */
  function StatusName(s: Status): string {
    match s
    case Starting => "starting"
    case Indexing => "indexing"
    case Completed => "completed"
    case Failed => "error"
  }

  /** A task that has not finished. */
  predicate Active(s: Status) {
    s == Starting || s == Indexing
  }

  /** One entry of `indexing_tasks`. */
  datatype Task = Task(status: Status, indexed: int, total: int, errors: int, message: string,
                       error: Option<string>)

  const Fresh: Task := Task(Starting, 0, 0, 0, "Initializing indexing...", None)

  /** The counts of an entry are consistent. */
  predicate Sane(t: Task) {
    0 <= t.indexed <= t.total && 0 <= t.errors
  }

  /** What the background task's indexing call produced. */
  datatype Work =
    | FileDone(indexed: bool)
    | DirectoryDone(stats: RepoManager.DirectoryStats)
    | Raised(message: string)

  /** Directory statistics account for every file. */
  predicate WorkSane(w: Work) {
    w.DirectoryDone? ==> w.stats.indexed + w.stats.skipped + w.stats.errors == w.stats.totalFiles
  }

  /** The entry once the background task has started. */
  function Begin(t: Task): (r: Task)
    ensures r.status == Indexing && Active(r.status)
    ensures (r.indexed, r.total, r.errors, r.error) == (t.indexed, t.total, t.errors, t.error)
  {
    t.(status := Indexing, message := "Indexing files...")
  }

  const DoneMessage: string := "Indexing completed successfully"

  /** The entry once the background task has ended. */
  function Finish(t: Task, w: Work): (r: Task)
    ensures !Active(r.status)
    ensures r.status == Failed <==> w.Raised?
    ensures w.Raised? ==> r.error == Some(w.message) && (r.indexed, r.total, r.errors) == (t.indexed, t.total, t.errors)
    ensures w.FileDone? ==> r.total == 1 && r.indexed == (if w.indexed then 1 else 0) && r.errors == t.errors
    ensures w.DirectoryDone? ==>
      (r.indexed, r.total, r.errors) == (w.stats.indexed as int, w.stats.totalFiles as int, w.stats.errors as int)
    ensures Sane(t) && WorkSane(w) ==> Sane(r)
  {
    match w
    case FileDone(indexed) =>
      var counted := t.(indexed := if indexed then 1 else 0, total := 1,
                        message := if indexed then "File indexed successfully" else "File skipped (unchanged)");
      counted.(status := Completed, message := DoneMessage)
    case DirectoryDone(stats) =>
      var counted := t.(indexed := stats.indexed, total := stats.totalFiles, errors := stats.errors,
                        message := "Indexed " + NatToString(stats.indexed) + " of " + NatToString(stats.totalFiles) + " files");
      counted.(status := Completed, message := DoneMessage)
    case Raised(m) =>
      t.(status := Failed, error := Some(m), message := "Indexing failed: " + m)
  }

  /** A task started from a fresh entry ends with consistent counts and can
      then be cleared. */
  lemma TaskLifecycle(w: Work)
    requires WorkSane(w)
    ensures Sane(Finish(Begin(Fresh), w)) && !Active(Finish(Begin(Fresh), w).status)
    ensures Finish(Begin(Fresh), w).status == Completed ==> Finish(Begin(Fresh), w).indexed <= Finish(Begin(Fresh), w).total
  {
  }

  /** The reply of `index_files`. */
  datatype IndexResponse =
    | Started(taskId: Path)
    | Conflict(taskId: Path, status: Status, indexed: int, total: int)
    | Rejected(code: int, detail: string)

  /** `get_progress`'s reply: an entry's copy, or `not_found` with zero counts. */
  datatype Progress = Progress(status: string, indexed: int, total: int, errors: int, message: string,
                               error: Option<string>)

  function ProgressOf(t: Task): Progress {
    Progress(StatusName(t.status), t.indexed, t.total, t.errors, t.message, t.error)
  }

  const NotFound: Progress := Progress("not_found", 0, 0, 0, "No indexing task found", None)

  datatype ClearResponse = Cleared(message: string) | Refused(code: int, error: string)

  /** The reply of the folder endpoints. */
  datatype FolderResponse =
    | Folders(message: string, folders: seq<Path>, count: nat)
    | Listed(folders: seq<Path>, count: nat)
    | FolderError(code: int, detail: string)

  /** `folders.append(p)` unless already present. */
  function AddFolder(folders: seq<Path>, p: Path): (r: seq<Path>)
    ensures p in r && forall q :: q in r <==> q == p || q in folders
    ensures Distinct(folders) ==> Distinct(r)
  {
    if p in folders then folders else folders + [p]
  }

  /** `folders.remove(p)`: the first occurrence goes, if there is one. */
  function RemoveFolder(folders: seq<Path>, p: Path): (r: seq<Path>)
    ensures |r| == if p in folders then |folders| - 1 else |folders|
    ensures forall q :: q != p ==> (q in r <==> q in folders)
    ensures Distinct(folders) ==> Distinct(r) && p !in r
  {
    if folders == [] then []
    else if folders[0] == p then folders[1..]
    else
      var r := [folders[0]] + RemoveFolder(folders[1..], p);
      assert Distinct(folders) ==> folders[0] !in folders[1..];
      r
  }

  /** Registering a new folder and unregistering it again restores the list. */
  lemma {:induction false} RegisterUnregister(folders: seq<Path>, p: Path)
    requires p !in folders
    ensures RemoveFolder(AddFolder(folders, p), p) == folders
  {
    if folders != [] {
      var added := folders + [p];
      assert added[0] == folders[0] && added[0] != p;
      assert added[1..] == folders[1..] + [p];
      RegisterUnregister(folders[1..], p);
      assert [folders[0]] + folders[1..] == folders;
    }
  }

  // ------------------------------------------------------------ statistics

  const IndexableExtensions: seq<string> := [".txt", ".docx", ".png", ".jpg", ".jpeg"]
  const TextExtensions: set<string> := {".txt", ".docx"}
  const ImageExtensions: set<string> := {".png", ".jpg", ".jpeg"}

  /** One row of `file_types`. */
  datatype ExtTally = ExtTally(count: nat, totalSize: int, totalChunks: int)

  function Ext(e: Index.FileIndexEntry): string {
    LowerStr(e.extension)
  }

  /** The number of entries whose lower-cased extension is `k`. */
  function CountExt(es: seq<Index.FileIndexEntry>, k: string): nat {
    if es == [] then 0 else CountExt(es[..|es| - 1], k) + (if Ext(es[|es| - 1]) == k then 1 else 0)
  }

  /** `if entry.num_chunks: ... += entry.num_chunks` */
  function ChunksOf(e: Index.FileIndexEntry): int {
    if e.numChunks.Some? then e.numChunks.value else 0
  }

  /** `file_types` after the loop over `es`: one row per lower-cased
      extension met, counting its entries. */
  function FileTypes(es: seq<Index.FileIndexEntry>): map<string, ExtTally> {
    if es == [] then map[] else AddEntry(FileTypes(es[..|es| - 1]), es[|es| - 1])
  }

  /** One more entry `e` in `file_types`. */
  function AddEntry(m: map<string, ExtTally>, e: Index.FileIndexEntry): (r: map<string, ExtTally>)
    ensures r.Keys == m.Keys + {Ext(e)}
    ensures forall k :: k in m && k != Ext(e) ==> r[k] == m[k]
    ensures r[Ext(e)].count == (if Ext(e) in m then m[Ext(e)].count else 0) + 1
  {
    var row := if Ext(e) in m then m[Ext(e)] else ExtTally(0, 0, 0);
    m[Ext(e) := ExtTally(row.count + 1, row.totalSize + e.fileSize, row.totalChunks + ChunksOf(e))]
  }

  /** `file_types` has one row per lower-cased extension met, counting its entries. */
  lemma {:induction false} FileTypesCount(es: seq<Index.FileIndexEntry>, k: string)
    ensures k in FileTypes(es) <==> CountExt(es, k) > 0
    ensures k in FileTypes(es) ==> FileTypes(es)[k].count == CountExt(es, k)
  {
    if es != [] {
      FileTypesCount(es[..|es| - 1], k);
    }
  }

  lemma FileTypesStep(es: seq<Index.FileIndexEntry>, i: nat)
    requires i < |es|
    ensures FileTypes(es[..i + 1]) == AddEntry(FileTypes(es[..i]), es[i])
  {
    assert es[..i + 1][..i] == es[..i];
  }

  /** The counts of `keys` added up. */
  function SumCounts(es: seq<Index.FileIndexEntry>, keys: seq<string>): nat {
    if keys == [] then 0 else CountExt(es, keys[0]) + SumCounts(es, keys[1..])
  }

  function Occurrences(keys: seq<string>, k: string): nat {
    if keys == [] then 0 else (if keys[0] == k then 1 else 0) + Occurrences(keys[1..], k)
  }

  lemma {:induction false} SumCountsStep(es: seq<Index.FileIndexEntry>, e: Index.FileIndexEntry, keys: seq<string>)
    ensures SumCounts(es + [e], keys) == SumCounts(es, keys) + Occurrences(keys, Ext(e))
  {
    assert (es + [e])[..|es + [e]| - 1] == es;
    if keys != [] {
      SumCountsStep(es, e, keys[1..]);
    }
  }

  lemma {:induction false} OccursOnce(keys: seq<string>, k: string)
    requires Distinct(keys) && k in keys
    ensures Occurrences(keys, k) == 1
  {
    if keys[0] == k {
      OccursNot(keys[1..], k);
    } else {
      OccursOnce(keys[1..], k);
    }
  }

  lemma {:induction false} OccursNot(keys: seq<string>, k: string)
    requires k !in keys
    ensures Occurrences(keys, k) == 0
  {
    if keys != [] {
      OccursNot(keys[1..], k);
    }
  }

  /** The per-extension counts of `file_types` add up to the number of
      entries: every entry is counted under exactly one extension. */
  lemma {:induction false} FileTypeCountsAddUp(es: seq<Index.FileIndexEntry>, keys: seq<string>)
    requires Distinct(keys)
    requires forall e :: e in es ==> Ext(e) in keys
    ensures SumCounts(es, keys) == |es|
    decreases |es|
  {
    if es == [] {
      ZeroCounts(keys);
    } else {
      var front := es[..|es| - 1];
      var e := es[|es| - 1];
      assert es == front + [e];
      forall x | x in front ensures Ext(x) in keys {
        assert x in es;
      }
      FileTypeCountsAddUp(front, keys);
      SumCountsStep(front, e, keys);
      assert e in es;
      OccursOnce(keys, Ext(e));
    }
  }

  lemma {:induction false} ZeroCounts(keys: seq<string>)
    ensures SumCounts([], keys) == 0
  {
    if keys != [] {
      ZeroCounts(keys[1..]);
    }
  }

  /** `sum(1 for e in entries if e.extension.lower() in image_extensions)` */
  function ImageCount(es: seq<Index.FileIndexEntry>): nat {
    if es == [] then 0 else (if Ext(es[0]) in ImageExtensions then 1 else 0) + ImageCount(es[1..])
  }

  /** `sum(e.num_chunks or 0 for e in entries)` */
  function AllChunks(es: seq<Index.FileIndexEntry>): int {
    if es == [] then 0 else ChunksOf(es[0]) + AllChunks(es[1..])
  }

  /** A path the `rglob` loop of `get_stats` counts: a file below the work
      tree, outside `.filex`, whose lower-cased suffix is indexable. */
  predicate StatsEligible(fs: FS.FileSystem, workTree: Path, q: Path) {
    fs.IsFile(q) && StrictlyBelow(q, workTree) && !HasComponent(q, Repo.RepoDirName) &&
    LowerSuffix(q) in IndexableExtensions
  }

  /** `eligible_files`: the paths of the walk the statistics count, in walk order. */
  function EligibleFiles(fs: FS.FileSystem, workTree: Path, walk: seq<Path>): seq<Path> {
    if walk == [] then []
    else
      var last := walk[|walk| - 1];
      EligibleFiles(fs, workTree, walk[..|walk| - 1]) + (if StatsEligible(fs, workTree, last) then [last] else [])
  }

  lemma IndexableIsLower()
    ensures RepoManager.Lowered(IndexableExtensions) == IndexableExtensions
  {
    RepoManager.LoweredFixed(IndexableExtensions);
  }

  /** The statistics count a path exactly when a recursive `index_directory`
      with the default extensions collects it. */
  lemma StatsEligibleIsEligible(fs: FS.FileSystem, workTree: Path, q: Path)
    ensures StatsEligible(fs, workTree, q) <==> RepoManager.Eligible(fs, workTree, true, Some(IndexableExtensions), q)
  {
    IndexableIsLower();
  }

  /** The eligible files are exactly the paths of the walk the statistics count. */
  lemma {:induction false} EligibleAreIndexable(fs: FS.FileSystem, workTree: Path, walk: seq<Path>)
    ensures forall q :: q in EligibleFiles(fs, workTree, walk) <==> q in walk && StatsEligible(fs, workTree, q)
  {
    if walk != [] {
      var front := walk[..|walk| - 1];
      EligibleAreIndexable(fs, workTree, front);
      assert walk == front + [walk[|walk| - 1]];
    }
  }

  /** One row of `eligible_file_types`. */
  datatype EligibleTally = EligibleTally(count: nat, totalSize: int)

  /** The size `stat()` reports; a failing `stat()` adds nothing. */
  function SizeOf(fs: FS.FileSystem, q: Path): int {
    match FS.FileSize(fs, q)
    case Ok(v) => v
    case Err(_) => 0
  }

  /** The number of files whose lower-cased suffix lies in `exts`. */
  function CountSuffixIn(files: seq<Path>, exts: set<string>): nat {
    if files == [] then 0
    else CountSuffixIn(files[..|files| - 1], exts) + (if LowerSuffix(files[|files| - 1]) in exts then 1 else 0)
  }

  /** The number of files whose lower-cased suffix is `k`. */
  function SuffixCount(files: seq<Path>, k: string): nat {
    if files == [] then 0
    else SuffixCount(files[..|files| - 1], k) + (if LowerSuffix(files[|files| - 1]) == k then 1 else 0)
  }

  /** One more file of suffix `k` and size `size` in `eligible_file_types`. */
  function Bump(m: map<string, EligibleTally>, k: string, size: int): map<string, EligibleTally> {
    var row := if k in m then m[k] else EligibleTally(0, 0);
    m[k := EligibleTally(row.count + 1, row.totalSize + size)]
  }

  lemma BumpRow(m: map<string, EligibleTally>, k0: string, size: int, k: string)
    ensures k in Bump(m, k0, size) <==> k in m || k == k0
    ensures k in Bump(m, k0, size) ==>
      Bump(m, k0, size)[k].count == (if k in m then m[k].count else 0) + (if k == k0 then 1 else 0)
  {
  }

  /** `eligible_file_types` after the loop: one row per lower-cased suffix,
      counting its files. */
  function EligibleTypes(fs: FS.FileSystem, files: seq<Path>): map<string, EligibleTally> {
    if files == [] then map[]
    else Bump(EligibleTypes(fs, files[..|files| - 1]), LowerSuffix(files[|files| - 1]), SizeOf(fs, files[|files| - 1]))
  }

  /** `eligible_file_types` has one row per lower-cased suffix met, counting its files. */
  lemma {:induction false} EligibleTypesCount(fs: FS.FileSystem, files: seq<Path>, k: string)
    ensures k in EligibleTypes(fs, files) <==> SuffixCount(files, k) > 0
    ensures k in EligibleTypes(fs, files) ==> EligibleTypes(fs, files)[k].count == SuffixCount(files, k)
  {
    if files != [] {
      var front := files[..|files| - 1];
      var q := files[|files| - 1];
      EligibleTypesCount(fs, front, k);
      BumpRow(EligibleTypes(fs, front), LowerSuffix(q), SizeOf(fs, q), k);
    }
  }

  function TotalSize(fs: FS.FileSystem, files: seq<Path>): int {
    if files == [] then 0 else TotalSize(fs, files[..|files| - 1]) + SizeOf(fs, files[|files| - 1])
  }

  /** An indexable extension is a text extension or an image extension, not both. */
  lemma IndexableSplits(x: string)
    requires x in IndexableExtensions
    ensures (x in TextExtensions) != (x in ImageExtensions)
  {
  }

  /** Eligible files are text or image files, never both. */
  lemma {:induction false} TextAndImageSplitEligible(files: seq<Path>)
    requires forall q :: q in files ==> LowerSuffix(q) in IndexableExtensions
    ensures CountSuffixIn(files, TextExtensions) + CountSuffixIn(files, ImageExtensions) == |files|
  {
    if files != [] {
      var front := files[..|files| - 1];
      var q := files[|files| - 1];
      assert files == front + [q];
      forall x | x in front ensures LowerSuffix(x) in IndexableExtensions {
        assert x in files;
      }
      TextAndImageSplitEligible(front);
      assert q in files;
      IndexableSplits(LowerSuffix(q));
    }
  }

  datatype IndexStatistics = IndexStatistics(totalIndexedFiles: nat, textFiles: nat, imageFiles: nat,
                                             nonTextFiles: int, totalChunks: int)

  datatype EligibleStatistics = EligibleStatistics(totalFiles: nat, textFiles: nat, imageFiles: nat,
                                                   totalSizeBytes: int)

  /** `get_stats`' reply; the storage sizes are not part of this record. */
  datatype RepoStats = RepoStats(repositoryPath: Path, workTree: Path, index: IndexStatistics,
                                 search: SearchCore.IndexStats, fileTypes: map<string, ExtTally>,
                                 eligibleFileTypes: map<string, EligibleTally>, eligible: EligibleStatistics)

  datatype StatsResponse = StatsOk(stats: RepoStats) | StatsError(code: int, detail: string)

  /** `if request.repo_path:` the path must be an existing directory. */
  function StatsCheck(fs: FS.FileSystem, repoPath: Option<Path>): (r: Option<(int, string)>)
    ensures r.Some? ==> repoPath.Some? && !fs.IsDir(repoPath.value)
    ensures r.Some? && r.value.0 == 404 <==> repoPath.Some? && repoPath.value != "" && !fs.Exists(repoPath.value)
    ensures repoPath.Some? && repoPath.value != "" && !fs.IsDir(repoPath.value) ==> r.Some?
  {
    if repoPath.None? || repoPath.value == "" then None
    else if !fs.Exists(repoPath.value) then Some((404, "Path does not exist: " + repoPath.value))
    else if !fs.IsDir(repoPath.value) then Some((400, "Path is not a directory: " + repoPath.value))
    else None
  }

  /** As written, `get_stats` catches its own `HTTPException` in the general
      handler and re-raises it as a 500 whose detail is the exception's
      string, status code first. */
  function StatsCheckAsWritten(fs: FS.FileSystem, repoPath: Option<Path>): (r: Option<(int, string)>)
    ensures r.Some? <==> StatsCheck(fs, repoPath).Some?
    ensures r.Some? ==>
      r.value.0 == 500 && |StatsCheck(fs, repoPath).value.1| <= |r.value.1| &&
      r.value.1[|r.value.1| - |StatsCheck(fs, repoPath).value.1|..] == StatsCheck(fs, repoPath).value.1
  {
    match StatsCheck(fs, repoPath)
    case None => None
    case Some((code, detail)) => Some((500, NatToString(code) + ": " + detail))
  }

  /** A missing repository path is reported as a server error, not as 404. */
  lemma MissingPathIsServerError(fs: FS.FileSystem, p: Path)
    requires p != "" && !fs.Exists(p)
    ensures StatsCheckAsWritten(fs, Some(p)).Some? && StatsCheckAsWritten(fs, Some(p)).value.0 == 500
    ensures StatsCheck(fs, Some(p)) == Some((404, "Path does not exist: " + p))
  {
  }

  /** The `file_types` loop of `get_stats`. */
  method TallyFileTypes(es: seq<Index.FileIndexEntry>) returns (fileTypes: map<string, ExtTally>)
    ensures fileTypes == FileTypes(es)
  {
    fileTypes := map[];
    for i := 0 to |es|
      invariant fileTypes == FileTypes(es[..i])
    {
      FileTypesStep(es, i);
      fileTypes := AddEntry(fileTypes, es[i]);
    }
    assert es[..|es|] == es;
  }

  lemma EligibleStep(fs: FS.FileSystem, files: seq<Path>, q: Path)
    ensures EligibleTypes(fs, files + [q]) == Bump(EligibleTypes(fs, files), LowerSuffix(q), SizeOf(fs, q))
    ensures TotalSize(fs, files + [q]) == TotalSize(fs, files) + SizeOf(fs, q)
  {
    var all := files + [q];
    assert all[..|all| - 1] == files;
    assert all[|all| - 1] == q;
  }

  lemma EligiblePrefixStep(fs: FS.FileSystem, workTree: Path, walk: seq<Path>, i: nat)
    requires i < |walk|
    ensures EligibleFiles(fs, workTree, walk[..i + 1]) ==
      EligibleFiles(fs, workTree, walk[..i]) + (if StatsEligible(fs, workTree, walk[i]) then [walk[i]] else [])
  {
    var all := walk[..i + 1];
    assert all[..|all| - 1] == walk[..i];
    assert all[|all| - 1] == walk[i];
  }

  /** Counts one eligible file into `eligible_file_types` and `total_size`. */
  method TallyOne(fs: FS.FileSystem, files: seq<Path>, types: map<string, EligibleTally>, size: int, q: Path)
    returns (files': seq<Path>, types': map<string, EligibleTally>, size': int)
    requires types == EligibleTypes(fs, files) && size == TotalSize(fs, files)
    ensures files' == files + [q]
    ensures types' == EligibleTypes(fs, files') && size' == TotalSize(fs, files')
  {
    EligibleStep(fs, files, q);
    types' := Bump(types, LowerSuffix(q), SizeOf(fs, q));
    size' := size + SizeOf(fs, q);
    files' := files + [q];
  }

  /** One path of the `rglob` loop: an eligible path is counted, any other is passed over. */
  method TallyPath(fs: FS.FileSystem, workTree: Path, q: Path,
                   files: seq<Path>, types: map<string, EligibleTally>, size: int)
    returns (files': seq<Path>, types': map<string, EligibleTally>, size': int)
    requires types == EligibleTypes(fs, files) && size == TotalSize(fs, files)
    ensures files' == files + (if StatsEligible(fs, workTree, q) then [q] else [])
    ensures types' == EligibleTypes(fs, files') && size' == TotalSize(fs, files')
  {
    files', types', size' := files, types, size;
    // below the work tree, outside `.filex`, with an indexable extension
    if StatsEligible(fs, workTree, q) {
      files', types', size' := TallyOne(fs, files, types, size, q);
    } else {
      assert files + [] == files;
    }
  }

  /** The `rglob` loop of `get_stats`. */
  method TallyEligible(fs: FS.FileSystem, workTree: Path, walk: seq<Path>)
    returns (eligible: seq<Path>, eligibleTypes: map<string, EligibleTally>, totalSize: int)
    ensures eligible == EligibleFiles(fs, workTree, walk)
    ensures eligibleTypes == EligibleTypes(fs, eligible)
    ensures totalSize == TotalSize(fs, eligible)
  {
    eligible, eligibleTypes, totalSize := [], map[], 0;
    for i := 0 to |walk|
      invariant eligible == EligibleFiles(fs, workTree, walk[..i])
      invariant eligibleTypes == EligibleTypes(fs, eligible)
      invariant totalSize == TotalSize(fs, eligible)
    {
      EligiblePrefixStep(fs, workTree, walk, i);
      eligible, eligibleTypes, totalSize := TallyPath(fs, workTree, walk[i], eligible, eligibleTypes, totalSize);
    }
    assert walk[..|walk|] == walk;
  }

  class GlobalState {
    var tasks: map<Path, Task>
    var folders: seq<Path>

    predicate Valid()
      reads this
    {
      forall id :: id in tasks ==> Sane(tasks[id])
    }

    /** The state at start-up: no tasks, and the folders saved on disk. */
    constructor (saved: seq<Path>)
      ensures Valid() && tasks == map[] && folders == saved
    {
      tasks := map[];
      folders := saved;
    }

    /** `index_files`: validates the request, then claims the repository's
        task entry unless a task for it is still running. `got` is what
        `get_repo_manager` returned for the request. */
    method IndexFiles(fs: FS.FileSystem, repoPath: Option<Path>, got: Result<RepoManager.RepositoryManager>)
      returns (r: IndexResponse)
      requires Valid()
      modifies this
      ensures Valid() && folders == old(folders)
      ensures (repoPath.None? || repoPath.value == "") ==> r == Rejected(400, "repo_path is required")
      ensures repoPath.Some? && repoPath.value != "" && !fs.Exists(repoPath.value) ==>
        r == Rejected(404, "Path does not exist: " + repoPath.value)
      ensures repoPath.Some? && repoPath.value != "" && fs.Exists(repoPath.value) && !fs.IsDir(repoPath.value) ==>
        r == Rejected(400, "Path is not a directory: " + repoPath.value)
      ensures repoPath.Some? && repoPath.value != "" && fs.IsDir(repoPath.value) && got.Err? ==>
        r == (if got.error.ValueError? then Rejected(400, got.error.msg)
              else Rejected(500, "Failed to start indexing: " + got.error.msg))
      ensures !r.Started? ==> tasks == old(tasks)
      ensures r.Conflict? ==> (r.taskId in tasks && Active(tasks[r.taskId].status) &&
        r.status == tasks[r.taskId].status && r.indexed == tasks[r.taskId].indexed && r.total == tasks[r.taskId].total)
      ensures repoPath.Some? && repoPath.value != "" && fs.IsDir(repoPath.value) && got.Ok? ==>
        (var id := got.value.repository.repoPath;
         (id in old(tasks) && Active(old(tasks)[id].status) ==> r.Conflict? && r.taskId == id) &&
         (!(id in old(tasks) && Active(old(tasks)[id].status)) ==> r == Started(id) && tasks == old(tasks)[id := Fresh]))
    {
      if repoPath.None? || repoPath.value == "" {
        return Rejected(400, "repo_path is required");
      }
      var p := repoPath.value;
      if !fs.Exists(p) {
        return Rejected(404, "Path does not exist: " + p);
      }
      if !fs.IsDir(p) {
        return Rejected(400, "Path is not a directory: " + p);
      }
      if got.Err? {
        if got.error.ValueError? {
          return Rejected(400, got.error.msg);
        }
        return Rejected(500, "Failed to start indexing: " + got.error.msg);
      }
      var id := got.value.repository.repoPath;
      if id in tasks && Active(tasks[id].status) {
        var existing := tasks[id];
        return Conflict(id, existing.status, existing.indexed, existing.total);
      }
      tasks := tasks[id := Fresh];
      return Started(id);
    }

    /** The indexing call of `index_task`: one file, or a directory walk
        with the default extensions unless the request names some. */
    static method Perform(manager: RepoManager.RepositoryManager, fs: FS.FileSystem, walk: seq<Path>,
                          path: Option<Path>, force: bool, recursive: bool, extensions: Option<seq<string>>, now: int)
      returns (w: Work)
      requires manager.Valid()
      requires forall q :: q in walk <==> q in fs.nodes
      modifies manager.indexManager, manager.storageManager, manager.searchManager
      ensures manager.Valid() && WorkSane(w)
      ensures var single := path.Some? && path.value != "" && fs.IsFile(path.value);
        var dir := if path.Some? && path.value != "" then path.value else manager.repository.WorkTreeRoot();
        var exts := if extensions.Some? then extensions.value else IndexableExtensions;
        (single ==>
          (!w.DirectoryDone? &&
           (w == FileDone(true) <==> old(manager.IndexesFile(fs, path.value, force))) &&
           (w == FileDone(false) <==> old(manager.SkipsFile(fs, path.value, force))) &&
           (w.Raised? <==> !old(manager.SkipsFile(fs, path.value, force)) && !old(manager.IndexesFile(fs, path.value, force))))) &&
        (!single ==>
          (!w.FileDone? && (w.Raised? <==> !fs.IsDir(dir)) &&
           (w.Raised? ==> w.message == "Directory not found") &&
           (w.DirectoryDone? ==>
              w.stats.totalFiles == |RepoManager.FilesToIndex(fs, dir, recursive, Some(exts), walk)| &&
              w.stats.indexed + w.stats.skipped + w.stats.errors == w.stats.totalFiles &&
              RepoManager.AgreeOutside(old(manager.indexManager.rows), manager.indexManager.rows,
                                       RepoManager.FilesToIndex(fs, dir, recursive, Some(exts), walk)) &&
              (manager.processor.Some? ==>
                 forall q :: (q in RepoManager.FilesToIndex(fs, dir, recursive, Some(exts), walk) &&
                              old(FileProcessor.RouteSpec(manager.processor.value.handlers, fs, q)).Ok?) ==>
                   manager.indexManager.IsIndexed(q)))))
    {
      var exts := if extensions.Some? then extensions.value else IndexableExtensions;
      if path.Some? && path.value != "" {
        if fs.IsFile(path.value) {
          var r := manager.IndexFile(fs, path.value, force, now);
          if r.Err? {
            return Raised(r.error.msg);
          }
          return FileDone(r.value.Indexed?);
        }
        var stats := manager.IndexDirectory(fs, walk, Some(path.value), recursive, Some(exts), force, now);
        return if stats.Err? then Raised(stats.error.msg) else DirectoryDone(stats.value);
      }
      var stats := manager.IndexDirectory(fs, walk, None, recursive, Some(exts), force, now);
      return if stats.Err? then Raised(stats.error.msg) else DirectoryDone(stats.value);
    }

    /** `index_task`, run after `index_files` has claimed the entry `id`. If
        the entry has gone, the background job fails before it indexes anything. */
    method RunIndexTask(id: Path, manager: RepoManager.RepositoryManager, fs: FS.FileSystem, walk: seq<Path>,
                        path: Option<Path>, force: bool, recursive: bool, extensions: Option<seq<string>>, now: int)
      returns (w: Option<Work>)
      requires Valid() && manager.Valid()
      requires forall q :: q in walk <==> q in fs.nodes
      modifies this, manager.indexManager, manager.storageManager, manager.searchManager
      ensures Valid() && manager.Valid() && folders == old(folders)
      ensures id !in old(tasks) ==> w.None? && tasks == old(tasks)
      ensures id in old(tasks) ==>
        (w.Some? && WorkSane(w.value) && tasks == old(tasks)[id := Finish(Begin(old(tasks)[id]), w.value)])
    {
      if id !in tasks {
        return None;
      }
      tasks := tasks[id := Begin(tasks[id])];
      var work := Perform(manager, fs, walk, path, force, recursive, extensions, now);
      tasks := tasks[id := Finish(tasks[id], work)];
      return Some(work);
    }

    /** `get_progress` */
    function GetProgress(id: Path): (p: Progress)
      reads this
      ensures id !in tasks <==> p == NotFound
      ensures id in tasks ==>
        (p.status == StatusName(tasks[id].status) &&
         (p.indexed, p.total, p.errors) == (tasks[id].indexed, tasks[id].total, tasks[id].errors) &&
         p.message == tasks[id].message && p.error == tasks[id].error)
    {
      if id in tasks then ProgressOf(tasks[id]) else NotFound
    }

    /** `clear_progress`: only a finished task's entry can be removed. */
    method ClearProgress(id: Path) returns (r: ClearResponse)
      requires Valid()
      modifies this
      ensures Valid() && folders == old(folders)
      ensures id !in old(tasks) ==> r == Refused(404, "No progress found for this repository") && tasks == old(tasks)
      ensures id in old(tasks) && Active(old(tasks)[id].status) ==>
        r == Refused(400, "Cannot clear progress for active indexing task") && tasks == old(tasks)
      ensures id in old(tasks) && !Active(old(tasks)[id].status) ==>
        r == Cleared("Progress cleared") && tasks == old(tasks) - {id}
    {
      if id !in tasks {
        return Refused(404, "No progress found for this repository");
      }
      if Active(tasks[id].status) {
        return Refused(400, "Cannot clear progress for active indexing task");
      }
      tasks := tasks - {id};
      return Cleared("Progress cleared");
    }

    /** `register_folder` */
    method RegisterFolder(fs: FS.FileSystem, p: Path) returns (r: FolderResponse)
      modifies this
      ensures tasks == old(tasks)
      ensures !fs.Exists(p) ==> r == FolderError(404, "Path does not exist: " + p) && folders == old(folders)
      ensures fs.Exists(p) && !fs.IsDir(p) ==> r == FolderError(400, "Path is not a directory: " + p) && folders == old(folders)
      ensures fs.IsDir(p) ==>
        (folders == AddFolder(old(folders), p) && r == Folders("Folder registered successfully", folders, |folders|))
    {
      if !fs.Exists(p) {
        return FolderError(404, "Path does not exist: " + p);
      }
      if !fs.IsDir(p) {
        return FolderError(400, "Path is not a directory: " + p);
      }
      if p !in folders {
        folders := folders + [p];
      }
      return Folders("Folder registered successfully", folders, |folders|);
    }

    /** `unregister_folder` */
    method UnregisterFolder(p: Path) returns (r: FolderResponse)
      modifies this
      ensures tasks == old(tasks)
      ensures folders == RemoveFolder(old(folders), p)
      ensures r == Folders("Folder unregistered successfully", folders, |folders|)
    {
      folders := RemoveFolder(folders, p);
      return Folders("Folder unregistered successfully", folders, |folders|);
    }

    /** `get_registered_folders` */
    function GetRegisteredFolders(): (r: FolderResponse)
      reads this
      ensures r.Listed? && r.folders == folders && r.count == |folders|
    {
      Listed(folders, |folders|)
    }

    /** `get_stats` for the repository `manager` manages; `walk` is what
        `rglob` meets in the file system. */
    method GetStats(fs: FS.FileSystem, walk: seq<Path>, repoPath: Option<Path>,
                    manager: RepoManager.RepositoryManager) returns (r: StatsResponse)
      requires manager.Valid()
      ensures StatsCheck(fs, repoPath).Some? ==>
        r == StatsError(StatsCheck(fs, repoPath).value.0, StatsCheck(fs, repoPath).value.1)
      ensures StatsCheck(fs, repoPath).None? ==>
        r.StatsOk? &&
        (var s := r.stats; var es := manager.indexManager.GetAllEntries();
         var eligible := EligibleFiles(fs, manager.repository.WorkTreeRoot(), walk);
         s.repositoryPath == manager.repository.repoPath &&
         s.workTree == manager.repository.WorkTreeRoot() &&
         s.index == IndexStatistics(|es|, RepoManager.TextCount(es), ImageCount(es),
                                    |es| - RepoManager.TextCount(es), AllChunks(es)) &&
         s.index.nonTextFiles == RepoManager.NonTextCount(es) &&
         s.search == manager.searchManager.GetIndexStats() &&
         s.fileTypes == FileTypes(es) &&
         s.eligibleFileTypes == EligibleTypes(fs, eligible) &&
         s.eligible.totalFiles == |eligible| &&
         s.eligible.textFiles == CountSuffixIn(eligible, TextExtensions) &&
         s.eligible.imageFiles == CountSuffixIn(eligible, ImageExtensions) &&
         s.eligible.textFiles + s.eligible.imageFiles == s.eligible.totalFiles &&
         s.eligible.totalSizeBytes == TotalSize(fs, eligible))
    {
      var check := StatsCheck(fs, repoPath);
      if check.Some? {
        return StatsError(check.value.0, check.value.1);
      }
      var workTree := manager.repository.WorkTreeRoot();
      var es := manager.indexManager.GetAllEntries();
      var fileTypes := TallyFileTypes(es);
      RepoManager.CountsPartition(es);
      var eligible, eligibleTypes, totalSize := TallyEligible(fs, workTree, walk);
      EligibleAreIndexable(fs, workTree, walk);
      TextAndImageSplitEligible(eligible);
      var text := RepoManager.TextCount(es);
      var stats := RepoStats(
        manager.repository.repoPath, workTree,
        IndexStatistics(|es|, text, ImageCount(es), |es| - text, AllChunks(es)),
        manager.searchManager.GetIndexStats(), fileTypes, eligibleTypes,
        EligibleStatistics(|eligible|, CountSuffixIn(eligible, TextExtensions),
                           CountSuffixIn(eligible, ImageExtensions), totalSize));
      return StatsOk(stats);
    }
  }

  /** The statistics' eligible files are the files a recursive reindex with
      the default extensions indexes, whatever order the walk lists them in. */
  lemma EligibleAreWhatReindexIndexes(fs: FS.FileSystem, workTree: Path, walk: seq<Path>)
    requires Distinct(walk)
    requires forall q :: q in walk <==> q in fs.nodes
    ensures |EligibleFiles(fs, workTree, walk)| ==
      |RepoManager.FilesToIndex(fs, workTree, true, Some(IndexableExtensions), walk)|
  {
    var eligible := EligibleFiles(fs, workTree, walk);
    var files := RepoManager.FilesToIndex(fs, workTree, true, Some(IndexableExtensions), walk);
    RepoManager.FilesToIndexIsSortedEligible(fs, workTree, true, Some(IndexableExtensions), walk, walk);
    EligibleAreIndexable(fs, workTree, walk);
    forall q ensures q in eligible <==> q in files {
      StatsEligibleIsEligible(fs, workTree, q);
    }
    EligibleKeepsDistinct(fs, workTree, walk);
    DistinctCardinality(eligible);
    DistinctCardinality(files);
    assert Elements(eligible) == Elements(files);
  }

  /** A walk without repeats gives eligible files without repeats. */
  lemma {:induction false} EligibleKeepsDistinct(fs: FS.FileSystem, workTree: Path, walk: seq<Path>)
    requires Distinct(walk)
    ensures Distinct(EligibleFiles(fs, workTree, walk))
  {
    if walk != [] {
      var front := walk[..|walk| - 1];
      assert Distinct(front);
      EligibleKeepsDistinct(fs, workTree, front);
      EligibleAreIndexable(fs, workTree, front);
      assert walk[|walk| - 1] !in front;
    }
  }
}
