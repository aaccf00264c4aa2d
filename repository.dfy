/** `Repository`: the `.filex` directory found by walking up from a start
    path, or created there, and the layout of its subdirectories. */
module Repo {
  import opened Wrappers
  import opened Text
  import opened Paths
  import FS = FileSystem

  const RepoDirName := ".filex"
  const IndexDirName := "index"
  const EmbeddingsDirName := "embeddings"
  const MetadataDirName := "metadata"
  const IndexDbName := "index.db"

  datatype RepositoryConfig = RepositoryConfig(
    repoPath: Path,
    indexDir: Path,
    embeddingsDir: Path,
    metadataDir: Path,
    indexDbPath: Path)

  /** `p` and its ancestors, nearest first, ending at the root. */
  function Ancestors(p: Path): (a: seq<Path>)
    ensures a != [] && a[0] == p
    decreases |p|
  {
    if Parent(p) == p then [p] else [p] + Ancestors(Parent(p))
  }

  /** Specification of `find_repository`: the `.filex` directory of the nearest
      of `p` and its ancestors that has one. */
  function FindFrom(fs: FS.FileSystem, p: Path): Option<Path>
    decreases |p|
  {
    var candidate := Child(p, RepoDirName);
    if fs.IsDir(candidate) then Some(candidate)
    else if Parent(p) == p then None
    else FindFrom(fs, Parent(p))
  }

  /** `Repository.find_repository`, with the source's loop. */
  method FindRepository(fs: FS.FileSystem, start: Path) returns (r: Option<Path>)
    ensures r == FindFrom(fs, start)
  {
    var current := start;
    while true
      invariant FindFrom(fs, current) == FindFrom(fs, start)
      decreases |current|
    {
      var repoPath := Child(current, RepoDirName);
      if fs.Exists(repoPath) && fs.IsDir(repoPath) {
        return Some(repoPath);
      }
      var parent := Parent(current);
      if parent == current {
        break;
      }
      current := parent;
    }
    return None;
  }

  /** `found` is the `.filex` directory of `a[i]`, and no earlier entry has one. */
  predicate NearestAt(fs: FS.FileSystem, a: seq<Path>, i: nat, found: Path)
    requires i < |a|
  {
    found == Child(a[i], RepoDirName) && fs.IsDir(found) &&
    forall j :: 0 <= j < i ==> !fs.IsDir(Child(a[j], RepoDirName))
  }

  /** `None` means no ancestor has a `.filex` directory. */
  lemma {:induction false} FindNoneMeansNone(fs: FS.FileSystem, p: Path)
    requires FindFrom(fs, p).None?
    ensures forall i :: 0 <= i < |Ancestors(p)| ==> !fs.IsDir(Child(Ancestors(p)[i], RepoDirName))
    decreases |p|
  {
    var a := Ancestors(p);
    if Parent(p) != p {
      FindNoneMeansNone(fs, Parent(p));
      var b := Ancestors(Parent(p));
      assert a == [p] + b;
      assert forall j :: 1 <= j < |a| ==> a[j] == b[j - 1];
    } else {
      assert a == [p];
    }
  }

  /** An entry with no `.filex` directory in front of the list moves the
      nearest one back by one place. */
  lemma NearestShift(fs: FS.FileSystem, p: Path, b: seq<Path>, i: nat, found: Path)
    requires i < |b| && NearestAt(fs, b, i, found) && !fs.IsDir(Child(p, RepoDirName))
    ensures NearestAt(fs, [p] + b, i + 1, found)
  {
    var a := [p] + b;
    assert a[i + 1] == b[i];
    assert forall j :: 1 <= j < i + 1 ==> a[j] == b[j - 1];
  }

  /** A found directory is the `.filex` directory of the nearest ancestor
      that has one: every nearer ancestor has none. */
  lemma {:induction false} FindSomeIsNearest(fs: FS.FileSystem, p: Path)
    requires FindFrom(fs, p).Some?
    ensures exists i: nat :: i < |Ancestors(p)| && NearestAt(fs, Ancestors(p), i, FindFrom(fs, p).value)
    decreases |p|
  {
    var a := Ancestors(p);
    var found := FindFrom(fs, p).value;
    if fs.IsDir(Child(p, RepoDirName)) {
      assert NearestAt(fs, a, 0, found);
    } else {
      FindSomeIsNearest(fs, Parent(p));
      var b := Ancestors(Parent(p));
      assert a == [p] + b;
      var i: nat :| i < |b| && NearestAt(fs, b, i, found);
      NearestShift(fs, p, b, i, found);
      assert NearestAt(fs, a, i + 1, found);
    }
  }

  /** `create_repository`: an existing `.filex` (file or directory) is
      returned untouched; otherwise it is created with its three subdirectories. */
  function CreateRepository(fs: FS.FileSystem, location: Path): (r: (FS.FileSystem, Path))
    ensures r.1 == Child(location, RepoDirName)
    ensures fs.Exists(r.1) ==> r.0 == fs
    ensures !fs.Exists(r.1) ==> (r.0.IsDir(r.1) &&
      r.0.Exists(Child(r.1, IndexDirName)) && r.0.Exists(Child(r.1, EmbeddingsDirName)) &&
      r.0.Exists(Child(r.1, MetadataDirName)))
    ensures forall q :: q in fs.nodes ==> q in r.0.nodes && r.0.nodes[q] == fs.nodes[q]
  {
    var repoPath := Child(location, RepoDirName);
    if fs.Exists(repoPath) then (fs, repoPath)
    else
      var fs1 := fs.MakeDir(repoPath);
      var fs2 := fs1.MakeDir(Child(repoPath, IndexDirName));
      var fs3 := fs2.MakeDir(Child(repoPath, EmbeddingsDirName));
      var fs4 := fs3.MakeDir(Child(repoPath, MetadataDirName));
      (fs4, repoPath)
  }

  /** `_setup_config` */
  function SetupConfig(repoPath: Path): (c: RepositoryConfig)
    ensures c.repoPath == repoPath
    ensures Parent(c.indexDbPath) == c.indexDir && Name(c.indexDbPath) == IndexDbName
    ensures Parent(c.indexDir) == repoPath && Parent(c.embeddingsDir) == repoPath && Parent(c.metadataDir) == repoPath
    requires WellFormed(repoPath)
  {
    var indexDir := Child(repoPath, IndexDirName);
    ParentOfChild(repoPath, IndexDirName);
    ParentOfChild(repoPath, EmbeddingsDirName);
    ParentOfChild(repoPath, MetadataDirName);
    ParentOfChild(indexDir, IndexDbName);
    RepositoryConfig(repoPath, indexDir, Child(repoPath, EmbeddingsDirName),
                     Child(repoPath, MetadataDirName), Child(indexDir, IndexDbName))
  }

  class Repository {
    const repoPath: Path
    const config: RepositoryConfig

    constructor (repoPath: Path)
      requires WellFormed(repoPath)
      ensures this.repoPath == repoPath && config == SetupConfig(repoPath)
    {
      this.repoPath := repoPath;
      this.config := SetupConfig(repoPath);
    }

    /** `Repository(start_path, create)`: use the repository found from the
        start path; otherwise create one there, or raise without `create`.
        `start` is the resolved start path (the working directory when none
        was given); creating directories yields the new file system. */
    static method Open(fs: FS.FileSystem, start: Path, create: bool) returns (r: Result<Repository>, fs': FS.FileSystem)
      requires WellFormed(start) && fs.Resolved()
      ensures var spec := OpenSpec(fs, start, create);
        (r.Ok? <==> spec.Ok?) && (r.Err? ==> r == Err(spec.error) && fs' == fs) &&
        (r.Ok? ==> (fresh(r.value) && (fs', r.value.repoPath) == spec.value &&
          WellFormed(r.value.repoPath) && r.value.config == SetupConfig(r.value.repoPath)))
    {
      var spec := OpenSpec(fs, start, create);
      if spec.Err? {
        return Err(spec.error), fs;
      }
      fs' := spec.value.0;
      var repo := new Repository(spec.value.1);
      return Ok(repo), fs';
    }

    /** `get_work_tree_root`: the directory holding `.filex`. */
    function WorkTreeRoot(): (r: Path)
      ensures InTree(repoPath, r)
    {
      ParentContains(repoPath);
      Parent(repoPath)
    }

    /** `is_path_in_repo` as written: a string-prefix test. */
    predicate IsPathInRepoAsWritten(filePath: Path)
      ensures IsPathInRepoAsWritten(filePath) ==> |WorkTreeRoot()| <= |filePath|
      ensures filePath == WorkTreeRoot() ==> IsPathInRepoAsWritten(filePath)
    {
      StartsWith(filePath, WorkTreeRoot())
    }

    /** The corrected membership test: the path is the work tree or lies below it. */
    predicate IsPathInRepo(filePath: Path)
      ensures IsPathInRepo(filePath) ==> IsPathInRepoAsWritten(filePath)
      ensures filePath == repoPath ==> IsPathInRepo(filePath)
    {
      InTreeRefinesPrefix(filePath, WorkTreeRoot());
      InTree(filePath, WorkTreeRoot())
    }
  }

  /** The repository `Repository(start_path, create)` settles on, and the file
      system after any directories were created. */
  function OpenSpec(fs: FS.FileSystem, start: Path, create: bool): (r: Result<(FS.FileSystem, Path)>)
    requires WellFormed(start) && fs.Resolved()
    ensures r.Ok? ==> WellFormed(r.value.1)
    ensures FindFrom(fs, start).Some? ==> r == Ok((fs, FindFrom(fs, start).value))
    ensures FindFrom(fs, start).None? && create ==> r == Ok(CreateRepository(fs, start))
    ensures FindFrom(fs, start).None? && !create ==> r.Err? && r.error.FileNotFoundError?
  {
    var found := FindFrom(fs, start);
    if found.Some? then
      FoundIsWellFormed(fs, start);
      Ok((fs, found.value))
    else if create then
      ParentOfChild(start, RepoDirName);
      Ok(CreateRepository(fs, start))
    else Err(FileNotFoundError("No .filex repository found"))
  }

  /** Component-wise containment: `p` is `root` or below it. */
  predicate InTree(p: Path, root: Path) {
    p == root || StartsWith(p, if root == Root then Root else root + "/")
  }

  lemma FoundIsWellFormed(fs: FS.FileSystem, p: Path)
    requires fs.Resolved()
    ensures FindFrom(fs, p).Some? ==> WellFormed(FindFrom(fs, p).value)
    decreases |p|
  {
    if !fs.IsDir(Child(p, RepoDirName)) && Parent(p) != p {
      FoundIsWellFormed(fs, Parent(p));
    }
  }

  /** The work tree of a repository at `<d>/.filex` is `d`. */
  lemma WorkTreeIsParent(d: Path)
    requires WellFormed(d)
    ensures Parent(Child(d, RepoDirName)) == d
  {
    ParentOfChild(d, RepoDirName);
  }

  /** A path lies in the tree of its parent. */
  lemma ParentContains(p: Path)
    ensures InTree(p, Parent(p))
  {
    var i := RFind(p, '/');
    if i > 0 {
      assert p[..i] + "/" == p[..i + 1];
    }
  }

  /** The corrected test implies the as-written one; the two differ exactly on
      paths that extend the root's last component (`/a/bc` against `/a/b`). */
  lemma InTreeRefinesPrefix(p: Path, root: Path)
    ensures InTree(p, root) ==> StartsWith(p, root)
    ensures StartsWith(p, root) && !InTree(p, root) ==> root != Root && |p| > |root| && p[|root|] != '/'
  {
    if root != Root && StartsWith(p, root + "/") {
      assert p[..|root|] == (root + "/")[..|root|] == root;
    }
  }

  /** The as-written test counts `/a/bc` as inside the work tree `/a/b`. */
  lemma PrefixCountsSiblings()
    ensures StartsWith("/a/bc", "/a/b") && !InTree("/a/bc", "/a/b")
  {
    assert "/a/bc"[..4] == "/a/b";
    assert "/a/bc"[..5][4] != "/a/b/"[4];
  }
}
