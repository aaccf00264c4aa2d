/** What both search managers share: a table of embedding rows with one
    metadata record per row, its removal and add steps, its copy on disk, and
    the search result record. Similarity is an injected score function standing for
    the cosine similarity of a row and the query. */
module SearchCore {
  import opened Wrappers
  import opened Paths
  import opened Interfaces
  import opened Ranking

  /** One chunk's metadata dictionary. */
  datatype ChunkMeta = ChunkMeta(filePath: Path, fileName: string, chunkIndex: int, chunkText: string)

  datatype SearchResult = SearchResult(
    filePath: Path, chunkIndex: int, chunkText: string, similarityScore: real, fileName: string)

  /** Cosine similarity of a stored row with the query. */
  type Score = (Vector, Vector) -> real

  /** `_embeddings` and `_metadata` of one table. */
  datatype Table = Table(embeddings: Option<Array>, metadata: seq<ChunkMeta>) {
    /** The rows, none when the array is `None`. */
    function Rows(): seq<Vector> {
      if embeddings.Some? && embeddings.value.Grid? then embeddings.value.rows else []
    }

    /** Row `i` belongs to metadata record `i`; no array means no records. */
    predicate Aligned() {
      (embeddings.None? ==> metadata == []) &&
      (embeddings.Some? ==> (embeddings.value.Grid? && embeddings.value.Shaped() &&
        |embeddings.value.rows| == |metadata|))
    }

    /** `_embeddings is None` exactly when there are no records. */
    predicate Tight() {
      embeddings.None? <==> metadata == []
    }

    predicate HasPath(p: Path) {
      exists i :: 0 <= i < |metadata| && metadata[i].filePath == p
    }
  }

  const Empty := Table(None, [])

  /** The messages of the `ValueError`s `add_file_embeddings` and `search` raise. */
  const CountMismatch: string := "Chunks and embeddings count mismatch"
  const DimensionMismatch: string := "Embedding dimension mismatch"
  const TopKNotPositive: string := "top_k must be positive"

  /** `indices_to_keep` from position `from` on: the rows of other paths, ascending. */
  function KeepFrom(meta: seq<ChunkMeta>, p: Path, from: nat): (idx: seq<nat>)
    requires from <= |meta|
    ensures forall k :: 0 <= k < |idx| ==> from <= idx[k] < |meta|
    ensures forall a, b :: 0 <= a < b < |idx| ==> idx[a] < idx[b]
    ensures forall j: int :: j in idx <==> from <= j < |meta| && meta[j].filePath != p
    decreases |meta| - from
  {
    if from == |meta| then []
    else (if meta[from].filePath != p then [from] else []) + KeepFrom(meta, p, from + 1)
  }

  /** `indices_to_keep` */
  function KeepIndices(meta: seq<ChunkMeta>, p: Path): seq<nat> {
    KeepFrom(meta, p, 0)
  }

  /** `[metadata[i] for i in indices_to_keep]` */
  function KeepMeta(meta: seq<ChunkMeta>, p: Path): (r: seq<ChunkMeta>)
    ensures |r| == |KeepIndices(meta, p)|
    ensures forall k :: 0 <= k < |r| ==> r[k] == meta[KeepIndices(meta, p)[k]]
    ensures forall m :: m in r <==> m in meta && m.filePath != p
  {
    var idx := KeepIndices(meta, p);
    var r := seq(|idx|, k requires 0 <= k < |idx| => meta[idx[k]]);
    assert forall m :: m in meta && m.filePath != p ==> m in r by {
      forall m | m in meta && m.filePath != p ensures m in r {
        var j :| 0 <= j < |meta| && meta[j] == m;
        assert j in idx;
        var k :| 0 <= k < |idx| && idx[k] == j;
        assert r[k] == m;
      }
    }
    r
  }

  /** `embeddings[indices_to_keep]` */
  function KeepRows(rows: seq<Vector>, meta: seq<ChunkMeta>, p: Path): (r: seq<Vector>)
    requires |rows| == |meta|
    ensures |r| == |KeepIndices(meta, p)|
    ensures forall k :: 0 <= k < |r| ==> r[k] == rows[KeepIndices(meta, p)[k]]
  {
    var idx := KeepIndices(meta, p);
    seq(|idx|, k requires 0 <= k < |idx| => rows[idx[k]])
  }

  /** No records of other paths means nothing is kept. */
  lemma {:induction false} KeepNone(meta: seq<ChunkMeta>, p: Path, from: nat)
    requires from <= |meta|
    requires forall i :: from <= i < |meta| ==> meta[i].filePath == p
    ensures KeepFrom(meta, p, from) == []
    decreases |meta| - from
  {
    if from < |meta| {
      KeepNone(meta, p, from + 1);
      assert KeepFrom(meta, p, from) == [] + KeepFrom(meta, p, from + 1);
    }
  }

  /** No records of `p` means every index is kept, in order. */
  lemma {:induction false} KeepAll(meta: seq<ChunkMeta>, p: Path, from: nat)
    requires from <= |meta|
    requires forall i :: from <= i < |meta| ==> meta[i].filePath != p
    ensures |KeepFrom(meta, p, from)| == |meta| - from
    ensures forall k :: 0 <= k < |meta| - from ==> KeepFrom(meta, p, from)[k] == from + k
    decreases |meta| - from
  {
    if from < |meta| {
      KeepAll(meta, p, from + 1);
      var rest := KeepFrom(meta, p, from + 1);
      var all := [from] + rest;
      assert KeepFrom(meta, p, from) == all;
      forall k | 0 <= k < |meta| - from ensures all[k] == from + k {
        if k > 0 {
          assert all[k] == rest[k - 1];
        }
      }
    }
  }

  /** The removal step `remove_file_embeddings` applies to one table. */
  function RemovePath(t: Table, p: Path): (r: Table)
    requires t.Aligned()
    ensures r.Aligned()
    ensures !t.HasPath(p) ==> r == t
    ensures t.HasPath(p) ==> r.metadata == KeepMeta(t.metadata, p)
    ensures t.HasPath(p) ==> r.Rows() == KeepRows(t.Rows(), t.metadata, p)
    ensures !r.HasPath(p)
    ensures t.Tight() ==> r.Tight()
  {
    if !t.HasPath(p) then t
    else
      var keep := KeepMeta(t.metadata, p);
      if keep == [] then Empty
      else
        var a := t.embeddings.value;
        var r := Table(Some(Grid(KeepRows(a.rows, t.metadata, p), a.cols)), keep);
        assert r.embeddings.value.Shaped() by {
          forall i | 0 <= i < |r.embeddings.value.rows| ensures |r.embeddings.value.rows[i]| == a.cols {
            assert r.embeddings.value.rows[i] == a.rows[KeepIndices(t.metadata, p)[i]];
          }
        }
        r
  }

  /** Removing the path every record belongs to empties the table. */
  lemma RemoveAllEmpties(t: Table, p: Path)
    requires t.Aligned() && t.metadata != []
    requires forall i :: 0 <= i < |t.metadata| ==> t.metadata[i].filePath == p
    ensures RemovePath(t, p) == Empty
  {
    KeepNone(t.metadata, p, 0);
    assert t.metadata[0].filePath == p;
  }

  /** The records `add_file_embeddings` appends for a path's chunks. */
  function NewMeta(p: Path, chunks: seq<string>): (r: seq<ChunkMeta>)
    ensures |r| == |chunks|
    ensures forall i :: 0 <= i < |chunks| ==> r[i] == ChunkMeta(p, Name(p), i, chunks[i])
  {
    seq(|chunks|, i requires 0 <= i < |chunks| => ChunkMeta(p, Name(p), i, chunks[i]))
  }

  /** The loop of `add_file_embeddings` that appends one record per chunk. */
  method AppendRecords(meta: seq<ChunkMeta>, p: Path, chunks: seq<string>) returns (r: seq<ChunkMeta>)
    ensures r == meta + NewMeta(p, chunks)
  {
    r := meta;
    for i := 0 to |chunks|
      invariant r == meta + NewMeta(p, chunks)[..i]
    {
      r := r + [ChunkMeta(p, Name(p), i, chunks[i])];
      assert NewMeta(p, chunks)[..i + 1] == NewMeta(p, chunks)[..i] + [NewMeta(p, chunks)[i]];
    }
    assert NewMeta(p, chunks)[..|chunks|] == NewMeta(p, chunks);
  }

  /** The append step: the first rows start the array, later ones must match
      its width and are stacked below. */
  function Append(t: Table, p: Path, chunks: seq<string>, e: Array): (r: Result<Table>)
    requires t.Aligned() && e.Grid? && e.Shaped() && |e.rows| == |chunks|
    ensures r.Ok? ==> r.value.Aligned() && r.value.metadata == t.metadata + NewMeta(p, chunks)
    ensures r.Ok? ==> r.value.Rows() == t.Rows() + e.rows
    ensures r.Err? <==> t.embeddings.Some? && e.cols != t.embeddings.value.cols
  {
    if t.embeddings.None? then Ok(Table(Some(e), NewMeta(p, chunks)))
    else if e.cols != t.embeddings.value.cols then Err(ValueError(DimensionMismatch))
    else Ok(Table(Some(Grid(t.embeddings.value.rows + e.rows, e.cols)), t.metadata + NewMeta(p, chunks)))
  }

  /** A query without a non-zero component has zero norm. */
  predicate IsZero(q: Vector) {
    forall i :: 0 <= i < |q| ==> q[i] == 0.0
  }

  function Scores(rows: seq<Vector>, q: Vector, score: Score): (s: seq<real>)
    ensures |s| == |rows| && forall i :: 0 <= i < |rows| ==> s[i] == score(rows[i], q)
  {
    seq(|rows|, i requires 0 <= i < |rows| => score(rows[i], q))
  }

  /** `SearchResult(...)` for a record: `file_name or Path(file_path).name`. */
  function ResultFor(m: ChunkMeta, similarity: real): SearchResult {
    SearchResult(m.filePath, m.chunkIndex, m.chunkText, similarity,
                 if m.fileName != "" then m.fileName else Name(m.filePath))
  }

  /** The results for all the records of a table, in row order. */
  function AllResults(meta: seq<ChunkMeta>, s: seq<real>): (r: seq<SearchResult>)
    requires |s| == |meta|
    ensures |r| == |meta| && forall i :: 0 <= i < |meta| ==> r[i] == ResultFor(meta[i], s[i])
  {
    seq(|meta|, i requires 0 <= i < |meta| => ResultFor(meta[i], s[i]))
  }

  function Min(a: int, b: int): int {
    if a < b then a else b
  }

  /** The two files in the index directory: both absent (or one of them),
      present but unreadable, or a saved table. */
  datatype Disk = Missing | Unreadable | Saved(table: Table)

  /** The tables `_save_search_data` writes: aligned, with at least one row. */
  predicate Written(t: Table) {
    t.Aligned() && t.embeddings.Some? && |t.Rows()| > 0
  }

  /** `_load_search_data`: a missing or unreadable copy starts the index empty. */
  function Loaded(d: Disk): (t: Table)
    requires d.Saved? ==> Written(d.table)
    ensures t.Aligned() && t.Tight()
    ensures d.Saved? ==> t == d.table
    ensures !d.Saved? ==> t == Empty
  {
    if d.Saved? then d.table else Empty
  }

  /** The disk holds the table whenever the table has rows. */
  predicate Synced(t: Table, d: Disk) {
    Written(t) ==> d == Saved(t)
  }

  /** The disk after `_save_search_data` of table `t`: nothing is written for a
      table without rows, so the previous copy stays. */
  function SaveTo(d: Disk, t: Table): Disk {
    if t.embeddings.Some? && |t.Rows()| > 0 then Saved(t) else d
  }

  /** `add_file_embeddings` on one table, with the removal done first and
      the disk written after it and after the append: the table, the disk
      and the outcome after the call. */
  function AddSpec(t: Table, d: Disk, p: Path, chunks: seq<string>, e: Array): (r: (Table, Disk, Outcome))
    requires t.Aligned() && e.Shaped()
    ensures r.0.Aligned()
    ensures (d.Saved? ==> Written(d.table)) ==> (r.1.Saved? ==> Written(r.1.table))
    ensures Synced(t, d) ==> Synced(r.0, r.1)
    ensures |chunks| != |e.AsRows().rows| ==>
      r == (t, d, Fail(ValueError(CountMismatch)))
  {
    var rows := e.AsRows();
    if |chunks| != |rows.rows| then (t, d, Fail(ValueError(CountMismatch)))
    else
      var kept := RemovePath(t, p);
      var d1 := if t.HasPath(p) then SaveTo(d, kept) else d;
      match Append(kept, p, chunks, rows)
      case Err(err) => (kept, d1, Fail(err))
      case Ok(t2) => (t2, SaveTo(d1, t2), Pass)
  }

  /** The table after a successful add: the kept records and rows with the
      new ones below them. */
  lemma AddShape(t: Table, d: Disk, p: Path, chunks: seq<string>, e: Array)
    requires t.Aligned() && e.Shaped()
    requires AddSpec(t, d, p, chunks, e).2.Pass?
    ensures AddSpec(t, d, p, chunks, e).0.metadata == RemovePath(t, p).metadata + NewMeta(p, chunks)
    ensures AddSpec(t, d, p, chunks, e).0.Rows() == RemovePath(t, p).Rows() + e.AsRows().rows
    ensures chunks != [] ==> AddSpec(t, d, p, chunks, e).1 == Saved(AddSpec(t, d, p, chunks, e).0)
  {
  }

  /** Records of other paths followed by the new records of `p`: the records
      of `p` are exactly the last `|chunks|`, and the others are those kept. */
  lemma NewMetaAtEnd(kept: seq<ChunkMeta>, p: Path, chunks: seq<string>)
    requires forall m :: m in kept ==> m.filePath != p
    ensures var all := kept + NewMeta(p, chunks);
      forall i :: 0 <= i < |all| ==> (all[i].filePath == p <==> i >= |all| - |chunks|)
    ensures forall m :: m in kept + NewMeta(p, chunks) && m.filePath != p <==> m in kept
  {
    var all := kept + NewMeta(p, chunks);
    var n := |kept|;
    forall i | 0 <= i < |all| ensures all[i].filePath == p <==> i >= |all| - |chunks| {
      if i < n {
        assert all[i] == kept[i];
        assert kept[i] in kept;
      } else {
        assert all[i] == NewMeta(p, chunks)[i - n];
      }
    }
    forall m ensures m in all && m.filePath != p <==> m in kept {
      if m in all && m.filePath != p {
        assert m in kept || m in NewMeta(p, chunks);
        assert m !in NewMeta(p, chunks);
      }
    }
  }

  /** A successful add replaces the path's rows: the records of `p` afterwards
      are exactly the new chunks, numbered from 0 and placed at the end in
      order, the records of other paths are exactly those before, and a
      non-empty table is on disk. */
  lemma AddReplaces(t: Table, d: Disk, p: Path, chunks: seq<string>, e: Array)
    requires t.Aligned() && e.Shaped()
    requires AddSpec(t, d, p, chunks, e).2.Pass?
    ensures AddSpec(t, d, p, chunks, e).0.metadata == RemovePath(t, p).metadata + NewMeta(p, chunks)
    ensures AddSpec(t, d, p, chunks, e).0.Rows() == RemovePath(t, p).Rows() + e.AsRows().rows
    ensures forall i :: 0 <= i < |AddSpec(t, d, p, chunks, e).0.metadata| ==>
      (AddSpec(t, d, p, chunks, e).0.metadata[i].filePath == p <==>
        i >= |AddSpec(t, d, p, chunks, e).0.metadata| - |chunks|)
    ensures forall m :: m in AddSpec(t, d, p, chunks, e).0.metadata && m.filePath != p <==>
      m in t.metadata && m.filePath != p
    ensures chunks != [] ==> AddSpec(t, d, p, chunks, e).1 == Saved(AddSpec(t, d, p, chunks, e).0)
  {
    AddShape(t, d, p, chunks, e);
    var kept := RemovePath(t, p).metadata;
    assert forall m :: m in kept <==> m in t.metadata && m.filePath != p;
    NewMetaAtEnd(kept, p, chunks);
  }

  /** A dimension mismatch is reported after the path's old rows are already
      gone, so the failed add still changes the table. */
  lemma AddFailsAfterRemoval(t: Table, d: Disk, p: Path, chunks: seq<string>, e: Array)
    requires t.Aligned() && e.Shaped() && |chunks| == |e.AsRows().rows|
    requires RemovePath(t, p).embeddings.Some? && e.AsRows().cols != RemovePath(t, p).embeddings.value.cols
    ensures AddSpec(t, d, p, chunks, e).0 == RemovePath(t, p)
    ensures AddSpec(t, d, p, chunks, e).2 == Fail(ValueError(DimensionMismatch))
    ensures t.HasPath(p) ==> AddSpec(t, d, p, chunks, e).0 != t
  {
    if t.HasPath(p) {
      assert !RemovePath(t, p).HasPath(p);
    }
  }

  /** With at least one chunk, a table whose array is `None` exactly when it
      has no records stays so; the failed adds only remove rows. */
  lemma AddKeepsTight(t: Table, d: Disk, p: Path, chunks: seq<string>, e: Array)
    requires t.Aligned() && t.Tight() && e.Shaped() && chunks != []
    ensures AddSpec(t, d, p, chunks, e).0.Tight()
  {
    if |chunks| == |e.AsRows().rows| {
      var kept := RemovePath(t, p);
      var r := Append(kept, p, chunks, e.AsRows());
      if r.Ok? {
        assert |r.value.metadata| == |kept.metadata| + |chunks|;
      }
    }
  }

  /** Adding no chunks to an empty index stores a zero-row array: the array is
      no longer `None` although there are no records. */
  lemma EmptyAddUntightens()
    ensures AddSpec(Empty, Missing, "/a", [], Grid([], 3)).0 == Table(Some(Grid([], 3)), [])
    ensures !AddSpec(Empty, Missing, "/a", [], Grid([], 3)).0.Tight()
  {
    assert !Empty.HasPath("/a");
  }

  /** Removing the last rows leaves the disk untouched, so loading it again
      brings the removed records back. */
  lemma RemoveLastKeepsDisk(t: Table, p: Path)
    requires Written(t)
    requires forall i :: 0 <= i < |t.metadata| ==> t.metadata[i].filePath == p
    ensures RemovePath(t, p) == Empty
    ensures Loaded(SaveTo(Saved(t), RemovePath(t, p))) == t
  {
    RemoveAllEmpties(t, p);
  }

  /** `get_index_stats` */
  datatype IndexStats = IndexStats(totalChunks: nat, embeddingDimension: Option<nat>, uniqueFiles: nat)

  /** The distinct paths of a table's records. */
  function PathsOf(meta: seq<ChunkMeta>): set<Path> {
    set m | m in meta :: m.filePath
  }

  /** There are never more distinct paths than records. */
  lemma {:induction false} PathsAtMostRecords(meta: seq<ChunkMeta>)
    ensures |PathsOf(meta)| <= |meta|
    ensures meta != [] ==> |PathsOf(meta)| >= 1
  {
    if meta != [] {
      PathsAtMostRecords(meta[1..]);
      assert PathsOf(meta) == PathsOf(meta[1..]) + {meta[0].filePath} by {
        forall x | x in PathsOf(meta) ensures x in PathsOf(meta[1..]) + {meta[0].filePath} {
          var m :| m in meta && m.filePath == x;
          if m != meta[0] {
            var i :| 0 <= i < |meta| && meta[i] == m;
            assert meta[1..][i - 1] == m;
          }
        }
      }
    }
  }
}
