/** The single-table search index of the repository package: embedding rows
    and their metadata records kept side by side in memory, and a copy in the
    index directory that is rewritten after every change leaving rows behind. */
module SearchSingle {
  import opened Wrappers
  import opened Paths
  import opened Interfaces
  import opened Ranking
  import opened SearchCore
  import Repo

  const SearchIndexName: string := "search_index.npy"
  const SearchMetadataName: string := "search_metadata.json"
  const QueryDimensionMismatch: string := "Query embedding dimension mismatch"

  /** The results for the first `m` rows of the ranking of scores `s`. */
  function TopResults(meta: seq<ChunkMeta>, s: seq<real>, m: nat): (r: seq<SearchResult>)
    requires |s| == |meta| && m <= |s|
    ensures |r| == m
    ensures forall k :: 0 <= k < m ==> r[k] == ResultFor(meta[Ranked(s)[k]], s[Ranked(s)[k]])
  {
    var order := Ranked(s);
    seq(m, k requires 0 <= k < m => ResultFor(meta[order[k]], s[order[k]]))
  }

  /** `search` on a table. */
  function SearchSpec(t: Table, query: Array, topK: int, score: Score): (r: Result<seq<SearchResult>>)
    requires t.Aligned()
    ensures topK <= 0 ==> r == Err(ValueError(TopKNotPositive))
    ensures topK > 0 && t.metadata == [] ==> r == Ok([])
    ensures topK > 0 && t.metadata != [] && |query.Flattened()| != t.embeddings.value.cols ==>
      r == Err(ValueError(QueryDimensionMismatch))
    ensures (topK > 0 && t.metadata != [] && |query.Flattened()| == t.embeddings.value.cols &&
      IsZero(query.Flattened())) ==> r == Ok([])
    ensures r.Ok? ==> |r.value| <= topK && |r.value| <= |t.metadata|
  {
    if topK <= 0 then Err(ValueError(TopKNotPositive))
    else if t.embeddings.None? || |t.Rows()| == 0 then Ok([])
    else
      var q := query.Flattened();
      if |q| != t.embeddings.value.cols then Err(ValueError(QueryDimensionMismatch))
      else if IsZero(q) then Ok([])
      else
        var s := Scores(t.Rows(), q, score);
        Ok(TopResults(t.metadata, s, Min(topK, |s|)))
  }

  /** A search that ranks returns `min(top_k, rows)` results, highest score
      first, each carrying the metadata and score of a distinct row, and no
      row left out scores higher than a row returned. */
  lemma SearchIsTopK(t: Table, query: Array, topK: int, score: Score)
    requires t.Aligned() && topK > 0 && t.metadata != []
    requires |query.Flattened()| == t.embeddings.value.cols && !IsZero(query.Flattened())
    ensures SearchSpec(t, query, topK, score).Ok?
    ensures |SearchSpec(t, query, topK, score).value| == Min(topK, |t.metadata|)
    ensures forall a, b :: 0 <= a < b < |SearchSpec(t, query, topK, score).value| ==>
      SearchSpec(t, query, topK, score).value[a].similarityScore >=
      SearchSpec(t, query, topK, score).value[b].similarityScore
    ensures forall k :: 0 <= k < |SearchSpec(t, query, topK, score).value| ==>
      var i := Ranked(Scores(t.Rows(), query.Flattened(), score))[k];
      0 <= i < |t.metadata| &&
      SearchSpec(t, query, topK, score).value[k] ==
        ResultFor(t.metadata[i], score(t.Rows()[i], query.Flattened()))
    ensures forall a, b :: 0 <= a < b < |SearchSpec(t, query, topK, score).value| ==>
      Ranked(Scores(t.Rows(), query.Flattened(), score))[a] != Ranked(Scores(t.Rows(), query.Flattened(), score))[b]
    ensures forall i, k :: (0 <= i < |t.metadata| && 0 <= k < |SearchSpec(t, query, topK, score).value| &&
      i !in Ranked(Scores(t.Rows(), query.Flattened(), score))[..|SearchSpec(t, query, topK, score).value|]) ==>
      score(t.Rows()[i], query.Flattened()) <= SearchSpec(t, query, topK, score).value[k].similarityScore
  {
    var q := query.Flattened();
    var s := Scores(t.Rows(), q, score);
    var order := Ranked(s);
    var m := Min(topK, |s|);
    var r := SearchSpec(t, query, topK, score).value;
    assert r == TopResults(t.metadata, s, m);
    TopIsBest(s, topK);
    forall i, k | 0 <= i < |t.metadata| && 0 <= k < m && i !in order[..m] ensures s[i] <= r[k].similarityScore {
      assert order[..m][k] == order[k];
    }
  }

  function Stats(t: Table): (r: IndexStats)
    ensures t.embeddings.None? ==> r == IndexStats(0, None, 0)
    ensures t.embeddings.Some? ==> r.totalChunks == |t.metadata| && r.uniqueFiles <= r.totalChunks
  {
    PathsAtMostRecords(t.metadata);
    if t.embeddings.None? then IndexStats(0, None, 0)
    else
      var a := t.embeddings.value;
      IndexStats(|t.metadata|, if a.Grid? then Some(a.cols) else None, |PathsOf(t.metadata)|)
  }

  /** The statistics of an aligned table: `unique_files` lies between 1 and
      `total_chunks` when there are records and is 0 otherwise, and the
      dimension is the row width. */
  lemma StatsBounds(t: Table)
    requires t.Aligned()
    ensures Stats(t).uniqueFiles <= Stats(t).totalChunks
    ensures Stats(t).totalChunks == |t.metadata|
    ensures (Stats(t).uniqueFiles == 0) <==> t.metadata == []
    ensures t.embeddings.Some? ==> Stats(t).embeddingDimension == Some(t.embeddings.value.cols)
    ensures t.embeddings.None? ==> Stats(t).embeddingDimension.None?
  {
    PathsAtMostRecords(t.metadata);
  }

  /** The body of `search` over the table `t`. */
  method SearchTable(t: Table, query: Array, topK: int, score: Score) returns (r: Result<seq<SearchResult>>)
    requires t.Aligned()
    ensures r == SearchSpec(t, query, topK, score)
  {
    if topK <= 0 {
      return Err(ValueError(TopKNotPositive));
    }
    if t.embeddings.None? || |t.Rows()| == 0 {
      return Ok([]);
    }
    var q := query.Flattened();
    if |q| != t.embeddings.value.cols {
      return Err(ValueError(QueryDimensionMismatch));
    }
    if IsZero(q) {
      return Ok([]);
    }
    var s := Scores(t.Rows(), q, score);
    var results := CollectTop(t.metadata, s, Min(topK, |s|));
    return Ok(results);
  }

  /** The loop of `search` that turns the first `m` ranked rows into results. */
  method CollectTop(meta: seq<ChunkMeta>, s: seq<real>, m: nat) returns (results: seq<SearchResult>)
    requires |s| == |meta| && m <= |s|
    ensures results == TopResults(meta, s, m)
  {
    var order := Ranked(s);
    results := [];
    for k := 0 to m
      invariant |results| == k
      invariant forall j :: 0 <= j < k ==> results[j] == ResultFor(meta[order[j]], s[order[j]])
    {
      var idx := order[k];
      results := results + [ResultFor(meta[idx], s[idx])];
    }
  }

  /** `SearchManager` of the repository package. */
  class SearchManager {
    const indexDir: Path
    const searchIndexPath: Path
    const searchMetadataPath: Path
    var embeddings: Option<Array>
    var metadata: seq<ChunkMeta>
    /** The copy in the index directory. */
    var disk: Disk

    function Current(): Table
      reads this
    {
      Table(embeddings, metadata)
    }

    predicate Valid()
      reads this
    {
      Current().Aligned() && (disk.Saved? ==> Written(disk.table)) && Synced(Current(), disk)
    }

    /** The constructor and `_load_search_data`. */
    constructor (indexDir: Path, disk: Disk)
      requires disk.Saved? ==> Written(disk.table)
      ensures Valid() && Current().Tight() && this.indexDir == indexDir && this.disk == disk
      ensures searchIndexPath == Child(indexDir, SearchIndexName)
      ensures searchMetadataPath == Child(indexDir, SearchMetadataName)
      ensures Current() == Loaded(disk)
    {
      this.indexDir := indexDir;
      searchIndexPath := Child(indexDir, SearchIndexName);
      searchMetadataPath := Child(indexDir, SearchMetadataName);
      this.disk := disk;
      if disk.Saved? {
        embeddings := disk.table.embeddings;
        metadata := disk.table.metadata;
      } else {
        embeddings := None;
        metadata := [];
      }
    }

    /** `SearchManager(repository)`: a missing repository raises. */
    static method Create(repository: Option<Repo.Repository>, disk: Disk) returns (r: Result<SearchManager>)
      requires disk.Saved? ==> Written(disk.table)
      ensures repository.None? <==> r.Err?
      ensures r.Err? ==> r.error == ValueError("repository cannot be None")
      ensures r.Ok? ==> (fresh(r.value) && r.value.Valid() &&
        r.value.indexDir == repository.value.config.indexDir && r.value.Current() == Loaded(disk))
    {
      if repository.None? {
        return Err(ValueError("repository cannot be None"));
      }
      var m := new SearchManager(repository.value.config.indexDir, disk);
      return Ok(m);
    }

    /** `_save_search_data` */
    method Save()
      requires Current().Aligned() && (disk.Saved? ==> Written(disk.table))
      modifies this
      ensures Valid()
      ensures embeddings == old(embeddings) && metadata == old(metadata)
      ensures disk == SaveTo(old(disk), Current())
    {
      if embeddings.Some? && |Current().Rows()| > 0 {
        disk := Saved(Current());
      }
    }

    /** `remove_file_embeddings`: the disk is rewritten only when something
        was removed. */
    method Remove(p: Path)
      requires Valid()
      modifies this
      ensures Valid()
      ensures Current() == RemovePath(old(Current()), p)
      ensures disk == if old(Current()).HasPath(p) then SaveTo(old(disk), Current()) else old(disk)
    {
      if !Current().HasPath(p) {
        return;
      }
      var kept := RemovePath(Current(), p);
      embeddings := kept.embeddings;
      metadata := kept.metadata;
      Save();
    }

    /** `add_file_embeddings` */
    method Add(p: Path, chunks: seq<string>, e: Array) returns (o: Outcome)
      requires Valid() && e.Shaped()
      modifies this
      ensures Valid()
      ensures (Current(), disk, o) == AddSpec(old(Current()), old(disk), p, chunks, e)
    {
      var rows := e.AsRows();
      if |chunks| != |rows.rows| {
        return Fail(ValueError(CountMismatch));
      }
      Remove(p);
      o := AppendRows(p, chunks, rows);
    }

    /** The second half of `add_file_embeddings`: the rows start the array or
        are stacked below it, and one record per chunk is appended. */
    method AppendRows(p: Path, chunks: seq<string>, rows: Array) returns (o: Outcome)
      requires Valid() && rows.Grid? && rows.Shaped() && |rows.rows| == |chunks|
      modifies this
      ensures Valid()
      ensures Append(old(Current()), p, chunks, rows).Err? ==>
        o == Fail(Append(old(Current()), p, chunks, rows).error) &&
        Current() == old(Current()) && disk == old(disk)
      ensures Append(old(Current()), p, chunks, rows).Ok? ==>
        o == Pass && Current() == Append(old(Current()), p, chunks, rows).value &&
        disk == SaveTo(old(disk), Current())
    {
      ghost var before := Current();
      if embeddings.None? {
        embeddings := Some(rows);
      } else {
        if rows.cols != embeddings.value.cols {
          return Fail(ValueError(DimensionMismatch));
        }
        embeddings := Some(Grid(embeddings.value.rows + rows.rows, rows.cols));
      }
      ghost var grown := embeddings;
      assert Append(before, p, chunks, rows) == Ok(Table(grown, before.metadata + NewMeta(p, chunks)));
      metadata := AppendRecords(metadata, p, chunks);
      Save();
      return Pass;
    }

    /** `search`: the rows ranked by score against the query, best first. */
    method Search(query: Array, topK: int, score: Score) returns (r: Result<seq<SearchResult>>)
      requires Valid()
      ensures r == SearchSpec(Current(), query, topK, score)
    {
      r := SearchTable(Current(), query, topK, score);
    }

    /** `get_index_stats` */
    function GetIndexStats(): (st: IndexStats)
      requires Valid()
      reads this
      ensures st.totalChunks == (if embeddings.None? then 0 else |metadata|)
      ensures st.uniqueFiles == |PathsOf(metadata)|
      ensures st.embeddingDimension == (if embeddings.Some? then Some(embeddings.value.cols) else None)
    {
      Stats(Current())
    }
  }
}
