/** The two-table search index of the application package: text rows and
    image rows live in separate tables, each with its own copy on disk, and a
    search merges the matches of both before ranking them. */
module SearchDual {
  import opened Wrappers
  import opened Paths
  import opened Interfaces
  import opened Ranking
  import opened SearchCore
  import Repo

  const SearchIndexName: string := "search_index.npy"
  const SearchMetadataName: string := "search_metadata.json"
  const ImageSearchIndexName: string := "image_search_index.npy"
  const ImageSearchMetadataName: string := "image_search_metadata.json"

  const ImageExtensions: set<string> := {".png", ".jpg", ".jpeg"}

  /** What `np.vstack` raises when one of the stacked arrays is `None`. */
  const StackMismatch: string := "all the input array dimensions except for the concatenation axis must match exactly"

  /** `add_file_embeddings` as written, on the target table: the emptiness
      test and the width come from the table captured before the removal, so
      an add that first removed every row stacks the new rows onto `None`. */
  function AddSpecAsWritten(t: Table, d: Disk, p: Path, chunks: seq<string>, e: Array): (r: (Table, Disk, Outcome))
    requires t.Aligned() && e.Shaped()
    ensures r.0.Aligned()
    ensures |chunks| != |e.AsRows().rows| ==>
      r == (t, d, Fail(ValueError(CountMismatch)))
  {
    var rows := e.AsRows();
    if |chunks| != |rows.rows| then (t, d, Fail(ValueError(CountMismatch)))
    else
      var kept := RemovePath(t, p);
      var d1 := if t.HasPath(p) then SaveTo(d, kept) else d;
      if t.embeddings.None? then
        var t2 := Table(Some(rows), kept.metadata + NewMeta(p, chunks));
        (t2, SaveTo(d1, t2), Pass)
      else if rows.cols != t.embeddings.value.cols then (kept, d1, Fail(ValueError(DimensionMismatch)))
      else if kept.embeddings.None? then (kept, d1, Fail(ValueError(StackMismatch)))
      else
        var t2 := Table(Some(Grid(kept.Rows() + rows.rows, rows.cols)), kept.metadata + NewMeta(p, chunks));
        (t2, SaveTo(d1, t2), Pass)
  }

  /** The add as written agrees with the replacing add except when the
      removal emptied a table that had rows. */
  lemma AsWrittenAgreesOtherwise(t: Table, d: Disk, p: Path, chunks: seq<string>, e: Array)
    requires t.Aligned() && e.Shaped()
    requires !(t.embeddings.Some? && RemovePath(t, p).embeddings.None?)
    ensures AddSpecAsWritten(t, d, p, chunks, e) == AddSpec(t, d, p, chunks, e)
  {
    var rows := e.AsRows();
    if |chunks| == |rows.rows| {
      var kept := RemovePath(t, p);
      if t.embeddings.None? {
        assert kept == t;
        assert kept.metadata + NewMeta(p, chunks) == NewMeta(p, chunks);
      } else {
        assert kept.embeddings.Some?;
        assert kept.embeddings.value.cols == t.embeddings.value.cols;
        assert kept.Rows() == kept.embeddings.value.rows;
      }
    }
  }

  /** Re-adding the file that fills a whole table, with rows of the same
      width, is refused as written, while the replacing add succeeds and
      leaves exactly the new records. */
  lemma ReaddSoleFileFails(t: Table, d: Disk, p: Path, chunks: seq<string>, e: Array)
    requires Written(t) && e.Shaped() && |chunks| == |e.AsRows().rows|
    requires forall i :: 0 <= i < |t.metadata| ==> t.metadata[i].filePath == p
    requires e.AsRows().cols == t.embeddings.value.cols
    ensures AddSpecAsWritten(t, d, p, chunks, e).2 == Fail(ValueError(StackMismatch))
    ensures AddSpecAsWritten(t, d, p, chunks, e).0 == Empty
    ensures AddSpec(t, d, p, chunks, e).2 == Pass
    ensures AddSpec(t, d, p, chunks, e).0.metadata == NewMeta(p, chunks)
  {
    RemoveAllEmpties(t, p);
  }

  /** `search` on one table: every row's result in row order, or none when
      there is no query, no row, a query of another width or a zero query. */
  function TableResults(t: Table, query: Option<Array>, score: Score): (r: seq<SearchResult>)
    requires t.Aligned()
    ensures |r| == 0 || |r| == |t.metadata|
    ensures r != [] ==> (query.Some? && |query.value.Flattened()| == t.embeddings.value.cols &&
      !IsZero(query.value.Flattened()))
    ensures forall i :: 0 <= i < |r| ==>
      r[i] == ResultFor(t.metadata[i], score(t.Rows()[i], query.value.Flattened()))
  {
    if query.None? || t.embeddings.None? || |t.Rows()| == 0 then []
    else
      var q := query.value.Flattened();
      if |q| != t.embeddings.value.cols || IsZero(q) then []
      else AllResults(t.metadata, Scores(t.Rows(), q, score))
  }

  /** One table's part of the `search` loop: each row's result, in row
      order, appended to `all`. */
  method AppendMatches(all: seq<SearchResult>, t: Table, query: Option<Array>, score: Score)
    returns (all': seq<SearchResult>)
    requires t.Aligned()
    ensures all' == all + TableResults(t, query, score)
  {
    all' := all;
    if query.Some? && t.embeddings.Some? && |t.Rows()| > 0 {
      var q := query.value.Flattened();
      if |q| == t.embeddings.value.cols && !IsZero(q) {
        var s := Scores(t.Rows(), q, score);
        for idx := 0 to |t.metadata|
          invariant |all'| == |all| + idx && all'[..|all|] == all
          invariant forall j :: 0 <= j < idx ==> all'[|all| + j] == ResultFor(t.metadata[j], s[j])
        {
          all' := all' + [ResultFor(t.metadata[idx], s[idx])];
        }
      }
    }
  }

  /** The body of `search` over the two tables. */
  method SearchTables(text: Table, image: Table, query: Array, topK: int, imageQuery: Option<Array>,
                      score: Score) returns (r: Result<seq<SearchResult>>)
    requires text.Aligned() && image.Aligned()
    ensures r == DualSearchSpec(text, image, query, topK, imageQuery, score)
  {
    if topK <= 0 {
      return Err(ValueError(TopKNotPositive));
    }
    var all: seq<SearchResult> := [];
    all := AppendMatches(all, text, Some(query), score);
    assert all == TableResults(text, Some(query), score);
    all := AppendMatches(all, image, imageQuery, score);
    return Ok(Best(all, topK));
  }

  function ScoresOf(rs: seq<SearchResult>): (s: seq<real>)
    ensures |s| == |rs| && forall i :: 0 <= i < |rs| ==> s[i] == rs[i].similarityScore
  {
    seq(|rs|, i requires 0 <= i < |rs| => rs[i].similarityScore)
  }

  /** `sort(key=similarity_score, reverse=True)` then `[:top_k]`: the stable
      ranking of the merged results, truncated. */
  function Best(all: seq<SearchResult>, topK: nat): (r: seq<SearchResult>)
    ensures |r| == Min(topK, |all|)
    ensures forall k :: 0 <= k < |r| ==> r[k] == all[Ranked(ScoresOf(all))[k]]
  {
    var order := Ranked(ScoresOf(all));
    seq(Min(topK, |all|), k requires 0 <= k < Min(topK, |all|) => all[order[k]])
  }

  /** `search` on both tables. */
  function DualSearchSpec(text: Table, image: Table, query: Array, topK: int, imageQuery: Option<Array>,
                          score: Score): (r: Result<seq<SearchResult>>)
    requires text.Aligned() && image.Aligned()
    ensures r.Err? <==> topK <= 0
    ensures r.Err? ==> r.error == ValueError(TopKNotPositive)
    ensures r.Ok? ==> |r.value| <= topK
  {
    if topK <= 0 then Err(ValueError(TopKNotPositive))
    else Ok(Best(TableResults(text, Some(query), score) + TableResults(image, imageQuery, score), topK))
  }

  /** The merged results are the best `top_k` of the text and image matches:
      scores never increase, equal scores keep text before image and row
      order, and no match left out scores higher than one returned. */
  lemma BestIsTopK(all: seq<SearchResult>, topK: nat)
    ensures |Best(all, topK)| == Min(topK, |all|)
    ensures forall a, b :: 0 <= a < b < |Best(all, topK)| ==>
      Best(all, topK)[a].similarityScore >= Best(all, topK)[b].similarityScore
    ensures forall a, b :: (0 <= a < b < |Best(all, topK)| &&
      Best(all, topK)[a].similarityScore == Best(all, topK)[b].similarityScore) ==>
      Ranked(ScoresOf(all))[a] < Ranked(ScoresOf(all))[b]
    ensures forall k :: 0 <= k < |Best(all, topK)| ==> Best(all, topK)[k] in all
    ensures forall j, k :: (0 <= j < |all| && 0 <= k < |Best(all, topK)| &&
      j !in Ranked(ScoresOf(all))[..|Best(all, topK)|]) ==>
      all[j].similarityScore <= Best(all, topK)[k].similarityScore
  {
    var s := ScoresOf(all);
    var order := Ranked(s);
    var r := Best(all, topK);
    var m := |r|;
    TopIsBest(s, topK);
    forall j, k | 0 <= j < |all| && 0 <= k < m && j !in order[..m]
      ensures all[j].similarityScore <= r[k].similarityScore
    {
      assert order[..m][k] == order[k];
    }
  }

  /** A text query of the wrong width adds no text results and raises nothing. */
  lemma MismatchedQueryIsSkipped(text: Table, image: Table, query: Array, topK: int,
                                 imageQuery: Option<Array>, score: Score)
    requires text.Aligned() && image.Aligned() && topK > 0
    requires text.embeddings.Some? && |query.Flattened()| != text.embeddings.value.cols
    ensures DualSearchSpec(text, image, query, topK, imageQuery, score) ==
      Ok(Best(TableResults(image, imageQuery, score), topK))
  {
    assert TableResults(text, Some(query), score) == [];
    assert [] + TableResults(image, imageQuery, score) == TableResults(image, imageQuery, score);
  }

  /** `get_index_stats`: counts of both tables, the width of the text table. */
  function DualStats(text: Table, image: Table): (r: IndexStats)
    ensures r.totalChunks == |text.metadata| + |image.metadata|
    ensures r.uniqueFiles <= r.totalChunks
    ensures r.embeddingDimension.Some? ==> text.embeddings.Some?
  {
    PathsAtMostRecords(text.metadata);
    PathsAtMostRecords(image.metadata);
    IndexStats(|text.metadata| + |image.metadata|,
               if text.embeddings.Some? && text.embeddings.value.Grid? then Some(text.embeddings.value.cols) else None,
               |PathsOf(text.metadata)| + |PathsOf(image.metadata)|)
  }

  /** `unique_files` adds the two tables' counts, so a path with rows in both
      tables is counted twice; it never exceeds `total_chunks`. */
  lemma DualStatsCountsSharedTwice(text: Table, image: Table)
    ensures DualStats(text, image).uniqueFiles ==
      |PathsOf(text.metadata) + PathsOf(image.metadata)| + |PathsOf(text.metadata) * PathsOf(image.metadata)|
    ensures DualStats(text, image).uniqueFiles <= DualStats(text, image).totalChunks
  {
    var a := PathsOf(text.metadata);
    var b := PathsOf(image.metadata);
    assert a + b == (a - b) + b;
    assert a == (a - b) + (a * b);
    assert (a - b) !! b;
    assert (a - b) !! (a * b);
    PathsAtMostRecords(text.metadata);
    PathsAtMostRecords(image.metadata);
  }

  /** `SearchManager` of the application package. */
  class SearchManager {
    const indexDir: Path
    var embeddings: Option<Array>
    var metadata: seq<ChunkMeta>
    var imageEmbeddings: Option<Array>
    var imageMetadata: seq<ChunkMeta>
    /** The copies in the index directory. */
    var textDisk: Disk
    var imageDisk: Disk

    function Text(): Table
      reads this
    {
      Table(embeddings, metadata)
    }

    function Image(): Table
      reads this
    {
      Table(imageEmbeddings, imageMetadata)
    }

    predicate Valid()
      reads this
    {
      Text().Aligned() && Image().Aligned() &&
      (textDisk.Saved? ==> Written(textDisk.table)) && (imageDisk.Saved? ==> Written(imageDisk.table)) &&
      Synced(Text(), textDisk) && Synced(Image(), imageDisk)
    }

    /** The constructor and `_load_search_data` for both tables. */
    constructor (indexDir: Path, textDisk: Disk, imageDisk: Disk)
      requires textDisk.Saved? ==> Written(textDisk.table)
      requires imageDisk.Saved? ==> Written(imageDisk.table)
      ensures Valid() && this.indexDir == indexDir
      ensures this.textDisk == textDisk && this.imageDisk == imageDisk
      ensures Text() == Loaded(textDisk) && Image() == Loaded(imageDisk)
    {
      this.indexDir := indexDir;
      this.textDisk := textDisk;
      this.imageDisk := imageDisk;
      var t := Loaded(textDisk);
      var i := Loaded(imageDisk);
      embeddings := t.embeddings;
      metadata := t.metadata;
      imageEmbeddings := i.embeddings;
      imageMetadata := i.metadata;
    }

    /** `SearchManager(repository)`: a missing repository raises. */
    static method Create(repository: Option<Repo.Repository>, textDisk: Disk, imageDisk: Disk)
      returns (r: Result<SearchManager>)
      requires textDisk.Saved? ==> Written(textDisk.table)
      requires imageDisk.Saved? ==> Written(imageDisk.table)
      ensures repository.None? <==> r.Err?
      ensures r.Err? ==> r.error == ValueError("repository cannot be None")
      ensures r.Ok? ==> (fresh(r.value) && r.value.Valid() &&
        r.value.indexDir == repository.value.config.indexDir &&
        r.value.Text() == Loaded(textDisk) && r.value.Image() == Loaded(imageDisk))
    {
      if repository.None? {
        return Err(ValueError("repository cannot be None"));
      }
      var m := new SearchManager(repository.value.config.indexDir, textDisk, imageDisk);
      return Ok(m);
    }

    /** `_save_search_data`: each table is written when it has rows. */
    method Save()
      requires Text().Aligned() && Image().Aligned()
      requires textDisk.Saved? ==> Written(textDisk.table)
      requires imageDisk.Saved? ==> Written(imageDisk.table)
      modifies this
      ensures Valid()
      ensures Text() == old(Text()) && Image() == old(Image())
      ensures textDisk == SaveTo(old(textDisk), Text()) && imageDisk == SaveTo(old(imageDisk), Image())
    {
      if embeddings.Some? && |Text().Rows()| > 0 {
        textDisk := Saved(Text());
      }
      if imageEmbeddings.Some? && |Image().Rows()| > 0 {
        imageDisk := Saved(Image());
      }
    }

    /** `remove_file_embeddings`: `None` clears the path from both tables,
        `True` or `False` from one; the disk is written only when something
        was removed. */
    method Remove(p: Path, isImage: Option<bool>)
      requires Valid()
      modifies this
      ensures Valid()
      ensures Text() == if isImage != Some(true) then RemovePath(old(Text()), p) else old(Text())
      ensures Image() == if isImage != Some(false) then RemovePath(old(Image()), p) else old(Image())
      ensures (isImage != Some(true) && old(Text()).HasPath(p)) || (isImage != Some(false) && old(Image()).HasPath(p))
        ==> textDisk == SaveTo(old(textDisk), Text()) && imageDisk == SaveTo(old(imageDisk), Image())
      ensures !((isImage != Some(true) && old(Text()).HasPath(p)) || (isImage != Some(false) && old(Image()).HasPath(p)))
        ==> textDisk == old(textDisk) && imageDisk == old(imageDisk)
    {
      ghost var text0, image0 := Text(), Image();
      var removedText := false;
      var removedImage := false;
      if isImage != Some(true) && Text().HasPath(p) {
        var kept := RemovePath(Text(), p);
        embeddings := kept.embeddings;
        metadata := kept.metadata;
        removedText := true;
      }
      assert Text() == if isImage != Some(true) then RemovePath(text0, p) else text0;
      assert Image() == image0;
      if isImage != Some(false) && Image().HasPath(p) {
        var kept := RemovePath(Image(), p);
        imageEmbeddings := kept.embeddings;
        imageMetadata := kept.metadata;
        removedImage := true;
      }
      assert Image() == if isImage != Some(false) then RemovePath(image0, p) else image0;
      if removedText || removedImage {
        Save();
      }
    }

    /** `add_file_embeddings`, with the emptiness test made after the removal
        so that re-adding a path always replaces its rows. Rows go to the
        image table when `isImage` is set or the extension is an image one. */
    method Add(p: Path, chunks: seq<string>, e: Array, isImage: bool) returns (o: Outcome)
      requires Valid() && e.Shaped()
      modifies this
      ensures Valid()
      ensures (isImage || LowerSuffix(p) in ImageExtensions) ==>
        (Image(), imageDisk, o) == AddSpec(old(Image()), old(imageDisk), p, chunks, e) &&
        Text() == old(Text()) && textDisk == old(textDisk)
      ensures !(isImage || LowerSuffix(p) in ImageExtensions) ==>
        (Text(), textDisk, o) == AddSpec(old(Text()), old(textDisk), p, chunks, e) &&
        Image() == old(Image()) && imageDisk == old(imageDisk)
    {
      var rows := e.AsRows();
      if |chunks| != |rows.rows| {
        return Fail(ValueError(CountMismatch));
      }
      var toImage := isImage || LowerSuffix(p) in ImageExtensions;
      Remove(p, Some(toImage));
      if toImage {
        o := AppendImageRows(p, chunks, rows);
      } else {
        o := AppendTextRows(p, chunks, rows);
      }
    }

    /** The append half of an add to the text table. */
    method AppendTextRows(p: Path, chunks: seq<string>, rows: Array) returns (o: Outcome)
      requires Valid() && rows.Grid? && rows.Shaped() && |rows.rows| == |chunks|
      modifies this
      ensures Valid() && Image() == old(Image()) && imageDisk == old(imageDisk)
      ensures Append(old(Text()), p, chunks, rows).Err? ==>
        o == Fail(Append(old(Text()), p, chunks, rows).error) &&
        Text() == old(Text()) && textDisk == old(textDisk)
      ensures Append(old(Text()), p, chunks, rows).Ok? ==>
        o == Pass && Text() == Append(old(Text()), p, chunks, rows).value &&
        textDisk == SaveTo(old(textDisk), Text())
    {
      ghost var before := Text();
      if embeddings.None? {
        embeddings := Some(rows);
      } else {
        if rows.cols != embeddings.value.cols {
          return Fail(ValueError(DimensionMismatch));
        }
        embeddings := Some(Grid(embeddings.value.rows + rows.rows, rows.cols));
      }
      ghost var grown := embeddings;
      assert Append(before, p, chunks, rows) == Ok(Table(grown, before.metadata + NewMeta(p, chunks)));
      metadata := AppendRecords(metadata, p, chunks);
      Save();
      return Pass;
    }

    /** The append half of an add to the image table. */
    method AppendImageRows(p: Path, chunks: seq<string>, rows: Array) returns (o: Outcome)
      requires Valid() && rows.Grid? && rows.Shaped() && |rows.rows| == |chunks|
      modifies this
      ensures Valid() && Text() == old(Text()) && textDisk == old(textDisk)
      ensures Append(old(Image()), p, chunks, rows).Err? ==>
        o == Fail(Append(old(Image()), p, chunks, rows).error) &&
        Image() == old(Image()) && imageDisk == old(imageDisk)
      ensures Append(old(Image()), p, chunks, rows).Ok? ==>
        o == Pass && Image() == Append(old(Image()), p, chunks, rows).value &&
        imageDisk == SaveTo(old(imageDisk), Image())
    {
      ghost var before := Image();
      if imageEmbeddings.None? {
        imageEmbeddings := Some(rows);
      } else {
        if rows.cols != imageEmbeddings.value.cols {
          return Fail(ValueError(DimensionMismatch));
        }
        imageEmbeddings := Some(Grid(imageEmbeddings.value.rows + rows.rows, rows.cols));
      }
      ghost var grown := imageEmbeddings;
      assert Append(before, p, chunks, rows) == Ok(Table(grown, before.metadata + NewMeta(p, chunks)));
      imageMetadata := AppendRecords(imageMetadata, p, chunks);
      Save();
      return Pass;
    }

    /** `search`: the text matches, then the image matches, ranked together. */
    method Search(query: Array, topK: int, imageQuery: Option<Array>, score: Score)
      returns (r: Result<seq<SearchResult>>)
      requires Valid()
      ensures r == DualSearchSpec(Text(), Image(), query, topK, imageQuery, score)
    {
      r := SearchTables(Text(), Image(), query, topK, imageQuery, score);
    }

    /** `get_index_stats` */
    function GetIndexStats(): (st: IndexStats)
      requires Valid()
      reads this
      ensures st.totalChunks == |metadata| + |imageMetadata|
      ensures st.uniqueFiles == |PathsOf(metadata)| + |PathsOf(imageMetadata)|
      ensures st.embeddingDimension == (if embeddings.Some? then Some(embeddings.value.cols) else None)
    {
      DualStats(Text(), Image())
    }
  }
}
