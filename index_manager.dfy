/** `IndexManager`: the `file_index` table of the repository's SQLite database,
    keyed by path, and the change test that decides whether a file must be
    indexed again. The table is a map from path to stored row plus the order
    in which `SELECT *` returns the rows. */
module Index {
  import opened Wrappers
  import opened Paths
  import opened Seqs
  import opened Metadata
  import Repo
  import FS = FileSystem

  /** A column value as SQLite returns it. Timestamps are stored as the
      `isoformat()` text of a datetime; `Stamp` stands for that text, and
      `fromisoformat` reads it back to the same datetime. */
  datatype SqlValue = SqlText(s: string) | SqlInteger(i: int) | Stamp(t: int) | Null

  type Row = seq<SqlValue>

  /** `Optional[int]` as a nullable INTEGER column. */
  function NullableInt(v: Option<int>): SqlValue {
    if v.Some? then SqlInteger(v.value) else Null
  }

  /** A row as the `file_index` schema admits it: nine columns in declaration
      order, the NOT NULL columns present, the two counts nullable. */
  predicate RowShaped(row: Row) {
    |row| == 9 && row[0].SqlText? && row[1].SqlText? && row[2].SqlInteger? &&
    row[3].Stamp? && row[4].Stamp? && row[5].SqlText? && row[6].SqlInteger? &&
    (row[7].SqlInteger? || row[7].Null?) && (row[8].SqlInteger? || row[8].Null?)
  }

  datatype FileIndexEntry = FileIndexEntry(
    filePath: string,
    fileHash: string,
    fileSize: int,
    modifiedTime: Option<int>,
    indexedTime: Option<int>,
    extension: string,
    isTextType: bool,
    numChunks: Option<int>,
    embeddingDimension: Option<int>)

  /** `FileIndexEntry.from_row`: columns read by position. */
  function FromRow(row: Row): (e: FileIndexEntry)
    requires RowShaped(row)
    ensures e.modifiedTime.Some? && e.indexedTime.Some?
  {
    FileIndexEntry(
      row[0].s, row[1].s, row[2].i,
      Some(row[3].t), Some(row[4].t),
      row[5].s, row[6].i != 0,
      if row[7].Null? then None else Some(row[7].i),
      if row[8].Null? then None else Some(row[8].i))
  }

  /** SQLite's message for the missing `modified_time`. */
  const NotNullModifiedTime: string := "NOT NULL constraint failed: file_index.modified_time"

  /** The row `add_entry`'s INSERT writes, or the `IntegrityError` SQLite raises
      when `modified_time` is missing from a NOT NULL column. */
  function InsertRow(m: FileMetadata, fileHash: string, numChunks: Option<int>,
                     embeddingDimension: Option<int>, now: int): (r: Result<Row>)
    ensures r.Ok? <==> m.modifiedTime.Some?
    ensures r.Err? ==> r.error.IntegrityError?
    ensures r.Ok? ==> RowShaped(r.value) && r.value[0] == SqlText(m.filePath)
  {
    if m.modifiedTime.None? then Err(IntegrityError(NotNullModifiedTime))
    else Ok([SqlText(m.filePath), SqlText(fileHash), SqlInteger(m.fileSizeBytes),
             Stamp(m.modifiedTime.value), Stamp(now), SqlText(m.fileExtension),
             SqlInteger(if m.isTextType then 1 else 0),
             NullableInt(numChunks), NullableInt(embeddingDimension)])
  }

  /** `from_row` reads back what `add_entry` wrote; only `indexed_time` is new. */
  lemma InsertRoundTrip(m: FileMetadata, fileHash: string, numChunks: Option<int>,
                        embeddingDimension: Option<int>, now: int)
    requires m.modifiedTime.Some?
    ensures var e := FromRow(InsertRow(m, fileHash, numChunks, embeddingDimension, now).value);
      e == FileIndexEntry(m.filePath, fileHash, m.fileSizeBytes, m.modifiedTime, Some(now),
                          m.fileExtension, m.isTextType, numChunks, embeddingDimension)
  {
  }

  /** The stored table: every row is keyed by its own `file_path` column, and
      the scan order lists each stored path once. */
  predicate TableValid(rows: map<Path, Row>, order: seq<Path>) {
    Distinct(order) &&
    rows.Keys == Elements(order) &&
    (forall p :: p in rows ==> RowShaped(rows[p]) && rows[p][0] == SqlText(p))
  }

  /** `INSERT OR REPLACE`: the conflicting row is deleted and the new one is
      appended, so the path moves to the end of the scan order. */
  function Upsert(order: seq<Path>, p: Path): seq<Path> {
    Without(order, p) + [p]
  }

  /** `has_changed`, as an early-return decision over the stored row. */
  function Changed(rows: map<Path, Row>, fs: FS.FileSystem, m: FileMetadata): (r: Result<bool>)
    requires forall p :: p in rows ==> RowShaped(rows[p])
  {
    if m.filePath !in rows then Ok(true)
    else
      var entry := FromRow(rows[m.filePath]);
      if entry.fileSize != m.fileSizeBytes then Ok(true)
      else if entry.modifiedTime.Some? && m.modifiedTime.Some? &&
              entry.modifiedTime.value < m.modifiedTime.value then Ok(true)
      else
        var h :- FS.ContentHash(fs, m.filePath);
        Ok(entry.fileHash != h)
  }

  /** The three cheap tests decide before the hash is read: an unknown path, a
      different size, or a strictly newer modification time is a change. */
  lemma ChangedShortCircuits(rows: map<Path, Row>, fs: FS.FileSystem, m: FileMetadata)
    requires forall p :: p in rows ==> RowShaped(rows[p])
    ensures m.filePath !in rows ==> Changed(rows, fs, m) == Ok(true)
    ensures m.filePath in rows && FromRow(rows[m.filePath]).fileSize != m.fileSizeBytes ==>
      Changed(rows, fs, m) == Ok(true)
    ensures (m.filePath in rows && m.modifiedTime.Some? &&
             FromRow(rows[m.filePath]).modifiedTime.value < m.modifiedTime.value) ==>
      Changed(rows, fs, m) == Ok(true)
  {
  }

  /** Otherwise the answer is whether the content hash differs; a file whose
      modification time went backwards is judged by its hash alone. */
  lemma ChangedFallsBackToHash(rows: map<Path, Row>, fs: FS.FileSystem, m: FileMetadata)
    requires forall p :: p in rows ==> RowShaped(rows[p])
    requires m.filePath in rows
    requires FromRow(rows[m.filePath]).fileSize == m.fileSizeBytes
    requires m.modifiedTime.None? || m.modifiedTime.value <= FromRow(rows[m.filePath]).modifiedTime.value
    ensures FS.ContentHash(fs, m.filePath).Err? ==> Changed(rows, fs, m) == Err(FS.ContentHash(fs, m.filePath).error)
    ensures FS.ContentHash(fs, m.filePath).Ok? ==>
      Changed(rows, fs, m) == Ok(FromRow(rows[m.filePath]).fileHash != FS.ContentHash(fs, m.filePath).value)
  {
  }

  /** A file recorded from the current file system, with its current hash,
      is not changed. */
  lemma UnchangedAfterAdd(rows: map<Path, Row>, fs: FS.FileSystem, p: Path,
                          numChunks: Option<int>, embeddingDimension: Option<int>, now: int)
    requires forall q :: q in rows ==> RowShaped(rows[q])
    requires fs.IsFile(p)
    ensures var m := FromPath(fs, p).value;
      var row := InsertRow(m, FS.ContentHash(fs, p).value, numChunks, embeddingDimension, now).value;
      Changed(rows[p := row], fs, m) == Ok(false)
  {
    var m := FromPath(fs, p).value;
    var h := FS.ContentHash(fs, p).value;
    var rows' := rows[p := InsertRow(m, h, numChunks, embeddingDimension, now).value];
    InsertRoundTrip(m, h, numChunks, embeddingDimension, now);
    assert m.filePath == p && m.modifiedTime.Some?;
    ChangedFallsBackToHash(rows', fs, m);
  }

  /** The entries in scan order. */
  function EntriesOf(rows: map<Path, Row>, order: seq<Path>): (es: seq<FileIndexEntry>)
    requires forall p :: p in order ==> p in rows && RowShaped(rows[p])
    ensures |es| == |order|
    ensures forall i :: 0 <= i < |order| ==> es[i] == FromRow(rows[order[i]])
  {
    seq(|order|, i requires 0 <= i < |order| => FromRow(rows[order[i]]))
  }

  /** The stored table in its database's on-disk state, as a constructor input. */
  datatype TableImage = TableImage(rows: map<Path, Row>, order: seq<Path>)

  class IndexManager {
    const dbPath: Path
    var rows: map<Path, Row>
    var order: seq<Path>

    predicate Valid()
      reads this
    {
      TableValid(rows, order)
    }

    /** Opens the table; `CREATE TABLE IF NOT EXISTS` keeps an existing one. */
    constructor (dbPath: Path, stored: TableImage)
      requires TableValid(stored.rows, stored.order)
      ensures Valid() && this.dbPath == dbPath && rows == stored.rows && order == stored.order
    {
      this.dbPath := dbPath;
      this.rows := stored.rows;
      this.order := stored.order;
    }

    /** `IndexManager(repository)`: `None` raises; the database is the
        repository's `index.db`. */
    static method Create(repository: Option<Repo.Repository>, stored: TableImage) returns (r: Result<IndexManager>)
      requires TableValid(stored.rows, stored.order)
      ensures repository.None? <==> r.Err?
      ensures r.Err? ==> r.error == ValueError("repository cannot be None")
      ensures r.Ok? ==> (fresh(r.value) && r.value.Valid() &&
        r.value.dbPath == repository.value.config.indexDbPath &&
        r.value.rows == stored.rows && r.value.order == stored.order)
    {
      if repository.None? {
        return Err(ValueError("repository cannot be None"));
      }
      var m := new IndexManager(repository.value.config.indexDbPath, stored);
      return Ok(m);
    }

    /** `is_indexed` */
    predicate IsIndexed(p: Path)
      reads this
      ensures Valid() ==> (IsIndexed(p) <==> p in order)
    {
      p in rows
    }

    /** `get_index_entry` */
    function GetIndexEntry(p: Path): (e: Option<FileIndexEntry>)
      requires Valid()
      reads this
      ensures e.Some? <==> IsIndexed(p)
      ensures e.Some? ==> e.value.filePath == p
    {
      if p in rows then Some(FromRow(rows[p])) else None
    }

    /** `has_changed` */
    function HasChanged(fs: FS.FileSystem, m: FileMetadata): (r: Result<bool>)
      requires Valid()
      reads this
      ensures r == Changed(rows, fs, m)
      ensures !IsIndexed(m.filePath) ==> r == Ok(true)
    {
      Changed(rows, fs, m)
    }

    /** `add_entry`: insert or replace the path's row, stamped with `now`. */
    method AddEntry(m: FileMetadata, fileHash: string, numChunks: Option<int>,
                    embeddingDimension: Option<int>, now: int) returns (o: Outcome)
      requires Valid()
      modifies this
      ensures Valid()
      ensures var row := InsertRow(m, fileHash, numChunks, embeddingDimension, now);
        (row.Err? ==> o == Fail(row.error) && rows == old(rows) && order == old(order)) &&
        (row.Ok? ==> (o == Pass && rows == old(rows)[m.filePath := row.value] &&
          order == Upsert(old(order), m.filePath)))
    {
      var row := InsertRow(m, fileHash, numChunks, embeddingDimension, now);
      if row.Err? {
        return Fail(row.error);
      }
      rows := rows[m.filePath := row.value];
      order := Upsert(order, m.filePath);
      return Pass;
    }

    /** `remove_entry`: deleting an absent path changes nothing. */
    method RemoveEntry(p: Path)
      requires Valid()
      modifies this
      ensures Valid()
      ensures rows == old(rows) - {p} && order == Without(old(order), p)
    {
      rows := rows - {p};
      order := Without(order, p);
    }

    /** `get_all_entries` */
    function GetAllEntries(): (es: seq<FileIndexEntry>)
      requires Valid()
      reads this
      ensures forall e :: e in es ==> IsIndexed(e.filePath) && GetIndexEntry(e.filePath) == Some(e)
      ensures forall p :: IsIndexed(p) ==> GetIndexEntry(p).value in es
      ensures |es| == |rows|
    {
      DistinctCardinality(order);
      EntriesOf(rows, order)
    }

    /** `get_indexed_files_count`: `COUNT(*)`. */
    function IndexedFilesCount(): (n: nat)
      requires Valid()
      reads this
      ensures n == |GetAllEntries()|
    {
      DistinctCardinality(order);
      |rows|
    }
  }

  /** After `add_entry` the path has exactly one row, holding the latest call's
      values; every other path keeps its row. */
  lemma UpsertKeepsOneRowPerPath(rows: map<Path, Row>, order: seq<Path>, p: Path, row: Row)
    requires TableValid(rows, order) && RowShaped(row) && row[0] == SqlText(p)
    ensures TableValid(rows[p := row], Upsert(order, p))
    ensures |Upsert(order, p)| == |order| + (if p in rows then 0 else 1)
    ensures forall q :: q != p ==> (q in rows[p := row] <==> q in rows) && (q in rows ==> rows[p := row][q] == rows[q])
  {
    UpsertOrder(order, p);
    UpsertLength(order, p);
    var rows' := rows[p := row];
    assert rows'.Keys == rows.Keys + {p};
    assert forall q :: q in rows' ==> RowShaped(rows'[q]) && rows'[q][0] == SqlText(q);
  }

  /** The upserted scan order stays duplicate-free and gains `p`. */
  lemma UpsertOrder(order: seq<Path>, p: Path)
    requires Distinct(order)
    ensures Distinct(Upsert(order, p)) && Elements(Upsert(order, p)) == Elements(order) + {p}
  {
    var w := Without(order, p);
    AppendFresh(w, p);
    assert Elements(w) == Elements(order) - {p};
  }

  /** It is one longer exactly when `p` was not in it. */
  lemma UpsertLength(order: seq<Path>, p: Path)
    requires Distinct(order)
    ensures |Upsert(order, p)| == |order| + (if p in order then 0 else 1)
  {
    UpsertOrder(order, p);
    DistinctCardinality(order);
    DistinctCardinality(Upsert(order, p));
    var e := Elements(order);
    if p in order {
      assert p in e && e + {p} == e;
    } else {
      assert p !in e && e * {p} == {};
    }
  }
}
