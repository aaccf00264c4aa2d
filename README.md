# filex: a verified model of the incremental file index

filex indexes the files of a directory tree for semantic search, much as git
tracks a work tree. A `.filex` directory marks the repository. A change
tracker keyed by path decides whether a file needs reindexing. The file's
text is split into chunks and each chunk is embedded as a vector. The
vectors are kept in a path-keyed store and in an in-memory search table that
is copied to disk. A front end on the command line and a web server start
indexing runs and report statistics.

This project models that core in Dafny and proves properties of the model.
The modules follow the program's files:

- `Chunkers` (`chunkers.dfy`): the fixed-size window chunker and the greedy sentence packer, with their count estimates.
- `Interfaces` (`interfaces.dfy`): the `Embedder` and `Chunker` contracts and the array shapes the embedders return.
- `Handler` (`handler.dfy`): `TextEmbeddingHandler`, which composes a chunker with an embedder.
- `Metadata`, `FileHandlers`, `ImageHandlers` and `FileProcessor`: file classification, the text, default and image handlers, and the router that dispatches to the first handler that accepts a file.
- `Index` (`index_manager.dfy`): the change tracker, a table of entries keyed by path.
- `Storage` (`storage_manager.dfy`): the vector store and its JSON normaliser.
- The search index:
  - `SearchCore` holds the parts both variants share.
  - `Ranking` ranks scored rows.
  - `SearchSingle` is the single-table index of the repository package.
  - `SearchDual` is the two-table (text and image) index.
- `Repo` (`repository.dfy`): repository discovery and layout.
- `RepoManager` (`repo_manager.dfy`): `index_file`, `index_directory` and the status queries.
- `QueryParser` (`query_parser.dfy`): `parse_search_query` of the command line.
- `WebApp` (`web_app.dfy`): the web server's table of indexing tasks, the registered-folder list and the tallies of `get_stats`.
- Support modules:
  - `Wrappers`: `Option`, `Result` and the exception kinds.
  - `Text`: Python string operations.
  - `Paths`: `pathlib` on resolved paths.
  - `FileSystem`: a file system as a map from paths to nodes.
  - `Seqs`: sequence facts.

Some source files change state step by step. There the model keeps that form:
- classes whose methods update fields, with `modifies` clauses and loops carrying invariants;
- each method proved against a specification function;
- lemmas proving the source's promises about that function.

The other files become datatypes, functions and lemmas.

Some inputs come from outside the model and are parameters:
- file contents, sizes, times and digests are fields of the file-system value;
- the embedders, the text extractors and the regular-expression sentence split are functions passed in;
- the similarity is an abstract score function;
- the clock is an integer `now`;
- the order in which `rglob` and `iterdir` visit paths is a sequence `walk`.

## Model

| member | source | states |
|---|---|---|
| Chunkers.NewFixedSize | backend/src/chunkers.py:15-30 | construction succeeds exactly when `0 < chunk_size` and `0 <= overlap < chunk_size`; each failing check gives its own `ValueError` message, tested in the source's order |
| Chunkers.NewSentenceAware | backend/src/chunkers.py:77-90 | construction succeeds exactly when `target > 0` and any given maximum is at least the target; the maximum defaults to twice the target; each rejection carries its `ValueError` message |
| Chunkers.Window | backend/src/chunkers.py:47-48 | a window is never longer than `chunk_size` |
| Chunkers.ChunkFixed | backend/src/chunkers.py:32-53 | the source's `while start < len(text)` loop computes exactly the fixed-size chunk specification |
| Chunkers.FixedFromIsKept | backend/src/chunkers.py:46-51 | the `i`-th chunk is the window at the `i`-th index whose window is not whitespace-only |
| Chunkers.WindowsCons | backend/src/chunkers.py:46-51 | putting window `k` in front of later windows keeps each chunk paired with its window index, every index at least `k` and in range |
| Chunkers.KeptIncreasing | backend/src/chunkers.py:43-51 | the kept window indices lie below `ceil(len / step)` and strictly increase, so chunks come out in text order |
| Chunkers.KeptMembership | backend/src/chunkers.py:49-50 | a window index is kept exactly when its window has a non-whitespace character |
| Chunkers.FixedChunksAreWindows | backend/src/chunkers.py:39-53 | for a non-empty text: when every window is whitespace-only the one chunk is `text`; otherwise chunk `i` is `text[k*step : min(k*step+size, len)]` for strictly increasing `k < ceil(len/step)`, and a window index is kept if and only if its window is not whitespace-only |
| Chunkers.FixedFromBounds | backend/src/chunkers.py:46-51 | the number of chunks is at most the number of windows and equal to it when no window is blank; every chunk is non-empty and at most `chunk_size` long |
| Chunkers.FixedCountWithinEstimate | backend/src/chunkers.py:32-66 | the chunk count never exceeds `get_chunk_count_estimate(len(text))` and meets it when no window is blank; all chunks are non-empty |
| Chunkers.FixedExample | backend/src/chunkers.py:43-53 | a 1050-character text with size 512 and overlap 50 (no blank window) gives the windows `[0:512]`, `[462:974]`, `[924:1050]` |
| Chunkers.EstimateCharacterised | backend/src/chunkers.py:55-66 | the estimate is at least one, and for a positive length it is the least `e` with `e * step >= length` |
| Chunkers.StrippedNonBlank | backend/src/chunkers.py:102 | the kept sentences are non-empty and no more numerous than the regex pieces |
| Chunkers.Sentences | backend/src/chunkers.py:92-102 | every sentence returned is non-empty |
| Chunkers.JoinEach | backend/src/chunkers.py:126-138 | one joined chunk per sentence group |
| Chunkers.ChunkSentences | backend/src/chunkers.py:104-140 | the source's `for sentence in sentences` loop computes exactly the sentence-aware chunk specification |
| Chunkers.PackKeepsSentences | backend/src/chunkers.py:118-138 | the packing loop keeps every sentence, in order, in non-empty groups |
| Chunkers.JoinEachFlatten | backend/src/chunkers.py:126-138 | joining the chunks with spaces gives the sentences joined with spaces |
| Chunkers.SentenceChunksPartition | backend/src/chunkers.py:118-140 | the groups partition the sentences in order, there is at least one chunk, and the chunks joined equal the sentences joined |
| Chunkers.MaxBranchRedundant | backend/src/chunkers.py:125-135 | because `max_chunk_size >= target_chunk_size`, one loop step with the maximum equals the step with the target alone |
| Chunkers.MaxSizeIrrelevant | backend/src/chunkers.py:122-135 | `max_chunk_size` never changes the chunks |
| Chunkers.PackAllInv | backend/src/chunkers.py:118-135 | the loop keeps its invariant: `current_size` equals the group's lengths plus separators, and each closed group was closed only because the next sentence would pass the target |
| Chunkers.SentenceGroupsGreedy | backend/src/chunkers.py:122-138 | a new chunk starts only when adding the next sentence would take `current_size` past the target, and every sentence added to an open chunk kept it within the target |
| Chunkers.SentenceChunksNonEmpty | backend/src/chunkers.py:104-140 | every chunk is non-empty, and a non-empty text gives at least one chunk |
| Chunkers.Chunk | backend/src/interfaces.py:46-55 | `chunker.chunk(text)` dispatches to the strategy's loop and equals the strategy's specification |
| Chunkers.ChunkerContract | backend/src/interfaces.py:46-65 | both strategies meet the `Chunker` contract: non-empty chunks, no chunks exactly for empty text, and an estimate of at least one |
| Handler.EmbedEach | backend/src/embedding/handler.py:102 | the per-chunk fallback succeeds with row `i` equal to `embed(chunks[i])` for every chunk, and fails if any chunk's embedding fails |
| Handler.TextEmbeddingHandler.Create | backend/src/embedding/handler.py:21-46 | a missing embedder is a `ValueError("embedder cannot be None")`; otherwise the new handler holds the embedder and the given chunker, or `FixedSizeChunker(512, 50)` when none is given |
| Handler.TextEmbeddingHandler.SetChunker | backend/src/embedding/handler.py:48-59 | `None` raises `ValueError("chunker cannot be None")` and keeps the old chunker; otherwise the chunker is replaced and the embedder kept |
| Handler.TextEmbeddingHandler.EmbedText | backend/src/embedding/handler.py:77-115 | `embed_text` returns what its specification gives: the empty-text error, the no-chunks error, the embedding error, the count-mismatch error, or the chunks with their embeddings |
| Handler.TextEmbeddingHandler.EmbedFile | backend/src/embedding/handler.py:61-75 | an extraction error propagates; otherwise the result is `embed_text` of the extracted text |
| Handler.TextEmbeddingHandler.EstimatedChunkCount | backend/src/embedding/handler.py:117-127 | the estimate is at least one, and for non-empty text it is the chunker's estimate for its length |
| Handler.TextEmbeddingHandler.FileEstimatedChunkCount | backend/src/embedding/handler.py:129-143 | defined exactly for existing files; `max(1, estimate)` is exactly the chunker's estimate for the file size, which is at least one |
| Handler.EmbedTextShape | backend/src/embedding/handler.py:77-115 | a successful `embed_text` returns exactly the chunker's output, non-empty, with one embedding row per chunk; empty text gives `ValueError("text cannot be empty")` |
| Handler.EmbedTextSucceeds | backend/src/embedding/handler.py:85-115 | for non-empty text the chunker never gives zero chunks, and `embed_text` succeeds exactly when the embedding step gives a two-dimensional array with one row per chunk |
| Handler.ContractExcludesMismatch | backend/src/interfaces.py:27-35 | with an embedder whose `embed_batch` keeps its protocol, a successful batch call always passes the row-count check |
| Handler.FallbackInChunkOrder | backend/src/embedding/handler.py:97-102 | without `embed_batch`, row `i` of the result is `embed(chunks[i])`, in chunk order |
| Handler.EmptyFileFails | backend/src/embedding/handler.py:61-87 | a file whose text is empty is rejected with `ValueError("text cannot be empty")` |
| Metadata.FromPath | backend/src/file_metadata.py:25-61 | fails with `FileNotFoundError` exactly when the file is missing; otherwise it records the path, the name, the lower-cased suffix, the size and both timestamps |
| Metadata.TextClassification | backend/src/file_metadata.py:43-45 | a file is text exactly when its lower-cased suffix is `.txt` or `.docx` |
| Metadata.ClassificationIgnoresCase | backend/src/file_metadata.py:43-45 | two files whose suffixes agree up to case get the same extension and the same classification |
| FileHandlers.TextFileHandler.Create | backend/src/file_handlers.py:46-60 | a missing embedding handler raises `ValueError("embedding_handler cannot be None")`; otherwise the new handler holds the one given |
| FileHandlers.TextFileHandler.Process | backend/src/file_handlers.py:74-116 | `process` returns what its specification gives: a refusal for files `can_handle` rejects, the `embed_file` error, or the processed record |
| FileHandlers.TextProcessShape | backend/src/file_handlers.py:62-116 | `process` refuses exactly the files `can_handle` refuses; a processed file carries the chunks and embeddings of `embed_text`, `num_chunks == len(chunks) >= 1`, one row per chunk and the array's second axis as dimension |
| FileHandlers.TextCanHandleIsTextType | backend/src/file_handlers.py:62-72 | for metadata built by `from_path`, the text handler accepts a file exactly when it is a text type |
| FileHandlers.TextCanHandle | backend/src/file_handlers.py:62-72 | the text handler accepts exactly text-type files with extension `.txt` or `.docx` |
| FileHandlers.DefaultCanHandle | backend/src/file_handlers.py:131-138 | the default handler accepts every file |
| FileHandlers.DefaultProcess | backend/src/file_handlers.py:140-169 | the default handler returns the metadata only, `processed == False`, no embeddings and the "not supported for embedding processing" reason naming the extension |
| ImageHandlers.CanHandleAsWritten | backend/src/image_handlers.py:35-45 | as written, `can_handle` reads an attribute the metadata record lacks, so it raises `AttributeError` for every file |
| ImageHandlers.ProcessAsWritten | backend/src/image_handlers.py:47-56 | as written, `process` raises the same `AttributeError` for every file, before any embedding |
| ImageHandlers.CanHandle | backend/src/image_handlers.py:35-45 | the corrected `can_handle` accepts exactly the extensions `.png`, `.jpg` and `.jpeg` |
| ImageHandlers.Process | backend/src/image_handlers.py:47-93 | the corrected `process` refuses a file `can_handle` refuses with "Cannot handle file type", succeeds on an accepted file exactly when the embedder does, and a result has one chunk, the file's own path |
| ImageHandlers.ProcessShape | backend/src/image_handlers.py:47-93 | the corrected handler refuses non-image files; an accepted file has one chunk (its own path), `num_chunks == 1`, and a vector embedding becomes one row whose length is the dimension |
| ImageHandlers.ImageFileHandler.Create | backend/src/image_handlers.py:19-33 | a missing image embedder raises `ValueError("image_embedder cannot be None")`; otherwise the new handler holds the one given |
| FileProcessor.FirstAccepting | backend/src/file_processor.py:67-68 | finds the first handler in list order whose `can_handle` accepts the file, or reports that none does |
| FileProcessor.FileProcessorRouter.constructor | backend/src/file_processor.py:19-40 | the handler list is the text handler (when given) followed by the default handler, which is the given one or a new one |
| FileProcessor.FileProcessorRouter.SetTextHandler | backend/src/file_processor.py:42-55 | `None` raises `ValueError("text_handler cannot be None")` and changes nothing; otherwise the text handler is set and put first unless already listed; the default handler stays last |
| FileProcessor.FileProcessorRouter.ProcessFile | backend/src/file_processor.py:57-79 | the metadata error propagates; otherwise the first accepting handler processes the file, exactly as the routing specification says |
| FileProcessor.FileProcessorRouter.ProcessFiles | backend/src/file_processor.py:90-114 | the batch loop computes the batch specification: each path's routed result, or an error record naming the path |
| FileProcessor.FallbackUnreachable | backend/src/file_processor.py:67-79 | with the default handler last some handler always accepts, so the fallback after the loop never runs |
| FileProcessor.RoutesByType | backend/src/file_processor.py:31-39 | for the router built with a text handler, text files go to the text handler and every other file to the default handler |
| FileProcessor.MissingFileRecorded | backend/src/file_processor.py:100-110 | a missing file becomes an error record carrying `FileNotFoundError` and its path, not counted as processed |
| FileProcessor.BatchOnePerPath | backend/src/file_processor.py:97-114 | `process_files` returns exactly one entry per path, in input order |
| FileProcessor.SuccessCountBounds | backend/src/file_processor.py:112 | the success count is at most the number of results, equal to it exactly when every result was processed, and zero exactly when none was |
| Repo.Ancestors | backend/src/filex/embedding/repository.py:76-89 | the walk starts at the start path itself |
| Repo.FindRepository | backend/src/filex/embedding/repository.py:67-91 | the source's `while True` walk up the parents computes exactly the search specification |
| Repo.FindSomeIsNearest | backend/src/filex/embedding/repository.py:78-91 | a found directory is the `.filex` directory of the nearest ancestor that has one, with no nearer ancestor having one |
| Repo.FindNoneMeansNone | backend/src/filex/embedding/repository.py:78-91 | `None` means no ancestor up to the root has a `.filex` directory |
| Repo.NearestShift | backend/src/filex/embedding/repository.py:78-91 | an ancestor without a `.filex` directory in front of the walk leaves the nearest one found, one place further up |
| Repo.CreateRepository | backend/src/filex/embedding/repository.py:93-118 | an existing `.filex` entry is returned unchanged; otherwise `.filex` and its `index`, `embeddings` and `metadata` directories are created and every existing entry is kept |
| Repo.SetupConfig | backend/src/filex/embedding/repository.py:120-137 | the three directories sit directly in the repository directory and `index.db` directly in `index` |
| Repo.Repository.constructor | backend/src/filex/embedding/repository.py:63-64 | the repository records its path and the configuration derived from it |
| Repo.Repository.Open | backend/src/filex/embedding/repository.py:38-65 | uses the repository found from the start path, else creates one there when `create` is set, else raises `FileNotFoundError` with the file system untouched |
| Repo.OpenSpec | backend/src/filex/embedding/repository.py:53-61 | a found repository is used as is; otherwise it is created when `create` is set, or a `FileNotFoundError` is raised |
| Repo.FoundIsWellFormed | backend/src/filex/embedding/repository.py:78-82 | a repository found in a resolved file system has a well-formed path |
| Repo.WorkTreeIsParent | backend/src/filex/embedding/repository.py:139-145 | the work tree of the repository `<d>/.filex` is `d` |
| Repo.Repository.WorkTreeRoot | backend/src/filex/embedding/repository.py:139-145 | the repository directory lies in its work tree |
| Repo.Repository.IsPathInRepoAsWritten | backend/src/filex/embedding/repository.py:147-159 | as written, the prefix test accepts the work tree itself and only paths at least as long |
| Repo.Repository.IsPathInRepo | backend/src/filex/embedding/repository.py:147-159 | the corrected test accepts the repository directory and implies the as-written prefix test |
| Repo.InTreeRefinesPrefix | backend/src/filex/embedding/repository.py:147-159 | the component-wise test implies the string-prefix test, and the two differ only on paths that continue the root's last name without a `/` |
| Repo.PrefixCountsSiblings | backend/src/filex/embedding/repository.py:154-157 | as written, `/a/bc` counts as inside the work tree `/a/b` |
| Index.FromRow | backend/src/index_manager.py:59-77 | a row of the table schema reads back with both timestamps present |
| Index.InsertRow | backend/src/index_manager.py:251-271 | the INSERT row exists exactly when the metadata has a modification time, since the column is NOT NULL and a missing value is an `IntegrityError`; the row fits the schema and is keyed by the file's path |
| Index.InsertRoundTrip | backend/src/index_manager.py:59-77 | `from_row` reads back exactly what `add_entry` wrote, with `indexed_time` the insertion time |
| Index.ChangedShortCircuits | backend/src/index_manager.py:198-224 | an unknown path, a different size or a strictly newer modification time is a change, decided before the hash is read |
| Index.ChangedFallsBackToHash | backend/src/index_manager.py:218-234 | otherwise the answer is whether the content hash differs, and a hash read error propagates; a modification time that went backwards is judged by the hash alone |
| Index.UnchangedAfterAdd | backend/src/index_manager.py:198-271 | a file recorded from the current file system with its current hash is not reported as changed |
| Index.EntriesOf | backend/src/index_manager.py:301-314 | one entry per stored path, in scan order, each read from its row |
| Index.IndexManager.constructor | backend/src/index_manager.py:104-137 | `CREATE TABLE IF NOT EXISTS` keeps the stored table as it was |
| Index.IndexManager.Create | backend/src/index_manager.py:87-102 | a missing repository raises `ValueError("repository cannot be None")`; otherwise the manager opens the repository's `index.db` with the stored table |
| Index.IndexManager.GetIndexEntry | backend/src/index_manager.py:180-196 | an entry is returned exactly when the path is indexed, and it carries that path |
| Index.IndexManager.IsIndexed | backend/src/index_manager.py:164-178 | in a well-formed table, a path has a row exactly when it is in the table's scan |
| Index.IndexManager.HasChanged | backend/src/index_manager.py:198-234 | `has_changed` is the change test over the stored rows; an unindexed file is always changed |
| Index.IndexManager.AddEntry | backend/src/index_manager.py:236-279 | `INSERT OR REPLACE` stores the new row under the path and moves the path to the end of the scan order; a missing modification time fails and changes nothing |
| Index.IndexManager.RemoveEntry | backend/src/index_manager.py:281-299 | the path's row is deleted (an absent path changes nothing) and the table stays well formed |
| Index.IndexManager.GetAllEntries | backend/src/index_manager.py:301-314 | the listing holds every stored row: each listed entry is indexed and equals what `get_index_entry` returns for its path, every indexed path's entry is listed, and there are as many entries as rows |
| Index.IndexManager.IndexedFilesCount | backend/src/index_manager.py:316-329 | `COUNT(*)` equals the number of entries `get_all_entries` lists |
| Index.UpsertKeepsOneRowPerPath | backend/src/index_manager.py:256-271 | after the upsert the path has exactly one row, the row count grows only for a new path, and every other path keeps its row |
| Index.UpsertOrder | backend/src/index_manager.py:256-271 | the insertion order after `INSERT OR REPLACE` lists each path once and lists exactly the old paths plus the new one |
| Index.UpsertLength | backend/src/index_manager.py:256-271 | the row count grows by one for a new path and stays the same for a path already present |
| Storage.DictSet | backend/src/filex/embedding/storage_manager.py:189-193 | after `d[key] = value` the dictionary holds the pair, keeps every other entry, and holds nothing else |
| Storage.FloatList | backend/src/filex/embedding/storage_manager.py:150-151 | one float per vector component, in order |
| Storage.ToList | backend/src/filex/embedding/storage_manager.py:150-151 | `ndarray.tolist()` gives a list with one item per row and no numpy value inside |
| Storage.MakeSerializable | backend/src/filex/embedding/storage_manager.py:143-160 | arrays become nested float lists, numpy scalars floats, and dictionaries, lists and tuples keep their kind and size; other values are returned as they are |
| Storage.SerializableResult | backend/src/filex/embedding/storage_manager.py:143-160 | the normalised value holds no numpy value anywhere |
| Storage.SerializableFixed | backend/src/filex/embedding/storage_manager.py:143-160 | a value without numpy parts is left unchanged |
| Storage.MakeSerializableIdempotent | backend/src/filex/embedding/storage_manager.py:143-160 | normalising twice is the same as normalising once |
| Storage.Reloaded | backend/src/filex/embedding/storage_manager.py:118-119 | a tuple written as JSON reads back as a list of the same length |
| Storage.SavedMetadata | backend/src/filex/embedding/storage_manager.py:187-193 | the saved dictionary keeps every metadata field, adds `processed`, and adds `embeddings_info` with `num_chunks` and `embedding_dimension` when the result has embeddings |
| Storage.StorageManager.Create | backend/src/filex/embedding/storage_manager.py:21-40 | a missing repository raises `ValueError("repository cannot be None")`; otherwise the records live in the repository's `embeddings` and `metadata` directories |
| Storage.StorageManager.SaveEmbeddings | backend/src/filex/embedding/storage_manager.py:72-87 | the array overwrites the path's record, which then loads back as that array; paths with another digest keep what they load, and overwriting adds no record |
| Storage.StorageManager.SaveMetadata | backend/src/filex/embedding/storage_manager.py:106-122 | the normalised dictionary, as JSON reads it back, overwrites the path's record; paths with another digest keep what they load |
| Storage.StorageManager.SaveProcessingResult | backend/src/filex/embedding/storage_manager.py:162-197 | embeddings come from the result when none are passed and are saved only when present; the metadata with `embeddings_info` and `processed` is always saved |
| Storage.StorageManager.DeleteFileData | backend/src/filex/embedding/storage_manager.py:199-222 | both records of the path are removed, and an absent record is ignored |
| Storage.StorageManager.StorageSizeOf | backend/src/filex/embedding/storage_manager.py:224-246 | the total is the sum of the two directories' sizes; an empty directory contributes zero |
| Storage.RecordNameIsDigest | backend/src/filex/embedding/storage_manager.py:52-70 | two paths share a record exactly when their digests agree |
| Storage.StorageManager.EmbeddingsPath | backend/src/filex/embedding/storage_manager.py:52-60 | the embeddings record lies in the embeddings directory and ends in `.npy` |
| Storage.StorageManager.MetadataPath | backend/src/filex/embedding/storage_manager.py:62-70 | the metadata record lies in the metadata directory and ends in `.json` |
| Storage.StorageManager.LoadEmbeddings | backend/src/filex/embedding/storage_manager.py:89-104 | `None` exactly when the path's record is missing; paths with the same digest share the record |
| Storage.StorageManager.LoadMetadata | backend/src/filex/embedding/storage_manager.py:124-141 | `None` exactly when the path's record is missing; paths with the same digest share the record |
| Ranking.Insert | backend/src/filex/embedding/search_manager.py:257 | inserting a row adds exactly that row to the ranking |
| Ranking.InsertSorted | backend/src/filex/embedding/search_manager.py:257 | inserting a row in front of the first row it outranks keeps the ranking strictly ordered |
| Ranking.RankFromSorted | backend/src/filex/embedding/search_manager.py:257 | the ranking of the first `n` rows is strictly ordered by score, ties by position |
| Ranking.Ranked | backend/src/filex/embedding/search_manager.py:257 | `argsort(similarities)[::-1]`: a permutation of all row indices, highest score first |
| Ranking.TopIsBest | backend/src/filex/embedding/search_manager.py:257 | scores never increase along the ranking, equal scores keep row order, and no row outside the first `k` scores higher than a row inside |
| SearchCore.KeepFrom | backend/src/filex/embedding/search_manager.py:188-199 | the indices kept from a position on are ascending and are exactly the rows of other paths |
| SearchCore.KeepMeta | backend/src/filex/embedding/search_manager.py:199-202 | the kept records are the records at the kept indices, exactly the records of other paths |
| SearchCore.KeepRows | backend/src/filex/embedding/search_manager.py:199-204 | `embeddings[indices_to_keep]` holds the rows at the kept indices, in order |
| SearchCore.KeepNone | backend/src/filex/embedding/search_manager.py:193-207 | with no records of other paths, no index is kept |
| SearchCore.KeepAll | backend/src/filex/embedding/search_manager.py:193-207 | with no record of the path, every index is kept, in order |
| SearchCore.RemovePath | backend/src/filex/embedding/search_manager.py:180-210 | the removal keeps rows aligned with records, changes nothing when the path has no records, otherwise keeps exactly the other paths' rows and records in order, and leaves no record of the path |
| SearchCore.RemoveAllEmpties | backend/src/filex/embedding/search_manager.py:201-207 | removing the path every record belongs to leaves no array and no records |
| SearchCore.NewMeta | backend/src/filex/embedding/search_manager.py:167-173 | the appended records carry the path, its name, the chunk index and the chunk text, one per chunk |
| SearchCore.AppendRecords | backend/src/filex/embedding/search_manager.py:167-173 | the chunk loop appends exactly the records for the path's chunks, after the existing ones |
| SearchCore.Append | backend/src/filex/embedding/search_manager.py:153-173 | the first rows start the array and later rows must match its width; a successful append places the new rows and records after the old ones, and it fails exactly on a width mismatch |
| SearchCore.Scores | backend/src/filex/embedding/search_manager.py:245-255 | one score per row, computed against the query |
| SearchCore.AllResults | backend/src/filex/embedding/search_manager.py:259-268 | one result per record, in row order |
| SearchCore.Loaded | backend/src/filex/embedding/search_manager.py:81-101 | a saved copy is loaded as it is; a missing or unreadable one starts the index empty |
| SearchCore.AddSpec | backend/src/filex/embedding/search_manager.py:120-178 | the add keeps rows aligned and the disk in step whenever the table has rows; a count mismatch fails and changes nothing |
| SearchCore.AddReplaces | backend/src/filex/embedding/search_manager.py:120-178 | a successful add replaces the path's records with the new chunks, numbered from zero and placed last in order, keeps the other paths' records, and writes a table with rows to disk |
| SearchCore.AddShape | backend/src/filex/embedding/search_manager.py:120-178 | a successful add is the removal followed by the append, and it writes the table it leaves |
| SearchCore.NewMetaAtEnd | backend/src/filex/embedding/search_manager.py:167-173 | after records of other paths, the path's records are the last ones, numbered from zero |
| SearchCore.AddFailsAfterRemoval | backend/src/filex/embedding/search_manager.py:151-164 | a width mismatch is reported after the path's old rows are already gone, so the failed add still changes the table |
| SearchCore.AddKeepsTight | backend/src/filex/embedding/search_manager.py:120-178 | with at least one chunk, the array is `None` exactly when there are no records, before and after the add |
| SearchCore.EmptyAddUntightens | backend/src/filex/embedding/search_manager.py:153-155 | adding no chunks to an empty index stores a zero-row array, so the array is no longer `None` although there are no records |
| SearchCore.RemoveLastKeepsDisk | backend/src/filex/embedding/search_manager.py:103-118 | removing the last rows writes nothing, so loading the copy again brings the removed records back |
| SearchCore.PathsAtMostRecords | backend/src/filex/embedding/search_manager.py:286 | there are never more distinct paths than records, and at least one when there are records |
| SearchSingle.TopResults | backend/src/filex/embedding/search_manager.py:257-268 | result `k` is the record and score of the `k`-th ranked row |
| SearchSingle.CollectTop | backend/src/filex/embedding/search_manager.py:257-268 | the result loop builds exactly the results of the first `min(top_k, rows)` ranked rows |
| SearchSingle.SearchTable | backend/src/filex/embedding/search_manager.py:212-271 | the body of `search` on a table computes what the search specification gives |
| SearchSingle.SearchSpec | backend/src/filex/embedding/search_manager.py:212-271 | `top_k <= 0` raises; an empty index gives no results; a query of the wrong width raises; a zero query gives no results; otherwise at most `top_k` results |
| SearchSingle.SearchIsTopK | backend/src/filex/embedding/search_manager.py:245-271 | a ranking search returns `min(top_k, rows)` results, best first, each the record and score of a distinct row, and no row left out scores higher than a row returned |
| SearchSingle.StatsBounds | backend/src/filex/embedding/search_manager.py:273-292 | `unique_files` is between one and `total_chunks` when there are records and zero otherwise, and the dimension is the row width |
| SearchSingle.Stats | backend/src/filex/embedding/search_manager.py:273-292 | an index with no array gives all zeros; otherwise `total_chunks` is the number of records and `unique_files` never exceeds it |
| SearchSingle.SearchManager.constructor | backend/src/filex/embedding/search_manager.py:58-101 | the index and metadata file names sit in the index directory, and the table starts as the loaded copy |
| SearchSingle.SearchManager.Create | backend/src/filex/embedding/search_manager.py:58-79 | a missing repository raises `ValueError("repository cannot be None")`; otherwise the index lives in the repository's `index` directory |
| SearchSingle.SearchManager.Save | backend/src/filex/embedding/search_manager.py:103-118 | the disk copy is rewritten only when the table has rows; the table itself is unchanged |
| SearchSingle.SearchManager.Remove | backend/src/filex/embedding/search_manager.py:180-210 | the table becomes the removal of the path, and the disk is rewritten only when something was removed |
| SearchSingle.SearchManager.Add | backend/src/filex/embedding/search_manager.py:120-178 | the table, the disk and the outcome after the call are what the add specification gives |
| SearchSingle.SearchManager.AppendRows | backend/src/filex/embedding/search_manager.py:153-175 | a width mismatch fails and changes nothing; otherwise the append specification's table is kept and written to disk |
| SearchSingle.SearchManager.Search | backend/src/filex/embedding/search_manager.py:212-271 | `search` returns what the search specification gives |
| SearchSingle.SearchManager.GetIndexStats | backend/src/filex/embedding/search_manager.py:273-292 | `total_chunks` is the record count (0 with no array), `unique_files` the number of distinct paths, and the dimension the row width |
| SearchDual.AddSpecAsWritten | backend/src/search_manager.py:157-238 | as written, the add keeps rows aligned and a count mismatch fails and changes nothing; the emptiness test and width come from the table captured before the removal |
| SearchDual.AsWrittenAgreesOtherwise | backend/src/search_manager.py:193-221 | the add as written agrees with the replacing add except when the removal emptied a table that had rows |
| SearchDual.ReaddSoleFileFails | backend/src/search_manager.py:193-221 | re-adding the only file of a table, with rows of the same width, fails in `np.vstack` as written and leaves the table empty, while the replacing add succeeds with exactly the new records |
| SearchDual.TableResults | backend/src/search_manager.py:313-355 | a table gives no results without a query, rows, a matching width or a non-zero query; otherwise one result per row, in row order, scored against the query |
| SearchDual.AppendMatches | backend/src/search_manager.py:313-355 | one table's result loop appends exactly that table's results to those gathered so far |
| SearchDual.ScoresOf | backend/src/search_manager.py:357 | the sort key of each merged result is its similarity score |
| SearchDual.Best | backend/src/search_manager.py:357-358 | the merged results in ranking order, truncated to `top_k` |
| SearchDual.DualSearchSpec | backend/src/search_manager.py:292-361 | the search raises exactly when `top_k <= 0`, and otherwise returns at most `top_k` results |
| SearchDual.SearchTables | backend/src/search_manager.py:292-361 | the body of `search` on the two tables computes what the two-table search specification gives |
| SearchDual.BestIsTopK | backend/src/search_manager.py:357-358 | the merged results are the best `top_k` text and image matches: scores never increase, ties keep text before image and row order, every result is a match, and no match left out scores higher than one returned |
| SearchDual.MismatchedQueryIsSkipped | backend/src/search_manager.py:317 | a text query of the wrong width adds no text results and raises nothing |
| SearchDual.DualStatsCountsSharedTwice | backend/src/search_manager.py:363-381 | `unique_files` adds the two tables' counts, so a path with rows in both is counted twice; it never exceeds `total_chunks` |
| SearchDual.DualStats | backend/src/search_manager.py:363-381 | `total_chunks` adds the two tables' records, `unique_files` never exceeds it, and a dimension is reported only when the text table has an array |
| SearchDual.SearchManager.constructor | backend/src/search_manager.py:60-127 | both tables start as their loaded copies |
| SearchDual.SearchManager.Create | backend/src/search_manager.py:60-87 | a missing repository raises `ValueError("repository cannot be None")`; otherwise both indexes live in the repository's `index` directory |
| SearchDual.SearchManager.Save | backend/src/search_manager.py:129-155 | each table's copy becomes what `save` writes for that table; the tables are unchanged |
| SearchDual.SearchManager.Remove | backend/src/search_manager.py:240-290 | `None` clears the path from both tables and a flag from one; the disk is rewritten only when something was removed |
| SearchDual.SearchManager.Add | backend/src/search_manager.py:157-238 | rows go to the image table when flagged or when the suffix is `.png`, `.jpg` or `.jpeg`, else to the text table, and that table ends as the replacing add gives while the other is unchanged |
| SearchDual.SearchManager.AppendTextRows | backend/src/search_manager.py:202-233 | a width mismatch fails and changes nothing; otherwise the text table becomes the append and is written; the image table is unchanged |
| SearchDual.SearchManager.AppendImageRows | backend/src/search_manager.py:202-233 | a width mismatch fails and changes nothing; otherwise the image table becomes the append and is written; the text table is unchanged |
| SearchDual.SearchManager.Search | backend/src/search_manager.py:292-361 | `search` returns what the two-table search specification gives |
| SearchDual.SearchManager.GetIndexStats | backend/src/search_manager.py:363-381 | `total_chunks` and `unique_files` add the two tables' counts, and the dimension is the text table's width |
| RepoManager.Lowered | backend/src/filex/embedding/repo_manager.py:201 | the extension list lower-cased element by element, same length |
| RepoManager.LoweredFixed | backend/src/filex/embedding/repo_manager.py:201 | lower-casing a list of extensions with no capital letters returns the same list |
| RepoManager.Collected | backend/src/filex/embedding/repo_manager.py:194-209 | a path is collected exactly when the walk yields it and it is a file, outside `.filex`, inside the directory (directly, when not recursive) and of a listed extension when a list is given |
| RepoManager.InsertSorted | backend/src/filex/embedding/repo_manager.py:211 | inserting into a strictly sorted list keeps it strictly sorted and adds exactly the new path |
| RepoManager.SortedSet | backend/src/filex/embedding/repo_manager.py:211 | `sorted(set(...), key=str)` is strictly sorted and has exactly the elements of its input |
| RepoManager.SortedIsUnique | backend/src/filex/embedding/repo_manager.py:211 | two strictly sorted lists with the same elements are equal, so the sorted set does not depend on the order of its input |
| RepoManager.FilesToIndexIsSortedEligible | backend/src/filex/embedding/repo_manager.py:194-211 | the files to index are strictly sorted, without repeats, exactly the eligible paths, and the same whatever order the walk yields the paths in |
| RepoManager.CountsPartition | backend/src/filex/embedding/repo_manager.py:276-277 | text and non-text entries add up to all entries |
| RepoManager.TextChunksIgnoresNonText | backend/src/filex/embedding/repo_manager.py:279 | a non-text entry adds no chunks to `total_chunks`, wherever it stands |
| RepoManager.Filtered | backend/src/filex/embedding/repo_manager.py:300-301 | the listing keeps exactly the entries whose extension matches case-insensitively, and never grows |
| RepoManager.RepositoryManager.constructor | backend/src/filex/embedding/repo_manager.py:41-45 | the manager holds the repository, the index, storage and search managers and the processor it is given |
| RepoManager.RepositoryManager.Open | backend/src/filex/embedding/repo_manager.py:26-47 | opening succeeds exactly when the repository can be found or created, with the same error otherwise, and yields a manager over that repository holding the given processor |
| RepoManager.RepositoryManager.SetProcessor | backend/src/filex/embedding/repo_manager.py:49-60 | `None` raises `ValueError("processor cannot be None")` and keeps the old processor; anything else replaces it |
| RepoManager.RepositoryManager.Record | backend/src/filex/embedding/repo_manager.py:99-163 | the entry is upserted (a failed insert changes nothing); storage is written only for processed results with embeddings and the search index only when there are chunks too, and the result carries the processed flag, metadata, chunk count and dimension |
| RepoManager.RepositoryManager.StoreResult | backend/src/filex/embedding/repo_manager.py:114-154 | storage is written only for a processed result with embeddings, the search index only when there are also chunks and a rectangular array, and nothing else changes |
| RepoManager.RepositoryManager.IndexFile | backend/src/filex/embedding/repo_manager.py:62-163 | no processor and a missing file raise and change nothing; the call raises exactly when the file is neither skipped nor indexed, and then changes nothing; it skips exactly an unchanged file without `force`, returning its entry; it indexes exactly a file the router processes that is changed or forced, and then the reply is the one `Record` gives for the router's result, the store, index and search state are those `Record` leaves for the file's metadata, result and content hash, and the file no longer counts as changed; only the path's own row can change |
| RepoManager.RepositoryManager.ProcessAndRecord | backend/src/filex/embedding/repo_manager.py:97-163 | a routing failure is raised as the router's error and a hashing failure as the hash's error, changing nothing; otherwise the reply is the one `Record` gives for the router's result, the state is the one `Record` leaves for the file's metadata, result and content hash, and the file is indexed and no longer counts as changed |
| RepoManager.RepositoryManager.RecordFile | backend/src/filex/embedding/repo_manager.py:99-163 | recording a file of the file system with its current hash always succeeds with the reply and the new state `Record` promises for the file's own metadata, indexes the path and leaves it unchanged for the change check |
| RepoManager.RepositoryManager.IndexDirectory | backend/src/filex/embedding/repo_manager.py:165-253 | a missing directory raises `ValueError` and changes nothing; otherwise `total_files` is the number of files to index, indexed, skipped and errors add up to it with one message per error, only the rows of the files to index can change, and every file to index that the router processes ends up indexed |
| RepoManager.RepositoryManager.IndexEach | backend/src/filex/embedding/repo_manager.py:213-245 | the loop over the files to index counts every file once as indexed, skipped or an error with one message per error, changes only the rows of those files, and leaves each file the router processes indexed |
| RepoManager.RepositoryManager.ReindexAll | backend/src/filex/embedding/repo_manager.py:255-265 | `reindex_all` has the outcome of `index_directory` on the work tree, recursively and with no extension filter: a missing work tree raises and changes nothing; otherwise the counts cover the files to index and add up, only their rows change, and each one the router processes is indexed |
| RepoManager.RepositoryManager.GetIndexStatus | backend/src/filex/embedding/repo_manager.py:267-289 | the status counts all entries, splits them into text and non-text, sums the text entries' chunks, and reports the repository's own `.filex` path and names the work tree as its parent |
| RepoManager.RepositoryManager.ListIndexedFiles | backend/src/filex/embedding/repo_manager.py:291-303 | the listing holds exactly the indexed entries whose extension matches, at most as many as are indexed |
| QueryParser.ParseSearchQuery | backend/filex.py:22-60 | the loop's query text and count are those of the token-by-token scan |
| QueryParser.FlagArgument | backend/filex.py:26-31 | the reading the documented `-count --5` form needs: an `int()` literal when there is one, else a dash-and-digits count, else nothing |
| QueryParser.ScanKeepsPrefix | backend/filex.py:40-57 | words kept earlier stay in front and do not affect the rest of the scan |
| QueryParser.FlagIsNotDashCount | backend/filex.py:43-51 | the four flag words are never read as counts themselves |
| QueryParser.ScanKeepsTokens | backend/filex.py:40-57 | the kept words are tokens of the input, at most one per token, and none of them is a dash-and-digits count |
| QueryParser.TextWordsAreTokens | backend/filex.py:35-60 | every word of the query text is a word of the input, and no dash-and-digits count survives into the text |
| QueryParser.ScanPlain | backend/filex.py:40-57 | without count tokens every token is kept, unchanged and in order, and the count stays as it was |
| QueryParser.PlainQuery | backend/filex.py:26-27 | a query without count tokens is its words joined by single spaces, with count 10 |
| QueryParser.ScanSplits | backend/filex.py:40-57 | scanning a joined token list passes the boundary in the state the first part ends in, when the next token cannot be a flag's value |
| QueryParser.NatToStringValue | backend/filex.py:46 | the decimal form of `n` reads back as `n` under `int()` |
| QueryParser.LastCountWins | backend/filex.py:28-29 | a trailing `--count n` sets the count to `n` and leaves the text as it was |
| QueryParser.LastDashCountWins | backend/filex.py:51-54 | a trailing `--n` sets the count to `n` and leaves the text as it was |
| QueryParser.DashCountToken | backend/filex.py:46-52 | `--n` is a dash-and-digits count of value `n` and no `int()` literal |
| QueryParser.MinusCountWord | backend/filex.py:43-51 | `-count` is a flag word, no `int()` literal, and no dash-and-digits count |
| QueryParser.DashLetterToken | backend/filex.py:43-51 | a dash followed by a lower-case letter and more letters or dashes is a word, no `int()` literal and no dash-and-digits count |
| QueryParser.DashDigits | backend/filex.py:51-52 | two dashes before digits make a count token whose value is the digits' value |
| QueryParser.DashDigitsNotFlag | backend/filex.py:43 | two dashes before digits are no flag word |
| QueryParser.DashDigitsNotInt | backend/filex.py:46 | two dashes before anything are no `int()` literal |
| QueryParser.DashCountLast | backend/filex.py:51 | a dash-and-digits count ends in a digit |
| QueryParser.FlagThenDashCount | backend/filex.py:43-57 | a flag word and then a count token its reader rejects, at the end: the flag word is kept and the count is the token's value |
| QueryParser.FlagThenArgument | backend/filex.py:43-48 | a flag word and then an argument its reader accepts, at the end: both are dropped and the count is the argument |
| QueryParser.FlagBeforeDashCountAt | backend/filex.py:40-57 | words then a flag word and a rejected count token: the words and the flag word are kept and the count is the token's value |
| QueryParser.FlagArgumentAt | backend/filex.py:40-57 | words then a flag word and an accepted argument: only the words are kept and the count is the argument |
| QueryParser.FlagBeforeDashCountKept | backend/filex.py:43-54 | as written, `-count --n` sets the count to `n` but keeps `-count` in the text, because `int("--n")` fails |
| QueryParser.DashCountIsWord | backend/filex.py:35 | `--n` contains no white space |
| QueryParser.ExampleSplits | backend/filex.py:35 | a search string of plain words then `-count --n` splits back into those tokens |
| QueryParser.PlainWordsKept | backend/filex.py:40-57 | plain words are kept unchanged by both readings |
| QueryParser.DocExampleAsWritten | backend/filex.py:30 | as written, "types of fruits -count --5" gives the count 5 and the text "types of fruits -count" |
| QueryParser.FixedFlagDashCountWins | backend/filex.py:30 | with a flag accepting either form, `-count --n` drops both tokens and sets the count to `n` |
| QueryParser.DocExampleFixed | backend/filex.py:30 | with a flag accepting either form, "types of fruits -count --5" gives the text "types of fruits" and the count 5 |
| QueryParser.FixedAgrees | backend/filex.py:40-57 | both readings agree on every query without a dash-and-digits count after a flag word |
| Text.ParseInt | backend/filex.py:46 | `int()` of a token: a run of ASCII digits reads as its decimal value, and the empty token raises `ValueError` |
| Text.SplitJoin | backend/filex.py:35 | splitting words joined by single spaces gives the words back |
| WebApp.Begin | backend/src/web_app.py:381-383 | a started task is `indexing` and keeps its counts |
| WebApp.Finish | backend/src/web_app.py:385-433 | a task always ends finished: `error` with the message exactly when the indexing call raised, otherwise `completed` with one file's or the directory's counts; consistent counts stay consistent |
| WebApp.TaskLifecycle | backend/src/web_app.py:371-433 | a task started from a fresh entry ends finished with consistent counts, at most as many indexed as found |
| WebApp.AddFolder | backend/src/web_app.py:293-298 | registering adds the folder once: it is in the list afterwards with the old folders, and a list without repeats keeps none |
| WebApp.RemoveFolder | backend/src/web_app.py:316-321 | unregistering removes one occurrence when there is one and keeps every other folder |
| WebApp.RegisterUnregister | backend/src/web_app.py:293-321 | registering a new folder and unregistering it restores the list |
| WebApp.FileTypesCount | backend/src/web_app.py:550-558 | `file_types` has one row per lower-cased extension among the entries, counting its entries |
| WebApp.AddEntry | backend/src/web_app.py:552-558 | one entry adds its lower-cased extension to the table, one to that row's count (starting from zero when the row is new), and leaves every other row alone |
| WebApp.FileTypesStep | backend/src/web_app.py:550-558 | `file_types` for one more entry is the previous table with that entry added |
| WebApp.SumCountsStep | backend/src/web_app.py:550-555 | one more entry adds one to the count of its own extension |
| WebApp.OccursOnce | backend/src/web_app.py:550-555 | an extension listed once among distinct keys is met exactly once |
| WebApp.OccursNot | backend/src/web_app.py:550-555 | an extension not listed is never met |
| WebApp.FileTypeCountsAddUp | backend/src/web_app.py:550-563 | the `file_types` counts add up to the number of indexed entries |
| WebApp.ZeroCounts | backend/src/web_app.py:550 | with no entries every count is zero |
| WebApp.IndexableIsLower | backend/src/web_app.py:399-400 | the default extensions are already lower case, so lower-casing them changes nothing |
| WebApp.EligibleAreIndexable | backend/src/web_app.py:572-576 | a path is eligible exactly when it is a file below the work tree, outside `.filex`, with an indexable lower-cased suffix |
| WebApp.StatsEligibleIsEligible | backend/src/web_app.py:569-576 | the statistics' eligibility test is the reindex's filter with the default extensions and recursion |
| WebApp.BumpRow | backend/src/web_app.py:577-579 | counting one more file of a suffix adds that suffix's row if needed and one to its count, and nothing else |
| WebApp.EligibleTypesCount | backend/src/web_app.py:566-585 | `eligible_file_types` has one row per lower-cased suffix among the eligible files, counting its files |
| WebApp.IndexableSplits | backend/src/web_app.py:561-569 | an indexable extension is a text extension or an image extension, never both |
| WebApp.TextAndImageSplitEligible | backend/src/web_app.py:587-588 | the eligible text and image counts add up to the number of eligible files |
| WebApp.StatsCheck | backend/src/web_app.py:532-537 | a named repository path that does not exist is a 404, one that is not a directory is a 400, and anything else passes |
| WebApp.StatsCheckAsWritten | backend/src/web_app.py:530-625 | as written, the path check fails exactly when the intended one does, always with status 500 and a detail that ends with the intended detail |
| WebApp.MissingPathIsServerError | backend/src/web_app.py:530-625 | as written, a missing repository path is reported as a 500 because the 404 is caught by the general handler; the intended check gives the 404 |
| WebApp.TallyFileTypes | backend/src/web_app.py:550-558 | the loop builds exactly `file_types` |
| WebApp.EligibleStep | backend/src/web_app.py:572-585 | one more eligible file updates its suffix's row and adds its size to the total |
| WebApp.EligiblePrefixStep | backend/src/web_app.py:572-576 | one more path of the walk adds it to the eligible files exactly when it is eligible |
| WebApp.TallyOne | backend/src/web_app.py:576-585 | counting one eligible file appends it and updates the rows and the total size as the specification says |
| WebApp.TallyEligible | backend/src/web_app.py:566-585 | the `rglob` loop builds exactly the eligible files, their `eligible_file_types` and their total size |
| WebApp.TallyPath | backend/src/web_app.py:573-585 | one walked path is appended and tallied when it is eligible and passed over otherwise, keeping the type table and size total those of the files kept |
| WebApp.GlobalState.constructor | backend/src/web_app.py:52-61 | the server starts with no tasks and the folders saved on disk |
| WebApp.GlobalState.IndexFiles | backend/src/web_app.py:328-377 | a missing `repo_path` is a 400, a missing path a 404, a file a 400, a failing `get_repo_manager` a 400 or 500; a running task is reported as a conflict; otherwise a fresh `starting` entry is claimed; only a start changes the table of indexing tasks |
| WebApp.GlobalState.Perform | backend/src/web_app.py:385-424 | a named file is indexed alone: the job reports `indexed` exactly when `index_file` indexes it, `skipped` exactly when it skips it, and fails exactly when it raises; anything else is indexed as a directory with the default extensions unless the request names some, failing with "Directory not found" exactly when it is no directory, and otherwise with `index_directory`'s counts, row changes and indexed files |
| WebApp.GlobalState.RunIndexTask | backend/src/web_app.py:379-433 | the entry ends as the finished form of its started form, with consistent counts, and nothing else in the table changes |
| WebApp.GlobalState.GetProgress | backend/src/web_app.py:628-650 | an unknown task reads `not_found` with zero counts; a known one is a copy of its entry: status, counts, message and error |
| WebApp.GlobalState.ClearProgress | backend/src/web_app.py:661-684 | an unknown task is a 404, an active one a 400, and only a finished task's entry is removed |
| WebApp.GlobalState.RegisterFolder | backend/src/web_app.py:278-304 | a missing path is a 404, a file a 400, and a directory is added once to the folders |
| WebApp.GlobalState.UnregisterFolder | backend/src/web_app.py:307-325 | the folder is removed from the list, which is returned with its length |
| WebApp.GlobalState.GetRegisteredFolders | backend/src/web_app.py:267-275 | the reply lists the registered folders and their number |
| WebApp.GlobalState.GetStats | backend/src/web_app.py:519-623 | the intended 404/400 of a failing path check (the code as written turns them into 500, see Findings); otherwise the reply holds the repository path, the work tree, the index counts, the search index's statistics, `file_types`, `eligible_file_types`, the eligible file count, its text and image counts by suffix (which add up to it) and the eligible files' total size |
| WebApp.EligibleAreWhatReindexIndexes | backend/src/web_app.py:566-576 | on the same walk, the statistics count as many eligible files as a recursive reindex with the default extensions indexes |
| WebApp.EligibleKeepsDistinct | backend/src/web_app.py:572-576 | a walk without repeats gives eligible files without repeats |
| Paths.Suffix | backend/src/file_metadata.py:43 | `Path.suffix` is empty or starts with a dot |
| Paths.Name | backend/src/file_metadata.py:49 | `Path.name` contains no slash |
| FileSystem.ContentHash | backend/src/index_manager.py:140-153 | hashing succeeds exactly on a regular file; a missing path or a directory raises |
| FileSystem.FileSize | backend/src/file_extractors.py:91-98 | `st_size` of an existing path, `FileNotFoundError` otherwise |
| Interfaces.Stack | backend/src/embedding/handler.py:102 | `np.array` of equal-length vectors is a two-dimensional array with those rows; only ragged input can raise |
| Text.SplitWhitespace | backend/filex.py:35 | `str.split()` yields non-empty tokens without white space |
| Text.StripDashes | backend/filex.py:51 | `lstrip("-")` removes exactly the leading dashes |
| Text.Strip | backend/src/chunkers.py:102 | `strip()` is empty exactly for a blank string and otherwise neither starts nor ends with white space |
| Text.LowerStr | backend/src/file_metadata.py:43 | `lower()` keeps the length and lower-cases each character in place (ASCII letters only) |

## Left out

- The HTTP layer of `web_app.py` is not modelled: routes, CORS, start-up and shutdown, base64 image payloads, the thread pool and the lock. The table of indexing tasks is updated by a sequence of calls. `RunIndexTask` stands for the background job `index_task`, which runs after `IndexFiles` has claimed the entry.
- `get_repo_manager` needs the embedding models and a cache of managers, so it is not modelled. Its outcome is the parameter `got` of `IndexFiles`, and `GetStats` takes the manager it would return.
- The command-line plumbing of `filex.py`, apart from `parse_search_query`, is not modelled: argument parsing, printing and the server launcher.
- Models and file formats enter only as injected functions: the embedders (sentence-transformers, CLIP), the text extractors and the regular expression that splits sentences.
- Cosine similarity is an abstract score function, because its floating-point norms and epsilon are not modelled. The zero-norm guard is stated as "every component is zero".
- SHA-256 digests of contents and of path strings are opaque strings, and neither is computed. The file's digest lives in the file-system value. The store names its records by an injected digest function of the path string.
- Nothing is read from or written to disk: the SQLite database, the `.npy` and JSON files, `mkdir`, `stat` and `rglob`. The file system is a map from resolved paths to nodes, and the walk order is a parameter.
- Paths are taken as already resolved (absolute and normalised), so `Path.resolve()` is the identity. As a result these cases are not modelled:
  - the "Invalid path format" error of `index_files`;
  - `is_path_in_repo` returning False when resolution raises.
- `Text.ParseInt` reads ASCII digits only. Python's `int()` and `str.isdigit()` also accept other Unicode digits, and `int()` allows surrounding white space.
- Logging, the `tqdm` progress bar and the `to_dict` serialisations are not modelled. The serialisations left out are those of `FileIndexEntry`, `SearchResult` and the response dictionaries. The models keep the fields as datatypes.
- `file_size_kb`, `file_size_mb` and the MB and KB figures of `get_stats` are not modelled, because they are floating-point displays.
- `Storage.StorageManager.StorageSizeOf`: a ghost function over a given size of each record, since sizes on disk are I/O. For the same reason the storage size is missing from the records of `get_index_status` and `get_stats`.
- `SearchCore.Loaded`: a copy on disk is assumed to be one that `_save_search_data` wrote, with rows and metadata aligned. A hand-edited file of mismatched lengths is not modelled.
- `SearchDual.AddSpecAsWritten`: stacking onto `None` is modelled as a `ValueError` for every width. For one-column embeddings numpy instead stacks an extra object row.
- Ranking ties are broken by row position. The single-table search uses `np.argsort(...)[::-1]`, whose order among equal scores numpy does not fix, so the model picks one of the orders it may produce. The two-table search sorts a Python list stably, which gives exactly this order.
- `SearchDual.SearchManager.Search` builds the merged list and ranks it with a function. The model does not sort a list in place.
- `RepoManager.RepositoryManager.Record`: the search index is updated only when the embeddings form a rectangular array. A ragged row list has no numpy counterpart, so it stands for the `isinstance(embeddings, np.ndarray)` test.
- `WebApp.FileTypesCount`: the contract states each extension's count only. The row's size and chunk totals are computed but not stated.
- `WebApp.AddEntry`: the contract states the row's count only. The size and chunk totals it adds are not stated.
- `WebApp.StatsCheckAsWritten`: the text the general handler produces from a caught `HTTPException` is modelled as the status code followed by the detail.
- The `__init__.py` re-exports and the example scripts hold no logic and are not modelled.
- Case folding is ASCII only. `Text.Lower` and `Text.LowerStr` lower-case `A`-`Z`, where Python's `str.lower` folds every Unicode letter. This affects every suffix comparison built on them: `Paths.LowerSuffix`, `Metadata.FromPath` and its text classification, `RepoManager.Lowered`, `RepoManager.Eligible`, `RepoManager.ExtensionMatches`, `RepoManager.Filtered`, `WebApp.Ext`, `WebApp.FileTypes`, `WebApp.StatsEligible` and the table routing of `SearchDual.SearchManager.Add`.
- Error messages keep their fixed text and drop the interpolated values. "Cannot handle file type" drops the extension, `RuntimeError("Embedding count mismatch")` drops the two counts, and the `top_k`, count and dimension messages of both search managers drop their numbers. The paths are dropped as well: `RepoManager.RepositoryManager.IndexFile` raises "File not found" for `f"File not found: {file_path}"`, and `RepoManager.RepositoryManager.IndexDirectory` raises "Directory not found" for `f"Directory not found: {directory}"`. The same text reaches the directory statistics' error messages and the failure message of `WebApp.GlobalState.RunIndexTask`.
- `RepoManager.RepositoryManager.IndexDirectory`: the contract states which index rows may change and that every file the router processes has a row. The rows' contents, the storage and search-index state, and the split into indexed, skipped and errors are stated only file by file, through `IndexFile`. The same holds for `RepoManager.RepositoryManager.ReindexAll` and for the directory case of `WebApp.GlobalState.Perform`.
- `WebApp.GlobalState.GetStats` and `WebApp.GlobalState.Perform`: the web server imports its `RepositoryManager` from `backend/src/repo_manager.py`, which is not part of this model. That manager holds the two-table search index of `backend/src/search_manager.py`. The model substitutes `RepoManager.RepositoryManager`, which holds the single-table index. As a result, `GetStats` reports the single-table statistics where the server reports the two-table ones (`SearchDual.DualStats`). Likewise, in `Perform`, an image whose embedding width differs from the text rows fails the single-table dimension check, and that failure is swallowed. The server would store it in the image table.
- `Repo.CreateRepository`: `mkdir(parents=True)` also creates missing ancestors. The model creates only `.filex` and its three subdirectories, and does not add a missing start directory or its ancestors.
- `FileSystem.FileSystem.MakeDir`: adds the one directory named. Creating its missing parents, as `parents=True` does, is not modelled.
- The modelled source does not delete index entries for files that have vanished, and neither does the model.

Two consequences of the code, as written, are proved rather than corrected:
- `SearchCore.EmptyAddUntightens`: adding an empty chunk list to an empty single-table index stores a zero-row array. After that, the array is no longer `None` exactly when there are no records.
- `SearchCore.RemoveLastKeepsDisk`: removing the last rows writes nothing, so loading the copy on disk again brings the removed rows back.

## Findings

| source | as written | input that shows it | evidently intended | confidence | as-written member | corrected member |
|---|---|---|---|---|---|---|
| backend/src/search_manager.py:193-221 | the emptiness test and the width check read the table captured before the path's rows are removed | re-adding the only file of the text table with rows of the same width: the removal empties the table, then `np.vstack([None, e])` raises | `add_file_embeddings` replaces the path's rows, so re-adding always succeeds | high, not executed | SearchDual.ReaddSoleFileFails | SearchDual.SearchManager.Add |
| backend/filex.py:30-56 | a flag word takes its value only from an `int()` literal | "types of fruits -count --5" gives the text "types of fruits -count" and the count 5 | the documented example gives the text "types of fruits" | high, not executed | QueryParser.DocExampleAsWritten | QueryParser.DocExampleFixed |
| backend/src/image_handlers.py:32-56 | `can_handle` reads `metadata.is_image_type`, which `FileMetadata` does not declare | any image file, for example `/r/a.png`, makes `can_handle` and `process` raise `AttributeError` | images with an image extension are accepted | high, not executed | ImageHandlers.CanHandleAsWritten | ImageHandlers.Process |
| backend/src/filex/embedding/repository.py:154-157 | membership is a string-prefix test | `/a/bc` counts as inside the work tree `/a/b` | a path is inside the work tree when the root is one of its ancestors | medium, not executed | Repo.PrefixCountsSiblings | Repo.InTreeRefinesPrefix |
| backend/src/web_app.py:530-625 | the 404 and 400 raised by the path check are caught by the general `except Exception` handler | a missing `repo_path` is reported with status 500 | a missing path gives 404 and a non-directory gives 400, as in the other endpoints | high, not executed | WebApp.MissingPathIsServerError | WebApp.GlobalState.GetStats |
