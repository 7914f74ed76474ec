# FileManager catalogue, modelled in Dafny

FileManager is a small web application. It indexes one managed directory
into an SQLite catalogue, where users can tag files, annotate them and
search them. This project models the two parts that hold its logic:

- the `Database` class of `database.py`, with its three tables `files`,
  `tags` and `file_tags`;
- `FileIndexer.sync_directory` of `indexer.py`, which reconciles the
  catalogue with the directory.

The three tables become one immutable value, `Catalogue.Store`:

- `files` maps an id to a `FileRec`: filename, filepath, size, modified time
  and optional notes;
- `tags` maps an id to a tag name;
- `fileTags` is a set of `(file id, tag id)` pairs;
- two counters stand for SQLite's `AUTOINCREMENT` sequences. Ids start at 1
  and are never handed out twice. An insert that fails on a `UNIQUE` column
  does not advance its counter.

Each `Database` method is a pure transition or query on that value. Each
`SELECT … ORDER BY` is a method whose contract promises exactly what SQLite
promises:

- every matching row appears once;
- rows are sorted by the text column under the BINARY collation, which is
  lexicographic by code point;
- rows with equal keys may come in any order.

`sync_directory` takes the outcome of the directory walk instead of walking
a disk. That outcome is whether the root exists, plus the sequence of
`Entry(relpath, basename, size, mtime)` values the walk met. The sync folds
`add_file` over the walk, then prunes with `clear_orphaned_files`.

The modules are:

- `Common`: `Option` and timestamps;
- `Collation`: the BINARY ordering of text;
- `Like`: SQLite's `LIKE`;
- `Ordered`: ordered selection of table rows;
- `Catalogue`: the store and its operations;
- `CatalogueProperties`: properties that relate several operations;
- `Indexer` and `SyncProperties`: the sync and its properties;
- `Findings`: the defect described below.

Three invariants describe a store:

- `Catalogue.Schema` holds what SQLite enforces: unique filepaths, unique
  tag names, and ids below their counters;
- `Catalogue.TagsExist` says that every association names a tag that
  exists. Tags are never deleted and both attach operations create the tag
  first, so every operation keeps it, the attach as written included;
- `Catalogue.Valid` is `Schema` and `TagsExist` plus the requirement that
  every association names a file id already handed out. The corrected
  attach (`Catalogue.AddTagToFile`) keeps it; the attach as written breaks
  it (see "## Findings"). `Valid` is therefore required only where such
  pairs matter: for files indexed later (`Catalogue.AddFile`,
  `Indexer.SyncNewFiles`, `CatalogueProperties.DeletedFileIsHidden`,
  `Findings.NewFileStartsUntagged`).

Three behaviours of the code are modelled as written, though they may surprise:

- Deleting a file does not cascade to its associations. The schema declares
  `ON DELETE CASCADE` (`database.py:49-50`), but no connection enables
  foreign keys (`database.py:11-15`). Pairs of a deleted file therefore
  remain. The tag search still hides them, because its join needs a live
  file (`database.py:127-130`). `get_file_tags` joins only `tags` and
  `file_tags` (`database.py:204-209`), so it still lists a deleted file's
  tags, and `Catalogue.TagsOf` does the same.
- A missing root gives `None`, not a count (`indexer.py:16-19`).
- `LIKE` is modelled fully. `%` and `_` in a query are wildcards, there is no
  escape character, and only ASCII letters are folded to lower case. For a
  query without wildcards, `Like.LikeIsContainment` proves the match is
  case-insensitive containment.

## Model

| member | source | states |
|---|---|---|
| Collation.LessEqReflexive | database.py:88 | every filename sorts at or before itself under the BINARY collation |
| Collation.LessEqTotal | database.py:88 | any two texts are comparable, so ORDER BY can always pick a first row |
| Collation.LessEqTransitive | database.py:88 | the collation is transitive, so a sorted listing is sorted pairwise |
| Collation.LessEqAntisymmetric | database.py:88 | two texts that sort at or before each other are equal |
| Like.PercentMatchesAll | database.py:138-140 | the pattern `%` matches every text, the empty one included |
| Like.PrefixThenPercent | database.py:138-140 | for a query without wildcards, `query%` matches a text exactly when the text starts with the query, ignoring ASCII case |
| Like.LeadingPercent | database.py:138-140 | a pattern `%p` matches a text exactly when `p` matches some suffix of the text |
| Like.LikeIsContainment | database.py:138-140 | for a query without wildcards, `%query%` matches a text exactly when the text contains the query, ignoring ASCII case |
| Ordered.MinExists | database.py:88 | every non-empty set of rows has a row whose key sorts first |
| Ordered.SelectStep | database.py:88 | taking a remaining row whose key sorts first extends a sorted, duplicate-free prefix of the listing |
| Ordered.SelectOrdered | database.py:88-89 | the listing holds each selected row exactly once, with its stored columns, sorted by the key |
| Catalogue.LookupPath | database.py:78-79 | finds the one file stored under a filepath, and fails exactly when no file has it |
| Catalogue.LookupTag | database.py:160-161 | finds the one tag with a name, and fails exactly when no tag has it |
| Catalogue.AddFile | database.py:57-80 | a new filepath gets a record under the next id, above every id handed out before, with no notes (and, in a valid store, no tags); a known filepath keeps its id, notes and tags and takes the new name, size and time; every other record is kept, and the schema, which allows one record per filepath, still holds |
| Catalogue.GetFileById | database.py:93-100 | returns the stored record exactly when the id is stored |
| Catalogue.UpdateFileNotes | database.py:102-108 | sets the notes of one record and nothing else; an unknown id leaves the store unchanged |
| Catalogue.DeleteFile | database.py:110-116 | removes one record and keeps the rest; its associations stay, because the cascade is not enforced |
| Catalogue.AddTag | database.py:149-165 | returns the id of a tag with that name; it creates one only when no tag has the name, and the name set grows by that name only |
| Catalogue.AddTagToFile | database.py:176-190 | (corrected; see ## Findings: it adds no pair when the file id is not stored, where the code as written does) in any store where every pair names an existing tag (kept by both attaches), a live file then carries exactly its earlier tag names plus this one and no other file's tags change; `TagsExist` and `Valid` are both kept |
| Catalogue.RemoveTagFromFile | database.py:192-198 | removes only the one pair; an absent pair leaves the store unchanged |
| Catalogue.ClearOrphanedFiles | database.py:214-224 | a record survives exactly when its filepath is in the list, so an empty list deletes every record; tags and pairs are untouched |
| Catalogue.GetAllFiles | database.py:84-91 | lists every record exactly once, ordered by filename |
| Catalogue.SelectionCoversAll | database.py:84-91 | a listing of a whole table has as many rows as the table |
| Catalogue.DistinctIdsCount | database.py:84-91 | rows with distinct ids have as many ids as rows |
| Catalogue.SearchFiles | database.py:118-147 | with tags it lists the live files carrying any named tag; else with a non-empty query it lists the files whose filename or notes match `LIKE '%query%'`, and for a query without wildcards that means case-insensitive containment; else it lists every file; every listing is duplicate-free and ordered by filename |
| Catalogue.GetAllTags | database.py:167-174 | lists every tag exactly once, ordered by name |
| Catalogue.GetFileTags | database.py:200-212 | lists the tags attached to the file, each once, ordered by name, with no name repeated |
| CatalogueProperties.EmptyIsValid | database.py:17-55 | a new database satisfies all three invariants and holds no filepath |
| CatalogueProperties.AddFileIdempotent | database.py:57-80 | upserting the same file twice gives the same store and id as upserting it once |
| CatalogueProperties.AddTagIdempotent | database.py:149-165 | a second `add_tag` with the same name returns the same id and changes nothing |
| CatalogueProperties.AttachIdempotent | database.py:176-190 | attaching a tag twice gives the same store as attaching it once |
| CatalogueProperties.AttachThenDetach | database.py:176-198 | in any store where every pair names an existing tag, detaching a tag just attached to a live file restores the earlier associations |
| CatalogueProperties.DetachIdempotent | database.py:192-198 | detaching twice gives the same store as detaching once |
| CatalogueProperties.TagSearchIsUnion | database.py:123-133 | a tag search for two lists together finds exactly the union of the two searches (OR, not AND) |
| CatalogueProperties.TagSearchFindsAnyName | database.py:123-133 | a live file is found exactly when one of its tag names is in the list |
| CatalogueProperties.AttachedFileIsFound | database.py:123-133 | in any store, after a tag is attached to a live file, any search naming that tag finds the file |
| CatalogueProperties.DeletedFileIsHidden | database.py:110-133 | in every store, a deleted file is gone from lookups, tag searches and text searches, and a file indexed later never gets its id; in a `Valid` store (kept by the corrected attach only), that later file also starts with no tags |
| CatalogueProperties.NotesRoundTrip | database.py:93-108 | notes written for a stored file are what a lookup reads back, with the rest of the record unchanged |
| CatalogueProperties.FilenameSearchIgnoresCase | database.py:134-140 | the query "report" matches a file named "Report.pdf" |
| CatalogueProperties.NotesSearchIgnoresCase | database.py:134-140 | the query "URGENT" matches a file whose notes read "very urgent" |
| Indexer.PathList | indexer.py:21-36 | the collected path list has one entry per file met, and names exactly the walked paths |
| Indexer.UpsertAll | indexer.py:24-36 | the upserts keep the schema and leave tags and pairs untouched |
| Indexer.UpsertAllPaths | indexer.py:24-36 | after the upserts the stored paths are exactly the earlier ones plus the walked ones |
| Indexer.UpsertStep | indexer.py:35 | one upsert keeps every stored file's path and notes, changes no file outside the upserted path, gives a new file an id not handed out before and no notes, and keeps the store valid |
| Indexer.UpsertAllGrows | indexer.py:24-36 | the upserts never move the file counter back and keep the store valid |
| Indexer.UpsertAllKeeps | indexer.py:24-36 | the upserts keep every stored file's id, path and notes |
| Indexer.UpsertAllFresh | indexer.py:24-36 | every file the upserts insert has an id never handed out before and no notes |
| Indexer.UpsertAllUntouched | indexer.py:24-36 | a stored file whose path the walk did not meet is left exactly as it was |
| Indexer.UpsertAllReflects | indexer.py:24-36 | every walked path's record carries the name, size and time the walk last saw for it |
| Indexer.UpsertAllNoInsert | indexer.py:35 | a walk over only stored paths creates no record and uses no id |
| Indexer.SyncDirectory | indexer.py:11-41 | a missing root leaves the store unchanged and gives `None`; otherwise the stored paths become exactly the walked paths and the result is the number of files met; an empty walk removes every record; tags and pairs are never touched |
| Indexer.PruneKeepsWalked | indexer.py:39 | after the upserts, pruning removes exactly the stored files whose path the walk did not list, and keeps the others' paths and notes |
| Indexer.SyncKeepsSurvivors | indexer.py:24-39 | a stored file survives exactly when the walk met its path, and a survivor keeps its id, path, notes and tags |
| Indexer.SyncReflectsWalk | indexer.py:24-39 | after a sync every record carries the values the walk last saw for its path |
| Indexer.SyncNewFiles | indexer.py:24-39 | a file new to the store gets an id never handed out before, no notes, and in a valid store no tags |
| SyncProperties.SameFiles | indexer.py:24-36 | two stores that keep the same files with the same paths and notes, and both carry the walk's values, hold the same records |
| SyncProperties.UpsertAllFixpoint | indexer.py:24-36 | a store that already holds every walked path with the walk's values is unchanged by the upserts |
| SyncProperties.ClearKeepsListed | database.py:222-224 | pruning with a list that names every stored path deletes nothing |
| SyncProperties.ResyncIsNoop | indexer.py:24-41 | syncing a store that already mirrors the walk changes nothing |
| SyncProperties.SyncIdempotent | indexer.py:24-41 | a second sync of the same walk leaves ids, paths, values, notes, tags and pairs exactly as the first left them |
| SyncProperties.SyncEmptyClearsFiles | indexer.py:39 | syncing an empty walk removes every record, keeps everything else, and reports zero |
| Findings.AddTagToFileAsWritten | database.py:176-190 | the code as written attaches the tag to any file id, including one no file has yet; it keeps the schema and `TagsExist` and agrees with the corrected attach on every stored id |
| Findings.AttachAsWrittenIdempotent | database.py:176-190 | the code as written is idempotent for every file id, stored or not: the repeated insert hits the `(file_id, tag_id)` primary key and is ignored |
| Findings.TagLeaksToNextFile | database.py:176-190 | on a new database, tagging id 1 and then indexing a file gives that file id 1 and the tag |
| Findings.CorrectedTagDoesNotLeak | database.py:176-190 | with the corrected attach, the same steps leave the new file untagged |
| Findings.NewFileStartsUntagged | database.py:57-80 | with the corrected attach, in a valid store, a newly indexed file has no tags |

## Left out

- SQLite connections, commits, SQL text and `?` placeholders are not modelled. The model works on the table contents directly.
- `indexed_at` is left out. Every `SELECT *` returns it (`database.py:88`, `database.py:97`, `database.py:137-139`, `database.py:143`) and every upsert refreshes it to the current time (`database.py:74`); the clock is not modelled. SyncProperties.ResyncIsNoop and SyncProperties.SyncIdempotent hold for every column except `indexed_at`, which a re-sync refreshes.
- `datetime.fromtimestamp` is left out. Modified times are opaque integers.
- The walk itself (`os.walk`, `os.stat`, `os.path.relpath`) and `os.makedirs` are replaced by the existence flag and the entry sequence.
- Indexer.SyncDirectory: failures inside the loop (`indexer.py:24-36`) are not modelled. In the source, any exception during the walk or an upsert aborts the sync: the upserts before it stay committed, and the prune (`indexer.py:39`) never runs. The model has neither the failure nor that half-synced state. Examples are a file that vanishes between walk and stat, a broken symbolic link, and a filename that is not valid UTF-8. `os.walk` returns such a name with surrogate escapes, sqlite3 cannot encode it, and `add_file` catches only `IntegrityError`, so every sync raises, the startup sync included.
- `get_full_path` (`indexer.py:43-45`) is left out. It depends only on `os.path.join`.
- Catalogue.ClearOrphanedFiles: SQLite's limit on host parameters is not modelled. A very long path list fails in the source and succeeds in the model.
- Catalogue.SearchFiles: the same host-parameter limit applies to long tag lists. SQLite's limit on `LIKE` pattern length is not modelled either.
- Catalogue.AddFile: the end of the 64-bit `AUTOINCREMENT` range, where SQLite reports that the database is full, is not modelled.
- Catalogue.DeleteFile: the declared cascade is not modelled, because SQLite does not run it while foreign keys are off.
- `app.py` is left out. It is Flask routing, flash messages, tag-name trimming and the OS opener. Its containment check compares real paths as raw string prefixes, so a sibling such as `/managed_files2` passes for `/managed_files`. That check depends on the filesystem.
- `config.py` is left out. It reads environment variables and creates a directory at import.
- Concurrent requests that race a sync are not modelled. Every operation is one atomic step.

## Findings

| source | as written | input that shows it | evidently intended | confidence | as-written member | corrected member |
|---|---|---|---|---|---|---|
| database.py:176-190 | the pair is inserted for any file id; foreign keys are off (`database.py:11-15`), and the route `app.py:94-103` does not check that the file exists | on a new database, POST a tag "x" to `/file/1/add_tag`, then sync a directory holding one file: it is stored with id 1 and already carries "x" | the declared foreign key (`database.py:49`) rejects the pair, so a file starts untagged | not executed; follows from the model | Findings.AddTagToFileAsWritten, Findings.TagLeaksToNextFile | Catalogue.AddTagToFile, Findings.CorrectedTagDoesNotLeak, Findings.NewFileStartsUntagged |
