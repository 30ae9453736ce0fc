# Cloud-Storage local vault, in Dafny

This project models the local vault of the Cloud-Storage desktop client: class
`CloudStorage` in `CloudStore.py`. The vault keeps every uploaded file as one row
of the SQLite table `files`, with the file's bytes in a blob column. It refuses a
second upload of content whose MD5 digest is already in the table. A download
writes the blob back to disk. When a row has no blob but its original path still
exists, the download reads that file, writes it out and stores the bytes in the
row ("backfill").

`LOCAL_ONLY` is `True`, so `upload_file` and `download_file` always take their
local-vault branch. `Config.LocalMode` proves that their mode test selects
local-vault mode for every server URL. `delete_cloud_file` does not consult
`LOCAL_ONLY` (see "## Left out").

Layout:

- `wrappers.dfy`, module `Wrappers`: `Option` (SQL NULL / `None`) and `Result` (an operation that can raise).
- `config.dfy`, module `Config`: the default settings, the merge `{**default_config, **config}`, loading the settings document, and the local-mode test.
- `schema.dfy`, module `Schema`: the table's columns and the additive migration `_ensure_database` runs.
- `records.dfy`, module `Records`: the row type `FileRecord`. The SELECTs, the UPDATE and the DELETE the vault issues are functions over the table, held as a sequence in rowid order. The module also holds the lemmas about those functions. The INSERT is the method `CloudStorage.Insert`; CREATE TABLE and ALTER TABLE are functions over column lists in `Schema`.
- `cloud_store.dfy`, module `CloudStore`: class `CloudStorage`. Its fields are the table `rows`, the AUTOINCREMENT counter `nextId` and the filesystem `fs` (path to bytes). Its methods are the vault operations. `VaultError` names the exceptions the vault raises; `Message` gives each one's exception text. The module ends with five client methods: any new content uploaded and downloaded again; the same content uploaded twice; a backfill that survives deletion of the original file; a ten-byte file uploaded, listed, refused as a duplicate, downloaded, deleted and gone from the list; and a row deleted twice.

Opaque inputs:

- MD5 is the constant `md5: Bytes -> string`, fixed when the vault is opened.
- `uuid4()`, `mimetypes.guess_type` and `datetime.utcnow()` are method parameters.
- The table that exists on disk, and the settings document, are constructor or function arguments.

## Model

| member | source | states |
|---|---|---|
| `Config.MergeConfig` | CloudStore.py:76 | every key of the defaults or of the document is present; a loaded value always wins; a default fills only a key the document lacks |
| `Config.LoadConfig` | CloudStore.py:60-85 | a readable document is merged over the defaults and not rewritten: its values win and every default key it lacks keeps its default value; a missing or unreadable one yields exactly the defaults, and the defaults are written to the file; every default key is always present |
| `Config.LocalMode` | CloudStore.py:169 | with `LOCAL_ONLY` set, the mode test chooses local-vault mode whatever the server URL (the same test is at line 222) |
| `Config.DefaultUrlIsPlaceholder` | CloudStore.py:63 | the default server URL contains the placeholder host, so the defaults select local-vault mode even without the switch |
| `Schema.AddColumn` | CloudStore.py:107-110 | one ALTER TABLE: the column is present afterwards; existing columns keep their positions; the table is unchanged exactly when a column of that name exists already, compared ignoring ASCII case as SQLite does; no column is duplicated under that comparison |
| `Schema.AddColumns` | CloudStore.py:107-121 | the three ALTER TABLEs in order: all added columns are present; existing columns are kept as a prefix; no other column appears; nothing changes when all columns exist already in any ASCII case; no duplicate names arise |
| `Schema.EnsureSchema` | CloudStore.py:86-121 | CREATE TABLE IF NOT EXISTS and then the migration: an existing column list is kept as a prefix (no data loss); every created column is present in a new table and every migrated column is present, by name ignoring ASCII case as SQLite compares; no column comes from anywhere else |
| `Schema.EnsureSchemaIdempotent` | CloudStore.py:86-121 | opening the database a second time leaves the columns unchanged |
| `Schema.FileDataIsNew` | CloudStore.py:117-121 | no created column has the name `file_data` in any ASCII case, so the third ALTER TABLE adds it |
| `Schema.FreshSchema` | CloudStore.py:90-121 | a new table has the created columns and then `file_data`; `file_hash` and `local_path` are not added twice |
| `Records.LastSeparator` | CloudStore.py:203 | the position of the last '/' in the path, or -1 when there is none: a '/' stands there and none after it |
| `Records.FileName` | CloudStore.py:203 | `Path.name`: a suffix of the path with no '/' in it, preceded by '/' unless it is the whole path |
| `Records.UniqueHashCount` | CloudStore.py:158-166 | when no two rows share a hash, a hash is carried by exactly one row if it is taken and by none otherwise |
| `Records.AppendKeepsHashesUnique` | CloudStore.py:158-166 | inserting a row whose hash the dedup SELECT did not find keeps hashes unique; no UNIQUE constraint does this (lines 90-102) |
| `Records.AppendKeepsIds` | CloudStore.py:197-215 | inserting with the AUTOINCREMENT counter as id keeps ids in rowid order and below the advanced counter |
| `Records.FindByCloudId` | CloudStore.py:224-229 | the lookup answers the first row, in rowid order, with that cloud_id, or none when no row has it |
| `Records.FindAppended` | CloudStore.py:197-227 | after inserting a row under a cloud_id no row carried, the download's lookup of that cloud_id finds the new row |
| `Records.FindByCloudIdSameKeys` | CloudStore.py:224-227 | the lookup depends on the cloud_id column alone |
| `Records.SetBlob` | CloudStore.py:243-246 | the UPDATE gives every row with the cloud_id the bytes and the new last_sync; every other row is unchanged; the row count is unchanged |
| `Records.BackfillPersists` | CloudStore.py:238-247 | after the backfill UPDATE the lookup finds the same row, and that row now holds the bytes |
| `Records.SetBlobKeepsIds` | CloudStore.py:243-246 | the UPDATE keeps the ids ordered and below the counter |
| `Records.DeleteId` | CloudStore.py:297 | the DELETE leaves exactly the rows with another id; with no row of that id, the table is unchanged |
| `Records.DeleteIdKeepsIncreasing` | CloudStore.py:297 | the DELETE keeps the table in rowid order |
| `Records.DeleteIdRemovesAt` | CloudStore.py:294-297 | with distinct ids, deleting row k's id removes row k and keeps all others in order |
| `Records.InsertByDate` | CloudStore.py:289-291 | inserting one row adds exactly that row to the multiset of rows |
| `Records.ByUploadDateDesc` | CloudStore.py:289-291 | the ordered result is a permutation of the table |
| `Records.ConsSorted` | CloudStore.py:289-291 | a row no older than every row of a newest-first list can head it |
| `Records.TailSorted` | CloudStore.py:289-291 | the tail of a newest-first list is newest first, and its head is no older than any other row |
| `Records.InsertByDateSorted` | CloudStore.py:289-291 | inserting into a newest-first list keeps it newest first |
| `Records.ByUploadDateDescSorted` | CloudStore.py:289-291 | ORDER BY upload_date DESC gives a permutation of the table, sorted newest first under SQLite's binary text order |
| `CloudStore.ReadChunk` | CloudStore.py:127 | `f.read(4096)` returns the next bytes of the file: 4096 of them, or all that remain when fewer do |
| `CloudStore.CloudStorage.constructor` | CloudStore.py:54-58 | opening a database whose ids are ordered and below the counter gives a valid vault over exactly that table and filesystem |
| `CloudStore.CloudStorage.FileHash` | CloudStore.py:123-129 | the digest is MD5 of the whole file; the chunks read concatenate to the file's bytes; every chunk is non-empty and at most 4096 bytes; all but the last are exactly 4096 |
| `CloudStore.CloudStorage.UploadFile` | CloudStore.py:149-217 | a missing path raises "File does not exist"; a taken hash raises "File already exists with same content"; both leave the table unchanged. Otherwise exactly one row is appended and no other row changes. The new row has the file name as local_name and the given or default cloud_name. It holds hash, bytes and size of the file, the source path, is_synced 0, and upload_date equal to last_sync. The new id comes from the counter. The call returns {id: cloud_id, name: cloud_name}. Unique hashes stay unique |
| `CloudStore.CloudStorage.Insert` | CloudStore.py:197-215 | the INSERT appends exactly the given row with the next id and advances the counter; ids stay ordered and unique hashes stay unique when the hash is new |
| `CloudStore.CloudStorage.DownloadFile` | CloudStore.py:219-248 | an unknown cloud_id raises "File record not found". A blob is written verbatim to the destination, and the table is unchanged. With no blob but an existing original path, those bytes are written out and stored in the row with a new last_sync, and no other row changes. With neither, the call raises and nothing is written |
| `CloudStore.CloudStorage.RemoveLocalFile` | CloudStore.py:294-297 | the rows with the id are removed and all others stay, in order; an unknown id changes nothing and raises nothing |
| `CloudStore.CloudStorage.GetLocalFiles` | CloudStore.py:285-292 | every row of the table exactly once, newest upload first |
| `CloudStore.UploadThenDownload` | CloudStore.py:149-248 | any content whose hash is new, uploaded under an unused cloud_id, is downloaded again to any destination with exactly the bytes that were uploaded; the upload returns that cloud_id |
| `CloudStore.UploadSameContentTwice` | CloudStore.py:158-166 | the same bytes uploaded twice: the second upload raises the duplicate error, the first succeeds exactly when the hash was new, and exactly one row carries the hash afterwards |
| `CloudStore.BackfillSurvivesSourceRemoval` | CloudStore.py:238-247 | a backfilled row is downloaded again from its blob after the original file is deleted, and the destination receives the original bytes |

## Left out

- The Tk user interface, its worker threads and message boxes are not part of this model. Uploads are modelled one after another. The dedup SELECT (lines 161-166) and the INSERT (lines 197-215) run on separate connections, and two upload workers (lines 723-733) can both pass the check. Unique hashes (`Records.UniqueHashes`) are therefore guaranteed only for uploads that run one after another.
- The remote branches of `upload_file` and `download_file` are not modelled; `LOCAL_ONLY` makes them unreachable (lines 169 and 222).
- `delete_cloud_file` is not modelled. It checks only for the placeholder URL (line 263), not `LOCAL_ONLY`. The Delete button is always shown (line 528), and its worker calls `delete_cloud_file` before `remove_local_file` (lines 811-815). With a real server URL in the settings, a delete therefore sends an HTTP DELETE first, and a failed request skips `remove_local_file`. That request is network I/O.
- `get_cloud_files`, `_make_request` and `test_connection` are not modelled. They are network I/O, and the UI offers Sync All and Settings only when `LOCAL_ONLY` is off (lines 532-536).
- MD5 internals, `uuid4`, `mimetypes` and the clock are opaque, as listed above. Incremental hashing is modelled as MD5 of the concatenated chunks.
- SQLite and JSON I/O mechanics are not modelled. A settings document is given already parsed (`Config.ConfigFile`), and the table is a sequence in rowid order.
- `get_downloads_dir`, `_format_size` and `_darken_color` are not part of this model. They depend on the OS environment or use floating point.
- Directories are not modelled: `os.makedirs` for the destination's parent, and `Path.exists()` returning true for a directory. The filesystem holds regular files only.
- Paths are POSIX paths already in `pathlib`'s normal form. `Path.name` is the text after the last '/'. Windows separators and trailing-slash normalisation are not modelled.
- Disk and database I/O failures are not modelled. Neither are concurrent changes to a file between the hash, the size and the read.
- `CloudStore.CloudStorage.UploadFile`: the two `utcnow()` calls in the INSERT (lines 209-210) are one clock reading `now`. The real upload_date and last_sync may therefore differ by microseconds.
- `CloudStore.CloudStorage.UploadFile`: `uuid4()` is not assumed to be unique. `Records.FindAppended` states the lookup of the returned id only for an id no row carries yet.
- `CloudStore.CloudStorage.DownloadFile`: `fetchone()` without ORDER BY is modelled as the first row in rowid order.
- Nullable columns: only file_hash, local_path and file_data are `Option`s, because the code branches on their NULL-ness. The other columns are always set by `upload_file` and are modelled as always present.
- Deleting an unknown id is a silent no-op, not an error (line 297). The download overwrites the destination in place; no temporary file is written and renamed (lines 234-235 and 241-242).
- `CloudStore.CloudStorage.constructor` does not run `_load_config` (line 57) or `_ensure_database` (line 58). In local-vault mode the settings are never read, and `FileRecord` does not depend on the table's columns; both are modelled on their own in `Config` and `Schema`.
- The filesystem is a map from path strings, so distinct strings are distinct files. Symlinks, hard links and relative versus absolute spellings of one file are not modelled: a download written under one spelling leaves the bytes under another spelling unchanged.
