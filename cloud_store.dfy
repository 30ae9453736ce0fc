/**
 * The local vault: class CloudStorage with its `files` table, the
 * AUTOINCREMENT counter and the filesystem it reads from and writes to.
 * Only local-vault mode is modelled (see Config.LocalMode).
 */
module CloudStore {
  import opened Wrappers
  import opened Records

  /** The exceptions the vault raises. */
  datatype VaultError = FileDoesNotExist | DuplicateContent | RecordNotFound | NoStoredData

  /** The exception text of each error. */
  function Message(e: VaultError): string
  {
    match e
    case FileDoesNotExist => "File does not exist"
    case DuplicateContent => "File already exists with same content"
    case RecordNotFound => "File record not found"
    case NoStoredData =>
      "This entry has no stored file data and the original path no longer exists. Re-upload the file to store it in the vault."
  }

  /** `{"id": cloud_id, "name": cloud_name}` returned by upload_file. */
  datatype UploadAck = UploadAck(id: string, name: string)

  /** Bytes asked of each `read` while hashing. */
  const ChunkSize: nat := 4096

  /** `f.read(4096)` on a file of bytes `data` positioned at `pos`. */
  function ReadChunk(data: Bytes, pos: nat): (chunk: Bytes)
    requires pos <= |data|
    ensures pos + |chunk| <= |data| && chunk == data[pos..pos + |chunk|]
    ensures |chunk| == if |data| - pos < ChunkSize then |data| - pos else ChunkSize
  {
    if |data| - pos < ChunkSize then data[pos..] else data[pos..pos + ChunkSize]
  }

  /** The chunks one after the other. */
  function Concat(chunks: seq<Bytes>): Bytes
  {
    if chunks == [] then [] else Concat(chunks[..|chunks| - 1]) + chunks[|chunks| - 1]
  }

  /** A non-empty original path that still names a file. */
  predicate Backfillable(localPath: Option<string>, fs: map<string, Bytes>)
  {
    localPath.Some? && localPath.value != "" && localPath.value in fs
  }

  class CloudStorage {
    /** The `files` table in rowid order. */
    var rows: seq<FileRecord>
    /** The id AUTOINCREMENT hands out next. */
    var nextId: int
    /** Regular files by path. */
    var fs: map<string, Bytes>
    /** The MD5 hex digest of a byte string (hashlib). */
    const md5: Bytes -> string

    /** What SQLite guarantees of the table: ids increase and are below the counter. */
    ghost predicate Valid()
      reads this
    {
      IdsIncreasing(rows) && IdsBelow(rows, nextId)
    }

    /** Opening an existing database over a filesystem. */
    constructor (rows: seq<FileRecord>, nextId: int, fs: map<string, Bytes>, md5: Bytes -> string)
      requires IdsIncreasing(rows) && IdsBelow(rows, nextId)
      ensures Valid()
      ensures this.rows == rows && this.nextId == nextId && this.fs == fs && this.md5 == md5
    {
      this.rows := rows;
      this.nextId := nextId;
      this.fs := fs;
      this.md5 := md5;
    }

    /**
     * `_get_file_hash`: reads 4096-byte chunks until a read comes back
     * empty and feeds each to the hasher. The chunks are the file exactly,
     * all full but the last, so the digest is that of the whole file.
     */
    method FileHash(path: string) returns (digest: string, ghost chunks: seq<Bytes>)
      requires path in fs
      ensures digest == md5(fs[path])
      ensures Concat(chunks) == fs[path]
      ensures forall i :: 0 <= i < |chunks| ==> 0 < |chunks[i]| <= ChunkSize
      ensures forall i :: 0 <= i < |chunks| - 1 ==> |chunks[i]| == ChunkSize
    {
      var data := fs[path];
      var pos: nat := 0;
      var hashed: Bytes := [];  // what the hasher has been fed
      chunks := [];
      var chunk := ReadChunk(data, pos);
      pos := pos + |chunk|;
      while chunk != []
        invariant pos <= |data|
        invariant hashed + chunk == data[..pos]
        invariant chunk == ReadChunk(data, |hashed|)
        invariant hashed == Concat(chunks)
        invariant forall i :: 0 <= i < |chunks| ==> 0 < |chunks[i]| <= ChunkSize
        invariant forall i :: 0 <= i < |chunks| - 1 ==> |chunks[i]| == ChunkSize
        invariant chunk != [] && chunks != [] ==> |chunks[|chunks| - 1]| == ChunkSize
        decreases |data| - |hashed|
      {
        assert (chunks + [chunk])[..|chunks|] == chunks;
        hashed := hashed + chunk;
        chunks := chunks + [chunk];
        chunk := ReadChunk(data, pos);
        pos := pos + |chunk|;
      }
      assert hashed == data;
      digest := md5(hashed);
    }

    /**
     * `upload_file` in local-vault mode. `uuid`, `mimeGuess` and `now` stand
     * for uuid4(), mimetypes.guess_type and the clock.
     */
    method UploadFile(path: string, cloudName: Option<string>, uuid: string, mimeGuess: Option<string>, now: string)
      returns (r: Result<UploadAck, VaultError>)
      requires Valid()
      modifies this`rows, this`nextId
      ensures Valid() && fs == old(fs)
      ensures UniqueHashes(old(rows)) ==> UniqueHashes(rows)
      // the path does not exist
      ensures path !in fs ==>
        r == Failure(FileDoesNotExist) && rows == old(rows) && nextId == old(nextId)
      // some row already has the content's hash
      ensures path in fs && HashTaken(old(rows), md5(fs[path])) ==>
        r == Failure(DuplicateContent) && rows == old(rows) && nextId == old(nextId)
      // one row appended, nothing else changed
      ensures path in fs && !HashTaken(old(rows), md5(fs[path])) ==>
        && r.Success?
        && r.value.id == uuid
        && r.value.name == (if cloudName.Some? && cloudName.value != "" then cloudName.value else FileName(path))
        && nextId == old(nextId) + 1
        && |rows| == |old(rows)| + 1
        && rows[..|old(rows)|] == old(rows)
      ensures path in fs && !HashTaken(old(rows), md5(fs[path])) ==>
        var rec := rows[|rows| - 1];
        && rec.id == old(nextId)
        && rec.localName == FileName(path)
        && rec.cloudId == uuid
        && rec.cloudName == r.value.name
        && rec.fileSize == |fs[path]|
        && rec.fileMime == (if mimeGuess.Some? && mimeGuess.value != "" then mimeGuess.value else "application/octet-stream")
        && rec.fileHash == Some(md5(fs[path]))
        && rec.uploadDate == now && rec.lastSync == now
        && rec.localPath == Some(path)
        && !rec.isSynced
        && rec.fileData == Some(fs[path])
    {
      if path !in fs {
        return Failure(FileDoesNotExist);
      }
      var name := if cloudName.Some? && cloudName.value != "" then cloudName.value else FileName(path);
      var digest;
      ghost var chunks;
      digest, chunks := FileHash(path);
      if HashTaken(rows, digest) {
        return Failure(DuplicateContent);
      }
      // local-vault mode: a locally generated id, not synced
      var bytes := fs[path];
      var mime := if mimeGuess.Some? && mimeGuess.value != "" then mimeGuess.value else "application/octet-stream";
      var rec := FileRecord(nextId, FileName(path), uuid, name, |bytes|, mime, Some(digest),
                            now, now, Some(path), false, Some(bytes));
      Insert(rec);
      r := Success(UploadAck(uuid, name));
    }

    /**
     * The INSERT: the row goes at the end of the table under the counter's
     * id. The table has no UNIQUE constraint on file_hash; hashes stay
     * unique only because the caller checked first.
     */
    method Insert(rec: FileRecord)
      requires Valid() && rec.id == nextId
      modifies this`rows, this`nextId
      ensures Valid()
      ensures rows == old(rows) + [rec] && nextId == old(nextId) + 1
      ensures UniqueHashes(old(rows)) && rec.fileHash.Some? && !HashTaken(old(rows), rec.fileHash.value) ==>
        UniqueHashes(rows)
    {
      if UniqueHashes(rows) && rec.fileHash.Some? && !HashTaken(rows, rec.fileHash.value) {
        AppendKeepsHashesUnique(rows, rec);
      }
      AppendKeepsIds(rows, rec, nextId);
      rows := rows + [rec];
      nextId := nextId + 1;
    }

    /**
     * `download_file` in local-vault mode: the first row with the cloud_id
     * is written out from its blob, or backfilled from its original path,
     * or the download fails.
     */
    method DownloadFile(cloudId: string, dest: string, now: string) returns (r: Result<bool, VaultError>)
      requires Valid()
      modifies this`rows, this`fs
      ensures Valid() && nextId == old(nextId)
      // no such row: nothing written, table unchanged
      ensures FindByCloudId(old(rows), cloudId).None? ==>
        r == Failure(RecordNotFound) && rows == old(rows) && fs == old(fs)
      ensures FindByCloudId(old(rows), cloudId).Some? ==>
        var rec := old(rows)[FindByCloudId(old(rows), cloudId).value];
        // the blob is written out verbatim, table unchanged
        && (rec.fileData.Some? ==>
              r == Success(true) && fs == old(fs)[dest := rec.fileData.value] && rows == old(rows))
        // backfill: the original bytes are written out and stored in the row
        && (rec.fileData.None? && Backfillable(rec.localPath, old(fs)) ==>
              && r == Success(true)
              && fs == old(fs)[dest := old(fs)[rec.localPath.value]]
              && rows == SetBlob(old(rows), cloudId, old(fs)[rec.localPath.value], now))
        // neither: nothing written, table unchanged
        && (rec.fileData.None? && !Backfillable(rec.localPath, old(fs)) ==>
              r == Failure(NoStoredData) && rows == old(rows) && fs == old(fs))
    {
      var k := FindByCloudId(rows, cloudId);
      if k.None? {
        return Failure(RecordNotFound);
      }
      var rec := rows[k.value];
      if rec.fileData.Some? {
        fs := fs[dest := rec.fileData.value];
        return Success(true);
      }
      if Backfillable(rec.localPath, fs) {
        var data := fs[rec.localPath.value];
        fs := fs[dest := data];
        SetBlobKeepsIds(rows, cloudId, data, now, nextId);
        rows := SetBlob(rows, cloudId, data, now);
        return Success(true);
      }
      return Failure(NoStoredData);
    }

    /**
     * `remove_local_file`: deletes the row with the id; an unknown id
     * is silently ignored.
     */
    method RemoveLocalFile(id: int)
      requires Valid()
      modifies this`rows
      ensures Valid()
      ensures rows == DeleteId(old(rows), id)
      ensures forall x :: x in rows <==> x in old(rows) && x.id != id
      ensures (forall x :: x in old(rows) ==> x.id != id) ==> rows == old(rows)
      ensures forall k :: 0 <= k < |old(rows)| && old(rows)[k].id == id ==>
        rows == old(rows)[..k] + old(rows)[k + 1..]
    {
      forall k | 0 <= k < |rows| && rows[k].id == id
        ensures DeleteId(rows, id) == rows[..k] + rows[k + 1..]
      {
        DeleteIdRemovesAt(rows, k);
      }
      DeleteIdKeepsIncreasing(rows, id);
      rows := DeleteId(rows, id);
    }

    /** `get_local_files`: every row, newest upload first. */
    method GetLocalFiles() returns (files: seq<FileRecord>)
      ensures multiset(files) == multiset(rows)
      ensures SortedByDateDesc(files)
    {
      ByUploadDateDescSorted(rows);
      files := ByUploadDateDesc(rows);
    }
  }

  /**
   * The same bytes uploaded twice, under any paths and names: the second
   * upload is refused and the table holds exactly one row with that hash.
   */
  method UploadSameContentTwice(s: CloudStorage, p1: string, p2: string,
                                n1: Option<string>, n2: Option<string>,
                                u1: string, u2: string, mime: Option<string>, t1: string, t2: string)
    returns (r1: Result<UploadAck, VaultError>, r2: Result<UploadAck, VaultError>)
    requires s.Valid() && UniqueHashes(s.rows)
    requires p1 in s.fs && p2 in s.fs && s.fs[p1] == s.fs[p2]
    modifies s
    ensures s.fs == old(s.fs)
    ensures r2 == Failure(DuplicateContent)
    ensures r1.Success? <==> !HashTaken(old(s.rows), s.md5(s.fs[p1]))
    ensures UniqueHashes(s.rows) && HashCount(s.rows, s.md5(s.fs[p1])) == 1
  {
    ghost var h := s.md5(s.fs[p1]);
    r1 := s.UploadFile(p1, n1, u1, mime, t1);
    assert HashTaken(s.rows, h) by {
      if r1.Success? {
        assert s.rows[|s.rows| - 1].fileHash == Some(h);
      }
    }
    r2 := s.UploadFile(p2, n2, u2, mime, t2);
    UniqueHashCount(s.rows, h);
  }

  /**
   * A row without a blob whose original path still exists: the first
   * download backfills it, and a second one succeeds from the stored blob
   * after the original file has been deleted.
   */
  method BackfillSurvivesSourceRemoval(s: CloudStorage, cloudId: string, dest1: string, dest2: string,
                                       t1: string, t2: string)
    returns (r1: Result<bool, VaultError>, r2: Result<bool, VaultError>)
    requires s.Valid()
    requires FindByCloudId(s.rows, cloudId).Some?
    requires s.rows[FindByCloudId(s.rows, cloudId).value].fileData.None?
    requires Backfillable(s.rows[FindByCloudId(s.rows, cloudId).value].localPath, s.fs)
    modifies s
    ensures r1 == Success(true) && r2 == Success(true)
    ensures dest2 in s.fs && |s.rows| == |old(s.rows)|
    ensures var src := old(s.rows)[FindByCloudId(old(s.rows), cloudId).value].localPath.value;
      && s.fs[dest2] == old(s.fs)[src]
      && s.rows[FindByCloudId(old(s.rows), cloudId).value].fileData == Some(old(s.fs)[src])
  {
    var k := FindByCloudId(s.rows, cloudId).value;
    var src := s.rows[k].localPath.value;
    ghost var data := s.fs[src];
    ghost var before := s.rows;
    r1 := s.DownloadFile(cloudId, dest1, t1);
    BackfillPersists(before, cloudId, data, t1);
    s.fs := s.fs - {src};  // the original file is deleted
    r2 := s.DownloadFile(cloudId, dest2, t2);
  }

  /**
   * Any new content uploaded under an unused cloud_id and then downloaded:
   * the destination receives exactly the bytes that were uploaded.
   */
  method UploadThenDownload(s: CloudStorage, p: string, n: Option<string>, u: string,
                            mime: Option<string>, t1: string, dest: string, t2: string)
    returns (r1: Result<UploadAck, VaultError>, r2: Result<bool, VaultError>)
    requires s.Valid() && p in s.fs && !HashTaken(s.rows, s.md5(s.fs[p]))
    requires forall i :: 0 <= i < |s.rows| ==> s.rows[i].cloudId != u
    modifies s
    ensures r1.Success? && r1.value.id == u
    ensures r2 == Success(true) && dest in s.fs && s.fs[dest] == old(s.fs)[p]
  {
    ghost var before := s.rows;
    r1 := s.UploadFile(p, n, u, mime, t1);
    var rec := s.rows[|s.rows| - 1];
    assert s.rows == before + [rec];
    FindAppended(before, rec);
    r2 := s.DownloadFile(u, dest, t2);
  }

  /**
   * A ten-byte file through the vault: upload, list, refused re-upload of
   * a copy under another name, download to another path, delete, and an
   * empty list afterwards.
   */
  method TenByteFileScenario(md5: Bytes -> string, src: string, copy: string, dest: string,
                             id1: string, id2: string, t1: string, t2: string, t3: string)
  {
    var ten: Bytes := [0x31, 0x32, 0x33, 0x34, 0x35, 0x36, 0x37, 0x38, 0x39, 0x30];
    var s := new CloudStorage([], 1, map[src := ten][copy := ten], md5);
    assert s.fs[src] == ten && s.fs[copy] == ten;

    var up := s.UploadFile(src, None, id1, Some("text/plain"), t1);
    assert up.Success? && |s.rows| == 1;
    var row := s.rows[0];
    assert row.fileSize == 10 && row.fileData == Some(ten) && row.cloudId == id1;

    var files := s.GetLocalFiles();
    assert |files| == |multiset(files)| == 1;

    assert HashTaken(s.rows, md5(ten)) by {
      assert row.fileHash == Some(md5(ten));
    }
    var again := s.UploadFile(copy, Some("other.txt"), id2, None, t2);
    assert again == Failure(DuplicateContent) && s.rows == [row];

    assert FindByCloudId(s.rows, id1) == Some(0);
    var got := s.DownloadFile(id1, dest, t3);
    assert got == Success(true) && s.fs[dest] == ten;

    assert s.rows == [row] && row.id == 1;
    s.RemoveLocalFile(1);
    assert s.rows == [];
    files := s.GetLocalFiles();
    assert files == [];
  }

  /** Deleting a stored row empties the list; deleting it again is silently ignored. */
  method RemoveTwiceScenario(row: FileRecord)
    requires row.id == 1
  {
    var s := new CloudStorage([row], 2, map[], (b: Bytes) => "");
    s.RemoveLocalFile(1);
    var files := s.GetLocalFiles();
    assert files == [];
    s.RemoveLocalFile(1);
    assert s.rows == [];
  }
}
