/**
 * Rows of the `files` table and the SQL statements of the vault, each as a
 * function over the table held as a sequence in rowid order.
 */
module Records {
  import opened Wrappers

  type Bytes = seq<bv8>

  /**
   * One row of `files`. The columns added by migration (file_hash,
   * local_path, file_data) may be NULL on rows written before they existed.
   */
  datatype FileRecord = FileRecord(
    id: int,
    localName: string,
    cloudId: string,
    cloudName: string,
    fileSize: nat,
    fileMime: string,
    fileHash: Option<string>,
    uploadDate: string,
    lastSync: string,
    localPath: Option<string>,
    isSynced: bool,
    fileData: Option<Bytes>)

  /** Index of the last '/' in the path, or -1 when it has none. */
  function LastSeparator(path: string): (k: int)
    ensures -1 <= k < |path|
    ensures k >= 0 ==> path[k] == '/'
    ensures forall i :: k < i < |path| ==> path[i] != '/'
  {
    if path == [] then -1
    else if path[|path| - 1] == '/' then |path| - 1
    else LastSeparator(path[..|path| - 1])
  }

  /** `Path(path).name`: the text after the last '/'. */
  function FileName(path: string): (name: string)
    ensures |name| <= |path| && name == path[|path| - |name|..]
    ensures forall i :: 0 <= i < |name| ==> name[i] != '/'
    ensures |name| < |path| ==> path[|path| - |name| - 1] == '/'
  {
    path[LastSeparator(path) + 1..]
  }

  // ---------------------------------------------------------------------
  // Table invariants

  /** AUTOINCREMENT ids, the table listed in rowid order. */
  ghost predicate IdsIncreasing(rows: seq<FileRecord>)
  {
    forall i, j :: 0 <= i < j < |rows| ==> rows[i].id < rows[j].id
  }

  /** Every id is below the next one the table will hand out. */
  ghost predicate IdsBelow(rows: seq<FileRecord>, nextId: int)
  {
    forall i :: 0 <= i < |rows| ==> rows[i].id < nextId
  }

  /** No two rows share a (non-NULL) content hash. */
  ghost predicate UniqueHashes(rows: seq<FileRecord>)
  {
    forall i, j :: 0 <= i < j < |rows| && rows[i].fileHash.Some? ==> rows[i].fileHash != rows[j].fileHash
  }

  // ---------------------------------------------------------------------
  // SELECT id FROM files WHERE file_hash = ?

  /** Some row carries the hash (a NULL hash never matches). */
  predicate HashTaken(rows: seq<FileRecord>, hash: string)
  {
    exists i | 0 <= i < |rows| :: rows[i].fileHash == Some(hash)
  }

  /** The number of rows that carry the hash. */
  function HashCount(rows: seq<FileRecord>, hash: string): nat
  {
    if rows == [] then 0
    else (if rows[0].fileHash == Some(hash) then 1 else 0) + HashCount(rows[1..], hash)
  }

  /** Under the dedup invariant a hash names at most one row. */
  lemma {:induction false} UniqueHashCount(rows: seq<FileRecord>, hash: string)
    requires UniqueHashes(rows)
    ensures HashCount(rows, hash) == if HashTaken(rows, hash) then 1 else 0
  {
    if rows != [] {
      var tail := rows[1..];
      assert UniqueHashes(tail) by {
        forall i, j | 0 <= i < j < |tail| && tail[i].fileHash.Some?
          ensures tail[i].fileHash != tail[j].fileHash
        {
          assert tail[i] == rows[i + 1] && tail[j] == rows[j + 1];
        }
      }
      UniqueHashCount(tail, hash);
      if rows[0].fileHash == Some(hash) {
        forall j | 0 <= j < |tail| ensures tail[j].fileHash != Some(hash) {
          assert tail[j] == rows[j + 1];
        }
      }
      assert HashTaken(rows, hash) <==> rows[0].fileHash == Some(hash) || HashTaken(tail, hash) by {
        if HashTaken(tail, hash) {
          var i :| 0 <= i < |tail| && tail[i].fileHash == Some(hash);
          assert rows[i + 1] == tail[i];
        }
        if HashTaken(rows, hash) && rows[0].fileHash != Some(hash) {
          var i :| 0 <= i < |rows| && rows[i].fileHash == Some(hash);
          assert tail[i - 1] == rows[i];
        }
      }
    }
  }

  /** Appending a row whose hash is not yet taken keeps hashes unique. */
  lemma AppendKeepsHashesUnique(rows: seq<FileRecord>, rec: FileRecord)
    requires UniqueHashes(rows)
    requires rec.fileHash.Some? && !HashTaken(rows, rec.fileHash.value)
    ensures UniqueHashes(rows + [rec])
  {
  }

  /** INSERT with the counter's id keeps the id invariants, the counter advanced. */
  lemma AppendKeepsIds(rows: seq<FileRecord>, rec: FileRecord, nextId: int)
    requires IdsIncreasing(rows) && IdsBelow(rows, nextId) && rec.id == nextId
    ensures IdsIncreasing(rows + [rec]) && IdsBelow(rows + [rec], nextId + 1)
  {
  }

  // ---------------------------------------------------------------------
  // SELECT local_path, file_data FROM files WHERE cloud_id = ?  (fetchone)

  /** Index of the first row, in rowid order, whose cloud_id matches. */
  function FindByCloudId(rows: seq<FileRecord>, cloudId: string): (k: Option<nat>)
    ensures k.Some? ==> k.value < |rows| && rows[k.value].cloudId == cloudId
    ensures forall i :: 0 <= i < |rows| && (k.None? || i < k.value) ==> rows[i].cloudId != cloudId
  {
    if rows == [] then None
    else if rows[0].cloudId == cloudId then Some(0)
    else match FindByCloudId(rows[1..], cloudId)
      case None => None
      case Some(j) => Some(j + 1)
  }

  /** A row inserted with a cloud_id no other row has is what the lookup finds. */
  lemma {:induction false} FindAppended(rows: seq<FileRecord>, rec: FileRecord)
    requires forall i :: 0 <= i < |rows| ==> rows[i].cloudId != rec.cloudId
    ensures FindByCloudId(rows + [rec], rec.cloudId) == Some(|rows|)
  {
    if rows != [] {
      assert (rows + [rec])[1..] == rows[1..] + [rec];
      FindAppended(rows[1..], rec);
    }
  }

  // ---------------------------------------------------------------------
  // UPDATE files SET file_data = ?, last_sync = ? WHERE cloud_id = ?

  /** Every row with the cloud_id gets the bytes and the new sync time; no other row changes. */
  function SetBlob(rows: seq<FileRecord>, cloudId: string, data: Bytes, now: string): (r: seq<FileRecord>)
    ensures |r| == |rows|
    ensures forall i :: 0 <= i < |rows| && rows[i].cloudId != cloudId ==> r[i] == rows[i]
    ensures forall i :: 0 <= i < |rows| && rows[i].cloudId == cloudId ==>
      r[i] == rows[i].(fileData := Some(data), lastSync := now)
  {
    if rows == [] then []
    else
      var head := if rows[0].cloudId == cloudId then rows[0].(fileData := Some(data), lastSync := now) else rows[0];
      [head] + SetBlob(rows[1..], cloudId, data, now)
  }

  /** The lookup reads only the cloud_id column. */
  lemma FindByCloudIdSameKeys(a: seq<FileRecord>, b: seq<FileRecord>, cloudId: string)
    requires |a| == |b|
    requires forall i :: 0 <= i < |a| ==> a[i].cloudId == b[i].cloudId
    ensures FindByCloudId(a, cloudId) == FindByCloudId(b, cloudId)
  {
  }

  /**
   * After the UPDATE the lookup finds the same row, now holding the bytes:
   * the next fetch no longer depends on the original path.
   */
  lemma BackfillPersists(rows: seq<FileRecord>, cloudId: string, data: Bytes, now: string)
    requires FindByCloudId(rows, cloudId).Some?
    ensures FindByCloudId(SetBlob(rows, cloudId, data, now), cloudId) == FindByCloudId(rows, cloudId)
    ensures SetBlob(rows, cloudId, data, now)[FindByCloudId(rows, cloudId).value].fileData == Some(data)
  {
    FindByCloudIdSameKeys(SetBlob(rows, cloudId, data, now), rows, cloudId);
  }

  /** The UPDATE keeps every id, so it keeps the id invariants. */
  lemma SetBlobKeepsIds(rows: seq<FileRecord>, cloudId: string, data: Bytes, now: string, nextId: int)
    requires IdsIncreasing(rows) && IdsBelow(rows, nextId)
    ensures IdsIncreasing(SetBlob(rows, cloudId, data, now)) && IdsBelow(SetBlob(rows, cloudId, data, now), nextId)
  {
  }

  // ---------------------------------------------------------------------
  // DELETE FROM files WHERE id = ?

  /** The table without the rows whose id matches, the rest in order. */
  function DeleteId(rows: seq<FileRecord>, id: int): (r: seq<FileRecord>)
    ensures |r| <= |rows|
    ensures forall x :: x in r ==> x in rows && x.id != id
    ensures forall x :: x in rows && x.id != id ==> x in r
    ensures (forall x :: x in rows ==> x.id != id) ==> r == rows
  {
    if rows == [] then []
    else (if rows[0].id == id then [] else [rows[0]]) + DeleteId(rows[1..], id)
  }

  /** The rows after the first are in order and all newer than it. */
  lemma TailIdsIncreasing(rows: seq<FileRecord>)
    requires IdsIncreasing(rows) && rows != []
    ensures IdsIncreasing(rows[1..])
    ensures forall x :: x in rows[1..] ==> rows[0].id < x.id
  {
  }

  /** A row older than every row of an ordered table can go in front of it. */
  lemma PrependIdsIncreasing(x: FileRecord, s: seq<FileRecord>)
    requires IdsIncreasing(s)
    requires forall y :: y in s ==> x.id < y.id
    ensures IdsIncreasing([x] + s)
  {
  }

  /** The DELETE keeps the table in rowid order. */
  lemma {:induction false} DeleteIdKeepsIncreasing(rows: seq<FileRecord>, id: int)
    requires IdsIncreasing(rows)
    ensures IdsIncreasing(DeleteId(rows, id))
  {
    if rows != [] {
      TailIdsIncreasing(rows);
      DeleteIdKeepsIncreasing(rows[1..], id);
      if rows[0].id != id {
        PrependIdsIncreasing(rows[0], DeleteId(rows[1..], id));
      }
    }
  }

  /** Dropping element k of a sequence, seen from its tail. */
  lemma SplitAround<T>(s: seq<T>, k: nat)
    requires 0 < k < |s|
    ensures [s[0]] + (s[1..][..k - 1] + s[1..][k..]) == s[..k] + s[k + 1..]
  {
  }

  /** With distinct ids, deleting the id of row k removes exactly row k. */
  lemma {:induction false} DeleteIdRemovesAt(rows: seq<FileRecord>, k: nat)
    requires IdsIncreasing(rows)
    requires k < |rows|
    ensures DeleteId(rows, rows[k].id) == rows[..k] + rows[k + 1..]
  {
    var id := rows[k].id;
    var tail := rows[1..];
    TailIdsIncreasing(rows);
    if k == 0 {
      assert DeleteId(rows, id) == DeleteId(tail, id);
    } else {
      assert tail[k - 1] == rows[k];
      DeleteIdRemovesAt(tail, k - 1);
      SplitAround(rows, k);
    }
  }

  // ---------------------------------------------------------------------
  // SELECT * FROM files ORDER BY upload_date DESC

  /** SQLite's BINARY collation on text: `a` sorts at or before `b`. */
  predicate DateLe(a: string, b: string)
  {
    if a == [] then true
    else if b == [] then false
    else a[0] < b[0] || (a[0] == b[0] && DateLe(a[1..], b[1..]))
  }

  lemma {:induction false} DateLeTotal(a: string, b: string)
    ensures DateLe(a, b) || DateLe(b, a)
  {
    if a != [] && b != [] && a[0] == b[0] {
      DateLeTotal(a[1..], b[1..]);
    }
  }

  lemma {:induction false} DateLeTransitive(a: string, b: string, c: string)
    requires DateLe(a, b) && DateLe(b, c)
    ensures DateLe(a, c)
  {
    if a != [] && b != [] && c != [] && a[0] == b[0] && b[0] == c[0] {
      DateLeTransitive(a[1..], b[1..], c[1..]);
    }
  }

  /** Newest upload first. */
  ghost predicate SortedByDateDesc(s: seq<FileRecord>)
  {
    forall i, j :: 0 <= i < j < |s| ==> DateLe(s[j].uploadDate, s[i].uploadDate)
  }

  /** Places `x` before the first row that is not newer than it. */
  function InsertByDate(x: FileRecord, s: seq<FileRecord>): (r: seq<FileRecord>)
    ensures multiset(r) == multiset(s) + multiset{x}
  {
    if s == [] || DateLe(s[0].uploadDate, x.uploadDate) then [x] + s
    else
      assert s == [s[0]] + s[1..];
      [s[0]] + InsertByDate(x, s[1..])
  }

  /** The rows in newest-first order. */
  function ByUploadDateDesc(rows: seq<FileRecord>): (r: seq<FileRecord>)
    ensures multiset(r) == multiset(rows)
  {
    if rows == [] then []
    else
      assert rows == [rows[0]] + rows[1..];
      InsertByDate(rows[0], ByUploadDateDesc(rows[1..]))
  }

  /** A row no older than every row of a newest-first list can head it. */
  lemma ConsSorted(y: FileRecord, t: seq<FileRecord>)
    requires SortedByDateDesc(t)
    requires forall j :: 0 <= j < |t| ==> DateLe(t[j].uploadDate, y.uploadDate)
    ensures SortedByDateDesc([y] + t)
  {
    var r := [y] + t;
    forall i, j | 0 <= i < j < |r| ensures DateLe(r[j].uploadDate, r[i].uploadDate) {
      assert r[j] == t[j - 1];
      if i > 0 {
        assert r[i] == t[i - 1];
      }
    }
  }

  /** The rows after the head of a newest-first list are newest first and not newer than it. */
  lemma TailSorted(s: seq<FileRecord>)
    requires SortedByDateDesc(s) && s != []
    ensures SortedByDateDesc(s[1..])
    ensures forall x :: x in s[1..] ==> DateLe(x.uploadDate, s[0].uploadDate)
  {
    var tail := s[1..];
    forall i, j | 0 <= i < j < |tail| ensures DateLe(tail[j].uploadDate, tail[i].uploadDate) {
      assert tail[i] == s[i + 1] && tail[j] == s[j + 1];
    }
    forall x | x in tail ensures DateLe(x.uploadDate, s[0].uploadDate) {
      var m :| 0 <= m < |tail| && tail[m] == x;
      assert s[m + 1] == x;
    }
  }

  lemma {:induction false} InsertByDateSorted(x: FileRecord, s: seq<FileRecord>)
    requires SortedByDateDesc(s)
    ensures SortedByDateDesc(InsertByDate(x, s))
  {
    if s == [] || DateLe(s[0].uploadDate, x.uploadDate) {
      forall j | 0 <= j < |s| ensures DateLe(s[j].uploadDate, x.uploadDate) {
        if j > 0 {
          DateLeTransitive(s[j].uploadDate, s[0].uploadDate, x.uploadDate);
        }
      }
      ConsSorted(x, s);
    } else {
      TailSorted(s);
      InsertByDateSorted(x, s[1..]);
      var rest := InsertByDate(x, s[1..]);
      DateLeTotal(s[0].uploadDate, x.uploadDate);
      forall j | 0 <= j < |rest| ensures DateLe(rest[j].uploadDate, s[0].uploadDate) {
        assert rest[j] in multiset(rest);
      }
      ConsSorted(s[0], rest);
    }
  }

  /** ORDER BY upload_date DESC: a permutation of the table, newest first. */
  lemma {:induction false} ByUploadDateDescSorted(rows: seq<FileRecord>)
    ensures SortedByDateDesc(ByUploadDateDesc(rows))
    ensures multiset(ByUploadDateDesc(rows)) == multiset(rows)
  {
    if rows != [] {
      ByUploadDateDescSorted(rows[1..]);
      InsertByDateSorted(rows[0], ByUploadDateDesc(rows[1..]));
    }
  }
}
