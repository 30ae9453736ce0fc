/**
 * The `files` table's columns and the additive migration run each time the
 * vault opens its database.
 */
module Schema {
  import opened Wrappers

  /** Columns of the table as first created, in declaration order. */
  const CreateColumns: seq<string> := [
    "id", "local_name", "cloud_id", "cloud_name", "file_size", "file_mime",
    "file_hash", "upload_date", "last_sync", "local_path", "is_synced"
  ]

  /** Columns added afterwards, each by its own ALTER TABLE. */
  const MigratedColumns: seq<string> := ["file_hash", "local_path", "file_data"]

  /** SQLite's folding of identifiers: ASCII upper case to lower case, nothing else. */
  function LowerChar(ch: char): (r: char)
    ensures 'A' <= ch <= 'Z' ==> 'a' <= r <= 'z' && r as int - ch as int == 32
    ensures !('A' <= ch <= 'Z') ==> r == ch
  {
    if 'A' <= ch <= 'Z' then (ch as int + 32) as char else ch
  }

  function Lower(s: string): (r: string)
    ensures |r| == |s|
    ensures forall i :: 0 <= i < |s| ==> r[i] == LowerChar(s[i])
  {
    seq(|s|, i requires 0 <= i < |s| => LowerChar(s[i]))
  }

  /** Two column names SQLite treats as the same column. */
  predicate SameName(a: string, b: string)
  {
    Lower(a) == Lower(b)
  }

  /** The table has a column named `c`, in any ASCII case. */
  predicate HasColumn(cols: seq<string>, c: string)
  {
    exists i | 0 <= i < |cols| :: SameName(cols[i], c)
  }

  /** No two columns have the same name, ignoring ASCII case. */
  ghost predicate Distinct(cols: seq<string>)
  {
    forall i, j :: 0 <= i < j < |cols| ==> !SameName(cols[i], cols[j])
  }

  /** A column found in a table is still found once columns are appended. */
  lemma HasColumnPrefix(cols: seq<string>, r: seq<string>, c: string)
    requires |cols| <= |r| && r[..|cols|] == cols && HasColumn(cols, c)
    ensures HasColumn(r, c)
  {
    var i :| 0 <= i < |cols| && SameName(cols[i], c);
    assert r[i] == cols[i];
  }

  /**
   * One `ALTER TABLE files ADD COLUMN c`: appended at the end, or, when a
   * column of that name exists already in any ASCII case, SQLite reports a
   * duplicate column, the error is swallowed and nothing changes.
   */
  function AddColumn(cols: seq<string>, c: string): (r: seq<string>)
    ensures HasColumn(r, c)
    ensures |cols| <= |r| && r[..|cols|] == cols
    ensures forall x :: x in r ==> x in cols || x == c
    ensures HasColumn(cols, c) <==> r == cols
    ensures Distinct(cols) ==> Distinct(r)
  {
    if HasColumn(cols, c) then cols
    else
      assert (cols + [c])[|cols|] == c;
      cols + [c]
  }

  /** The ALTER TABLE statements in order. */
  function AddColumns(cols: seq<string>, cs: seq<string>): (r: seq<string>)
    ensures forall c :: c in cs ==> HasColumn(r, c)
    ensures |cols| <= |r| && r[..|cols|] == cols
    ensures forall x :: x in r ==> x in cols || x in cs
    ensures (forall c :: c in cs ==> HasColumn(cols, c)) ==> r == cols
    ensures Distinct(cols) ==> Distinct(r)
    decreases |cs|
  {
    if cs == [] then cols
    else
      var next := AddColumn(cols, cs[0]);
      var r := AddColumns(next, cs[1..]);
      assert r[..|cols|] == next[..|next|][..|cols|];
      HasColumnPrefix(next, r, cs[0]);
      r
  }

  /**
   * `_ensure_database`: CREATE TABLE IF NOT EXISTS (`None` = no table yet),
   * then the migration. Existing columns keep their place (no data is lost)
   * and every column the vault uses is present afterwards.
   */
  function EnsureSchema(existing: Option<seq<string>>): (cols: seq<string>)
    ensures existing.Some? ==> |existing.value| <= |cols| && cols[..|existing.value|] == existing.value
    ensures forall c :: c in CreateColumns && existing.None? ==> c in cols
    ensures forall c :: c in MigratedColumns ==> HasColumn(cols, c)
    ensures forall c :: c in cols ==> c in MigratedColumns || (if existing.Some? then c in existing.value else c in CreateColumns)
  {
    var base := if existing.Some? then existing.value else CreateColumns;
    AddColumns(base, MigratedColumns)
  }

  /** Opening the database a second time changes nothing. */
  lemma EnsureSchemaIdempotent(existing: Option<seq<string>>)
    ensures EnsureSchema(Some(EnsureSchema(existing))) == EnsureSchema(existing)
  {
  }

  /** Names of different lengths are different columns. */
  lemma DifferentLength(a: string, b: string)
    requires |a| != |b|
    ensures !SameName(a, b)
  {
    assert |Lower(a)| != |Lower(b)|;
  }

  /** Names that differ at one position after folding are different columns. */
  lemma DifferentAt(a: string, b: string, k: nat)
    requires k < |a| == |b| && LowerChar(a[k]) != LowerChar(b[k])
    ensures !SameName(a, b)
  {
    assert Lower(a)[k] != Lower(b)[k];
  }

  /** file_data is the one migrated column a fresh table lacks. */
  lemma FileDataIsNew()
    ensures !HasColumn(CreateColumns, "file_data")
  {
    var d := "file_data";
    DifferentLength(CreateColumns[0], d);
    DifferentLength(CreateColumns[1], d);
    DifferentLength(CreateColumns[2], d);
    DifferentLength(CreateColumns[3], d);
    DifferentAt(CreateColumns[4], d, 5);
    DifferentAt(CreateColumns[5], d, 5);
    DifferentAt(CreateColumns[6], d, 5);
    DifferentLength(CreateColumns[7], d);
    DifferentAt(CreateColumns[8], d, 0);
    DifferentLength(CreateColumns[9], d);
    DifferentAt(CreateColumns[10], d, 0);
  }

  /** A freshly created table gets file_data appended and nothing else. */
  lemma FreshSchema()
    ensures EnsureSchema(None) == CreateColumns + ["file_data"]
  {
    assert AddColumn(CreateColumns, "file_hash") == CreateColumns by {
      assert SameName(CreateColumns[6], "file_hash");
    }
    assert AddColumn(CreateColumns, "local_path") == CreateColumns by {
      assert SameName(CreateColumns[9], "local_path");
    }
    FileDataIsNew();
    assert MigratedColumns[1..][1..] == ["file_data"];
  }
}
