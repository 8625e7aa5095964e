/** The mod table of src/services/DatabaseService.ts: one SQLite table `mods` keyed by
    `id`, held here as a map from id to the remaining columns. The connection is either
    open or absent; every operation on an absent connection throws. */
module DatabaseService {
  import opened Wrappers
  import opened Types
  import opened Text
  import Rows

  const NotInitialized := "Database not initialized"

  /** The columns of one `mods` row other than the `id` key. `enabled` is the INTEGER
      column; `kind` is the TEXT `type` column, which only ever receives the name of a
      `ModType`; the dates are the instants the ISO text stands for; `conflicts` and
      `dependencies` are the arrays the JSON text encodes, or SQL NULL. */
  datatype ModRow = ModRow(
    name: string,
    fileName: string,
    path: string,
    kind: ModType,
    enabled: int,
    version: Option<string>,
    author: Option<string>,
    description: Option<string>,
    fileSize: nat,
    dateAdded: int,
    dateModified: int,
    thumbnail: Option<string>,
    conflicts: Option<seq<string>>,
    dependencies: Option<seq<string>>)

  /** The row the `row.map` callback of getMods/getModById turns back into a record:
      the flag is `enabled === 1`, so only 1 reads as enabled. */
  function Decode(id: string, row: ModRow): (m: ModFile)
    ensures m.id == id && m.path == row.path && m.name == row.name
    ensures m.enabled <==> row.enabled == 1
  {
    ModFile(id, row.name, row.fileName, row.path, row.kind, row.enabled == 1,
      row.version, row.author, row.description, row.fileSize, row.dateAdded, row.dateModified,
      row.thumbnail, row.conflicts, row.dependencies)
  }

  /** The parameters saveMod binds: `enabled ? 1 : 0`, and an array, even an empty one,
      is truthy and so is stored, while an absent one becomes NULL. Reading the row back
      gives the record that was saved. */
  function Encode(m: ModFile): (r: ModRow)
    ensures r.enabled == 0 || r.enabled == 1
    ensures Decode(m.id, r) == m
  {
    ModRow(m.name, m.fileName, m.path, m.kind, if m.enabled then 1 else 0,
      m.version, m.author, m.description, m.fileSize, m.dateAdded, m.dateModified,
      m.thumbnail, m.conflicts, m.dependencies)
  }

  /** A row holding 1 or 0 in `enabled` is exactly the encoding of the record it decodes to. */
  lemma RowRoundTrip(id: string, row: ModRow)
    requires row.enabled == 0 || row.enabled == 1
    ensures Encode(Decode(id, row)) == row
  {
  }

  /** `SELECT * FROM mods WHERE id = ?`: no row gives null. */
  function Find(table: map<string, ModRow>, id: string): (r: Option<ModFile>)
    ensures r.None? <==> id !in table
    ensures r.Some? ==> r.value.id == id
    ensures r.Some? && (table[id].enabled == 0 || table[id].enabled == 1) ==> Encode(r.value) == table[id]
  {
    if id in table then Some(Decode(id, table[id])) else None
  }

  /** `INSERT OR REPLACE INTO mods`: the row with the same primary key is replaced. */
  function Saved(table: map<string, ModRow>, m: ModFile): (r: map<string, ModRow>)
    ensures r.Keys == table.Keys + {m.id}
    ensures Find(r, m.id) == Some(m)
    ensures forall id :: id != m.id ==> Find(r, id) == Find(table, id)
  {
    table[m.id := Encode(m)]
  }

  /** `DELETE FROM mods WHERE id = ?`: only that row goes; an absent id deletes nothing. */
  function WithoutRow(table: map<string, ModRow>, id: string): (r: map<string, ModRow>)
    ensures Find(r, id) == None
    ensures forall other :: other != id ==> Find(r, other) == Find(table, other)
    ensures id !in table ==> r == table
  {
    table - {id}
  }

  /** `UPDATE mods SET enabled = ? WHERE id = ?`: the flag of that row alone changes,
      and an absent id updates nothing. */
  function WithEnabled(table: map<string, ModRow>, id: string, enabled: bool): (r: map<string, ModRow>)
    ensures r.Keys == table.Keys
    ensures id in table ==> Find(r, id) == Some(Find(table, id).value.(enabled := enabled))
    ensures forall other :: other != id ==> Find(r, other) == Find(table, other)
  {
    if id in table then table[id := table[id].(enabled := if enabled then 1 else 0)] else table
  }

  /** `ORDER BY name ASC` under SQLite's default BINARY collation: code-point order. */
  function NameLe(a: ModRow, b: ModRow): bool {
    LexLe(a.name, b.name)
  }

  lemma NameLeTotal()
    ensures Rows.TotalPreorder(NameLe)
  {
    forall a: ModRow, b: ModRow ensures NameLe(a, b) || NameLe(b, a) {
      LexLeTotal(a.name, b.name);
    }
    forall a: ModRow, b: ModRow, c: ModRow | NameLe(a, b) && NameLe(b, c) ensures NameLe(a, c) {
      LexLeTrans(a.name, b.name, c.name);
    }
  }

  /** `mods` is what `SELECT * FROM mods ORDER BY name ASC` yields from `table`: one record
      per row, each as read back from its row, in ascending name order. */
  ghost predicate ListsAll(table: map<string, ModRow>, mods: seq<ModFile>) {
    && |mods| == |table|
    && (forall i :: 0 <= i < |mods| ==> Find(table, mods[i].id) == Some(mods[i]))
    && (forall id :: id in table ==> Find(table, id).value in mods)
    && (forall i, j :: 0 <= i < j < |mods| ==> LexLe(mods[i].name, mods[j].name))
  }

  class Database {
    /** Whether `db` holds a connection. */
    var open: bool
    /** The `mods` table of the database file. */
    var mods: map<string, ModRow>

    /** The file at `userData/mods.db` may already hold rows from an earlier run. */
    constructor(stored: map<string, ModRow>)
      ensures !open && mods == stored
    {
      open := false;
      mods := stored;
    }

    /** initialize: open the file and `CREATE TABLE IF NOT EXISTS`, which keeps existing rows. */
    method Initialize()
      modifies this
      ensures open && mods == old(mods)
    {
      open := true;
    }

    method SaveMod(m: ModFile) returns (r: Outcome)
      modifies this
      ensures open == old(open)
      ensures !open ==> r == Fail(NotInitialized) && mods == old(mods)
      ensures open ==> r == Pass && mods == Saved(old(mods), m)
    {
      if !open {
        return Fail(NotInitialized);
      }
      mods := mods[m.id := Encode(m)];
      r := Pass;
    }

    method GetMods() returns (r: Result<seq<ModFile>>)
      ensures !open ==> r == Failure(NotInitialized)
      ensures open ==> r.Success? && ListsAll(mods, r.value)
    {
      if !open {
        return Failure(NotInitialized);
      }
      NameLeTotal();
      var keys, rows := Rows.SortedRows(mods, NameLe);
      var found := seq(|keys|, i requires 0 <= i < |keys| => Decode(keys[i], rows[i]));
      forall id | id in mods ensures Find(mods, id).value in found {
        var i :| 0 <= i < |keys| && keys[i] == id;
        assert found[i] == Find(mods, id).value;
      }
      r := Success(found);
    }

    method GetModById(id: string) returns (r: Result<Option<ModFile>>)
      ensures r == if open then Success(Find(mods, id)) else Failure(NotInitialized)
    {
      if !open {
        return Failure(NotInitialized);
      }
      if id in mods {
        r := Success(Some(Decode(id, mods[id])));
      } else {
        r := Success(None);
      }
    }

    method DeleteMod(id: string) returns (r: Outcome)
      modifies this
      ensures open == old(open)
      ensures !open ==> r == Fail(NotInitialized) && mods == old(mods)
      ensures open ==> r == Pass && mods == WithoutRow(old(mods), id)
    {
      if !open {
        return Fail(NotInitialized);
      }
      mods := mods - {id};
      r := Pass;
    }

    method UpdateModEnabled(id: string, enabled: bool) returns (r: Outcome)
      modifies this
      ensures open == old(open)
      ensures !open ==> r == Fail(NotInitialized) && mods == old(mods)
      ensures open ==> r == Pass && mods == WithEnabled(old(mods), id, enabled)
    {
      if !open {
        return Fail(NotInitialized);
      }
      if id in mods {
        mods := mods[id := mods[id].(enabled := if enabled then 1 else 0)];
      }
      r := Pass;
    }

    /** close: a closed service just returns; an open one drops its connection. The file
        keeps its rows. */
    method Close()
      modifies this
      ensures !open && mods == old(mods)
    {
      open := false;
    }
  }
}
