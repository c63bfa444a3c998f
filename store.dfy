/**
 * The relational engine behind the controllers, as an in-memory store: per
 * table a map from integer `ID` to the row's other columns, an auto-increment
 * counter, and whether stored procedures are installed. Its writes run the two
 * SQLite triggers of module TriggerRules and the NOT NULL and DEFAULT clauses of
 * the schema in config/init-db.js.
 */
module Store {
  import opened Js
  import opened TriggerRules

  datatype DbError =
    | NoSuchTable(table: string)
    | NotNullFailed(table: string, column: string)
    | Raised(text: string)   // RAISE(FAIL, text) in a trigger

  /** The engine's error text, without the `SQLITE_ERROR: ` or `SQLITE_CONSTRAINT: ` prefix the driver puts in `error.message`. */
  function ErrorMessage(e: DbError): string {
    match e
    case NoSuchTable(t) => "no such table: " + t
    case NotNullFailed(t, c) => "NOT NULL constraint failed: " + t + "." + c
    case Raised(text) => text
  }

  datatype Result<T> = Ok(value: T) | Err(error: DbError)

  /** The `INTEGER PRIMARY KEY AUTOINCREMENT` column of each table. */
  function Key(t: string): string {
    if t == "Seguros" then "id_seguro" else "ID"
  }

  /**
   * The columns of each table other than its key, in declaration order. Those
   * of `AuditoriaEliminar` are the ones the audit trigger inserts into.
   */
  function Schema(t: string): seq<string> {
    if t == "Pacientes" then ["nombre", "edad", "direccion", "telefono", "Estado"]
    else if t == "Doctores" then ["nombre", "especialidad", "telefono", "Estado"]
    else if t == "Citas" then ["paciente_id", "doctor_id", "fecha", "hora"]
    else if t == "Diagnosticos" then ["cita_id", "diagnostico", "tratamiento"]
    else if t == "Seguros" then ["tipo", "compañia", "id_paciente"]
    else if t == "AuditoriaEliminar" then ["tabla", "registro_id", "datos_antiguos", "fecha"]
    else []
  }

  /** The columns `SELECT *` returns: the key, then the others. */
  function StarCols(t: string): (cols: seq<string>)
    ensures |cols| >= 1 && cols[0] == Key(t)
  {
    [Key(t)] + Schema(t)
  }

  /** `Estado INTEGER DEFAULT 1` on patients and doctors; every other column defaults to NULL. */
  function Default(t: string, c: string): Value {
    if c == "Estado" && (t == "Pacientes" || t == "Doctores") then Num(1) else Null
  }

  /** The row an INSERT naming the columns of `given` stores: the schema's other columns take their defaults. */
  function Completed(t: string, given: Record): (r: Record)
    ensures r.Keys == given.Keys + (set c | c in Schema(t))
    ensures forall c :: c in given ==> r[c] == given[c]
    ensures forall c :: c in Schema(t) && c !in given ==> r[c] == Default(t, c)
  {
    map c | c in given.Keys + (set c | c in Schema(t)) :: if c in given then given[c] else Default(t, c)
  }

  /** `nombre TEXT NOT NULL` on patients and doctors. */
  predicate ViolatesNotNull(t: string, r: Record) {
    (t == "Pacientes" || t == "Doctores") && Col(r, "nombre") == Null
  }

  /** Why storing `r` as a new row of `t`, whose rows are `rows`, is refused, if it is. */
  function InsertCheck(t: string, rows: map<int, Record>, r: Record): (e: Option<DbError>)
    ensures e.None? <==> !ViolatesNotNull(t, r) && !(t == "Citas" && ValidacionCitasRejects(rows, r))
  {
    if ViolatesNotNull(t, r) then Some(NotNullFailed(t, "nombre"))
    else if t == "Citas" && ValidacionCitasRejects(rows, r) then Some(Raised(CitaConflictMessage))
    else None
  }

  /** The engine's reading of column `c` of row `id` of table `t`: the key column reads the id. */
  function ColumnValue(t: string, id: int, r: Record, c: string): Value {
    if c == Key(t) then Num(id) else Col(r, c)
  }

  /** A result row for the column list `cols`. */
  function Project(t: string, id: int, r: Record, cols: seq<string>): (o: Object)
    ensures Keys(o) == cols
    ensures forall i :: 0 <= i < |cols| ==> o[i].1 == ColumnValue(t, id, r, cols[i])
  {
    seq(|cols|, i requires 0 <= i < |cols| => (cols[i], ColumnValue(t, id, r, cols[i])))
  }

  /** A `SELECT *` row: the key and then the schema's columns. */
  function StarRow(t: string, id: int, r: Record): Object {
    Project(t, id, r, StarCols(t))
  }

  /** The ids of `m` in `[lo, hi)`, ascending: the order a table scan yields rows in. */
  function IdsFrom(m: map<int, Record>, lo: int, hi: int): (ids: seq<int>)
    ensures forall x :: x in ids <==> x in m && lo <= x < hi
    ensures forall i :: 0 <= i < |ids| ==> lo <= ids[i] < hi
    ensures forall i, j :: 0 <= i < j < |ids| ==> ids[i] < ids[j]
    decreases hi - lo
  {
    if lo >= hi then []
    else if lo in m then [lo] + IdsFrom(m, lo + 1, hi)
    else IdsFrom(m, lo + 1, hi)
  }

  /** The rows for `ids`, projected on `cols`. */
  function SelectRows(t: string, rows: map<int, Record>, ids: seq<int>, cols: seq<string>): (out: seq<Object>)
    requires forall i :: 0 <= i < |ids| ==> ids[i] in rows
    ensures |out| == |ids|
    ensures forall i :: 0 <= i < |ids| ==> out[i] == Project(t, ids[i], rows[ids[i]], cols)
  {
    seq(|ids|, i requires 0 <= i < |ids| => Project(t, ids[i], rows[ids[i]], cols))
  }

  /** `o` is the projection of some stored row. */
  ghost predicate ProjectionOfSome(t: string, rows: map<int, Record>, o: Object, cols: seq<string>) {
    exists id :: id in rows && o == Project(t, id, rows[id], cols)
  }

  /** Selecting every id of a table yields each row's projection, and nothing else. */
  lemma SelectRowsCover(t: string, rows: map<int, Record>, ids: seq<int>, cols: seq<string>, out: seq<Object>)
    requires forall i :: 0 <= i < |ids| ==> ids[i] in rows
    requires forall id :: id in ids <==> id in rows
    requires out == SelectRows(t, rows, ids, cols)
    ensures forall id :: id in rows ==> Project(t, id, rows[id], cols) in out
    ensures forall i :: 0 <= i < |out| ==> ProjectionOfSome(t, rows, out[i], cols)
  {
    forall id | id in rows
      ensures Project(t, id, rows[id], cols) in out
    {
      var i :| 0 <= i < |ids| && ids[i] == id;
      assert out[i] == Project(t, id, rows[id], cols);
    }
    forall i | 0 <= i < |out|
      ensures ProjectionOfSome(t, rows, out[i], cols)
    {
      assert ids[i] in rows && out[i] == Project(t, ids[i], rows[ids[i]], cols);
    }
  }

  /** A strictly increasing sequence lists each element of its set exactly once. */
  lemma {:induction false} IncreasingCard(ids: seq<int>, s: set<int>)
    requires forall i, j :: 0 <= i < j < |ids| ==> ids[i] < ids[j]
    requires forall x :: x in ids <==> x in s
    ensures |s| == |ids|
  {
    if ids != [] {
      var rest := ids[1..];
      assert forall x :: x in rest <==> x in s - {ids[0]} by {
        forall x | x in rest
          ensures x != ids[0]
        {
          var k :| 0 <= k < |rest| && rest[k] == x;
          assert ids[k + 1] == x;
        }
        assert forall x :: x in rest ==> x in ids;
        assert forall x :: x in ids && x != ids[0] ==> x in rest;
      }
      IncreasingCard(rest, s - {ids[0]});
      assert ids[0] in ids;
    } else {
      assert forall x :: x in s ==> x in ids;
      assert s == {};
    }
  }

  /** The counters after an INSERT into `t`: its next id moves on by one. */
  function Advanced(nextId: map<string, int>, t: string): map<string, int>
    requires t in nextId
  {
    nextId[t := nextId[t] + 1]
  }

  /** Every table has a next id, and every stored id lies below it. */
  ghost predicate Sound(tables: map<string, map<int, Record>>, nextId: map<string, int>) {
    forall t :: t in tables ==>
      t in nextId && 1 <= nextId[t] && forall id :: id in tables[t] ==> 1 <= id < nextId[t]
  }

  /** Overwriting a stored row keeps the ids sound. */
  lemma RowWriteKeepsSound(tables: map<string, map<int, Record>>, nextId: map<string, int>, t: string, id: int, r: Record)
    requires Sound(tables, nextId) && t in tables && id in tables[t]
    ensures Sound(tables[t := tables[t][id := r]], nextId)
  {
  }

  /** Storing a row under the table's next id, and advancing it, keeps the ids sound. */
  lemma AppendKeepsSound(tables: map<string, map<int, Record>>, nextId: map<string, int>, t: string, r: Record)
    requires Sound(tables, nextId) && t in tables
    ensures t in nextId && Sound(tables[t := tables[t][nextId[t] := r]], nextId[t := nextId[t] + 1])
  {
  }

  lemma NonEmptyHasMember(s: set<int>)
    requires s != {}
    ensures exists k :: k in s
  {
    if forall k :: k !in s {
      assert false;
    }
  }

  /** The greatest of `ids`: what `ORDER BY ID DESC` puts first. */
  method GreatestId(ids: set<int>) returns (g: Option<int>)
    ensures g.None? <==> ids == {}
    ensures g.Some? ==> g.value in ids && forall k :: k in ids ==> k <= g.value
  {
    g := None;
    var rest := ids;
    while rest != {}
      invariant rest <= ids
      invariant g.None? ==> rest == ids
      invariant g.Some? ==> g.value in ids && forall k :: k in ids && k !in rest ==> k <= g.value
      decreases rest
    {
      NonEmptyHasMember(rest);
      var k :| k in rest;
      if g.None? || g.value < k {
        g := Some(k);
      }
      rest := rest - {k};
    }
  }

  class Database {
    /** Per table: row id to the row's other columns. */
    var tables: map<string, map<int, Record>>
    /** Per table: the id the next INSERT receives (`AUTOINCREMENT`). */
    var nextId: map<string, int>
    /** Whether the `sp_<tabla>_<op>` procedures are installed. */
    var proceduresExist: bool
    /** What `datetime('now')` reads: an input, never advanced by the model. */
    var clock: string

    ghost predicate Valid()
      reads this
    {
      Sound(tables, nextId)
    }

    constructor (names: set<string>, procedures: bool, now: string)
      ensures Valid()
      ensures tables == map t | t in names :: map[]
      ensures proceduresExist == procedures && clock == now
    {
      tables := map t | t in names :: map[];
      nextId := map t | t in names :: 1;
      proceduresExist := procedures;
      clock := now;
    }

    /** The row ids of `t` in scan order. */
    function ScanIds(t: string): (ids: seq<int>)
      reads this
      requires Valid() && t in tables
      ensures forall id :: id in ids <==> id in tables[t]
      ensures forall i :: 0 <= i < |ids| ==> ids[i] in tables[t]
      ensures forall i, j :: 0 <= i < j < |ids| ==> ids[i] < ids[j]
    {
      IdsFrom(tables[t], 1, nextId[t])
    }

    /** `SELECT <cols> FROM t`: one row per stored row. */
    function SelectAll(t: string, cols: seq<string>): (rows: seq<Object>)
      reads this
      requires Valid() && t in tables
      ensures |rows| == |tables[t]|
      ensures forall id :: id in tables[t] ==> Project(t, id, tables[t][id], cols) in rows
      ensures forall i :: 0 <= i < |rows| ==> ProjectionOfSome(t, tables[t], rows[i], cols)
    {
      var ids := ScanIds(t);
      var rows := SelectRows(t, tables[t], ids, cols);
      SelectRowsCover(t, tables[t], ids, cols, rows);
      IncreasingCard(ids, tables[t].Keys);
      rows
    }

    /** `SELECT <cols> FROM t WHERE ID = id` */
    function SelectById(t: string, id: int, cols: seq<string>): (rows: seq<Object>)
      reads this
      requires t in tables
      ensures rows == [] <==> id !in tables[t]
      ensures rows != [] ==> rows == [Project(t, id, tables[t][id], cols)]
    {
      if id in tables[t] then [Project(t, id, tables[t][id], cols)] else []
    }

    /** `INSERT INTO t (...) VALUES (...)`; its result is `lastID`. */
    method Insert(t: string, given: Record) returns (r: Result<int>)
      requires Valid()
      modifies this
      ensures Valid() && proceduresExist == old(proceduresExist) && clock == old(clock)
      ensures t !in old(tables) ==> r == Err(NoSuchTable(t)) && unchanged(this)
      ensures t in old(tables) && InsertCheck(t, old(tables)[t], Completed(t, given)).Some? ==>
        r == Err(InsertCheck(t, old(tables)[t], Completed(t, given)).value) && unchanged(this)
      ensures t in old(tables) && InsertCheck(t, old(tables)[t], Completed(t, given)).None? ==>
        && r == Ok(old(nextId)[t])
        && old(nextId)[t] !in old(tables)[t]
        && tables == old(tables)[t := old(tables)[t][old(nextId)[t] := Completed(t, given)]]
        && nextId == Advanced(old(nextId), t)
    {
      if t !in tables {
        return Err(NoSuchTable(t));
      }
      var rec := Completed(t, given);
      var check := InsertCheck(t, tables[t], rec);
      if check.Some? {
        return Err(check.value);
      }
      var id := nextId[t];
      AppendKeepsSound(tables, nextId, t, rec);
      tables := tables[t := tables[t][id := rec]];
      nextId := nextId[t := id + 1];
      r := Ok(id);
    }

    /** `UPDATE t SET <changes> WHERE ID = id`, with the audit trigger on patients. */
    method Update(t: string, id: int, changes: Record) returns (err: Option<DbError>)
      requires Valid()
      modifies this
      ensures Valid() && proceduresExist == old(proceduresExist) && clock == old(clock)
      ensures t !in old(tables) ==> err == Some(NoSuchTable(t)) && unchanged(this)
      ensures t in old(tables) && id !in old(tables)[t] ==> err == None && unchanged(this)
      ensures t in old(tables) && id in old(tables)[t] ==>
        var before := old(tables)[t][id];
        var after := before + changes;
        if ViolatesNotNull(t, after) then
          err == Some(NotNullFailed(t, "nombre")) && unchanged(this)
        else if t == "Pacientes" && AuditFires(before, after) then
          if "AuditoriaEliminar" !in old(tables) then
            err == Some(NoSuchTable("AuditoriaEliminar")) && unchanged(this)
          else
            var n := old(nextId)["AuditoriaEliminar"];
            && err == None
            && n !in old(tables)["AuditoriaEliminar"]
            && tables == old(tables)[t := old(tables)[t][id := after]]
                         ["AuditoriaEliminar" := old(tables)["AuditoriaEliminar"][n := AuditRecord(id, before, clock)]]
            && nextId == old(nextId)["AuditoriaEliminar" := n + 1]
        else
          err == None && tables == old(tables)[t := old(tables)[t][id := after]] && nextId == old(nextId)
    {
      if t !in tables || id !in tables[t] {
        return if t !in tables then Some(NoSuchTable(t)) else None;
      }
      var before := tables[t][id];
      var after := before + changes;
      if ViolatesNotNull(t, after) {
        return Some(NotNullFailed(t, "nombre"));
      }
      if t == "Pacientes" && AuditFires(before, after) {
        if "AuditoriaEliminar" !in tables {
          return Some(NoSuchTable("AuditoriaEliminar"));
        }
        WriteAudited(t, id, before, after);
        return None;
      }
      WriteRow(t, id, after);
      err := None;
    }

    /** Overwrites stored row `id` of table `t`. */
    method WriteRow(t: string, id: int, after: Record)
      requires Valid() && t in tables && id in tables[t]
      modifies this
      ensures Valid() && proceduresExist == old(proceduresExist) && clock == old(clock)
      ensures tables == old(tables)[t := old(tables)[t][id := after]] && nextId == old(nextId)
    {
      RowWriteKeepsSound(tables, nextId, t, id, after);
      tables := tables[t := tables[t][id := after]];
    }

    /** Overwrites stored row `id` of `t` and appends the audit row of `before` under a fresh id. */
    method WriteAudited(t: string, id: int, before: Record, after: Record)
      requires Valid() && t in tables && id in tables[t] && "AuditoriaEliminar" in tables
      requires t != "AuditoriaEliminar"
      modifies this
      ensures Valid() && proceduresExist == old(proceduresExist) && clock == old(clock)
      ensures
        var n := old(nextId)["AuditoriaEliminar"];
        && n !in old(tables)["AuditoriaEliminar"]
        && tables == old(tables)[t := old(tables)[t][id := after]]
                     ["AuditoriaEliminar" := old(tables)["AuditoriaEliminar"][n := AuditRecord(id, before, clock)]]
        && nextId == old(nextId)["AuditoriaEliminar" := n + 1]
    {
      var audit := "AuditoriaEliminar";
      var n := nextId[audit];
      var row := AuditRecord(id, before, clock);
      var written := tables[t := tables[t][id := after]];
      RowWriteKeepsSound(tables, nextId, t, id, after);
      AppendKeepsSound(written, nextId, audit, row);
      assert written[audit] == tables[audit];
      tables := written[audit := tables[audit][n := row]];
      nextId := nextId[audit := n + 1];
    }

    /** `DELETE FROM t WHERE ID = id`: no error when no row has that id. */
    method Delete(t: string, id: int) returns (err: Option<DbError>)
      requires Valid()
      modifies this
      ensures Valid() && proceduresExist == old(proceduresExist) && clock == old(clock)
      ensures nextId == old(nextId)
      ensures t !in old(tables) ==> err == Some(NoSuchTable(t)) && unchanged(this)
      ensures t in old(tables) ==> err == None && tables == old(tables)[t := old(tables)[t] - {id}]
    {
      if t !in tables {
        return Some(NoSuchTable(t));
      }
      tables := tables[t := tables[t] - {id}];
      err := None;
    }

    /** `SELECT TOP 1 * FROM t ORDER BY ID DESC` */
    method Latest(t: string) returns (r: Result<seq<Object>>)
      requires Valid()
      ensures t !in tables ==> r == Err(NoSuchTable(t))
      ensures t in tables && tables[t] == map[] ==> r == Ok([])
      ensures t in tables && tables[t] != map[] ==>
        exists id :: id in tables[t] && (forall k :: k in tables[t] ==> k <= id)
                  && r == Ok([StarRow(t, id, tables[t][id])])
    {
      if t !in tables {
        return Err(NoSuchTable(t));
      }
      var g := GreatestId(tables[t].Keys);
      if g.None? {
        return Ok([]);
      }
      r := Ok([StarRow(t, g.value, tables[t][g.value])]);
    }
  }
}
