/**
 * The table browser routes: `GET /api/tablas` lists the registry of browsable
 * tables, and `GET /api/tablas/:tabla` answers a registered table's rows
 * together with its registry entry.
 */
module Tablas {
  import opened Js
  import opened Store
  import Crud

  datatype TablaInfo = TablaInfo(nombre: string, columnas: seq<string>, descripcion: string)

  /** `tablasConfig`: its keys in declaration order, each with its entry. */
  const Registry: seq<(string, TablaInfo)> := [
    ("Pacientes", TablaInfo("Pacientes", ["ID", "nombre", "edad", "direccion", "telefono"],
                            "Información de pacientes del hospital")),
    ("Doctores", TablaInfo("Doctores", ["ID", "nombre", "especialidad", "telefono"],
                           "Información de doctores y especialidades")),
    ("Citas", TablaInfo("Citas", ["ID", "paciente_id", "doctor_id", "fecha"],
                        "Registro de citas médicas")),
    ("Diagnosticos", TablaInfo("Diagnosticos", ["ID", "id_cita", "diagnostico", "tratamiento"],
                               "Diagnósticos y tratamientos médicos")),
    ("Seguros", TablaInfo("Seguros", ["ID", "compañia", "id_pac"],
                          "Seguros médicos de pacientes")),
    ("AuditoriaEliminar", TablaInfo("AuditoriaEliminar", ["ID", "tabla", "registroID", "usuario", "fechaEliminacion"],
                                    "Registros de auditoría de eliminaciones"))
  ]

  /** The entry stored under `key` among `entries`, if any. */
  function Find(entries: seq<(string, TablaInfo)>, key: string): (r: Option<TablaInfo>)
    ensures r.Some? <==> exists i :: 0 <= i < |entries| && entries[i].0 == key
    ensures r.Some? ==> exists i :: 0 <= i < |entries| && entries[i] == (key, r.value)
  {
    if entries == [] then None
    else if entries[0].0 == key then Some(entries[0].1)
    else
      var r := Find(entries[1..], key);
      assert forall i :: 0 < i < |entries| ==> entries[1..][i - 1] == entries[i];
      r
  }

  /** `tablasConfig[tabla]` for the registry's own keys. */
  function Lookup(tabla: string): Option<TablaInfo> {
    Find(Registry, tabla)
  }

  /** `GET /`: `{ nombre, descripcion, columnas }` of every entry, in key order. */
  function ListTablas(): (tablas: seq<TablaInfo>)
    ensures |tablas| == |Registry|
    ensures forall i :: 0 <= i < |Registry| ==> tablas[i] == Registry[i].1
  {
    seq(|Registry|, i requires 0 <= i < |Registry| => Registry[i].1)
  }

  /** The keys `GET /` lists: six tables, in declaration order. */
  lemma ListedNames()
    ensures |ListTablas()| == 6
    ensures forall i :: 0 <= i < 6 ==> ListTablas()[i].nombre == Registry[i].0
    ensures Registry[0].0 == "Pacientes" && Registry[5].0 == "AuditoriaEliminar"
  {
  }

  /** Every key names its own entry, every entry starts with the `ID` column, and no key repeats. */
  lemma RegistryWellFormed()
    ensures forall i :: 0 <= i < |Registry| ==> Registry[i].1.nombre == Registry[i].0
    ensures forall i :: 0 <= i < |Registry| ==> |Registry[i].1.columnas| >= 1 && Registry[i].1.columnas[0] == "ID"
    ensures forall i, j :: 0 <= i < j < |Registry| ==> Registry[i].0 != Registry[j].0
  {
  }

  /** A key finds exactly the entry listed under it. */
  lemma LookupFindsListedEntry(i: nat)
    requires i < |Registry|
    ensures Lookup(Registry[i].0) == Some(Registry[i].1)
  {
    RegistryWellFormed();
    var r := Lookup(Registry[i].0);
    var k :| 0 <= k < |Registry| && Registry[k] == (Registry[i].0, r.value);
    assert k == i;
  }

  /**
   * The CRUD registry and this one agree on the tables both know: the CRUD
   * tables are registered here, with the primary key and the CRUD columns.
   */
  lemma CrudTablesRegistered(tabla: string)
    requires Crud.Config(tabla).Some?
    ensures Lookup(tabla).Some?
    ensures Lookup(tabla).value.columnas == [Crud.Config(tabla).value.pk] + Crud.Config(tabla).value.campos
  {
    if tabla == "Pacientes" {
      LookupFindsListedEntry(0);
    } else if tabla == "Doctores" {
      LookupFindsListedEntry(1);
    } else {
      LookupFindsListedEntry(2);
    }
  }

  // ---------------------------------------------------------------------------
  // GET /:tabla

  datatype TablaReply =
    | NotAllowed                      // 400 { success: false, message: 'Tabla no permitida' }
    | Failed(error: string)           // 500 { success: false, error }
    | Data(tabla: string, descripcion: string, columnas: seq<string>, data: seq<Object>)

  function Status(r: TablaReply): int {
    match r
    case NotAllowed => 400
    case Failed(_) => 500
    case Data(_, _, _, _) => 200
  }

  /** The guard as written: `!tablasConfig[tabla]` also finds names every object inherits. */
  predicate AllowedAsWritten(tabla: string) {
    Lookup(tabla).Some? || tabla in Crud.PrototypeNames
  }

  /** The SQL the route sends as written: `SELECT * FROM ${tabla}` once the guard lets `tabla` through. */
  function IssuedAsWritten(tabla: string): (sql: seq<string>)
    ensures |sql| <= 1
    ensures sql != [] <==> (exists i :: 0 <= i < |Registry| && Registry[i].0 == tabla) || tabla in Crud.PrototypeNames
  {
    if AllowedAsWritten(tabla) then ["SELECT * FROM " + tabla] else []
  }

  /** The SQL the route sends when the guard accepts only the registry's own keys. */
  function Issued(tabla: string): (sql: seq<string>)
    ensures |sql| <= 1
    ensures sql != [] <==> exists i :: 0 <= i < |Registry| && Registry[i].0 == tabla
  {
    if Lookup(tabla).Some? then ["SELECT * FROM " + tabla] else []
  }

  /**
   * As written, "constructor" passes the guard although it is no registry
   * key, and its name reaches the SQL text; with the own-key guard it is
   * refused before any SQL is sent.
   */
  lemma InheritedNameReachesSql()
    ensures Lookup("constructor").None?
    ensures IssuedAsWritten("constructor") == ["SELECT * FROM constructor"]
    ensures Issued("constructor") == []
  {
    RegistryWellFormed();
    assert AllowedAsWritten("constructor") by {
      assert "constructor" in Crud.PrototypeNames;
    }
    assert "SELECT * FROM " + "constructor" == "SELECT * FROM constructor";
  }

  /** With the own-key guard, only a registry key ever appears in the SQL text. */
  lemma OnlyRegistryKeysReachSql(tabla: string)
    ensures Issued(tabla) != [] ==> exists i :: 0 <= i < |Registry| && Registry[i].0 == tabla
  {
  }

  /** The entry found under a key carries that key as its `nombre`. */
  lemma LookupNamesItself(tabla: string)
    requires Lookup(tabla).Some?
    ensures Lookup(tabla).value.nombre == tabla
  {
    RegistryWellFormed();
  }

  /** `GET /:tabla` with the own-key guard: the registry entry and every row of `SELECT *`. */
  function GetTabla(db: Database, tabla: string): (r: TablaReply)
    reads db
    requires db.Valid()
    ensures r == NotAllowed <==> Lookup(tabla).None?
    ensures Lookup(tabla).Some? && tabla !in db.tables ==> r == Failed("no such table: " + tabla)
    ensures Lookup(tabla).Some? && tabla in db.tables ==>
      && r.Data?
      && r.tabla == tabla
      && r.descripcion == Lookup(tabla).value.descripcion
      && r.columnas == Lookup(tabla).value.columnas
      && r.data == db.SelectAll(tabla, StarCols(tabla))
  {
    match Lookup(tabla)
    case None => NotAllowed
    case Some(config) =>
      LookupNamesItself(tabla);
      if tabla !in db.tables then Failed(ErrorMessage(NoSuchTable(tabla)))
      else Data(config.nombre, config.descripcion, config.columnas, db.SelectAll(tabla, StarCols(tabla)))
  }
}
