/**
 * The patients controller: create, list, read, update and the soft delete
 * that only sets `Estado` to 0. A patient is listed while its `Estado` is 1;
 * the row itself is never removed, and the audit trigger records the switch
 * from 1 to 0.
 */
module Pacientes {
  import opened Js
  import opened TriggerRules
  import opened Store
  import Crud

  const Table := "Pacientes"

  /** The four fields the controller reads from the request body, in order. */
  const Fields: seq<string> := ["nombre", "edad", "direccion", "telefono"]

  /** `WHERE Estado = 1` */
  predicate Active(r: Record) {
    SqlEq(Col(r, "Estado"), Num(1))
  }

  /** A body field as the driver binds it: `undefined` becomes NULL. */
  function Bound(body: Object, field: string): Value {
    match Get(body, field)
    case Some(v) => v
    case None => Null
  }

  /** The four bound parameters, as the columns they are written to. */
  function Given(body: Object): (r: Record)
    ensures r.Keys == {"nombre", "edad", "direccion", "telefono"}
    ensures forall f :: f in r ==> r[f] == Bound(body, f)
  {
    map["nombre" := Bound(body, "nombre"), "edad" := Bound(body, "edad"),
        "direccion" := Bound(body, "direccion"), "telefono" := Bound(body, "telefono")]
  }

  /** `{ nombre, edad, direccion, telefono }` in a JSON reply: fields that were `undefined` are left out. */
  function Echo(body: Object): Object {
    Crud.Projection(Fields, body)
  }

  /** `res.status(500).json({ success: false, message, error: error.message })` */
  function Failure(message: string, e: DbError): Response {
    Response(500, false, None, Some(message), Some(ErrorMessage(e)))
  }

  /** `SET Estado = 0` */
  function SoftDeleteChange(): Record {
    map["Estado" := Num(0)]
  }

  // ---------------------------------------------------------------------------
  // Listing

  /** The ids of `ids` whose row is active, in the same order. */
  function ActiveIds(rows: map<int, Record>, ids: seq<int>): (out: seq<int>)
    requires forall i :: 0 <= i < |ids| ==> ids[i] in rows
    ensures forall x :: x in out <==> x in ids && Active(rows[x])
    ensures forall i :: 0 <= i < |out| ==> out[i] in rows
    ensures (forall i, j :: 0 <= i < j < |ids| ==> ids[i] < ids[j]) ==>
              forall i, j :: 0 <= i < j < |out| ==> out[i] < out[j]
  {
    if ids == [] then []
    else
      var rest := ActiveIds(rows, ids[1..]);
      assert forall x :: x in ids[1..] ==> x in ids;
      if Active(rows[ids[0]]) then [ids[0]] + rest else rest
  }

  /** `o` is the full row of some active patient. */
  ghost predicate ActiveRowOf(rows: map<int, Record>, o: Object) {
    exists id :: id in rows && Active(rows[id]) && o == StarRow(Table, id, rows[id])
  }

  /** `GET /api/pacientes`: `SELECT * FROM Pacientes WHERE Estado = 1`. */
  method GetAll(db: Database) returns (resp: Response)
    requires db.Valid()
    ensures Table !in db.tables ==> resp == Failure("Error al obtener pacientes", NoSuchTable(Table))
    ensures Table in db.tables ==>
      && resp.status == 200 && resp.success && resp.data.Some? && resp.data.value.Rows?
      && |resp.data.value.rows| == |set id | id in db.tables[Table] && Active(db.tables[Table][id])|
      && (forall id :: id in db.tables[Table] && Active(db.tables[Table][id]) ==>
            StarRow(Table, id, db.tables[Table][id]) in resp.data.value.rows)
      && (forall i :: 0 <= i < |resp.data.value.rows| ==>
            ActiveRowOf(db.tables[Table], resp.data.value.rows[i]))
  {
    if Table !in db.tables {
      return Failure("Error al obtener pacientes", NoSuchTable(Table));
    }
    var rows := db.tables[Table];
    var ids := db.ScanIds(Table);
    var active := ActiveIds(rows, ids);
    var result := SelectRows(Table, rows, active, StarCols(Table));
    forall id | id in rows && Active(rows[id])
      ensures StarRow(Table, id, rows[id]) in result
    {
      var k :| 0 <= k < |active| && active[k] == id;
      assert result[k] == StarRow(Table, id, rows[id]);
    }
    forall i | 0 <= i < |result|
      ensures ActiveRowOf(rows, result[i])
    {
      assert active[i] in active;
    }
    IncreasingCard(active, set id | id in rows && Active(rows[id]));
    resp := Success(200, Some(Rows(result)));
  }

  /** `GET /api/pacientes/:id`: `WHERE ID = ? AND Estado = 1`; a soft-deleted patient is not found. */
  method GetById(db: Database, id: int) returns (resp: Response)
    requires db.Valid()
    ensures Table !in db.tables ==> resp == Failure("Error al obtener paciente", NoSuchTable(Table))
    ensures Table in db.tables && id in db.tables[Table] && Active(db.tables[Table][id]) ==>
      resp == Success(200, Some(Rows([StarRow(Table, id, db.tables[Table][id])])))
    ensures Table in db.tables && !(id in db.tables[Table] && Active(db.tables[Table][id])) ==>
      resp == MessageReply(404, "Paciente no encontrado")
  {
    if Table !in db.tables {
      return Failure("Error al obtener paciente", NoSuchTable(Table));
    }
    var result: seq<Object> := [];
    if id in db.tables[Table] && Active(db.tables[Table][id]) {
      result := [StarRow(Table, id, db.tables[Table][id])];
    }
    if |result| == 0 {
      return MessageReply(404, "Paciente no encontrado");
    }
    resp := Success(200, Some(Rows(result)));
  }

  // ---------------------------------------------------------------------------
  // Writes

  /**
   * `POST /api/pacientes`: inserts the four fields (an omitted one as NULL);
   * the reply echoes the new `ID` and the fields that were sent.
   */
  method Create(db: Database, body: Object) returns (resp: Response)
    requires db.Valid()
    modifies db
    ensures db.Valid() && db.proceduresExist == old(db.proceduresExist) && db.clock == old(db.clock)
    ensures Table !in old(db.tables) ==>
      resp == Failure("Error al crear paciente", NoSuchTable(Table)) && unchanged(db)
    ensures Table in old(db.tables) && Bound(body, "nombre") == Null ==>
      resp == Failure("Error al crear paciente", NotNullFailed(Table, "nombre")) && unchanged(db)
    ensures Table in old(db.tables) && Bound(body, "nombre") != Null ==>
      var id := old(db.nextId)[Table];
      && id !in old(db.tables)[Table]
      && db.tables == old(db.tables)[Table := old(db.tables)[Table][id := Completed(Table, Given(body))]]
      && db.nextId == Advanced(old(db.nextId), Table)
      && resp == Response(201, true, Some(Row([("ID", Num(id))] + Echo(body))),
                          Some("Paciente creado exitosamente"), None)
  {
    if Table in db.tables {
      CreateCheck(db.tables[Table], body);
    }
    var r := db.Insert(Table, Given(body));
    if r.Err? {
      return Failure("Error al crear paciente", r.error);
    }
    resp := Response(201, true, Some(Row([("ID", Num(r.value))] + Echo(body))),
                     Some("Paciente creado exitosamente"), None);
  }

  /**
   * `PUT /api/pacientes/:id`: overwrites all four fields (an omitted one with
   * NULL), whatever the patient's `Estado`; answers 200 even when no row has
   * that id, echoing the id as the path gave it.
   */
  method Update(db: Database, id: int, body: Object) returns (resp: Response)
    requires db.Valid()
    modifies db
    ensures db.Valid() && db.proceduresExist == old(db.proceduresExist) && db.clock == old(db.clock)
    ensures db.nextId == old(db.nextId)
    ensures Table !in old(db.tables) ==>
      resp == Failure("Error al actualizar paciente", NoSuchTable(Table)) && unchanged(db)
    ensures Table in old(db.tables) && id in old(db.tables)[Table] && Bound(body, "nombre") == Null ==>
      resp == Failure("Error al actualizar paciente", NotNullFailed(Table, "nombre")) && unchanged(db)
    ensures Table in old(db.tables) && !(id in old(db.tables)[Table] && Bound(body, "nombre") == Null) ==>
      && resp == Response(200, true, Some(Row([("ID", Str(IntToString(id)))] + Echo(body))),
                          Some("Paciente actualizado exitosamente"), None)
      && (id !in old(db.tables)[Table] ==> unchanged(db))
      && (id in old(db.tables)[Table] ==>
            db.tables == old(db.tables)[Table := old(db.tables)[Table][id := old(db.tables)[Table][id] + Given(body)]])
  {
    var changes := Given(body);
    if Table in db.tables && id in db.tables[Table] {
      UpdateKeepsStatus(db.tables[Table][id], body);
    }
    var err := db.Update(Table, id, changes);
    if err.Some? {
      return Failure("Error al actualizar paciente", err.value);
    }
    resp := Response(200, true, Some(Row([("ID", Str(IntToString(id)))] + Echo(body))),
                     Some("Paciente actualizado exitosamente"), None);
  }

  /**
   * `DELETE /api/pacientes/:id`: `UPDATE Pacientes SET Estado = 0`, which
   * fires the audit trigger when the patient was active. Answers 200 even
   * when no row has that id.
   */
  method Delete(db: Database, id: int) returns (resp: Response)
    requires db.Valid()
    modifies db
    ensures db.Valid() && db.proceduresExist == old(db.proceduresExist) && db.clock == old(db.clock)
    ensures Table !in old(db.tables) ==>
      resp == Failure("Error al eliminar paciente", NoSuchTable(Table)) && unchanged(db)
    ensures Table in old(db.tables) && id !in old(db.tables)[Table] ==>
      resp == Deleted() && unchanged(db)
    ensures Table in old(db.tables) && id in old(db.tables)[Table] ==>
      var before := old(db.tables)[Table][id];
      var after := before + SoftDeleteChange();
      if ViolatesNotNull(Table, after) then
        resp == Failure("Error al eliminar paciente", NotNullFailed(Table, "nombre")) && unchanged(db)
      else if AuditFires(before, after) && "AuditoriaEliminar" !in old(db.tables) then
        resp == Failure("Error al eliminar paciente", NoSuchTable("AuditoriaEliminar")) && unchanged(db)
      else
        && resp == Deleted() && Table in db.tables
        && db.tables[Table] == old(db.tables)[Table][id := after]
        && (AuditFires(before, after) ==>
              var n := old(db.nextId)["AuditoriaEliminar"];
              && db.tables == old(db.tables)[Table := db.tables[Table]]
                   ["AuditoriaEliminar" := old(db.tables)["AuditoriaEliminar"][n := AuditRecord(id, before, db.clock)]]
              && db.nextId == old(db.nextId)["AuditoriaEliminar" := n + 1])
        && (!AuditFires(before, after) ==>
              db.tables == old(db.tables)[Table := db.tables[Table]] && db.nextId == old(db.nextId))
  {
    var err := db.Update(Table, id, SoftDeleteChange());
    if err.Some? {
      return Failure("Error al eliminar paciente", err.value);
    }
    resp := Deleted();
  }

  /** `{ success: true, message: 'Paciente eliminado exitosamente' }` */
  function Deleted(): Response {
    Response(200, true, None, Some("Paciente eliminado exitosamente"), None)
  }

  // ---------------------------------------------------------------------------
  // Properties of the soft delete

  /** A new patient starts active: `Estado` takes its default 1. */
  lemma CreatedPatientIsActive(body: Object)
    ensures Active(Completed(Table, Given(body)))
    ensures forall f :: f in Fields ==> Completed(Table, Given(body))[f] == Bound(body, f)
  {
    var given := Given(body);
    assert Schema(Table)[4] == "Estado" && "Estado" !in given;
    assert Completed(Table, given)["Estado"] == Default(Table, "Estado") == Num(1);
  }

  /**
   * After a soft delete the patient is no longer active, so neither listing
   * nor reading by id returns it; every other patient keeps its status.
   */
  lemma SoftDeleteHides(rows: map<int, Record>, id: int, ids: seq<int>)
    requires id in rows
    requires forall i :: 0 <= i < |ids| ==> ids[i] in rows
    ensures !Active(rows[id] + SoftDeleteChange())
    ensures var after := rows[id := rows[id] + SoftDeleteChange()];
      forall x :: x in ActiveIds(after, ids) <==> x in ActiveIds(rows, ids) && x != id
  {
    var after := rows[id := rows[id] + SoftDeleteChange()];
    assert Col(rows[id] + SoftDeleteChange(), "Estado") == Num(0);
    assert forall i :: 0 <= i < |ids| ==> ids[i] in after;
  }

  /**
   * Deleting twice leaves the row as deleting once, and the second time the
   * audit does not fire: a patient is audited at most once per deactivation.
   */
  lemma SoftDeleteIdempotent(before: Record)
    ensures (before + SoftDeleteChange()) + SoftDeleteChange() == before + SoftDeleteChange()
    ensures !AuditFires(before + SoftDeleteChange(), (before + SoftDeleteChange()) + SoftDeleteChange())
    ensures AuditFires(before, before + SoftDeleteChange()) <==> Active(before)
  {
    var once := before + SoftDeleteChange();
    assert once + SoftDeleteChange() == once;
    AuditOnlyOnTransition(once, once + SoftDeleteChange());
  }

  /**
   * `update` writes NULL into every field the body leaves out and never
   * touches `Estado`: updating a soft-deleted patient keeps it hidden.
   */
  lemma UpdateOverwritesAllFields(before: Record, body: Object)
    ensures forall f :: f in Fields ==> Col(before + Given(body), f) == Bound(body, f)
    ensures Col(before + Given(body), "Estado") == Col(before, "Estado")
    ensures Active(before + Given(body)) <==> Active(before)
  {
  }

  /**
   * An update never fires the audit trigger, and it is refused exactly when
   * the body leaves `nombre` NULL.
   */
  lemma UpdateKeepsStatus(before: Record, body: Object)
    ensures !AuditFires(before, before + Given(body))
    ensures ViolatesNotNull(Table, before + Given(body)) <==> Bound(body, "nombre") == Null
  {
    var changes := Given(body);
    assert Col(before + changes, "Estado") == Col(before, "Estado") by {
      assert "Estado" !in changes;
    }
    AuditOnlyOnTransition(before, before + changes);
    assert (before + changes)["nombre"] == changes["nombre"];
  }

  /** A new patient is refused exactly when the body leaves `nombre` NULL. */
  lemma CreateCheck(rows: map<int, Record>, body: Object)
    ensures Bound(body, "nombre") == Null ==>
      InsertCheck(Table, rows, Completed(Table, Given(body))) == Some(NotNullFailed(Table, "nombre"))
    ensures Bound(body, "nombre") != Null ==> InsertCheck(Table, rows, Completed(Table, Given(body))).None?
  {
    assert Completed(Table, Given(body))["nombre"] == Given(body)["nombre"];
  }
}
