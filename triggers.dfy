/**
 * The conditions of the two SQLite triggers the backend installs: the audit of
 * a patient whose `Estado` goes from 1 to 0, and the refusal of an appointment
 * that puts a doctor in two places at the same `fecha` and `hora`. The store
 * (module Store) runs them on its own writes.
 */
module TriggerRules {
  import opened Js

  /** A stored row: its columns other than `ID`. */
  type Record = map<string, Value>

  /** Reading a column; a column the row does not have reads as NULL. */
  function Col(r: Record, c: string): Value {
    if c in r then r[c] else Null
  }

  /** SQL `a = b` in a WHERE or WHEN clause: never true when either side is NULL. */
  predicate SqlEq(a: Value, b: Value) {
    a != Null && b != Null && a == b
  }

  /** Both appointments name the same doctor, `fecha` and `hora`, as SQL compares them. */
  predicate SameSlot(a: Record, b: Record) {
    && SqlEq(Col(a, "doctor_id"), Col(b, "doctor_id"))
    && SqlEq(Col(a, "fecha"), Col(b, "fecha"))
    && SqlEq(Col(a, "hora"), Col(b, "hora"))
  }

  /** `SELECT COUNT(*) FROM Citas WHERE doctor_id = NEW.doctor_id AND fecha = NEW.fecha AND hora = NEW.hora` */
  function SlotCount(citas: map<int, Record>, nuevo: Record): nat {
    |set id | id in citas && SameSlot(citas[id], nuevo)|
  }

  /** `trigger_validacion_citas` raises when that count is greater than 0. */
  predicate ValidacionCitasRejects(citas: map<int, Record>, nuevo: Record) {
    SlotCount(citas, nuevo) > 0
  }

  const CitaConflictMessage := "El doctor ya tiene una cita a esa hora"

  /** The count is positive exactly when some stored appointment holds the same slot. */
  lemma RejectsIffSlotTaken(citas: map<int, Record>, nuevo: Record)
    ensures ValidacionCitasRejects(citas, nuevo) <==> exists id :: id in citas && SameSlot(citas[id], nuevo)
  {
    var taken := set id | id in citas && SameSlot(citas[id], nuevo);
    if exists id :: id in citas && SameSlot(citas[id], nuevo) {
      var id :| id in citas && SameSlot(citas[id], nuevo);
      assert id in taken;
    } else {
      assert taken == {};
    }
  }

  /** An appointment without `hora` (or `fecha`, or doctor) is never refused: NULL matches nothing. */
  lemma NullSlotNeverRejected(citas: map<int, Record>, nuevo: Record)
    requires Col(nuevo, "hora") == Null || Col(nuevo, "fecha") == Null || Col(nuevo, "doctor_id") == Null
    ensures !ValidacionCitasRejects(citas, nuevo)
  {
    RejectsIffSlotTaken(citas, nuevo);
  }

  /** `WHEN OLD.Estado = 1 AND NEW.Estado = 0` of `trigger_auditoria_pacientes`. */
  predicate AuditFires(before: Record, after: Record) {
    SqlEq(Col(before, "Estado"), Num(1)) && SqlEq(Col(after, "Estado"), Num(0))
  }

  /** Text of a non-NULL value in a SQLite `||` concatenation. */
  function SqlText(v: Value): string {
    match v
    case Null => ""
    case Num(n) => IntToString(n)
    case Str(s) => s
  }

  /** `'Nombre: ' || OLD.nombre || ', Edad: ' || OLD.edad`: NULL if either operand is NULL. */
  function AuditText(before: Record): Value {
    if Col(before, "nombre") == Null || Col(before, "edad") == Null then Null
    else Str("Nombre: " + SqlText(Col(before, "nombre")) + ", Edad: " + SqlText(Col(before, "edad")))
  }

  /** The `AuditoriaEliminar` row the audit trigger inserts for patient `id`. */
  function AuditRecord(id: int, before: Record, now: string): (r: Record)
    ensures r.Keys == {"tabla", "registro_id", "datos_antiguos", "fecha"}
    ensures Col(r, "tabla") == Str("Pacientes") && Col(r, "registro_id") == Num(id)
    ensures Col(r, "fecha") == Str(now)
    ensures Col(r, "datos_antiguos") == Null <==> Col(before, "nombre") == Null || Col(before, "edad") == Null
  {
    map["tabla" := Str("Pacientes"), "registro_id" := Num(id),
        "datos_antiguos" := AuditText(before), "fecha" := Str(now)]
  }

  /** The stored text for a patient named Ana aged 30. */
  lemma AuditTextExample(before: Record)
    requires Col(before, "nombre") == Str("Ana") && Col(before, "edad") == Num(30)
    ensures AuditText(before) == Str("Nombre: Ana, Edad: 30")
  {
    assert NatToString(30) == "30";
  }

  /** The audit fires only on a real 1 -> 0 transition: never on a row already at 0, never when 0 is not written. */
  lemma AuditOnlyOnTransition(before: Record, after: Record)
    ensures AuditFires(before, after) ==> Col(before, "Estado") == Num(1) && Col(after, "Estado") == Num(0)
    ensures Col(before, "Estado") == Num(0) ==> !AuditFires(before, after)
    ensures Col(after, "Estado") == Col(before, "Estado") ==> !AuditFires(before, after)
  {
  }
}
