/**
 * `crearCitaConValidacion`: book an appointment after checking, in the
 * application, that the doctor's slot is free and that the patient is active.
 * It never throws: every failure comes back as `{ success: false, error }`.
 */
module Booking {
  import opened Js
  import opened TriggerRules
  import opened Store
  import Crud
  import Pacientes

  datatype Outcome =
    | Booked(citaId: int, message: string)   // { success: true, cita_id, message }
    | Refused(error: string)                 // { success: false, error }

  const PacienteInvalido := "Paciente inválido"
  const CitaCreada := "Cita creada exitosamente"

  /** The appointment row the INSERT writes. */
  function NewCita(pacienteId: Value, doctorId: Value, fecha: Value, hora: Value): (r: Record)
    ensures Col(r, "paciente_id") == pacienteId && Col(r, "doctor_id") == doctorId
    ensures Col(r, "fecha") == fecha && Col(r, "hora") == hora
  {
    map["paciente_id" := pacienteId, "doctor_id" := doctorId, "fecha" := fecha, "hora" := hora]
  }

  /** `SELECT ID FROM Citas WHERE doctor_id = ? AND fecha = ? AND hora = ?` finds a row. */
  predicate SlotTaken(citas: map<int, Record>, nuevo: Record) {
    exists id :: id in citas && SameSlot(citas[id], nuevo)
  }

  /** `SELECT ID FROM Pacientes WHERE ID = ? AND Estado = 1` finds a row. */
  predicate ActivePatient(pacientes: map<int, Record>, pacienteId: Value) {
    pacienteId.Num? && pacienteId.n in pacientes && Pacientes.Active(pacientes[pacienteId.n])
  }

  /** The procedure's checks in order: the slot, then the patient, then the INSERT. */
  method CrearCitaConValidacion(db: Database, pacienteId: Value, doctorId: Value, fecha: Value, hora: Value)
    returns (out: Outcome)
    requires db.Valid()
    modifies db
    ensures db.Valid() && db.proceduresExist == old(db.proceduresExist) && db.clock == old(db.clock)
    ensures !out.Booked? ==> unchanged(db)
    ensures "Citas" !in old(db.tables) ==> out == Refused("no such table: Citas")
    ensures "Citas" in old(db.tables) && SlotTaken(old(db.tables)["Citas"], NewCita(pacienteId, doctorId, fecha, hora)) ==>
      out == Refused(CitaConflictMessage)
    ensures "Citas" in old(db.tables) && !SlotTaken(old(db.tables)["Citas"], NewCita(pacienteId, doctorId, fecha, hora)) ==>
      && ("Pacientes" !in old(db.tables) ==> out == Refused("no such table: Pacientes"))
      && ("Pacientes" in old(db.tables) && !ActivePatient(old(db.tables)["Pacientes"], pacienteId) ==>
            out == Refused(PacienteInvalido))
      && ("Pacientes" in old(db.tables) && ActivePatient(old(db.tables)["Pacientes"], pacienteId) ==>
            var id := old(db.nextId)["Citas"];
            && out == Booked(id, CitaCreada)
            && id !in old(db.tables)["Citas"]
            && db.tables == old(db.tables)["Citas" := old(db.tables)["Citas"][id := NewCita(pacienteId, doctorId, fecha, hora)]]
            && db.nextId == Advanced(old(db.nextId), "Citas"))
  {
    var nuevo := NewCita(pacienteId, doctorId, fecha, hora);
    if "Citas" !in db.tables {
      return Refused(ErrorMessage(NoSuchTable("Citas")));
    }
    var existe := set id | id in db.tables["Citas"] && SameSlot(db.tables["Citas"][id], nuevo);
    if |existe| > 0 {
      NonEmptyHasMember(existe);
      return Refused(CitaConflictMessage);
    }
    assert existe == {};
    assert forall id :: id in db.tables["Citas"] ==> id !in existe;
    assert !SlotTaken(db.tables["Citas"], nuevo);
    if "Pacientes" !in db.tables {
      return Refused(ErrorMessage(NoSuchTable("Pacientes")));
    }
    if !ActivePatient(db.tables["Pacientes"], pacienteId) {
      return Refused(PacienteInvalido);
    }
    RejectsIffSlotTaken(db.tables["Citas"], nuevo);
    assert Completed("Citas", nuevo) == nuevo by {
      assert forall c :: c in Schema("Citas") ==> c in nuevo;
    }
    var r := db.Insert("Citas", nuevo);
    if r.Err? {
      assert false;
    }
    out := Booked(r.value, CitaCreada);
  }

  // ---------------------------------------------------------------------------
  // No double booking

  /** No two stored appointments hold the same doctor, date and hour (as SQL compares them). */
  ghost predicate NoDoubleBooking(citas: map<int, Record>) {
    forall i, j :: i in citas && j in citas && i != j ==> !SameSlot(citas[i], citas[j])
  }

  lemma SameSlotSymmetric(a: Record, b: Record)
    ensures SameSlot(a, b) <==> SameSlot(b, a)
  {
  }

  /**
   * Every INSERT into `Citas` that the validation trigger lets through keeps
   * the appointments free of double bookings: the trigger alone guards the invariant.
   */
  lemma TriggerKeepsNoDoubleBooking(citas: map<int, Record>, id: int, nuevo: Record)
    requires NoDoubleBooking(citas) && id !in citas
    requires InsertCheck("Citas", citas, nuevo).None?
    ensures NoDoubleBooking(citas[id := nuevo])
  {
    RejectsIffSlotTaken(citas, nuevo);
    var after := citas[id := nuevo];
    forall i, j | i in after && j in after && i != j
      ensures !SameSlot(after[i], after[j])
    {
      if i == id {
        SameSlotSymmetric(after[i], after[j]);
      }
    }
  }

  /** The booking procedure keeps the appointments free of double bookings. */
  lemma BookingKeepsNoDoubleBooking(citas: map<int, Record>, id: int, nuevo: Record)
    requires NoDoubleBooking(citas) && id !in citas
    requires !SlotTaken(citas, nuevo)
    ensures NoDoubleBooking(citas[id := nuevo])
  {
    RejectsIffSlotTaken(citas, nuevo);
    TriggerKeepsNoDoubleBooking(citas, id, nuevo);
  }

  /**
   * An appointment created through the generic CRUD carries no `hora` (it is
   * not among the registry's columns), so the validation trigger can never
   * refuse it, whatever the stored appointments.
   */
  lemma CrudCitaNeverRefused(citas: map<int, Record>, body: Object)
    ensures var rec := Completed("Citas", Crud.ToRecord(Crud.Projection(Crud.Config("Citas").value.campos, body)));
      Col(rec, "hora") == Null && !ValidacionCitasRejects(citas, rec)
  {
    var campos := Crud.Config("Citas").value.campos;
    var given := Crud.ToRecord(Crud.Projection(campos, body));
    assert "hora" !in campos;
    assert "hora" !in given;
    assert Schema("Citas")[3] == "hora";
    var rec := Completed("Citas", given);
    assert rec["hora"] == Default("Citas", "hora") == Null;
    NullSlotNeverRejected(citas, rec);
  }

  /** A booking without an hour is accepted whatever the doctor's other appointments. */
  lemma NullHourNeverTaken(citas: map<int, Record>, pacienteId: Value, doctorId: Value, fecha: Value)
    ensures !SlotTaken(citas, NewCita(pacienteId, doctorId, fecha, Null))
  {
  }
}
