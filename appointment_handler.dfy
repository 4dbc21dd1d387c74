/** The alternate appointment path of api/appointment_handler.php, the `AppointmentHandler`
    class: insert without any slot check, a listing optionally restricted to one exact
    appointment_date, a whole-row update and a delete. Store errors become `false` or an
    empty list. */
module AppointmentHandler {
  import opened Php
  import opened Tables
  import opened Query
  import opened Schema
  import opened Appointments

  /** `INSERT INTO appointments (patient_id, appointment_date, appointment_time, notes)`:
      status and created_at keep their column defaults; an absent appointment_time is bound
      as NULL and stored as such. */
  function Added(patientId: int, date: int, time: Option<int>, notes: Option<string>): Appointment {
    Appointment(patientId, date, time, notes, None, None)
  }

  /** `addAppointment`: true when the row was inserted, false on a store error. */
  method AddAppointment(db: Database, patientId: int, date: int, time: Option<int>, notes: Option<string>) returns (ok: bool)
    requires db.appointments.Valid()
    modifies db`appointments
    ensures db.appointments.Valid()
    ensures ok ==> db.appointments == old(db.appointments).Insert(Added(patientId, date, time, notes))
    ensures !ok ==> db.appointments == old(db.appointments)
  {
    var fails: bool := *;
    if fails {
      return false;
    }
    db.appointments := db.appointments.Insert(Added(patientId, date, time, notes));
    return true;
  }

  /** Without a slot check, adding at an instant another appointment holds breaks exclusivity. */
  lemma AddBreaksSlots(t: Table<Appointment>, patientId: int, date: int, time: Option<int>, notes: Option<string>)
    requires t.Valid() && Taken(t, date)
    ensures !SlotsExclusive(t.Insert(Added(patientId, date, time, notes)))
  {
    var k :| k in t.rows && t.rows[k].date == date;
    var u := t.Insert(Added(patientId, date, time, notes));
    assert k in u.rows && t.nextId in u.rows && u.rows[k].date == u.rows[t.nextId].date && k != t.nextId;
  }

  /** `ORDER BY a.appointment_date ASC, a.appointment_time ASC`; NULL times come first. */
  predicate TimeLeq(a: Option<int>, b: Option<int>) {
    a.None? || (b.Some? && a.value <= b.value)
  }

  function ByDateTime(): (AppointmentWithPatient, AppointmentWithPatient) -> bool {
    (a: AppointmentWithPatient, b: AppointmentWithPatient) =>
      a.appointment.val.date < b.appointment.val.date ||
      (a.appointment.val.date == b.appointment.val.date && TimeLeq(a.appointment.val.time, b.appointment.val.time))
  }

  lemma ByDateTimeTotalPreorder()
    ensures TotalPreorder(ByDateTime())
  {
    var leq := ByDateTime();
    forall a, b, c | leq(a, b) && leq(b, c)
      ensures leq(a, c)
    {
      assert TimeLeq(a.appointment.val.time, b.appointment.val.time) && TimeLeq(b.appointment.val.time, c.appointment.val.time) ==>
        TimeLeq(a.appointment.val.time, c.appointment.val.time);
    }
  }

  /** `a.*` with the patient's first_name, father_name, last_name and phone_number. */
  datatype AppointmentWithPatient = AppointmentWithPatient(
    appointment: Row<Appointment>,
    firstName: Option<string>,
    fatherName: Option<string>,
    lastName: Option<string>,
    phoneNumber: Option<string>)

  function WithPatient(patients: Table<Patient>, x: Row<Appointment>): AppointmentWithPatient
    requires x.val.patientId in patients.rows
  {
    var p := patients.rows[x.val.patientId];
    AppointmentWithPatient(x, p.firstName, p.fatherName, p.lastName, p.phoneNumber)
  }

  /** `JOIN patients p ON a.patient_id = p.id`. */
  function WithPatients(patients: Table<Patient>, rs: seq<Row<Appointment>>): seq<AppointmentWithPatient> {
    if rs == [] then []
    else
      var x := rs[|rs| - 1];
      WithPatients(patients, rs[..|rs| - 1]) + (if x.val.patientId in patients.rows then [WithPatient(patients, x)] else [])
  }

  lemma {:induction false} WithPatientsMembers(patients: Table<Patient>, rs: seq<Row<Appointment>>, v: AppointmentWithPatient)
    ensures v in WithPatients(patients, rs) <==>
      v.appointment in rs && v.appointment.val.patientId in patients.rows && v == WithPatient(patients, v.appointment)
  {
    if rs != [] {
      WithPatientsMembers(patients, rs[..|rs| - 1], v);
      assert rs == rs[..|rs| - 1] + [rs[|rs| - 1]];
    }
  }

  /** The join keeps the scan's primary-key order. */
  lemma {:induction false} WithPatientsIncreasing(patients: Table<Patient>, rs: seq<Row<Appointment>>)
    requires forall i, j :: 0 <= i < j < |rs| ==> rs[i].id < rs[j].id
    ensures forall i, j :: 0 <= i < j < |WithPatients(patients, rs)| ==>
      JoinedId()(WithPatients(patients, rs)[i]) < JoinedId()(WithPatients(patients, rs)[j])
  {
    if rs != [] {
      var init := rs[..|rs| - 1];
      WithPatientsIncreasing(patients, init);
      forall v | v in WithPatients(patients, init)
        ensures v.appointment.id < rs[|rs| - 1].id
      {
        WithPatientsMembers(patients, init, v);
      }
    }
  }

  function JoinedId(): AppointmentWithPatient -> int {
    (v: AppointmentWithPatient) => v.appointment.id
  }

  function AtInstant(date: Option<int>): AppointmentWithPatient -> bool {
    (v: AppointmentWithPatient) => date.None? || v.appointment.val.date == date.value
  }

  /** `getAppointments($date)`: with a date, only the rows whose appointment_date equals it
      (the DATETIME column is compared with the date as one instant); without one, every
      row; sorted by date, then time; `[]` on a store error. */
  function GetAppointments(appointments: Table<Appointment>, patients: Table<Patient>, date: Option<int>, fails: bool)
    : (r: seq<AppointmentWithPatient>)
    ensures fails ==> r == []
    ensures !fails ==> forall v :: v in r <==>
      v.appointment in Rows(appointments) && v.appointment.val.patientId in patients.rows &&
      v == WithPatient(patients, v.appointment) && (date.Some? ==> v.appointment.val.date == date.value)
    ensures Sorted(r, ByDateTime())
    ensures forall i, j :: 0 <= i < j < |r| ==> r[i].appointment.id != r[j].appointment.id
  {
    ByDateTimeTotalPreorder();
    if fails then []
    else
      var joined := WithPatients(patients, Rows(appointments));
      var r := SortBy(Filter(joined, AtInstant(date)), ByDateTime());
      assert forall v :: v in r <==>
        v.appointment in Rows(appointments) && v.appointment.val.patientId in patients.rows &&
        v == WithPatient(patients, v.appointment) && (date.Some? ==> v.appointment.val.date == date.value) by {
        forall v
          ensures v in r <==>
            v.appointment in Rows(appointments) && v.appointment.val.patientId in patients.rows &&
            v == WithPatient(patients, v.appointment) && (date.Some? ==> v.appointment.val.date == date.value)
        {
          SortByMembers(Filter(joined, AtInstant(date)), ByDateTime(), v);
          FilterMembers(joined, AtInstant(date), v);
          WithPatientsMembers(patients, Rows(appointments), v);
        }
      }
      WithPatientsIncreasing(patients, Rows(appointments));
      SortFilterDistinct(joined, AtInstant(date), ByDateTime(), JoinedId());
      r
  }

  /** `UPDATE appointments SET patient_id=?, appointment_date=?, appointment_time=?, notes=? WHERE id=?`. */
  function Rewritten(a: Appointment, patientId: int, date: int, time: Option<int>, notes: Option<string>): (b: Appointment)
    ensures b.status == a.status && b.createdAt == a.createdAt
    ensures b == Added(patientId, date, time, notes).(status := a.status, createdAt := a.createdAt)
  {
    a.(patientId := patientId, date := date, time := time, notes := notes)
  }

  /** `updateAppointment`: true exactly when the row exists and one of the four columns
      actually changes; false on a store error. */
  method UpdateAppointment(db: Database, id: int, patientId: int, date: int, time: Option<int>, notes: Option<string>)
    returns (ok: bool)
    requires db.appointments.Valid()
    modifies db`appointments
    ensures db.appointments.Valid()
    ensures ok ==>
      id in old(db.appointments.rows) &&
      Changes(old(db.appointments), id, Rewritten(old(db.appointments.rows[id]), patientId, date, time, notes)) &&
      db.appointments == old(db.appointments).Set(id, Rewritten(old(db.appointments.rows[id]), patientId, date, time, notes))
    ensures !ok ==> db.appointments == old(db.appointments)
  {
    var fails: bool := *;
    if fails {
      return false;
    }
    if id in db.appointments.rows {
      var b := Rewritten(db.appointments.rows[id], patientId, date, time, notes);
      if Changes(db.appointments, id, b) {
        db.appointments := db.appointments.Set(id, b);
        return true;
      }
    }
    return false;
  }

  /** `deleteAppointment`: true exactly when a row was removed. */
  method DeleteAppointment(db: Database, id: int) returns (ok: bool)
    requires db.appointments.Valid()
    modifies db`appointments
    ensures db.appointments.Valid()
    ensures ok ==> id in old(db.appointments.rows) && db.appointments == old(db.appointments).Delete(id)
    ensures !ok ==> db.appointments == old(db.appointments)
    ensures id !in old(db.appointments.rows) ==> !ok
  {
    var fails: bool := *;
    if fails {
      return false;
    }
    if id in db.appointments.rows {
      db.appointments := db.appointments.Delete(id);
      return true;
    }
    return false;
  }
}
