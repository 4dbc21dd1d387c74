/** The appointment scheduler of api/appointments.php: the three GET listings, booking with
    an exact-instant conflict check, partial update with a conflict check that excludes the
    row itself, and delete. The invariant the checks are there for is that no two
    appointments share an appointment_date. */
module Appointments {
  import opened Php
  import opened Tables
  import opened Query
  import opened Schema

  /** No two appointments share an instant. */
  ghost predicate SlotsExclusive(t: Table<Appointment>) {
    forall i, j :: i in t.rows && j in t.rows && t.rows[i].date == t.rows[j].date ==> i == j
  }

  /** `SELECT COUNT(*) ... WHERE appointment_date = ? AND appointment_date = ?` is positive. */
  predicate Taken(t: Table<Appointment>, date: int) {
    exists k :: k in t.rows && t.rows[k].date == date
  }

  /** The same count with `AND id != ?`. */
  predicate TakenByOther(t: Table<Appointment>, date: int, self: int) {
    exists k :: k in t.rows && k != self && t.rows[k].date == date
  }

  // ---------------------------------------------------------------------------
  // GET
  // ---------------------------------------------------------------------------

  /** An appointments row with the patient_name and phone_number columns of the join. */
  datatype AppointmentView = AppointmentView(appointment: Row<Appointment>, patientName: Option<string>, phoneNumber: Option<string>)

  function JoinPatient(patients: Table<Patient>, x: Row<Appointment>): AppointmentView
    requires x.val.patientId in patients.rows
  {
    var p := patients.rows[x.val.patientId];
    AppointmentView(x, PatientName(p), p.phoneNumber)
  }

  /** `JOIN patients p ON a.patient_id = p.id`: an appointment whose patient row is gone drops out. */
  function Views(patients: Table<Patient>, rs: seq<Row<Appointment>>): seq<AppointmentView> {
    if rs == [] then []
    else
      var x := rs[|rs| - 1];
      Views(patients, rs[..|rs| - 1]) + (if x.val.patientId in patients.rows then [JoinPatient(patients, x)] else [])
  }

  lemma {:induction false} ViewsMembers(patients: Table<Patient>, rs: seq<Row<Appointment>>, v: AppointmentView)
    ensures v in Views(patients, rs) <==>
      v.appointment in rs && v.appointment.val.patientId in patients.rows && v == JoinPatient(patients, v.appointment)
  {
    if rs != [] {
      ViewsMembers(patients, rs[..|rs| - 1], v);
      assert rs == rs[..|rs| - 1] + [rs[|rs| - 1]];
    }
  }

  /** The join keeps the scan's primary-key order. */
  lemma {:induction false} ViewsIncreasing(patients: Table<Patient>, rs: seq<Row<Appointment>>)
    requires forall i, j :: 0 <= i < j < |rs| ==> rs[i].id < rs[j].id
    ensures forall i, j :: 0 <= i < j < |Views(patients, rs)| ==>
      AppointmentId()(Views(patients, rs)[i]) < AppointmentId()(Views(patients, rs)[j])
  {
    if rs != [] {
      var init := rs[..|rs| - 1];
      ViewsIncreasing(patients, init);
      forall v | v in Views(patients, init)
        ensures v.appointment.id < rs[|rs| - 1].id
      {
        ViewsMembers(patients, init, v);
      }
    }
  }

  function AppointmentId(): AppointmentView -> int {
    (v: AppointmentView) => v.appointment.id
  }

  /** The joined rows of the table, as the three listings see them before WHERE. */
  ghost predicate Joined(appointments: Table<Appointment>, patients: Table<Patient>, v: AppointmentView) {
    v.appointment in Rows(appointments) && v.appointment.val.patientId in patients.rows &&
    v == JoinPatient(patients, v.appointment)
  }

  function ForPatient(patientId: int): AppointmentView -> bool {
    (v: AppointmentView) => v.appointment.val.patientId == patientId
  }

  function OnDay(day: int): AppointmentView -> bool {
    (v: AppointmentView) => DayOf(v.appointment.val.date) == day
  }

  function Upcoming(today: int): AppointmentView -> bool {
    (v: AppointmentView) => v.appointment.val.date >= today * SecondsPerDay
  }

  function When(): AppointmentView -> int {
    (v: AppointmentView) => v.appointment.val.date
  }

  /** WHERE `p` and ORDER BY `leq` over the joined rows keeps exactly the joined rows satisfying `p`. */
  lemma Listed(appointments: Table<Appointment>, patients: Table<Patient>, p: AppointmentView -> bool,
               leq: (AppointmentView, AppointmentView) -> bool, v: AppointmentView)
    requires TotalPreorder(leq)
    ensures v in SortBy(Filter(Views(patients, Rows(appointments)), p), leq) <==> Joined(appointments, patients, v) && p(v)
  {
    SortByMembers(Filter(Views(patients, Rows(appointments)), p), leq, v);
    FilterMembers(Views(patients, Rows(appointments)), p, v);
    ViewsMembers(patients, Rows(appointments), v);
  }

  /** A patient's appointments, latest first: `WHERE a.patient_id = ? ORDER BY a.appointment_date DESC`. */
  function PatientList(appointments: Table<Appointment>, patients: Table<Patient>, patientId: int): (r: seq<AppointmentView>)
    ensures forall v :: v in r <==> Joined(appointments, patients, v) && v.appointment.val.patientId == patientId
    ensures forall i, j :: 0 <= i < j < |r| ==> r[i].appointment.val.date >= r[j].appointment.val.date
    ensures forall i, j :: 0 <= i < j < |r| ==> r[i].appointment.id != r[j].appointment.id
  {
    ByIntTotalPreorder(When());
    FlipTotalPreorder(ByInt(When()));
    var r := SortBy(Filter(Views(patients, Rows(appointments)), ForPatient(patientId)), Flip(ByInt(When())));
    assert forall v :: v in r <==> Joined(appointments, patients, v) && v.appointment.val.patientId == patientId by {
      forall v
        ensures v in r <==> Joined(appointments, patients, v) && v.appointment.val.patientId == patientId
      {
        Listed(appointments, patients, ForPatient(patientId), Flip(ByInt(When())), v);
      }
    }
    assert forall i, j :: 0 <= i < j < |r| ==> r[i].appointment.val.date >= r[j].appointment.val.date by {
      forall i, j | 0 <= i < j < |r|
        ensures r[i].appointment.val.date >= r[j].appointment.val.date
      {
        assert Flip(ByInt(When()))(r[i], r[j]);
      }
    }
    ViewsIncreasing(patients, Rows(appointments));
    SortFilterDistinct(Views(patients, Rows(appointments)), ForPatient(patientId), Flip(ByInt(When())), AppointmentId());
    r
  }

  /** The joined rows satisfying `p`, earliest first: `WHERE ... ORDER BY a.appointment_date`. */
  function TimedList(appointments: Table<Appointment>, patients: Table<Patient>, p: AppointmentView -> bool): (r: seq<AppointmentView>)
    ensures forall v :: v in r <==> Joined(appointments, patients, v) && p(v)
    ensures forall i, j :: 0 <= i < j < |r| ==> r[i].appointment.val.date <= r[j].appointment.val.date
    ensures forall i, j :: 0 <= i < j < |r| ==> r[i].appointment.id != r[j].appointment.id
  {
    ByIntTotalPreorder(When());
    var r := SortBy(Filter(Views(patients, Rows(appointments)), p), ByInt(When()));
    assert forall v :: v in r <==> Joined(appointments, patients, v) && p(v) by {
      forall v
        ensures v in r <==> Joined(appointments, patients, v) && p(v)
      {
        Listed(appointments, patients, p, ByInt(When()), v);
      }
    }
    assert forall i, j :: 0 <= i < j < |r| ==> r[i].appointment.val.date <= r[j].appointment.val.date by {
      forall i, j | 0 <= i < j < |r|
        ensures r[i].appointment.val.date <= r[j].appointment.val.date
      {
        assert ByInt(When())(r[i], r[j]);
      }
    }
    ViewsIncreasing(patients, Rows(appointments));
    SortFilterDistinct(Views(patients, Rows(appointments)), p, ByInt(When()), AppointmentId());
    r
  }

  /** The GET listing. A truthy patient_id wins: that patient's appointments, latest first.
      Otherwise a date lists that day's appointments, earliest first; with neither, the
      appointments from today's midnight on, earliest first. `day` is `None` when the date
      parameter is absent or falsy; `today` is CURDATE() as a day number. */
  function List(appointments: Table<Appointment>, patients: Table<Patient>, patientId: Option<int>,
                day: Option<int>, today: int): (r: seq<AppointmentView>)
    ensures TruthyId(patientId) ==>
      (forall v :: v in r <==> Joined(appointments, patients, v) && v.appointment.val.patientId == patientId.value) &&
      (forall i, j :: 0 <= i < j < |r| ==> r[i].appointment.val.date >= r[j].appointment.val.date)
    ensures !TruthyId(patientId) && day.Some? ==>
      (forall v :: v in r <==> Joined(appointments, patients, v) && DayOf(v.appointment.val.date) == day.value) &&
      (forall i, j :: 0 <= i < j < |r| ==> r[i].appointment.val.date <= r[j].appointment.val.date)
    ensures !TruthyId(patientId) && day.None? ==>
      (forall v :: v in r <==> Joined(appointments, patients, v) && DayOf(v.appointment.val.date) >= today) &&
      (forall i, j :: 0 <= i < j < |r| ==> r[i].appointment.val.date <= r[j].appointment.val.date)
    ensures forall i, j :: 0 <= i < j < |r| ==> r[i].appointment.id != r[j].appointment.id
  {
    if TruthyId(patientId) then PatientList(appointments, patients, patientId.value)
    else if day.Some? then
      var r := TimedList(appointments, patients, OnDay(day.value));
      assert forall v :: OnDay(day.value)(v) <==> DayOf(v.appointment.val.date) == day.value;
      r
    else
      var r := TimedList(appointments, patients, Upcoming(today));
      assert forall v :: Upcoming(today)(v) <==> DayOf(v.appointment.val.date) >= today by {
        forall v
          ensures Upcoming(today)(v) <==> DayOf(v.appointment.val.date) >= today
        {
          OnOrAfterToday(v.appointment.val.date, today);
        }
      }
      r
  }

  /** GET: the listing, or 500 on a store error. */
  function HandleGet(appointments: Table<Appointment>, patients: Table<Patient>, patientId: Option<int>,
                     day: Option<int>, today: int, fails: bool): (r: Reply<seq<AppointmentView>>)
    ensures r.Ok? <==> !fails
    ensures r.Ok? ==> r.value == List(appointments, patients, patientId, day, today)
    ensures !r.Ok? ==> r == Err(ServerError)
  {
    if fails then Err(ServerError) else Ok(List(appointments, patients, patientId, day, today))
  }

  // ---------------------------------------------------------------------------
  // POST: booking
  // ---------------------------------------------------------------------------

  /** The column list of the INSERT as the endpoint writes it: appointment_date twice. */
  const AsWrittenColumns: seq<string> := ["patient_id", "appointment_date", "appointment_date", "notes", "status", "created_at"]

  /** The column list with appointment_date named once. */
  const IntendedColumns: seq<string> := ["patient_id", "appointment_date", "notes", "status", "created_at"]

  /** MySQL refuses an INSERT whose column list names a column twice (error 1110). */
  predicate Distinct(cols: seq<string>) {
    forall i, j :: 0 <= i < j < |cols| ==> cols[i] != cols[j]
  }

  lemma AsWrittenColumnsRepeat()
    ensures !Distinct(AsWrittenColumns)
    ensures Distinct(IntendedColumns)
  {
    assert AsWrittenColumns[1] == AsWrittenColumns[2];
    forall i, j | 0 <= i < j < |IntendedColumns|
      ensures IntendedColumns[i] != IntendedColumns[j]
    {
      assert IntendedColumns[i][0] != IntendedColumns[j][0];
    }
  }

  /** The row a booking inserts: status 'scheduled', created_at NOW(), appointment_time left NULL. */
  function Booking(patientId: int, date: int, notes: Option<string>, now: int): Appointment {
    Appointment(patientId, date, None, notes, Some("scheduled"), Some(now))
  }

  /** POST with the INSERT column list `columns`: patient_id and appointment_date must be
      non-empty (400); a taken instant answers 409; an INSERT MySQL refuses, like any other
      store error, answers 500 and writes nothing. */
  method BookWith(db: Database, columns: seq<string>, patientId: Option<int>, date: Option<int>,
                  notes: Option<string>, now: int) returns (r: Reply<int>)
    requires db.appointments.Valid()
    modifies db`appointments
    ensures db.appointments.Valid()
    ensures r == Err(BadRequest) <==> !TruthyId(patientId) || date.None?
    ensures r == Err(Conflict) ==> Taken(old(db.appointments), date.value)
    ensures TruthyId(patientId) && date.Some? && Taken(old(db.appointments), date.value) ==> r.Err?
    ensures r.Ok? ==>
      Distinct(columns) && !Taken(old(db.appointments), date.value) && r.value == old(db.appointments.nextId) &&
      db.appointments == old(db.appointments).Insert(Booking(patientId.value, date.value, notes, now))
    ensures !r.Ok? ==> db.appointments == old(db.appointments)
    ensures SlotsExclusive(old(db.appointments)) ==> SlotsExclusive(db.appointments)
    ensures r.Ok? || r == Err(BadRequest) || r == Err(Conflict) || r == Err(ServerError)
  {
    if !TruthyId(patientId) || date.None? {
      return Err(BadRequest);
    }
    var fails: bool := *;
    if fails {
      return Err(ServerError);
    }
    if Taken(db.appointments, date.value) {
      return Err(Conflict);
    }
    fails := *;
    if fails || !Distinct(columns) {
      return Err(ServerError);
    }
    var id := db.appointments.nextId;
    db.appointments := db.appointments.Insert(Booking(patientId.value, date.value, notes, now));
    return Ok(id);
  }

  /** POST as written: once the checks pass, the INSERT is always refused, so no booking is
      ever stored. */
  method BookAsWritten(db: Database, patientId: Option<int>, date: Option<int>, notes: Option<string>, now: int)
    returns (r: Reply<int>)
    requires db.appointments.Valid()
    modifies db`appointments
    ensures db.appointments == old(db.appointments)
    ensures r == Err(BadRequest) <==> !TruthyId(patientId) || date.None?
    ensures TruthyId(patientId) && date.Some? && !Taken(old(db.appointments), date.value) ==> r == Err(ServerError)
    ensures !r.Ok?
  {
    AsWrittenColumnsRepeat();
    r := BookWith(db, AsWrittenColumns, patientId, date, notes, now);
  }

  /** POST with appointment_date named once: a free instant with a valid request is booked
      unless the store fails, and the instants stay exclusive. */
  method Book(db: Database, patientId: Option<int>, date: Option<int>, notes: Option<string>, now: int)
    returns (r: Reply<int>)
    requires db.appointments.Valid()
    modifies db`appointments
    ensures db.appointments.Valid()
    ensures r == Err(BadRequest) <==> !TruthyId(patientId) || date.None?
    ensures r == Err(Conflict) ==> Taken(old(db.appointments), date.value)
    ensures TruthyId(patientId) && date.Some? && r != Err(ServerError) ==>
      (r.Ok? <==> !Taken(old(db.appointments), date.value))
    ensures r.Ok? ==>
      r.value == old(db.appointments.nextId) &&
      db.appointments == old(db.appointments).Insert(Booking(patientId.value, date.value, notes, now))
    ensures !r.Ok? ==> db.appointments == old(db.appointments)
    ensures SlotsExclusive(old(db.appointments)) ==> SlotsExclusive(db.appointments)
    ensures r.Ok? || r == Err(BadRequest) || r == Err(Conflict) || r == Err(ServerError)
  {
    AsWrittenColumnsRepeat();
    r := BookWith(db, IntendedColumns, patientId, date, notes, now);
  }

  // ---------------------------------------------------------------------------
  // PUT: partial update
  // ---------------------------------------------------------------------------

  /** The row after `UPDATE appointments SET <the supplied columns> WHERE id = ?`. */
  function Patched(a: Appointment, date: Option<int>, notes: Option<string>, status: Option<string>): (b: Appointment)
    ensures b.patientId == a.patientId && b.time == a.time && b.createdAt == a.createdAt
    ensures b.date == (if date.Some? then date.value else a.date)
    ensures b.notes == (if notes.Some? then notes else a.notes)
    ensures b.status == (if status.Some? then status else a.status)
  {
    a.(date := date.GetOr(a.date),
       notes := if notes.Some? then notes else a.notes,
       status := if status.Some? then status else a.status)
  }

  /** The table after the UPDATE: no row changes when the id is unknown. */
  function Updated(t: Table<Appointment>, id: int, date: Option<int>, notes: Option<string>, status: Option<string>): Table<Appointment> {
    if id in t.rows then t.Set(id, Patched(t.rows[id], date, notes, status)) else t
  }

  /** A PUT that leaves the date alone, or moves it to an instant no other row holds, keeps
      the instants exclusive. */
  lemma UpdateKeepsSlots(t: Table<Appointment>, id: int, date: Option<int>, notes: Option<string>, status: Option<string>)
    requires SlotsExclusive(t)
    requires date.Some? ==> !TakenByOther(t, date.value, id)
    ensures SlotsExclusive(Updated(t, id, date, notes, status))
  {
    var u := Updated(t, id, date, notes, status);
    forall i, j | i in u.rows && j in u.rows && u.rows[i].date == u.rows[j].date
      ensures i == j
    {
      if !(id in t.rows && (i == id || j == id) && date.Some?) {
        assert u.rows[i].date == t.rows[i].date && u.rows[j].date == t.rows[j].date;
      }
    }
  }

  /** PUT `?id=`: a falsy id answers 400, and so does a body with none of appointment_date,
      notes and status. A supplied truthy date another row holds answers 409; the row's own
      instant never conflicts. There is no affected-row check: an unknown id answers 200. */
  method Update(db: Database, id: Option<int>, date: Option<int>, notes: Option<string>, status: Option<string>)
    returns (r: Reply<()>)
    requires db.appointments.Valid()
    modifies db`appointments
    ensures db.appointments.Valid()
    ensures r == Err(BadRequest) <==> !TruthyId(id) || (date.None? && notes.None? && status.None?)
    ensures r == Err(Conflict) ==> date.Some? && TakenByOther(old(db.appointments), date.value, id.value)
    ensures TruthyId(id) && date.Some? && TakenByOther(old(db.appointments), date.value, id.value) ==> r.Err?
    ensures r.Ok? ==> db.appointments == Updated(old(db.appointments), id.value, date, notes, status)
    ensures !r.Ok? ==> db.appointments == old(db.appointments)
    ensures SlotsExclusive(old(db.appointments)) ==> SlotsExclusive(db.appointments)
    ensures r.Ok? || r == Err(BadRequest) || r == Err(Conflict) || r == Err(ServerError)
  {
    if !TruthyId(id) {
      return Err(BadRequest);
    }
    var fields: seq<string> := [];
    if date.Some? {
      fields := fields + ["appointment_date"];
    }
    if date.Some? {
      fields := fields + ["appointment_date"];
    }
    if notes.Some? {
      fields := fields + ["notes"];
    }
    if status.Some? {
      fields := fields + ["status"];
    }
    if fields == [] {
      return Err(BadRequest);
    }
    if date.Some? {
      var fails: bool := *;
      if fails {
        return Err(ServerError);
      }
      if TakenByOther(db.appointments, date.value, id.value) {
        return Err(Conflict);
      }
    }
    var fails: bool := *;
    if fails {
      return Err(ServerError);
    }
    ghost var before := db.appointments;
    db.appointments := Updated(db.appointments, id.value, date, notes, status);
    if SlotsExclusive(before) {
      UpdateKeepsSlots(before, id.value, date, notes, status);
    }
    return Ok(());
  }

  // ---------------------------------------------------------------------------
  // DELETE
  // ---------------------------------------------------------------------------

  /** DELETE `?id=`: a falsy id answers 400; the row is removed, or 404 when there was none. */
  method Delete(db: Database, id: Option<int>) returns (r: Reply<()>)
    requires db.appointments.Valid()
    modifies db`appointments
    ensures db.appointments.Valid()
    ensures r == Err(BadRequest) <==> !TruthyId(id)
    ensures r.Ok? ==> id.value in old(db.appointments.rows) && db.appointments == old(db.appointments).Delete(id.value)
    ensures r == Err(NotFound) ==> id.value !in old(db.appointments.rows)
    ensures TruthyId(id) && r != Err(ServerError) ==> (r.Ok? <==> id.value in old(db.appointments.rows))
    ensures !r.Ok? ==> db.appointments == old(db.appointments)
    ensures SlotsExclusive(old(db.appointments)) ==> SlotsExclusive(db.appointments)
    ensures r.Ok? || r == Err(BadRequest) || r == Err(NotFound) || r == Err(ServerError)
  {
    if !TruthyId(id) {
      return Err(BadRequest);
    }
    var fails: bool := *;
    if fails {
      return Err(ServerError);
    }
    var k := id.value;
    if k in db.appointments.rows {
      db.appointments := db.appointments.Delete(k);
      return Ok(());
    }
    return Err(NotFound);
  }
}
