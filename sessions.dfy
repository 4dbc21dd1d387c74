/** The session endpoint of api/sessions.php: the three joined reads (a patient's sessions,
    one session with its patient and doctor, a session's treatments), session creation,
    adding a treatment with its detail rows, the two row updates and the two deletes. Unlike
    the session engine, none of these runs in a transaction. */
module Sessions {
  import opened Php
  import opened Tables
  import opened Query
  import opened Schema

  // ---------------------------------------------------------------------------
  // Joined reads
  // ---------------------------------------------------------------------------

  /** `CONCAT(u.username, ' (', u.role, ')')` through `LEFT JOIN users u ON s.doctor_id = u.id`:
      NULL when no user has that id. */
  function DoctorName(users: Table<User>, doctorId: int): (r: Option<string>)
    ensures r.Some? <==> doctorId in users.rows
  {
    if doctorId in users.rows then
      var u := users.rows[doctorId];
      Some(u.username + " (" + u.role + ")")
    else None
  }

  /** A sessions row with the doctor_name column of the join. */
  datatype SessionView = SessionView(session: Row<Session>, doctorName: Option<string>)

  function SessionViews(users: Table<User>, rs: seq<Row<Session>>): (r: seq<SessionView>)
    ensures |r| == |rs|
    ensures forall i :: 0 <= i < |rs| ==> r[i] == SessionView(rs[i], DoctorName(users, rs[i].val.doctorId))
  {
    seq(|rs|, i requires 0 <= i < |rs| => SessionView(rs[i], DoctorName(users, rs[i].val.doctorId)))
  }

  /** A view belongs to the joined rows exactly when its session is one of the rows and its
      doctor name is the one the join computes. */
  lemma SessionViewsMembers(users: Table<User>, rs: seq<Row<Session>>, v: SessionView)
    ensures v in SessionViews(users, rs) <==> v.session in rs && v.doctorName == DoctorName(users, v.session.val.doctorId)
  {
    var r := SessionViews(users, rs);
    if v.session in rs && v.doctorName == DoctorName(users, v.session.val.doctorId) {
      var i :| 0 <= i < |rs| && rs[i] == v.session;
      assert r[i] == v;
    }
  }

  function OfPatient(patientId: int): SessionView -> bool {
    (v: SessionView) => v.session.val.patientId == patientId
  }

  function SessionId(): SessionView -> int {
    (v: SessionView) => v.session.id
  }

  function SessionDate(): SessionView -> int {
    (v: SessionView) => v.session.val.sessionDate
  }

  /** `getPatientSessions`: `... WHERE s.patient_id = ? ORDER BY s.session_date DESC`. */
  function GetPatientSessions(sessions: Table<Session>, users: Table<User>, patientId: int): (r: seq<SessionView>)
    ensures forall v :: v in r <==>
      v.session in Rows(sessions) && v.session.val.patientId == patientId &&
      v.doctorName == DoctorName(users, v.session.val.doctorId)
    ensures forall i, j :: 0 <= i < j < |r| ==> r[i].session.val.sessionDate >= r[j].session.val.sessionDate
    ensures forall i, j :: 0 <= i < j < |r| ==> r[i].session.id != r[j].session.id
  {
    ByIntTotalPreorder(SessionDate());
    FlipTotalPreorder(ByInt(SessionDate()));
    var views := SessionViews(users, Rows(sessions));
    var r := SortBy(Filter(views, OfPatient(patientId)), Flip(ByInt(SessionDate())));
    assert forall v :: v in r <==>
      v.session in Rows(sessions) && v.session.val.patientId == patientId &&
      v.doctorName == DoctorName(users, v.session.val.doctorId) by {
      forall v
        ensures v in r <==>
          v.session in Rows(sessions) && v.session.val.patientId == patientId &&
          v.doctorName == DoctorName(users, v.session.val.doctorId)
      {
        SortByMembers(Filter(views, OfPatient(patientId)), Flip(ByInt(SessionDate())), v);
        FilterMembers(views, OfPatient(patientId), v);
        SessionViewsMembers(users, Rows(sessions), v);
      }
    }
    assert forall i, j :: 0 <= i < j < |r| ==> r[i].session.val.sessionDate >= r[j].session.val.sessionDate by {
      forall i, j | 0 <= i < j < |r|
        ensures r[i].session.val.sessionDate >= r[j].session.val.sessionDate
      {
        assert Flip(ByInt(SessionDate()))(r[i], r[j]);
      }
    }
    assert forall i, j :: 0 <= i < j < |views| ==> SessionId()(views[i]) < SessionId()(views[j]);
    SortFilterDistinct(views, OfPatient(patientId), Flip(ByInt(SessionDate())), SessionId());
    r
  }

  /** One session with the patient_name, phone_number and doctor_name columns of the join. */
  datatype SessionDetails = SessionDetails(
    session: Row<Session>,
    patientName: Option<string>,
    phoneNumber: Option<string>,
    doctorName: Option<string>)

  /** `getSessionDetails`: the inner join with patients drops a session whose patient row is
      gone, so that session answers 404 like an unknown id. */
  function GetSessionDetails(sessions: Table<Session>, patients: Table<Patient>, users: Table<User>,
                             sessionId: int): (r: Reply<SessionDetails>)
    ensures r.Ok? <==> sessionId in sessions.rows && sessions.rows[sessionId].patientId in patients.rows
    ensures !r.Ok? ==> r == Err(NotFound)
    ensures r.Ok? ==>
      var s := sessions.rows[sessionId];
      var p := patients.rows[s.patientId];
      r.value.session == Row(sessionId, s) && r.value.phoneNumber == p.phoneNumber &&
      r.value.patientName == PatientName(p) && r.value.doctorName == DoctorName(users, s.doctorId)
  {
    if sessionId in sessions.rows && sessions.rows[sessionId].patientId in patients.rows then
      var s := sessions.rows[sessionId];
      var p := patients.rows[s.patientId];
      Ok(SessionDetails(Row(sessionId, s), PatientName(p), p.phoneNumber, DoctorName(users, s.doctorId)))
    else Err(NotFound)
  }

  /** A treatments row with the treatment_type_name and default_cost columns of the join. */
  datatype TreatmentView = TreatmentView(treatment: Row<Treatment>, typeName: string, defaultCost: real)

  function JoinType(types: Table<TreatmentType>, x: Row<Treatment>): TreatmentView
    requires x.val.typeId in types.rows
  {
    var tt := types.rows[x.val.typeId];
    TreatmentView(x, tt.name, tt.defaultCost)
  }

  /** `JOIN treatment_types tt ON t.treatment_type_id = tt.id`: a treatment whose type row
      is missing has no partner and drops out. */
  function TreatmentViews(types: Table<TreatmentType>, rs: seq<Row<Treatment>>): seq<TreatmentView> {
    if rs == [] then []
    else
      var x := rs[|rs| - 1];
      TreatmentViews(types, rs[..|rs| - 1]) + (if x.val.typeId in types.rows then [JoinType(types, x)] else [])
  }

  lemma {:induction false} TreatmentViewsMembers(types: Table<TreatmentType>, rs: seq<Row<Treatment>>, v: TreatmentView)
    ensures v in TreatmentViews(types, rs) <==>
      v.treatment in rs && v.treatment.val.typeId in types.rows && v == JoinType(types, v.treatment)
  {
    if rs != [] {
      TreatmentViewsMembers(types, rs[..|rs| - 1], v);
      assert rs == rs[..|rs| - 1] + [rs[|rs| - 1]];
    }
  }

  /** The join keeps the scan's primary-key order. */
  lemma {:induction false} TreatmentViewsIncreasing(types: Table<TreatmentType>, rs: seq<Row<Treatment>>)
    requires forall i, j :: 0 <= i < j < |rs| ==> rs[i].id < rs[j].id
    ensures forall i, j :: 0 <= i < j < |TreatmentViews(types, rs)| ==>
      TreatmentId()(TreatmentViews(types, rs)[i]) < TreatmentId()(TreatmentViews(types, rs)[j])
  {
    if rs != [] {
      var init := rs[..|rs| - 1];
      TreatmentViewsIncreasing(types, init);
      forall v | v in TreatmentViews(types, init)
        ensures v.treatment.id < rs[|rs| - 1].id
      {
        TreatmentViewsMembers(types, init, v);
      }
    }
  }

  function TreatmentId(): TreatmentView -> int {
    (v: TreatmentView) => v.treatment.id
  }

  function OfSession(sessionId: int): TreatmentView -> bool {
    (v: TreatmentView) => v.treatment.val.sessionId == sessionId
  }

  function Tooth(): TreatmentView -> int {
    (v: TreatmentView) => v.treatment.val.toothNumber
  }

  /** `getSessionTreatments`: `... WHERE t.session_id = ? ORDER BY t.tooth_number`. */
  function GetSessionTreatments(treatments: Table<Treatment>, types: Table<TreatmentType>, sessionId: int): (r: seq<TreatmentView>)
    ensures forall v :: v in r <==>
      v.treatment in Rows(treatments) && v.treatment.val.sessionId == sessionId &&
      v.treatment.val.typeId in types.rows && v == JoinType(types, v.treatment)
    ensures forall i, j :: 0 <= i < j < |r| ==> r[i].treatment.val.toothNumber <= r[j].treatment.val.toothNumber
    ensures forall i, j :: 0 <= i < j < |r| ==> r[i].treatment.id != r[j].treatment.id
  {
    ByIntTotalPreorder(Tooth());
    var views := TreatmentViews(types, Rows(treatments));
    var r := SortBy(Filter(views, OfSession(sessionId)), ByInt(Tooth()));
    assert forall v :: v in r <==>
      v.treatment in Rows(treatments) && v.treatment.val.sessionId == sessionId &&
      v.treatment.val.typeId in types.rows && v == JoinType(types, v.treatment) by {
      forall v
        ensures v in r <==>
          v.treatment in Rows(treatments) && v.treatment.val.sessionId == sessionId &&
          v.treatment.val.typeId in types.rows && v == JoinType(types, v.treatment)
      {
        SortByMembers(Filter(views, OfSession(sessionId)), ByInt(Tooth()), v);
        FilterMembers(views, OfSession(sessionId), v);
        TreatmentViewsMembers(types, Rows(treatments), v);
      }
    }
    assert forall i, j :: 0 <= i < j < |r| ==> r[i].treatment.val.toothNumber <= r[j].treatment.val.toothNumber by {
      forall i, j | 0 <= i < j < |r|
        ensures r[i].treatment.val.toothNumber <= r[j].treatment.val.toothNumber
      {
        assert ByInt(Tooth())(r[i], r[j]);
      }
    }
    TreatmentViewsIncreasing(types, Rows(treatments));
    SortFilterDistinct(views, OfSession(sessionId), ByInt(Tooth()), TreatmentId());
    r
  }

  /** What a GET answers with. The prescriptions of a session are not computed here. */
  datatype SessionListing =
    | SessionList(sessions: seq<SessionView>)
    | Details(details: SessionDetails)
    | TreatmentList(treatments: seq<TreatmentView>)
    | PrescriptionsOf(sessionId: int)

  /** The GET dispatch: each action needs a truthy id, an unknown action answers 400, and a
      store error answers 500. */
  function HandleGet(action: string, patientId: Option<int>, sessionId: Option<int>,
                     sessions: Table<Session>, patients: Table<Patient>, users: Table<User>,
                     treatments: Table<Treatment>, types: Table<TreatmentType>, fails: bool): (r: Reply<SessionListing>)
    ensures r == Err(BadRequest) <==>
      (action == "get_patient_sessions" && !TruthyId(patientId)) ||
      (action in {"get_session_details", "get_session_treatments", "get_session_prescriptions"} && !TruthyId(sessionId)) ||
      action !in {"get_patient_sessions", "get_session_details", "get_session_treatments", "get_session_prescriptions"}
    ensures r.Ok? && action == "get_patient_sessions" ==>
      !fails && r.value == SessionList(GetPatientSessions(sessions, users, patientId.value))
    ensures r.Ok? && action == "get_session_treatments" ==>
      !fails && r.value == TreatmentList(GetSessionTreatments(treatments, types, sessionId.value))
    ensures r.Ok? && action == "get_session_details" ==>
      !fails && GetSessionDetails(sessions, patients, users, sessionId.value).Ok? &&
      r.value == Details(GetSessionDetails(sessions, patients, users, sessionId.value).value)
    ensures r == Err(NotFound) <==>
      action == "get_session_details" && TruthyId(sessionId) && !fails &&
      GetSessionDetails(sessions, patients, users, sessionId.value) == Err(NotFound)
    ensures r.Ok? && action == "get_session_prescriptions" ==> !fails && r == Ok(PrescriptionsOf(sessionId.value))
    ensures r.Err? && r != Err(BadRequest) && r != Err(NotFound) ==> r == Err(ServerError) && fails
    ensures r != Err(BadRequest) ==> (fails <==> r == Err(ServerError))
    ensures !fails && r != Err(BadRequest) && r != Err(NotFound) ==> r.Ok?
    ensures !r.Created?
  {
    if action == "get_patient_sessions" then
      if !TruthyId(patientId) then Err(BadRequest)
      else if fails then Err(ServerError)
      else Ok(SessionList(GetPatientSessions(sessions, users, patientId.value)))
    else if action == "get_session_details" then
      if !TruthyId(sessionId) then Err(BadRequest)
      else if fails then Err(ServerError)
      else
        var d := GetSessionDetails(sessions, patients, users, sessionId.value);
        if d.Ok? then Ok(Details(d.value)) else Err(NotFound)
    else if action == "get_session_treatments" then
      if !TruthyId(sessionId) then Err(BadRequest)
      else if fails then Err(ServerError)
      else Ok(TreatmentList(GetSessionTreatments(treatments, types, sessionId.value)))
    else if action == "get_session_prescriptions" then
      if !TruthyId(sessionId) then Err(BadRequest)
      else if fails then Err(ServerError)
      else Ok(PrescriptionsOf(sessionId.value))
    else Err(BadRequest)
  }

  // ---------------------------------------------------------------------------
  // createSession
  // ---------------------------------------------------------------------------

  /** `createSession`: both ids must be set; session_notes defaults to NULL; the answer is 201
      with the new id. A failed INSERT writes nothing. */
  method CreateSession(db: Database, patientId: Option<int>, doctorId: Option<int>, notes: Option<string>, now: int)
    returns (r: Reply<int>)
    requires db.sessions.Valid()
    modifies db`sessions
    ensures db.sessions.Valid()
    ensures r == Err(BadRequest) <==> patientId.None? || doctorId.None?
    ensures r.Created? ==>
      r.value == old(db.sessions.nextId) &&
      db.sessions == old(db.sessions).Insert(Session(patientId.value, doctorId.value, now, notes))
    ensures !r.Created? ==> db.sessions == old(db.sessions)
    ensures r.Created? || r == Err(BadRequest) || r == Err(ServerError)
  {
    if patientId.None? || doctorId.None? {
      return Err(BadRequest);
    }
    var fails: bool := *;
    if fails {
      return Err(ServerError);
    }
    var id := db.sessions.nextId;
    db.sessions := db.sessions.Insert(Session(patientId.value, doctorId.value, now, notes));
    return Created(id);
  }

  /** A created session is listed among its patient's sessions, with its doctor's name. */
  lemma CreatedSessionListed(sessions: Table<Session>, users: Table<User>, s: Session)
    requires sessions.Valid()
    ensures SessionView(Row(sessions.nextId, s), DoctorName(users, s.doctorId))
              in GetPatientSessions(sessions.Insert(s), users, s.patientId)
  {
    RowsInsert(sessions, s);
  }

  // ---------------------------------------------------------------------------
  // addTreatment
  // ---------------------------------------------------------------------------

  /** One element of `treatment_details`; `workingLengthJson` is the `json_encode` text of
      its working_length_details, or `None` when that key is not set. */
  datatype DetailInput = DetailInput(stepId: int, workingLengthJson: Option<string>)

  /** The treatments row: cost, additional_cost and discount default to 0, notes to NULL. */
  function NewTreatment(sessionId: int, toothNumber: int, typeId: int, cost: Option<real>,
                        additionalCost: Option<real>, discount: Option<real>, notes: Option<string>): (t: Treatment)
    ensures t.cost.Some? && t.additionalCost.Some? && t.discount.Some?
    ensures cost.None? ==> t.cost == Some(0.0)
    ensures additionalCost.None? ==> t.additionalCost == Some(0.0)
    ensures discount.None? ==> t.discount == Some(0.0)
  {
    Treatment(sessionId, toothNumber, typeId, Some(cost.GetOr(0.0)), Some(additionalCost.GetOr(0.0)),
              Some(discount.GetOr(0.0)), notes)
  }

  /** The treatment_details row of one element: step_notes stays NULL. */
  function DetailRow(tid: int, d: DetailInput): TreatmentDetail {
    TreatmentDetail(tid, d.stepId, None, d.workingLengthJson)
  }

  /** The detail rows of the first `n` elements. */
  function DetailRows(tid: int, ds: seq<DetailInput>, n: nat): seq<TreatmentDetail>
    requires n <= |ds|
  {
    if n == 0 then [] else DetailRows(tid, ds, n - 1) + [DetailRow(tid, ds[n - 1])]
  }

  /** One detail row per element, in order, each linked to the treatment. */
  lemma {:induction false} DetailRowsLinked(tid: int, ds: seq<DetailInput>, n: nat)
    requires n <= |ds|
    ensures |DetailRows(tid, ds, n)| == n
    ensures forall k :: 0 <= k < n ==>
      DetailRows(tid, ds, n)[k] == DetailRow(tid, ds[k]) && DetailRows(tid, ds, n)[k].treatmentId == tid
  {
    if n > 0 {
      DetailRowsLinked(tid, ds, n - 1);
    }
  }

  /** `addTreatment`: session_id, tooth_number and treatment_type_id must be set; the treatment
      is inserted, then one detail row per element of `treatment_details` when that is a list.
      Without a transaction, a failure after the treatment insert leaves the treatment and the
      detail rows already written in place, and answers 500. */
  method AddTreatment(db: Database, sessionId: Option<int>, toothNumber: Option<int>, typeId: Option<int>,
                      cost: Option<real>, additionalCost: Option<real>, discount: Option<real>,
                      notes: Option<string>, details: Option<seq<DetailInput>>) returns (r: Reply<int>)
    requires db.treatments.Valid() && db.treatmentDetails.Valid()
    modifies db`treatments, db`treatmentDetails
    ensures db.treatments.Valid() && db.treatmentDetails.Valid()
    ensures r == Err(BadRequest) <==> sessionId.None? || toothNumber.None? || typeId.None?
    ensures r == Err(BadRequest) ==> unchanged(db`treatments, db`treatmentDetails)
    ensures r.Created? ==>
      r.value == old(db.treatments.nextId) &&
      db.treatments == old(db.treatments).Insert(NewTreatment(sessionId.value, toothNumber.value, typeId.value,
                                                              cost, additionalCost, discount, notes)) &&
      db.treatmentDetails == InsertAll(old(db.treatmentDetails), DetailRows(r.value, details.GetOr([]), |details.GetOr([])|))
    ensures r == Err(ServerError) ==>
      unchanged(db`treatments, db`treatmentDetails) ||
      (db.treatments == old(db.treatments).Insert(NewTreatment(sessionId.value, toothNumber.value, typeId.value,
                                                               cost, additionalCost, discount, notes)) &&
       exists k :: 0 <= k < |details.GetOr([])| &&
         db.treatmentDetails == InsertAll(old(db.treatmentDetails), DetailRows(old(db.treatments.nextId), details.GetOr([]), k)))
    ensures r.Created? || r == Err(BadRequest) || r == Err(ServerError)
  {
    if sessionId.None? || toothNumber.None? || typeId.None? {
      return Err(BadRequest);
    }
    var fails: bool := *;
    if fails {
      return Err(ServerError);
    }
    var d0 := db.treatmentDetails;
    var tid := db.treatments.nextId;
    db.treatments := db.treatments.Insert(NewTreatment(sessionId.value, toothNumber.value, typeId.value,
                                                       cost, additionalCost, discount, notes));
    var ds := details.GetOr([]);
    var i := 0;
    while i < |ds|
      invariant 0 <= i <= |ds|
      invariant db.treatments == old(db.treatments).Insert(NewTreatment(sessionId.value, toothNumber.value, typeId.value,
                                                                        cost, additionalCost, discount, notes))
      invariant db.treatmentDetails.Valid()
      invariant db.treatmentDetails == InsertAll(d0, DetailRows(tid, ds, i))
    {
      fails := *;
      if fails {
        return Err(ServerError);
      }
      InsertAllOne(d0, DetailRows(tid, ds, i), DetailRow(tid, ds[i]));
      db.treatmentDetails := db.treatmentDetails.Insert(DetailRow(tid, ds[i]));
      i := i + 1;
    }
    return Created(tid);
  }

  // ---------------------------------------------------------------------------
  // updateSession, updateTreatment
  // ---------------------------------------------------------------------------

  /** `UPDATE sessions SET session_notes = ? WHERE id = ?`. */
  function SetNotes(t: Table<Session>, id: int, notes: Option<string>): (r: Table<Session>)
    ensures r.nextId == t.nextId && r.rows.Keys == t.rows.Keys
    ensures forall k :: k in t.rows && k != id ==> r.rows[k] == t.rows[k]
    ensures id in t.rows ==> r.rows[id].notes == notes && r.rows[id].patientId == t.rows[id].patientId &&
                             r.rows[id].doctorId == t.rows[id].doctorId && r.rows[id].sessionDate == t.rows[id].sessionDate
  {
    if id in t.rows then t.Set(id, t.rows[id].(notes := notes)) else t
  }

  /** Whether MySQL reports a row as affected: the row exists and its notes actually change. */
  predicate NotesChange(t: Table<Session>, id: int, notes: Option<string>) {
    id in t.rows && t.rows[id].notes != notes
  }

  /** `updateSession`: session_id must be set; session_notes defaults to NULL; 404 when no row
      was affected, including a row whose notes already had that value. */
  method UpdateSession(db: Database, sessionId: Option<int>, notes: Option<string>) returns (r: Reply<()>)
    requires db.sessions.Valid()
    modifies db`sessions
    ensures db.sessions.Valid()
    ensures r == Err(BadRequest) <==> sessionId.None?
    ensures r.Ok? ==> NotesChange(old(db.sessions), sessionId.value, notes) &&
                      db.sessions == SetNotes(old(db.sessions), sessionId.value, notes)
    ensures r == Err(NotFound) ==> !NotesChange(old(db.sessions), sessionId.value, notes)
    ensures !r.Ok? ==> db.sessions == old(db.sessions)
    ensures sessionId.Some? && r != Err(ServerError) ==> (r.Ok? <==> NotesChange(old(db.sessions), sessionId.value, notes))
    ensures r.Ok? || r == Err(BadRequest) || r == Err(NotFound) || r == Err(ServerError)
  {
    if sessionId.None? {
      return Err(BadRequest);
    }
    var fails: bool := *;
    if fails {
      return Err(ServerError);
    }
    var id := sessionId.value;
    if NotesChange(db.sessions, id, notes) {
      db.sessions := SetNotes(db.sessions, id, notes);
      return Ok(());
    }
    return Err(NotFound);
  }

  /** A notes update that affects nothing leaves the table exactly as it was. */
  lemma SetNotesUnaffected(t: Table<Session>, id: int, notes: Option<string>)
    requires !NotesChange(t, id, notes)
    ensures SetNotes(t, id, notes) == t
  {
    if id in t.rows {
      assert t.rows[id].(notes := notes) == t.rows[id];
      assert t.rows[id := t.rows[id]] == t.rows;
    }
  }

  /** The four columns `updateTreatment` writes: absent money fields become 0, absent notes NULL. */
  function Recharged(t: Treatment, cost: Option<real>, additionalCost: Option<real>, discount: Option<real>,
                     notes: Option<string>): (u: Treatment)
    ensures u.sessionId == t.sessionId && u.toothNumber == t.toothNumber && u.typeId == t.typeId
    ensures u.cost == Some(cost.GetOr(0.0)) && u.additionalCost == Some(additionalCost.GetOr(0.0))
    ensures u.discount == Some(discount.GetOr(0.0)) && u.notes == notes
  {
    t.(cost := Some(cost.GetOr(0.0)), additionalCost := Some(additionalCost.GetOr(0.0)),
       discount := Some(discount.GetOr(0.0)), notes := notes)
  }

  /** `updateTreatment`: treatment_id must be set; the row's cost, additional_cost, discount
      and notes are overwritten, every other row is untouched; 404 when no row was affected. */
  method UpdateTreatment(db: Database, treatmentId: Option<int>, cost: Option<real>, additionalCost: Option<real>,
                         discount: Option<real>, notes: Option<string>) returns (r: Reply<()>)
    requires db.treatments.Valid()
    modifies db`treatments
    ensures db.treatments.Valid()
    ensures r == Err(BadRequest) <==> treatmentId.None?
    ensures r.Ok? ==>
      var id := treatmentId.value;
      id in old(db.treatments.rows) &&
      Changes(old(db.treatments), id, Recharged(old(db.treatments.rows[id]), cost, additionalCost, discount, notes)) &&
      db.treatments == old(db.treatments).Set(id, Recharged(old(db.treatments.rows[id]), cost, additionalCost, discount, notes))
    ensures r == Err(NotFound) ==>
      var id := treatmentId.value;
      id !in old(db.treatments.rows) ||
      old(db.treatments.rows[id]) == Recharged(old(db.treatments.rows[id]), cost, additionalCost, discount, notes)
    ensures !r.Ok? ==> db.treatments == old(db.treatments)
    ensures r.Ok? || r == Err(BadRequest) || r == Err(NotFound) || r == Err(ServerError)
  {
    if treatmentId.None? {
      return Err(BadRequest);
    }
    var fails: bool := *;
    if fails {
      return Err(ServerError);
    }
    var id := treatmentId.value;
    if id in db.treatments.rows {
      var u := Recharged(db.treatments.rows[id], cost, additionalCost, discount, notes);
      if Changes(db.treatments, id, u) {
        db.treatments := db.treatments.Set(id, u);
        return Ok(());
      }
    }
    return Err(NotFound);
  }

  // ---------------------------------------------------------------------------
  // deleteSession, deleteTreatment
  // ---------------------------------------------------------------------------

  /** DELETE `delete_session`: a falsy session_id answers 400; only the sessions row goes, the
      session's treatments stay; 404 when there was no such row. */
  method DeleteSession(db: Database, sessionId: Option<int>) returns (r: Reply<()>)
    requires db.sessions.Valid()
    modifies db`sessions
    ensures db.sessions.Valid()
    ensures r == Err(BadRequest) <==> !TruthyId(sessionId)
    ensures r.Ok? ==> sessionId.value in old(db.sessions.rows) && db.sessions == old(db.sessions).Delete(sessionId.value)
    ensures r == Err(NotFound) ==> sessionId.value !in old(db.sessions.rows)
    ensures TruthyId(sessionId) && r != Err(ServerError) ==> (r.Ok? <==> sessionId.value in old(db.sessions.rows))
    ensures !r.Ok? ==> db.sessions == old(db.sessions)
    ensures r.Ok? || r == Err(BadRequest) || r == Err(NotFound) || r == Err(ServerError)
  {
    if !TruthyId(sessionId) {
      return Err(BadRequest);
    }
    var fails: bool := *;
    if fails {
      return Err(ServerError);
    }
    var id := sessionId.value;
    if id in db.sessions.rows {
      db.sessions := db.sessions.Delete(id);
      return Ok(());
    }
    return Err(NotFound);
  }

  /** After a session is deleted, its details answer 404 while its treatments are still listed. */
  lemma DeletedSessionOrphans(sessions: Table<Session>, patients: Table<Patient>, users: Table<User>,
                              treatments: Table<Treatment>, types: Table<TreatmentType>, id: int)
    ensures GetSessionDetails(sessions.Delete(id), patients, users, id) == Err(NotFound)
    ensures forall v :: v in Rows(treatments) && v.val.sessionId == id && v.val.typeId in types.rows ==>
      JoinType(types, v) in GetSessionTreatments(treatments, types, id)
  {
  }

  /** DELETE `delete_treatment`: a falsy treatment_id answers 400; only that treatments row
      goes, its detail rows stay; 404 when there was no such row. */
  method DeleteTreatment(db: Database, treatmentId: Option<int>) returns (r: Reply<()>)
    requires db.treatments.Valid()
    modifies db`treatments
    ensures db.treatments.Valid()
    ensures r == Err(BadRequest) <==> !TruthyId(treatmentId)
    ensures r.Ok? ==> treatmentId.value in old(db.treatments.rows) && db.treatments == old(db.treatments).Delete(treatmentId.value)
    ensures r == Err(NotFound) ==> treatmentId.value !in old(db.treatments.rows)
    ensures TruthyId(treatmentId) && r != Err(ServerError) ==> (r.Ok? <==> treatmentId.value in old(db.treatments.rows))
    ensures !r.Ok? ==> db.treatments == old(db.treatments)
    ensures r.Ok? || r == Err(BadRequest) || r == Err(NotFound) || r == Err(ServerError)
  {
    if !TruthyId(treatmentId) {
      return Err(BadRequest);
    }
    var fails: bool := *;
    if fails {
      return Err(ServerError);
    }
    var id := treatmentId.value;
    if id in db.treatments.rows {
      db.treatments := db.treatments.Delete(id);
      return Ok(());
    }
    return Err(NotFound);
  }

  /** A deleted treatment no longer appears among its session's treatments. */
  lemma DeletedTreatmentUnlisted(treatments: Table<Treatment>, types: Table<TreatmentType>, id: int, sessionId: int)
    requires treatments.Valid()
    ensures forall v :: v in GetSessionTreatments(treatments.Delete(id), types, sessionId) ==> v.treatment.id != id
  {
    ScanContents(treatments.rows - {id}, treatments.nextId);
  }
}
