/** The prescription endpoint, api/prescription.php: a prescription header with its list of
    medicine lines, created, replaced and deleted together in one transaction, and read
    back joined with the patient. */
module Prescriptions {
  import opened Php
  import opened Tables
  import opened Query
  import opened Schema

  /** One entry of the body's `medicines` array; `None` is an absent key. */
  datatype MedicineInput = MedicineInput(
    name: Option<string>,
    dosage: Option<string>,
    kind: Option<string>,
    duration: Option<string>,
    notes: Option<string>)

  /** The decoded request body. An absent or empty `medicines` array is the empty sequence. */
  datatype PrescriptionInput = PrescriptionInput(
    id: Option<int>,
    patientId: Option<int>,
    prescriptionDate: Option<string>,
    generalNotes: Option<string>,
    medicines: seq<MedicineInput>)

  /** The prescription_medicines row stored for one input line; notes default to ''. */
  function Line(prescriptionId: int, m: MedicineInput): Medicine {
    Medicine(prescriptionId, m.name, m.dosage, m.kind, m.duration, m.notes.GetOr(""))
  }

  /** The rows stored for the first `n` input lines, in input order. */
  function Lines(prescriptionId: int, ms: seq<MedicineInput>, n: nat): (r: seq<Medicine>)
    requires n <= |ms|
    ensures |r| == n
    ensures forall i :: 0 <= i < n ==> r[i] == Line(prescriptionId, ms[i])
  {
    if n == 0 then [] else Lines(prescriptionId, ms, n - 1) + [Line(prescriptionId, ms[n - 1])]
  }

  /** The header `createPrescription` inserts; general_notes defaults to ''. */
  function Header(input: PrescriptionInput, now: int): Prescription {
    Prescription(input.patientId, input.prescriptionDate, input.generalNotes.GetOr(""), now, None, None)
  }

  function OfPrescription(prescriptionId: int): Row<Medicine> -> bool {
    (x: Row<Medicine>) => x.val.prescriptionId == prescriptionId
  }

  /** `SELECT * FROM prescription_medicines WHERE prescription_id = ? ORDER BY id`. */
  function LinesOf(medicines: Table<Medicine>, prescriptionId: int): (r: seq<Row<Medicine>>)
    ensures forall x :: x in r <==> x in Rows(medicines) && x.val.prescriptionId == prescriptionId
    ensures forall i, j :: 0 <= i < j < |r| ==> r[i].id < r[j].id
  {
    var r := Filter(Rows(medicines), OfPrescription(prescriptionId));
    ScanContents(medicines.rows, medicines.nextId);
    FilterIncreasing(Rows(medicines), OfPrescription(prescriptionId), (x: Row<Medicine>) => x.id);
    assert forall x :: x in r <==> x in Rows(medicines) && x.val.prescriptionId == prescriptionId by {
      forall x
        ensures x in r <==> x in Rows(medicines) && x.val.prescriptionId == prescriptionId
      {
        FilterMembers(Rows(medicines), OfPrescription(prescriptionId), x);
      }
    }
    r
  }

  /** The rows that survive `DELETE FROM prescription_medicines WHERE prescription_id = ?`. */
  function Kept(rows: map<int, Medicine>, prescriptionId: int): (r: map<int, Medicine>)
    ensures forall k :: k in r <==> k in rows && rows[k].prescriptionId != prescriptionId
    ensures forall k :: k in r ==> r[k] == rows[k]
  {
    map k | k in rows && rows[k].prescriptionId != prescriptionId :: rows[k]
  }

  function DropLines(medicines: Table<Medicine>, prescriptionId: int): (r: Table<Medicine>)
    ensures r.nextId == medicines.nextId
    ensures medicines.Valid() ==> r.Valid()
  {
    Table(Kept(medicines.rows, prescriptionId), medicines.nextId)
  }

  // ---------------------------------------------------------------------------------------
  // What the lines of a prescription become
  // ---------------------------------------------------------------------------------------

  /** Inserting lines appends, to the lines of a prescription, the new rows that name it;
      when all of them name it, they are appended whole, with consecutive new ids. */
  lemma LinesOfInsertAll(t: Table<Medicine>, vs: seq<Medicine>, q: int)
    requires t.Valid()
    ensures (forall i :: 0 <= i < |vs| ==> vs[i].prescriptionId == q) ==>
      LinesOf(InsertAll(t, vs), q) == LinesOf(t, q) + Numbered(t.nextId, vs)
    ensures (forall i :: 0 <= i < |vs| ==> vs[i].prescriptionId != q) ==>
      LinesOf(InsertAll(t, vs), q) == LinesOf(t, q)
  {
    var rs := Numbered(t.nextId, vs);
    RowsInsertAll(t, vs);
    FilterAppend(Rows(t), rs, OfPrescription(q));
    if forall i :: 0 <= i < |vs| ==> vs[i].prescriptionId == q {
      FilterAll(rs, OfPrescription(q));
    }
    if forall i :: 0 <= i < |vs| ==> vs[i].prescriptionId != q {
      FilterNone(rs, OfPrescription(q));
      assert LinesOf(t, q) + [] == LinesOf(t, q);
    }
  }

  /** `createPrescription` leaves the new prescription with the lines it had (none, unless
      an earlier update wrote lines for an id not yet issued) followed by one new row per
      input line, in input order. */
  lemma CreatedLines(t: Table<Medicine>, id: int, ms: seq<MedicineInput>)
    requires t.Valid()
    ensures LinesOf(InsertAll(t, Lines(id, ms, |ms|)), id) == LinesOf(t, id) + Numbered(t.nextId, Lines(id, ms, |ms|))
  {
    LinesOfInsertAll(t, Lines(id, ms, |ms|), id);
  }

  /** Deleting the lines of prescription `p` leaves the scan of every other one as it was. */
  lemma {:induction false} DropScan(rows: map<int, Medicine>, p: int, q: int, n: nat)
    requires p != q
    ensures Filter(Scan(Kept(rows, p), n), OfPrescription(q)) == Filter(Scan(rows, n), OfPrescription(q))
  {
    if n > 0 {
      var kept := Kept(rows, p);
      var tailK := if n - 1 in kept then [Row(n - 1, kept[n - 1])] else [];
      var tail := if n - 1 in rows then [Row(n - 1, rows[n - 1])] else [];
      DropScan(rows, p, q, n - 1);
      assert Filter(tailK, OfPrescription(q)) == Filter(tail, OfPrescription(q)) by {
        if n - 1 in rows && rows[n - 1].prescriptionId == p {
          FilterNone(tail, OfPrescription(q));
          assert tailK == [];
        } else {
          assert tailK == tail;
        }
      }
      assert Filter(Scan(kept, n), OfPrescription(q)) == Filter(Scan(kept, n - 1), OfPrescription(q)) + Filter(tailK, OfPrescription(q)) by {
        assert Scan(kept, n) == Scan(kept, n - 1) + tailK;
        FilterAppend(Scan(kept, n - 1), tailK, OfPrescription(q));
      }
      assert Filter(Scan(rows, n), OfPrescription(q)) == Filter(Scan(rows, n - 1), OfPrescription(q)) + Filter(tail, OfPrescription(q)) by {
        assert Scan(rows, n) == Scan(rows, n - 1) + tail;
        FilterAppend(Scan(rows, n - 1), tail, OfPrescription(q));
      }
    }
  }

  /** After the delete, no line names the prescription. */
  lemma DropLinesGone(t: Table<Medicine>, p: int)
    ensures LinesOf(DropLines(t, p), p) == []
  {
    var d := DropLines(t, p);
    assert forall i :: 0 <= i < |Rows(d)| ==> !OfPrescription(p)(Rows(d)[i]) by {
      ScanContents(d.rows, d.nextId);
    }
    FilterNone(Rows(d), OfPrescription(p));
  }

  /** After the delete, every other prescription keeps its lines, in the same order. */
  lemma DropLinesOthers(t: Table<Medicine>, p: int, q: int)
    requires p != q
    ensures LinesOf(DropLines(t, p), q) == LinesOf(t, q)
  {
    DropScan(t.rows, p, q, t.nextId);
    assert Rows(DropLines(t, p)) == Scan(Kept(t.rows, p), t.nextId);
  }

  /** `updatePrescription` leaves the prescription with exactly one new row per input line,
      in input order, with consecutive new ids. */
  lemma ReplacedLines(t: Table<Medicine>, id: int, ms: seq<MedicineInput>)
    requires t.Valid()
    ensures LinesOf(InsertAll(DropLines(t, id), Lines(id, ms, |ms|)), id) == Numbered(t.nextId, Lines(id, ms, |ms|))
  {
    var vs := Lines(id, ms, |ms|);
    LinesOfInsertAll(DropLines(t, id), vs, id);
    DropLinesGone(t, id);
    assert [] + Numbered(t.nextId, vs) == Numbered(t.nextId, vs);
  }

  /** `updatePrescription` leaves every other prescription with its old lines. */
  lemma ReplacedLinesOthers(t: Table<Medicine>, id: int, ms: seq<MedicineInput>, q: int)
    requires t.Valid() && q != id
    ensures LinesOf(InsertAll(DropLines(t, id), Lines(id, ms, |ms|)), q) == LinesOf(t, q)
  {
    LinesOfInsertAll(DropLines(t, id), Lines(id, ms, |ms|), q);
    DropLinesOthers(t, id, q);
  }

  // ---------------------------------------------------------------------------------------
  // The transactions
  // ---------------------------------------------------------------------------------------

  /** The `foreach` over the medicines: one INSERT per line. On a store error the caller
      rolls the transaction back. */
  method InsertLines(db: Database, prescriptionId: int, ms: seq<MedicineInput>) returns (ok: bool)
    requires db.medicines.Valid()
    modifies db`medicines
    ensures db.medicines.Valid() && db.medicines.nextId >= old(db.medicines.nextId)
    ensures ok ==> db.medicines == InsertAll(old(db.medicines), Lines(prescriptionId, ms, |ms|))
  {
    var m0 := db.medicines;
    var i := 0;
    while i < |ms|
      invariant 0 <= i <= |ms|
      invariant db.medicines == InsertAll(m0, Lines(prescriptionId, ms, i))
      invariant db.medicines.Valid() && db.medicines.nextId >= m0.nextId
    {
      var fails: bool := *;
      if fails {
        return false;
      }
      InsertAllOne(m0, Lines(prescriptionId, ms, i), Line(prescriptionId, ms[i]));
      db.medicines := db.medicines.Insert(Line(prescriptionId, ms[i]));
      i := i + 1;
    }
    return true;
  }

  /** POST: a missing or empty body is a 400; otherwise the header and one line per input
      medicine, all linked to the new id, are written in one transaction. */
  method CreatePrescription(db: Database, input: Option<PrescriptionInput>, now: int) returns (r: Reply<int>)
    requires db.prescriptions.Valid() && db.medicines.Valid()
    modifies db`prescriptions, db`medicines
    ensures db.prescriptions.Valid() && db.medicines.Valid()
    ensures r == Err(BadRequest) <==> input.None?
    ensures r.Ok? || r == Err(BadRequest) || r == Err(ServerError)
    ensures r.Ok? ==>
      input.Some? && r.value == old(db.prescriptions.nextId) &&
      db.prescriptions == old(db.prescriptions).Insert(Header(input.value, now)) &&
      db.medicines == InsertAll(old(db.medicines), Lines(r.value, input.value.medicines, |input.value.medicines|))
    ensures !r.Ok? ==> db.prescriptions.rows == old(db.prescriptions.rows) && db.medicines.rows == old(db.medicines.rows)
  {
    if input.None? {
      return Err(BadRequest);
    }
    var p0 := db.prescriptions;
    var m0 := db.medicines;
    var fails: bool := *;
    if fails {
      return Err(ServerError);
    }
    var id := db.prescriptions.nextId;
    db.prescriptions := db.prescriptions.Insert(Header(input.value, now));
    var ok := InsertLines(db, id, input.value.medicines);
    if ok {
      fails := *;
      ok := !fails;
    }
    if !ok {
      db.prescriptions := db.prescriptions.RolledBack(p0);
      db.medicines := db.medicines.RolledBack(m0);
      return Err(ServerError);
    }
    return Ok(id);
  }

  /** `UPDATE prescriptions SET prescription_date = ?, general_notes = ?, updated_at = NOW()
      WHERE id = ?`: a missing date is stored as NULL and missing notes as ''. */
  function Revise(t: Table<Prescription>, id: int, input: PrescriptionInput, now: int): (u: Table<Prescription>)
    ensures u.rows.Keys == t.rows.Keys && u.nextId == t.nextId
    ensures id in t.rows ==>
      u.rows[id] == Header(input, now).(patientId := t.rows[id].patientId, createdAt := t.rows[id].createdAt,
                                        updatedAt := Some(now), drugId := t.rows[id].drugId)
    ensures forall k :: k in t.rows && k != id ==> u.rows[k] == t.rows[k]
  {
    if id in t.rows then
      t.Set(id, t.rows[id].(prescriptionDate := input.prescriptionDate, generalNotes := input.generalNotes.GetOr(""),
                            updatedAt := Some(now)))
    else t
  }

  /** PUT: a missing or empty body, or one without an id, is a 400; otherwise the header is
      revised and the lines replaced by the input lines in one transaction. An unknown id
      is not reported. */
  method UpdatePrescription(db: Database, input: Option<PrescriptionInput>, now: int) returns (r: Reply<()>)
    requires db.prescriptions.Valid() && db.medicines.Valid()
    modifies db`prescriptions, db`medicines
    ensures db.prescriptions.Valid() && db.medicines.Valid()
    ensures r == Err(BadRequest) <==> input.None? || !TruthyId(input.value.id)
    ensures r.Ok? || r == Err(BadRequest) || r == Err(ServerError)
    ensures r.Ok? ==>
      input.Some? && input.value.id.Some? &&
      db.prescriptions == Revise(old(db.prescriptions), input.value.id.value, input.value, now) &&
      db.medicines == InsertAll(DropLines(old(db.medicines), input.value.id.value),
                                Lines(input.value.id.value, input.value.medicines, |input.value.medicines|))
    ensures !r.Ok? ==> db.prescriptions.rows == old(db.prescriptions.rows) && db.medicines.rows == old(db.medicines.rows)
  {
    if input.None? || !TruthyId(input.value.id) {
      return Err(BadRequest);
    }
    var id := input.value.id.value;
    var p0 := db.prescriptions;
    var m0 := db.medicines;
    var fails: bool := *;
    if fails {
      return Err(ServerError);
    }
    db.prescriptions := Revise(db.prescriptions, id, input.value, now);
    fails := *;
    if fails {
      db.prescriptions := db.prescriptions.RolledBack(p0);
      return Err(ServerError);
    }
    db.medicines := DropLines(db.medicines, id);
    var ok := InsertLines(db, id, input.value.medicines);
    if ok {
      fails := *;
      ok := !fails;
    }
    if !ok {
      db.prescriptions := db.prescriptions.RolledBack(p0);
      db.medicines := db.medicines.RolledBack(m0);
      return Err(ServerError);
    }
    return Ok(());
  }

  /** DELETE: an id is required; the lines go first, then the header, in one transaction.
      An unknown id is not reported. */
  method DeletePrescription(db: Database, id: Option<int>) returns (r: Reply<()>)
    requires db.prescriptions.Valid() && db.medicines.Valid()
    modifies db`prescriptions, db`medicines
    ensures db.prescriptions.Valid() && db.medicines.Valid()
    ensures r == Err(BadRequest) <==> !TruthyId(id)
    ensures r.Ok? || r == Err(BadRequest) || r == Err(ServerError)
    ensures r.Ok? ==>
      id.Some? && db.prescriptions == old(db.prescriptions).Delete(id.value) &&
      db.medicines == DropLines(old(db.medicines), id.value)
    ensures !r.Ok? ==> db.prescriptions.rows == old(db.prescriptions.rows) && db.medicines.rows == old(db.medicines.rows)
  {
    if !TruthyId(id) {
      return Err(BadRequest);
    }
    var p0 := db.prescriptions;
    var m0 := db.medicines;
    var fails: bool := *;
    if fails {
      return Err(ServerError);
    }
    db.medicines := DropLines(db.medicines, id.value);
    fails := *;
    if fails {
      db.medicines := db.medicines.RolledBack(m0);
      return Err(ServerError);
    }
    db.prescriptions := db.prescriptions.Delete(id.value);
    fails := *;
    if fails {
      db.prescriptions := db.prescriptions.RolledBack(p0);
      db.medicines := db.medicines.RolledBack(m0);
      return Err(ServerError);
    }
    return Ok(());
  }

  /** After a delete neither the header nor any line of the prescription remains. */
  lemma DeletedLeavesNothing(prescriptions: Table<Prescription>, medicines: Table<Medicine>, id: int)
    ensures id !in prescriptions.Delete(id).rows
    ensures LinesOf(DropLines(medicines, id), id) == []
  {
    DropLinesGone(medicines, id);
  }

  // ---------------------------------------------------------------------------------------
  // Reads
  // ---------------------------------------------------------------------------------------

  /** One row of `getPrescriptions`: the header, the patient's CONCAT'ed name and the lines. */
  datatype PrescriptionView = PrescriptionView(
    header: Row<Prescription>,
    patientName: Option<string>,
    medicines: seq<Row<Medicine>>)

  /** A header has a patient to join with. */
  predicate HasPatient(patients: Table<Patient>, x: Row<Prescription>) {
    x.val.patientId.Some? && x.val.patientId.value in patients.rows
  }

  function ViewOf(patients: Table<Patient>, medicines: Table<Medicine>, x: Row<Prescription>): PrescriptionView
    requires HasPatient(patients, x)
  {
    PrescriptionView(x, PatientName(patients.rows[x.val.patientId.value]), LinesOf(medicines, x.id))
  }

  /** `FROM prescriptions p JOIN patients pat ON p.patient_id = pat.id`, each row with its lines. */
  function Views(patients: Table<Patient>, medicines: Table<Medicine>, rs: seq<Row<Prescription>>): seq<PrescriptionView> {
    if rs == [] then []
    else
      var x := rs[|rs| - 1];
      Views(patients, medicines, rs[..|rs| - 1]) + (if HasPatient(patients, x) then [ViewOf(patients, medicines, x)] else [])
  }

  lemma {:induction false} ViewsMembers(patients: Table<Patient>, medicines: Table<Medicine>, rs: seq<Row<Prescription>>, v: PrescriptionView)
    ensures v in Views(patients, medicines, rs) <==>
      v.header in rs && HasPatient(patients, v.header) && v == ViewOf(patients, medicines, v.header)
  {
    if rs != [] {
      ViewsMembers(patients, medicines, rs[..|rs| - 1], v);
      assert rs == rs[..|rs| - 1] + [rs[|rs| - 1]];
    }
  }

  /** The join keeps the scan's primary-key order. */
  lemma {:induction false} ViewsIncreasing(patients: Table<Patient>, medicines: Table<Medicine>, rs: seq<Row<Prescription>>)
    requires forall i, j :: 0 <= i < j < |rs| ==> rs[i].id < rs[j].id
    ensures forall i, j :: 0 <= i < j < |Views(patients, medicines, rs)| ==>
      HeaderId()(Views(patients, medicines, rs)[i]) < HeaderId()(Views(patients, medicines, rs)[j])
  {
    if rs != [] {
      var init := rs[..|rs| - 1];
      ViewsIncreasing(patients, medicines, init);
      forall v | v in Views(patients, medicines, init)
        ensures v.header.id < rs[|rs| - 1].id
      {
        ViewsMembers(patients, medicines, init, v);
      }
    }
  }

  function HeaderId(): PrescriptionView -> int {
    (v: PrescriptionView) => v.header.id
  }

  function OfPatient(patientId: Option<int>): PrescriptionView -> bool {
    (v: PrescriptionView) => !TruthyId(patientId) || v.header.val.patientId == Some(patientId.value)
  }

  function CreatedAt(): PrescriptionView -> int {
    (v: PrescriptionView) => v.header.val.createdAt
  }

  /** `getPrescriptions`: every joined prescription, only the patient's when a patient_id is
      given, newest first, each with its lines. */
  function GetPrescriptions(prescriptions: Table<Prescription>, patients: Table<Patient>, medicines: Table<Medicine>,
                            patientId: Option<int>): (r: seq<PrescriptionView>)
    ensures forall v :: v in r <==>
      v.header in Rows(prescriptions) && HasPatient(patients, v.header) &&
      (TruthyId(patientId) ==> v.header.val.patientId == patientId) &&
      v == PrescriptionView(v.header, PatientName(patients.rows[v.header.val.patientId.value]), LinesOf(medicines, v.header.id))
    ensures forall i, j :: 0 <= i < j < |r| ==> r[i].header.val.createdAt >= r[j].header.val.createdAt
    ensures forall i, j :: 0 <= i < j < |r| ==> r[i].header.id != r[j].header.id
  {
    ByIntTotalPreorder(CreatedAt());
    FlipTotalPreorder(ByInt(CreatedAt()));
    var joined := Views(patients, medicines, Rows(prescriptions));
    var r := SortBy(Filter(joined, OfPatient(patientId)), Flip(ByInt(CreatedAt())));
    assert forall v :: v in r <==>
      v.header in Rows(prescriptions) && HasPatient(patients, v.header) &&
      (TruthyId(patientId) ==> v.header.val.patientId == patientId) &&
      v == PrescriptionView(v.header, PatientName(patients.rows[v.header.val.patientId.value]), LinesOf(medicines, v.header.id)) by {
      forall v
        ensures v in r <==>
          v.header in Rows(prescriptions) && HasPatient(patients, v.header) &&
          (TruthyId(patientId) ==> v.header.val.patientId == patientId) &&
          v == PrescriptionView(v.header, PatientName(patients.rows[v.header.val.patientId.value]), LinesOf(medicines, v.header.id))
      {
        SortByMembers(Filter(joined, OfPatient(patientId)), Flip(ByInt(CreatedAt())), v);
        FilterMembers(joined, OfPatient(patientId), v);
        ViewsMembers(patients, medicines, Rows(prescriptions), v);
      }
    }
    assert forall i, j :: 0 <= i < j < |r| ==> r[i].header.val.createdAt >= r[j].header.val.createdAt by {
      forall i, j | 0 <= i < j < |r|
        ensures r[i].header.val.createdAt >= r[j].header.val.createdAt
      {
        assert Flip(ByInt(CreatedAt()))(r[i], r[j]);
      }
    }
    ViewsIncreasing(patients, medicines, Rows(prescriptions));
    SortFilterDistinct(joined, OfPatient(patientId), Flip(ByInt(CreatedAt())), HeaderId());
    r
  }

  /** `getPrescription`: `p.*`, the patient's name, phone, address and date of birth, and
      the lines in id order. */
  datatype PrescriptionDetails = PrescriptionDetails(
    header: Row<Prescription>,
    patientName: Option<string>,
    phoneNumber: Option<string>,
    address: Option<string>,
    dateOfBirth: Option<string>,
    medicines: seq<Row<Medicine>>)

  function GetPrescription(prescriptions: Table<Prescription>, patients: Table<Patient>, medicines: Table<Medicine>,
                           id: int): (r: Option<PrescriptionDetails>)
    ensures r.Some? <==> id in prescriptions.rows && HasPatient(patients, Row(id, prescriptions.rows[id]))
    ensures r.Some? ==>
      r.value.header == Row(id, prescriptions.rows[id]) &&
      r.value.patientName == PatientName(patients.rows[prescriptions.rows[id].patientId.value]) &&
      r.value.phoneNumber == patients.rows[prescriptions.rows[id].patientId.value].phoneNumber &&
      r.value.address == patients.rows[prescriptions.rows[id].patientId.value].address &&
      r.value.dateOfBirth == patients.rows[prescriptions.rows[id].patientId.value].dateOfBirth &&
      r.value.medicines == LinesOf(medicines, id)
  {
    if id in prescriptions.rows && HasPatient(patients, Row(id, prescriptions.rows[id])) then
      var h := prescriptions.rows[id];
      var p := patients.rows[h.patientId.value];
      Some(PrescriptionDetails(Row(id, h), PatientName(p), p.phoneNumber, p.address, p.dateOfBirth, LinesOf(medicines, id)))
    else None
  }

  /** What a GET answers. */
  datatype PrescriptionListing = PrescriptionList(prescriptions: seq<PrescriptionView>) | Single(details: PrescriptionDetails)

  /** GET dispatch: `get_prescriptions` or `get_prescription` (which needs an id and answers
      404 for an unknown or unjoinable one); any other action is a 400; a store error a 500. */
  function HandleGet(action: string, patientId: Option<int>, id: Option<int>, prescriptions: Table<Prescription>,
                     patients: Table<Patient>, medicines: Table<Medicine>, fails: bool): (r: Reply<PrescriptionListing>)
    ensures r == Err(BadRequest) <==>
      action !in {"get_prescriptions", "get_prescription"} || (action == "get_prescription" && !TruthyId(id))
    ensures r == Err(NotFound) <==>
      action == "get_prescription" && TruthyId(id) && !fails &&
      GetPrescription(prescriptions, patients, medicines, id.value).None?
    ensures r.Ok? ==> !fails
    ensures r != Err(BadRequest) ==> (fails <==> r == Err(ServerError))
    ensures !fails && r != Err(BadRequest) && r != Err(NotFound) ==> r.Ok?
    ensures !r.Created?
    ensures r.Ok? && action == "get_prescriptions" ==>
      r.value == PrescriptionList(GetPrescriptions(prescriptions, patients, medicines, patientId))
    ensures r.Ok? && action == "get_prescription" ==>
      r.value == Single(GetPrescription(prescriptions, patients, medicines, id.value).value)
  {
    if action == "get_prescriptions" then
      if fails then Err(ServerError) else Ok(PrescriptionList(GetPrescriptions(prescriptions, patients, medicines, patientId)))
    else if action == "get_prescription" then
      if !TruthyId(id) then Err(BadRequest)
      else if fails then Err(ServerError)
      else
        match GetPrescription(prescriptions, patients, medicines, id.value)
        case Some(d) => Ok(Single(d))
        case None => Err(NotFound)
    else Err(BadRequest)
  }
}
