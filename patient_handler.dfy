/** The patient directory, api/patient_handler.php: the `PatientHandler` class over the
    patients table. Every method catches store errors itself: writes then answer `false`
    and reads an empty list. */
module PatientHandler {
  import opened Php
  import opened Tables
  import opened Query
  import opened Schema

  /** `addPatient`: one row with the seven given columns (a missing key is stored as NULL). */
  method AddPatient(db: Database, data: Patient) returns (ok: bool)
    requires db.patients.Valid()
    modifies db`patients
    ensures db.patients.Valid()
    ensures ok ==> db.patients == old(db.patients).Insert(data)
    ensures !ok ==> db.patients == old(db.patients)
  {
    var fails: bool := *;
    if fails {
      return false;
    }
    db.patients := db.patients.Insert(data);
    return true;
  }

  function PatientId(): Row<Patient> -> int {
    (x: Row<Patient>) => x.id
  }

  /** `getPatients`: `SELECT * FROM patients ORDER BY id DESC`, or `[]` on a store error. */
  function GetPatients(patients: Table<Patient>, fails: bool): (r: seq<Row<Patient>>)
    ensures fails ==> r == []
    ensures !fails && patients.Valid() ==> forall x :: x in r <==> x.id in patients.rows && x.val == patients.rows[x.id]
    ensures forall i, j :: 0 <= i < j < |r| ==> r[i].id > r[j].id
  {
    if fails then []
    else
      ScanContents(patients.rows, patients.nextId);
      ReverseDecreasing(Rows(patients), PatientId());
      var r := Reverse(Rows(patients));
      assert patients.Valid() ==> forall x :: x in r <==> x.id in patients.rows && x.val == patients.rows[x.id] by {
        if patients.Valid() {
          RowsExact(patients);
          forall x
            ensures x in r <==> x.id in patients.rows && x.val == patients.rows[x.id]
          {
            ReverseMembers(Rows(patients), x);
          }
        }
      }
      assert forall i, j :: 0 <= i < j < |r| ==> r[i].id > r[j].id by {
        forall i, j | 0 <= i < j < |r|
          ensures r[i].id > r[j].id
        {
          assert PatientId()(r[i]) > PatientId()(r[j]);
        }
      }
      r
  }

  /** `column LIKE ?`: a NULL column matches nothing. */
  predicate LikeColumn(column: Option<string>, pattern: string) {
    column.Some? && Like(column.value, pattern)
  }

  /** `first_name LIKE ? OR last_name LIKE ? OR phone_number LIKE ?` with `%query%`;
      father_name is not searched. */
  function Matches(query: string): Row<Patient> -> bool {
    (x: Row<Patient>) =>
      var pattern := "%" + query + "%";
      LikeColumn(x.val.firstName, pattern) || LikeColumn(x.val.lastName, pattern) || LikeColumn(x.val.phoneNumber, pattern)
  }

  /** `searchPatients`: the matching rows, `ORDER BY id DESC`, or `[]` on a store error. */
  function SearchPatients(patients: Table<Patient>, query: string, fails: bool): (r: seq<Row<Patient>>)
    ensures fails ==> r == []
    ensures !fails && patients.Valid() ==> forall x :: x in r <==>
      x.id in patients.rows && x.val == patients.rows[x.id] &&
      (LikeColumn(x.val.firstName, "%" + query + "%") || LikeColumn(x.val.lastName, "%" + query + "%") ||
       LikeColumn(x.val.phoneNumber, "%" + query + "%"))
    ensures forall i, j :: 0 <= i < j < |r| ==> r[i].id > r[j].id
  {
    if fails then []
    else
      var found := Filter(Rows(patients), Matches(query));
      ScanContents(patients.rows, patients.nextId);
      FilterIncreasing(Rows(patients), Matches(query), PatientId());
      ReverseDecreasing(found, PatientId());
      var r := Reverse(found);
      assert patients.Valid() ==> forall x :: x in r <==>
        x.id in patients.rows && x.val == patients.rows[x.id] &&
        (LikeColumn(x.val.firstName, "%" + query + "%") || LikeColumn(x.val.lastName, "%" + query + "%") ||
         LikeColumn(x.val.phoneNumber, "%" + query + "%")) by {
        if patients.Valid() {
          RowsExact(patients);
          forall x
            ensures x in r <==>
              x.id in patients.rows && x.val == patients.rows[x.id] &&
              (LikeColumn(x.val.firstName, "%" + query + "%") || LikeColumn(x.val.lastName, "%" + query + "%") ||
               LikeColumn(x.val.phoneNumber, "%" + query + "%"))
          {
            ReverseMembers(found, x);
            FilterMembers(Rows(patients), Matches(query), x);
          }
        }
      }
      assert forall i, j :: 0 <= i < j < |r| ==> r[i].id > r[j].id by {
        forall i, j | 0 <= i < j < |r|
          ensures r[i].id > r[j].id
        {
          assert PatientId()(r[i]) > PatientId()(r[j]);
        }
      }
      r
  }

  /** For a term without wildcards, a patient is found exactly when the term occurs, up to
      case, in the first name, the last name or the phone number. */
  lemma SearchFindsSubstrings(patients: Table<Patient>, query: string, x: Row<Patient>)
    requires patients.Valid() && forall i :: 0 <= i < |query| ==> Plain(query[i])
    ensures x in SearchPatients(patients, query, false) <==>
      x.id in patients.rows && x.val == patients.rows[x.id] &&
      ((x.val.firstName.Some? && exists i :: OccursAt(query, x.val.firstName.value, i)) ||
       (x.val.lastName.Some? && exists i :: OccursAt(query, x.val.lastName.value, i)) ||
       (x.val.phoneNumber.Some? && exists i :: OccursAt(query, x.val.phoneNumber.value, i)))
  {
    if x.val.firstName.Some? {
      Contains(x.val.firstName.value, query);
    }
    if x.val.lastName.Some? {
      Contains(x.val.lastName.value, query);
    }
    if x.val.phoneNumber.Some? {
      Contains(x.val.phoneNumber.value, query);
    }
  }

  /** A patient just added is the first one `getPatients` lists. */
  lemma AddedPatientFirst(patients: Table<Patient>, data: Patient)
    requires patients.Valid()
    ensures GetPatients(patients.Insert(data), false) != []
    ensures GetPatients(patients.Insert(data), false)[0] == Row(patients.nextId, data)
  {
    RowsInsert(patients, data);
  }

  /** `updatePatient`: all seven columns are overwritten; true exactly when a row actually
      changed, false when the id is unknown, nothing changed, or the store failed; in
      those cases the table is as before. */
  method UpdatePatient(db: Database, id: int, data: Patient) returns (ok: bool)
    requires db.patients.Valid()
    modifies db`patients
    ensures db.patients.Valid()
    ensures ok <==>
      (Changes(old(db.patients), id, data) && db.patients == old(db.patients).Set(id, data) &&
       db.patients != old(db.patients))
    ensures !ok ==> db.patients == old(db.patients)
    ensures !Changes(old(db.patients), id, data) ==> !ok
  {
    var fails: bool := *;
    if fails {
      return false;
    }
    ok := Changes(db.patients, id, data);
    if !ok && id in db.patients.rows {
      // the statement rewrites the row with the values it already holds
      assert db.patients.rows[id := data] == db.patients.rows;
    }
    if ok {
      assert db.patients.Set(id, data).rows[id] != db.patients.rows[id];
    }
    db.patients := db.patients.Set(id, data);
  }

  /** `deletePatient`: true exactly when a row was removed. */
  method DeletePatient(db: Database, id: int) returns (ok: bool)
    requires db.patients.Valid()
    modifies db`patients
    ensures db.patients.Valid()
    ensures ok ==> id in old(db.patients.rows) && db.patients == old(db.patients).Delete(id)
    ensures !ok ==> db.patients == old(db.patients)
    ensures id !in old(db.patients.rows) ==> !ok
  {
    var fails: bool := *;
    if fails {
      return false;
    }
    if id in db.patients.rows {
      db.patients := db.patients.Delete(id);
      return true;
    }
    return false;
  }
}
