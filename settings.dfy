/** The administration endpoints of api/settings.php: user accounts with unique usernames
    and a last-administrator guard, treatment types and drugs that cannot be deleted while
    referenced, the single clinic-information row, and the key/value system settings
    written in one transaction. */
module Settings {
  import opened Php
  import opened Tables
  import opened Query
  import opened Schema

  // ---------------------------------------------------------------------------------------
  // Users
  // ---------------------------------------------------------------------------------------

  /** No two accounts share a username, compared as `WHERE username = ?` compares them
      (case-insensitively). */
  ghost predicate UsernamesUnique(t: Table<User>) {
    forall i, j :: i in t.rows && j in t.rows && SameText(t.rows[i].username, t.rows[j].username) ==> i == j
  }

  /** `SELECT COUNT(*) FROM users WHERE username = ? [AND id != ?]` is positive. */
  predicate UsernameTaken(t: Table<User>, name: string, except: Option<int>) {
    exists k :: k in t.rows && (except.None? || k != except.value) && SameText(t.rows[k].username, name)
  }

  /** `addUser`: username, password and role must all be non-empty; a taken username is a
      409; the stored password is its hash (a salted one-way function, so it is passed in). */
  method AddUser(db: Database, username: Option<string>, password: Option<string>, role: Option<string>,
                 passwordHash: string, now: int) returns (r: Reply<int>)
    requires db.users.Valid() && UsernamesUnique(db.users)
    modifies db`users
    ensures db.users.Valid() && UsernamesUnique(db.users)
    ensures r.Ok? || r == Err(BadRequest) || r == Err(Conflict) || r == Err(ServerError)
    ensures r == Err(BadRequest) <==> !(Filled(username) && Filled(password) && Filled(role))
    ensures r == Err(Conflict) ==> username.Some? && UsernameTaken(old(db.users), username.value, None)
    ensures Filled(username) && Filled(password) && Filled(role) && !UsernameTaken(old(db.users), username.value, None) ==>
      r.Ok? || r == Err(ServerError)
    ensures Filled(username) && Filled(password) && Filled(role) && UsernameTaken(old(db.users), username.value, None) ==>
      r == Err(Conflict) || r == Err(ServerError)
    ensures r.Ok? ==>
      username.Some? && role.Some? && !UsernameTaken(old(db.users), username.value, None) &&
      r.value == old(db.users.nextId) &&
      db.users == old(db.users).Insert(User(username.value, passwordHash, role.value, now))
    ensures !r.Ok? ==> db.users == old(db.users)
  {
    if !Filled(username) || !Filled(password) || !Filled(role) {
      return Err(BadRequest);
    }
    var fails: bool := *;
    if fails {
      return Err(ServerError);
    }
    if UsernameTaken(db.users, username.value, None) {
      return Err(Conflict);
    }
    fails := *;
    if fails {
      return Err(ServerError);
    }
    var id := db.users.nextId;
    db.users := db.users.Insert(User(username.value, passwordHash, role.value, now));
    return Ok(id);
  }

  /** The columns `updateUser` sets: each supplied one, the rest kept. */
  function EditedUser(u: User, username: Option<string>, passwordHash: Option<string>, role: Option<string>): User {
    u.(username := username.GetOr(u.username), passwordHash := passwordHash.GetOr(u.passwordHash), role := role.GetOr(u.role))
  }

  /** `UPDATE users SET ... WHERE id = ?`: nothing happens when there is no such user. */
  function EditUser(t: Table<User>, id: int, username: Option<string>, passwordHash: Option<string>, role: Option<string>)
    : (u: Table<User>)
    ensures u.rows.Keys == t.rows.Keys && u.nextId == t.nextId
    ensures forall k :: k in t.rows && k != id ==> u.rows[k] == t.rows[k]
    ensures id in t.rows ==>
      u.rows[id].username == username.GetOr(t.rows[id].username) &&
      u.rows[id].passwordHash == passwordHash.GetOr(t.rows[id].passwordHash) &&
      u.rows[id].role == role.GetOr(t.rows[id].role) &&
      u.rows[id].createdAt == t.rows[id].createdAt
  {
    if id in t.rows then t.Set(id, EditedUser(t.rows[id], username, passwordHash, role)) else t
  }

  /** `updateUser`: an id is required; a supplied username held by another account is a
      409; an empty password is ignored; nothing to set is a 400. The rowCount is not
      consulted, so an unknown id still answers 200. */
  method UpdateUser(db: Database, id: Option<int>, username: Option<string>, password: Option<string>,
                    role: Option<string>, passwordHash: string) returns (r: Reply<()>)
    requires db.users.Valid() && UsernamesUnique(db.users)
    modifies db`users
    ensures db.users.Valid() && UsernamesUnique(db.users)
    ensures r.Ok? || r == Err(BadRequest) || r == Err(Conflict) || r == Err(ServerError)
    ensures r == Err(BadRequest) <==> !TruthyId(id) || (username.None? && !Filled(password) && role.None?)
    ensures r == Err(Conflict) ==> id.Some? && username.Some? && UsernameTaken(old(db.users), username.value, id)
    ensures TruthyId(id) && username.Some? && UsernameTaken(old(db.users), username.value, id) ==>
      r == Err(Conflict) || r == Err(ServerError)
    ensures (TruthyId(id) && !(username.None? && !Filled(password) && role.None?) &&
             !(username.Some? && UsernameTaken(old(db.users), username.value, id))) ==>
      r.Ok? || r == Err(ServerError)
    ensures r.Ok? ==>
      id.Some? && !(username.Some? && UsernameTaken(old(db.users), username.value, id)) &&
      db.users == EditUser(old(db.users), id.value, username, if Filled(password) then Some(passwordHash) else None, role)
    ensures !r.Ok? ==> db.users == old(db.users)
  {
    if !TruthyId(id) {
      return Err(BadRequest);
    }
    if username.Some? {
      var fails: bool := *;
      if fails {
        return Err(ServerError);
      }
      if UsernameTaken(db.users, username.value, id) {
        return Err(Conflict);
      }
    }
    var hash := if Filled(password) then Some(passwordHash) else None;
    if username.None? && hash.None? && role.None? {
      return Err(BadRequest);
    }
    var fails: bool := *;
    if fails {
      return Err(ServerError);
    }
    db.users := EditUser(db.users, id.value, username, hash, role);
    return Ok(());
  }

  /** The accounts `SELECT COUNT(*) FROM users WHERE role = 'admin'` counts. */
  function Admins(t: Table<User>): set<int> {
    set k | k in t.rows && t.rows[k].role == "admin"
  }

  /** `deleteUser` refuses: the account is an administrator and at most one exists. */
  predicate LastAdmin(t: Table<User>, id: int) {
    id in t.rows && t.rows[id].role == "admin" && |Admins(t)| <= 1
  }

  /** `deleteUser`: an id is required; the last administrator is never deleted; 404 when no
      row was removed. */
  method DeleteUser(db: Database, id: Option<int>) returns (r: Reply<()>)
    requires db.users.Valid()
    modifies db`users
    ensures db.users.Valid()
    ensures r.Ok? || r == Err(BadRequest) || r == Err(NotFound) || r == Err(ServerError)
    ensures !TruthyId(id) ==> r == Err(BadRequest)
    ensures r == Err(BadRequest) ==> !TruthyId(id) || LastAdmin(old(db.users), id.value)
    ensures TruthyId(id) && LastAdmin(old(db.users), id.value) ==> r == Err(BadRequest) || r == Err(ServerError)
    ensures TruthyId(id) && !LastAdmin(old(db.users), id.value) && r != Err(ServerError) ==>
      (r.Ok? <==> id.value in old(db.users.rows)) && (r == Err(NotFound) <==> id.value !in old(db.users.rows))
    ensures r.Ok? ==> id.Some? && id.value in old(db.users.rows) && db.users == old(db.users).Delete(id.value)
    ensures r == Err(NotFound) ==> id.Some? && id.value !in old(db.users.rows)
    ensures !r.Ok? ==> db.users == old(db.users)
    ensures |Admins(old(db.users))| >= 1 ==> |Admins(db.users)| >= 1
  {
    if !TruthyId(id) {
      return Err(BadRequest);
    }
    var fails: bool := *;
    if fails {
      return Err(ServerError);
    }
    if LastAdmin(db.users, id.value) {
      return Err(BadRequest);
    }
    fails := *;
    if fails {
      return Err(ServerError);
    }
    if id.value !in db.users.rows {
      return Err(NotFound);
    }
    if |Admins(db.users)| >= 1 {
      DeleteKeepsAdmin(db.users, id.value);
    }
    db.users := db.users.Delete(id.value);
    return Ok(());
  }

  /** Deleting an account the guard lets through leaves an administrator behind. */
  lemma DeleteKeepsAdmin(t: Table<User>, id: int)
    requires !LastAdmin(t, id) && |Admins(t)| >= 1
    ensures |Admins(t.Delete(id))| >= 1
  {
    var a := Admins(t);
    var b := Admins(t.Delete(id));
    assert b == a - {id};
    if id in a {
      assert |a| >= 2;
      assert a == b + {id};
    } else {
      assert b == a;
    }
  }

  /** A set holding two distinct elements has at least two. */
  lemma TwoApart(a: set<int>, x: int, y: int)
    requires x in a && y in a && x != y
    ensures |a| >= 2
  {
    var b := a - {x};
    assert y in b;
    assert a == b + {x};
    assert b * {x} == {};
  }

  /** A role change has no such guard: demoting the only administrator leaves none. */
  lemma DemotingLastAdmin(t: Table<User>, id: int, role: string)
    requires id in t.rows && t.rows[id].role == "admin" && |Admins(t)| == 1 && role != "admin"
    ensures |Admins(EditUser(t, id, None, None, Some(role)))| == 0
  {
    var a := Admins(t);
    var b := Admins(EditUser(t, id, None, None, Some(role)));
    forall k | k in a
      ensures k == id
    {
      if k != id {
        TwoApart(a, k, id);
      }
    }
    assert b == a - {id};
    assert b == {};
  }

  // ---------------------------------------------------------------------------------------
  // Treatment types and drugs
  // ---------------------------------------------------------------------------------------

  /** Every treatment names a type that exists. */
  ghost predicate TypesResolved(treatments: Table<Treatment>, types: Table<TreatmentType>) {
    forall k :: k in treatments.rows ==> treatments.rows[k].typeId in types.rows
  }

  /** `SELECT COUNT(*) FROM treatments WHERE treatment_type_id = ?` is positive. */
  predicate TypeInUse(treatments: Table<Treatment>, typeId: int) {
    exists k :: k in treatments.rows && treatments.rows[k].typeId == typeId
  }

  /** `UPDATE treatment_types SET [name = ?][, default_cost = ?] WHERE id = ?`. */
  function EditType(t: Table<TreatmentType>, id: int, name: Option<string>, defaultCost: Option<real>)
    : (u: Table<TreatmentType>)
    ensures u.rows.Keys == t.rows.Keys && u.nextId == t.nextId
    ensures id in t.rows ==> u.rows[id] == TreatmentType(name.GetOr(t.rows[id].name), defaultCost.GetOr(t.rows[id].defaultCost))
    ensures forall k :: k in t.rows && k != id ==> u.rows[k] == t.rows[k]
  {
    if id in t.rows then t.Set(id, t.rows[id].(name := name.GetOr(t.rows[id].name), defaultCost := defaultCost.GetOr(t.rows[id].defaultCost)))
    else t
  }

  /** `updateTreatmentType`: an id and at least one column are required; the rowCount is not
      consulted. The set of types does not change, so no treatment loses its type. */
  method UpdateTreatmentType(db: Database, id: Option<int>, name: Option<string>, defaultCost: Option<real>)
    returns (r: Reply<()>)
    requires db.treatmentTypes.Valid()
    modifies db`treatmentTypes
    ensures db.treatmentTypes.Valid()
    ensures r == Err(BadRequest) <==> !TruthyId(id) || (name.None? && defaultCost.None?)
    ensures r.Ok? || r == Err(BadRequest) || r == Err(ServerError)
    ensures r.Ok? ==> id.Some? && db.treatmentTypes == EditType(old(db.treatmentTypes), id.value, name, defaultCost)
    ensures !r.Ok? ==> db.treatmentTypes == old(db.treatmentTypes)
    ensures TypesResolved(db.treatments, old(db.treatmentTypes)) ==> TypesResolved(db.treatments, db.treatmentTypes)
  {
    if !TruthyId(id) || (name.None? && defaultCost.None?) {
      return Err(BadRequest);
    }
    var fails: bool := *;
    if fails {
      return Err(ServerError);
    }
    db.treatmentTypes := EditType(db.treatmentTypes, id.value, name, defaultCost);
    return Ok(());
  }

  /** `deleteTreatmentType`: refused (400) while a treatment uses the type; 404 when no row
      was removed. No treatment is ever left pointing at a deleted type. */
  method DeleteTreatmentType(db: Database, id: Option<int>) returns (r: Reply<()>)
    requires db.treatmentTypes.Valid()
    modifies db`treatmentTypes
    ensures db.treatmentTypes.Valid()
    ensures r.Ok? || r == Err(BadRequest) || r == Err(NotFound) || r == Err(ServerError)
    ensures !TruthyId(id) ==> r == Err(BadRequest)
    ensures TruthyId(id) && TypeInUse(db.treatments, id.value) ==> r == Err(BadRequest) || r == Err(ServerError)
    ensures TruthyId(id) && !TypeInUse(db.treatments, id.value) && r != Err(ServerError) ==>
      (r.Ok? <==> id.value in old(db.treatmentTypes.rows)) && (r == Err(NotFound) <==> id.value !in old(db.treatmentTypes.rows))
    ensures r == Err(BadRequest) ==> !TruthyId(id) || TypeInUse(db.treatments, id.value)
    ensures r.Ok? ==>
      id.Some? && id.value in old(db.treatmentTypes.rows) && !TypeInUse(db.treatments, id.value) &&
      db.treatmentTypes == old(db.treatmentTypes).Delete(id.value)
    ensures r == Err(NotFound) ==> id.Some? && id.value !in old(db.treatmentTypes.rows)
    ensures !r.Ok? ==> db.treatmentTypes == old(db.treatmentTypes)
    ensures TypesResolved(db.treatments, old(db.treatmentTypes)) ==> TypesResolved(db.treatments, db.treatmentTypes)
  {
    if !TruthyId(id) {
      return Err(BadRequest);
    }
    var fails: bool := *;
    if fails {
      return Err(ServerError);
    }
    if TypeInUse(db.treatments, id.value) {
      return Err(BadRequest);
    }
    fails := *;
    if fails {
      return Err(ServerError);
    }
    if id.value !in db.treatmentTypes.rows {
      return Err(NotFound);
    }
    db.treatmentTypes := db.treatmentTypes.Delete(id.value);
    return Ok(());
  }

  /** Every prescription that names a drug names one that exists. */
  ghost predicate DrugsResolved(prescriptions: Table<Prescription>, drugs: Table<Drug>) {
    forall k :: k in prescriptions.rows && prescriptions.rows[k].drugId.Some? ==>
      prescriptions.rows[k].drugId.value in drugs.rows
  }

  /** `SELECT COUNT(*) FROM prescriptions WHERE drug_id = ?` is positive. */
  predicate DrugInUse(prescriptions: Table<Prescription>, drugId: int) {
    exists k :: k in prescriptions.rows && prescriptions.rows[k].drugId == Some(drugId)
  }

  /** `UPDATE drugs SET [name = ?][, dosage_options = ?] WHERE id = ?`; the dosage options
      arrive already JSON-encoded. */
  function EditDrug(t: Table<Drug>, id: int, name: Option<string>, dosageOptions: Option<string>): (u: Table<Drug>)
    ensures u.rows.Keys == t.rows.Keys && u.nextId == t.nextId
    ensures id in t.rows ==>
      u.rows[id] == Drug(name.GetOr(t.rows[id].name), if dosageOptions.Some? then dosageOptions else t.rows[id].dosageOptions)
    ensures forall k :: k in t.rows && k != id ==> u.rows[k] == t.rows[k]
  {
    if id in t.rows then
      t.Set(id, t.rows[id].(name := name.GetOr(t.rows[id].name),
                            dosageOptions := if dosageOptions.Some? then dosageOptions else t.rows[id].dosageOptions))
    else t
  }

  /** `updateDrug`: an id and at least one column are required; the rowCount is not consulted. */
  method UpdateDrug(db: Database, id: Option<int>, name: Option<string>, dosageOptions: Option<string>)
    returns (r: Reply<()>)
    requires db.drugs.Valid()
    modifies db`drugs
    ensures db.drugs.Valid()
    ensures r == Err(BadRequest) <==> !TruthyId(id) || (name.None? && dosageOptions.None?)
    ensures r.Ok? || r == Err(BadRequest) || r == Err(ServerError)
    ensures r.Ok? ==> id.Some? && db.drugs == EditDrug(old(db.drugs), id.value, name, dosageOptions)
    ensures !r.Ok? ==> db.drugs == old(db.drugs)
    ensures DrugsResolved(db.prescriptions, old(db.drugs)) ==> DrugsResolved(db.prescriptions, db.drugs)
  {
    if !TruthyId(id) || (name.None? && dosageOptions.None?) {
      return Err(BadRequest);
    }
    var fails: bool := *;
    if fails {
      return Err(ServerError);
    }
    db.drugs := EditDrug(db.drugs, id.value, name, dosageOptions);
    return Ok(());
  }

  /** `deleteDrug`: refused (400) while a prescription names the drug; 404 when no row was
      removed. No prescription is ever left pointing at a deleted drug. */
  method DeleteDrug(db: Database, id: Option<int>) returns (r: Reply<()>)
    requires db.drugs.Valid()
    modifies db`drugs
    ensures db.drugs.Valid()
    ensures r.Ok? || r == Err(BadRequest) || r == Err(NotFound) || r == Err(ServerError)
    ensures !TruthyId(id) ==> r == Err(BadRequest)
    ensures TruthyId(id) && DrugInUse(db.prescriptions, id.value) ==> r == Err(BadRequest) || r == Err(ServerError)
    ensures TruthyId(id) && !DrugInUse(db.prescriptions, id.value) && r != Err(ServerError) ==>
      (r.Ok? <==> id.value in old(db.drugs.rows)) && (r == Err(NotFound) <==> id.value !in old(db.drugs.rows))
    ensures r == Err(BadRequest) ==> !TruthyId(id) || DrugInUse(db.prescriptions, id.value)
    ensures r.Ok? ==>
      id.Some? && id.value in old(db.drugs.rows) && !DrugInUse(db.prescriptions, id.value) &&
      db.drugs == old(db.drugs).Delete(id.value)
    ensures r == Err(NotFound) ==> id.Some? && id.value !in old(db.drugs.rows)
    ensures !r.Ok? ==> db.drugs == old(db.drugs)
    ensures DrugsResolved(db.prescriptions, old(db.drugs)) ==> DrugsResolved(db.prescriptions, db.drugs)
  {
    if !TruthyId(id) {
      return Err(BadRequest);
    }
    var fails: bool := *;
    if fails {
      return Err(ServerError);
    }
    if DrugInUse(db.prescriptions, id.value) {
      return Err(BadRequest);
    }
    fails := *;
    if fails {
      return Err(ServerError);
    }
    if id.value !in db.drugs.rows {
      return Err(NotFound);
    }
    db.drugs := db.drugs.Delete(id.value);
    return Ok(());
  }

  // ---------------------------------------------------------------------------------------
  // Clinic information
  // ---------------------------------------------------------------------------------------

  /** What `getClinicInfo` answers when no row exists. */
  const NoClinicInfo := ClinicInfo("", "", "", "", "", "")

  /** `getClinicInfo`: `SELECT * FROM clinic_info LIMIT 1`, the first row in primary-key
      order, or all-empty defaults when the table is empty. */
  function GetClinicInfo(t: Table<ClinicInfo>, fails: bool): (r: Reply<ClinicInfo>)
    ensures fails <==> r == Err(ServerError)
    ensures r.Ok? || r.Err?
    ensures !fails && t.rows == map[] ==> r == Ok(NoClinicInfo)
    ensures !fails && t.rows != map[] && t.Valid() ==>
      r.Ok? && exists k :: k in t.rows && t.rows[k] == r.value && forall j :: j in t.rows ==> k <= j
  {
    ScanContents(t.rows, t.nextId);
    if fails then Err(ServerError)
    else if Rows(t) == [] then
      assert t.Valid() ==> t.rows == map[] by {
        if t.Valid() {
          RowsExact(t);
          assert forall j :: j !in t.rows;
        }
      }
      Ok(NoClinicInfo)
    else
      var first := Rows(t)[0];
      assert t.Valid() ==> first.id in t.rows && t.rows[first.id] == first.val && forall j :: j in t.rows ==> first.id <= j by {
        if t.Valid() {
          RowsExact(t);
          forall j | j in t.rows
            ensures first.id <= j
          {
            var i :| 0 <= i < |Rows(t)| && Rows(t)[i] == Row(j, t.rows[j]);
            assert i == 0 || Rows(t)[0].id < Rows(t)[i].id;
          }
        }
      }
      Ok(first.val)
  }

  /** The fields `updateClinicInfo` reads from the body; `None` is an absent or null key. */
  datatype ClinicInput = ClinicInput(
    name: Option<string>,
    address: Option<string>,
    phone: Option<string>,
    email: Option<string>,
    doctorName: Option<string>,
    specialization: Option<string>)
  {
    predicate NoFields() {
      name.None? && address.None? && phone.None? && email.None? && doctorName.None? && specialization.None?
    }
  }

  /** Each supplied field replaces the stored one. */
  function PatchedInfo(c: ClinicInfo, input: ClinicInput): (d: ClinicInfo)
    ensures input.NoFields() ==> d == c
  {
    ClinicInfo(
      input.name.GetOr(c.name), input.address.GetOr(c.address), input.phone.GetOr(c.phone),
      input.email.GetOr(c.email), input.doctorName.GetOr(c.doctorName), input.specialization.GetOr(c.specialization))
  }

  /** The table after `updateClinicInfo`: with a row present, `UPDATE clinic_info SET ...`
      without a WHERE clause patches every row; with none, one row is inserted with each
      missing field as ''. */
  function SavedInfo(t: Table<ClinicInfo>, input: ClinicInput): Table<ClinicInfo> {
    if t.rows != map[] then Table(map k | k in t.rows :: PatchedInfo(t.rows[k], input), t.nextId)
    else t.Insert(PatchedInfo(NoClinicInfo, input))
  }

  /** `updateClinicInfo`. */
  method UpdateClinicInfo(db: Database, input: ClinicInput) returns (r: Reply<()>)
    requires db.clinicInfo.Valid()
    modifies db`clinicInfo
    ensures db.clinicInfo.Valid()
    ensures r.Ok? || r == Err(ServerError)
    ensures r.Ok? ==> db.clinicInfo == SavedInfo(old(db.clinicInfo), input)
    ensures !r.Ok? ==> db.clinicInfo == old(db.clinicInfo)
  {
    var fails: bool := *;
    if fails {
      return Err(ServerError);
    }
    if db.clinicInfo.rows != map[] {
      if !input.NoFields() {
        fails := *;
        if fails {
          return Err(ServerError);
        }
        db.clinicInfo := SavedInfo(db.clinicInfo, input);
      } else {
        var u := SavedInfo(db.clinicInfo, input);
        forall k | k in db.clinicInfo.rows
          ensures u.rows[k] == db.clinicInfo.rows[k]
        {
          assert PatchedInfo(db.clinicInfo.rows[k], input) == db.clinicInfo.rows[k];
        }
        assert u.rows == db.clinicInfo.rows;
      }
    } else {
      fails := *;
      if fails {
        return Err(ServerError);
      }
      db.clinicInfo := SavedInfo(db.clinicInfo, input);
    }
    return Ok(());
  }

  /** With at most one row stored, saving leaves exactly one: this path never creates a second. */
  lemma SavedInfoSingle(t: Table<ClinicInfo>, input: ClinicInput)
    requires t.Valid() && |t.rows| <= 1
    ensures SavedInfo(t, input).Valid() && |SavedInfo(t, input).rows| == 1
  {
    var u := SavedInfo(t, input);
    if t.rows != map[] {
      assert u.rows.Keys == t.rows.Keys;
      assert |t.rows.Keys| != 0;
    } else {
      assert u.rows == map[t.nextId := PatchedInfo(NoClinicInfo, input)];
    }
  }

  /** The only row of a single-row table is what `LIMIT 1` returns. */
  lemma OnlyRow(t: Table<ClinicInfo>, k: int)
    requires t.Valid() && t.rows.Keys == {k}
    ensures GetClinicInfo(t, false) == Ok(t.rows[k])
  {
    var r := GetClinicInfo(t, false);
    var k' :| k' in t.rows && t.rows[k'] == r.value && forall j :: j in t.rows ==> k' <= j;
    assert k' in t.rows.Keys;
  }

  /** Reading after saving returns the stored (or default) information with every supplied
      field replaced. */
  lemma ClinicInfoReadBack(t: Table<ClinicInfo>, input: ClinicInput)
    requires t.Valid() && |t.rows| <= 1
    ensures GetClinicInfo(t, false).Ok?
    ensures GetClinicInfo(SavedInfo(t, input), false) == Ok(PatchedInfo(GetClinicInfo(t, false).value, input))
  {
    var u := SavedInfo(t, input);
    SavedInfoSingle(t, input);
    if t.rows == map[] {
      assert u.rows.Keys == {t.nextId};
      OnlyRow(u, t.nextId);
    } else {
      var k :| k in t.rows && t.rows[k] == GetClinicInfo(t, false).value && forall j :: j in t.rows ==> k <= j;
      assert t.rows.Keys == {k} by {
        forall j | j in t.rows
          ensures j == k
        {
          if j != k {
            TwoApart(t.rows.Keys, j, k);
          }
        }
      }
      OnlyRow(t, k);
      assert u.rows.Keys == {k};
      OnlyRow(u, k);
    }
  }

  // ---------------------------------------------------------------------------------------
  // System settings
  // ---------------------------------------------------------------------------------------

  /** `getSystemSettings`: the rows folded into a key => value array, a later row
      overwriting an earlier one with the same key. */
  function SettingsMap(rs: seq<Row<Setting>>): (m: map<string, string>)
    ensures forall key :: key in m <==> exists i :: 0 <= i < |rs| && rs[i].val.key == key
  {
    if rs == [] then map[]
    else
      var last := rs[|rs| - 1];
      var m := SettingsMap(rs[..|rs| - 1]);
      assert forall i :: 0 <= i < |rs| - 1 ==> rs[..|rs| - 1][i] == rs[i];
      m[last.val.key := last.val.value]
  }

  function GetSystemSettings(t: Table<Setting>, fails: bool): (r: Reply<map<string, string>>)
    ensures fails <==> r == Err(ServerError)
    ensures r.Ok? || r.Err?
    ensures r.Ok? && t.Valid() ==> forall key :: key in r.value <==> exists k :: k in t.rows && t.rows[k].key == key
    ensures r.Ok? && t.Valid() && UniqueKeys(t) ==> Reads(t, r.value)
  {
    if fails then Err(ServerError)
    else
      var m := SettingsMap(Rows(t));
      assert t.Valid() ==> forall key :: key in m <==> exists k :: k in t.rows && t.rows[k].key == key by {
        if t.Valid() {
          RowsExact(t);
          forall key
            ensures key in m <==> exists k :: k in t.rows && t.rows[k].key == key
          {
            if key in m {
              var i :| 0 <= i < |Rows(t)| && Rows(t)[i].val.key == key;
              assert Rows(t)[i].id in t.rows;
            } else {
              forall k | k in t.rows
                ensures t.rows[k].key != key
              {
                var i :| 0 <= i < |Rows(t)| && Rows(t)[i] == Row(k, t.rows[k]);
              }
            }
          }
        }
      }
      assert t.Valid() && UniqueKeys(t) ==> Reads(t, m) by {
        if t.Valid() && UniqueKeys(t) {
          SettingsRead(t);
        }
      }
      Ok(m)
  }

  /** The map `getSystemSettings` would answer for table `t`: every stored key, each with its
      row's value. */
  ghost predicate Reads(t: Table<Setting>, m: map<string, string>) {
    (forall k :: k in t.rows ==> t.rows[k].key in m && m[t.rows[k].key] == t.rows[k].value) &&
    (forall key :: key in m ==> exists k :: k in t.rows && t.rows[k].key == key)
  }

  /** A later row with a key already folded overwrites it, so with distinct keys every row's
      value survives. */
  lemma {:induction false} SettingsMapDistinct(rs: seq<Row<Setting>>)
    requires forall i, j :: 0 <= i < j < |rs| ==> rs[i].val.key != rs[j].val.key
    ensures forall i :: 0 <= i < |rs| ==> SettingsMap(rs)[rs[i].val.key] == rs[i].val.value
  {
    if rs != [] {
      var init := rs[..|rs| - 1];
      SettingsMapDistinct(init);
      forall i | 0 <= i < |rs|
        ensures SettingsMap(rs)[rs[i].val.key] == rs[i].val.value
      {
        if i < |rs| - 1 {
          assert init[i] == rs[i];
        }
      }
    }
  }

  /** Under the UNIQUE index on setting_key, `getSystemSettings` answers exactly the stored
      key/value pairs, whatever the scan order. */
  lemma SettingsRead(t: Table<Setting>)
    requires t.Valid() && UniqueKeys(t)
    ensures Reads(t, SettingsMap(Rows(t)))
  {
    var rs := Rows(t);
    RowsExact(t);
    SettingsMapDistinct(rs);
    var m := SettingsMap(rs);
    forall k | k in t.rows
      ensures t.rows[k].key in m && m[t.rows[k].key] == t.rows[k].value
    {
      var i :| 0 <= i < |rs| && rs[i] == Row(k, t.rows[k]);
    }
    forall key | key in m
      ensures exists k :: k in t.rows && t.rows[k].key == key
    {
      var i :| 0 <= i < |rs| && rs[i].val.key == key;
      assert rs[i].id in t.rows;
    }
  }

  /** `Reads` fixes the map. */
  lemma ReadsUnique(t: Table<Setting>, m1: map<string, string>, m2: map<string, string>)
    requires Reads(t, m1) && Reads(t, m2)
    ensures m1 == m2
  {
    forall key | key in m1
      ensures key in m2 && m1[key] == m2[key]
    {
      var k :| k in t.rows && t.rows[k].key == key;
    }
    forall key | key in m2
      ensures key in m1
    {
      var k :| k in t.rows && t.rows[k].key == key;
    }
  }

  /** The id of the row holding `key` among ids below `n`, if any. */
  function KeyIndex(rows: map<int, Setting>, n: nat, key: string): (r: Option<int>)
    ensures r.Some? ==> r.value in rows && rows[r.value].key == key
    ensures r.None? ==> forall k :: k in rows && 0 <= k < n ==> rows[k].key != key
  {
    if n == 0 then None
    else if n - 1 in rows && rows[n - 1].key == key then Some(n - 1)
    else KeyIndex(rows, n - 1, key)
  }

  /** `INSERT INTO system_settings (setting_key, setting_value) VALUES (?, ?)
      ON DUPLICATE KEY UPDATE setting_value = VALUES(setting_value)`. */
  function Upsert(t: Table<Setting>, key: string, value: string): Table<Setting> {
    match KeyIndex(t.rows, t.nextId, key)
    case Some(k) => t.Set(k, Setting(key, value))
    case None => t.Insert(Setting(key, value))
  }

  /** Overwriting the value of the row that holds `key`. */
  lemma UpsertExisting(t: Table<Setting>, m: map<string, string>, k0: int, key: string, value: string)
    requires UniqueKeys(t) && Reads(t, m) && k0 in t.rows && t.rows[k0].key == key
    ensures UniqueKeys(t.Set(k0, Setting(key, value)))
    ensures Reads(t.Set(k0, Setting(key, value)), m[key := value])
  {
    var u := t.Set(k0, Setting(key, value));
    var m' := m[key := value];
    assert u.rows == t.rows[k0 := Setting(key, value)];
    forall k | k in u.rows
      ensures u.rows[k].key in m' && m'[u.rows[k].key] == u.rows[k].value
    {
      if k != k0 {
        assert t.rows[k].key != key;
      }
    }
    forall key' | key' in m'
      ensures exists k :: k in u.rows && u.rows[k].key == key'
    {
      if key' == key {
        assert u.rows[k0].key == key;
      } else {
        var k :| k in t.rows && t.rows[k].key == key';
        assert u.rows[k].key == key';
      }
    }
  }

  /** Inserting a row for a key no row holds. */
  lemma UpsertNew(t: Table<Setting>, m: map<string, string>, key: string, value: string)
    requires t.Valid() && UniqueKeys(t) && Reads(t, m)
    requires forall k :: k in t.rows ==> t.rows[k].key != key
    ensures t.Insert(Setting(key, value)).Valid() && UniqueKeys(t.Insert(Setting(key, value)))
    ensures Reads(t.Insert(Setting(key, value)), m[key := value])
  {
    var u := t.Insert(Setting(key, value));
    var m' := m[key := value];
    assert u.rows == t.rows[t.nextId := Setting(key, value)];
    forall key' | key' in m'
      ensures exists k :: k in u.rows && u.rows[k].key == key'
    {
      if key' == key {
        assert u.rows[t.nextId].key == key;
      } else {
        var k :| k in t.rows && t.rows[k].key == key';
        assert u.rows[k].key == key';
      }
    }
  }

  /** One upsert keeps the index unique and changes the read map at `key` only. */
  lemma UpsertRead(t: Table<Setting>, m: map<string, string>, key: string, value: string)
    requires t.Valid() && UniqueKeys(t) && Reads(t, m)
    ensures Upsert(t, key, value).Valid() && UniqueKeys(Upsert(t, key, value))
    ensures Reads(Upsert(t, key, value), m[key := value])
  {
    match KeyIndex(t.rows, t.nextId, key)
    case Some(k0) =>
      UpsertExisting(t, m, k0, key, value);
    case None =>
      UpsertNew(t, m, key, value);
  }

  /** `foreach ($input as $key => $value)` over the decoded body: a later pair with the same
      key replaces an earlier one, as in a PHP array. */
  function InputMap(kvs: seq<(string, string)>): (m: map<string, string>)
    ensures forall key :: key in m <==> exists i :: 0 <= i < |kvs| && kvs[i].0 == key
  {
    if kvs == [] then map[]
    else
      var init := kvs[..|kvs| - 1];
      assert forall i :: 0 <= i < |init| ==> init[i] == kvs[i];
      InputMap(init)[kvs[|kvs| - 1].0 := kvs[|kvs| - 1].1]
  }

  /** The first `n` pairs upserted in order. */
  function UpsertAll(t: Table<Setting>, kvs: seq<(string, string)>, n: nat): Table<Setting>
    requires n <= |kvs|
  {
    if n == 0 then t else Upsert(UpsertAll(t, kvs, n - 1), kvs[n - 1].0, kvs[n - 1].1)
  }

  /** The next pair overrides the array built from the earlier ones. */
  lemma InputMapSnoc(kvs: seq<(string, string)>, n: nat)
    requires 0 < n <= |kvs|
    ensures InputMap(kvs[..n]) == InputMap(kvs[..n - 1])[kvs[n - 1].0 := kvs[n - 1].1]
  {
    assert kvs[..n][..n - 1] == kvs[..n - 1];
  }

  /** Overriding a merged map at one key is overriding its right-hand side there. */
  lemma MergeUpdate(m: map<string, string>, a: map<string, string>, key: string, value: string)
    ensures (m + a)[key := value] == m + a[key := value]
  {
  }

  /** Upserting the first `n` pairs reads as the old map overridden by those pairs. */
  lemma {:induction false} UpsertAllRead(t: Table<Setting>, m: map<string, string>, kvs: seq<(string, string)>, n: nat)
    requires t.Valid() && UniqueKeys(t) && Reads(t, m) && n <= |kvs|
    ensures UpsertAll(t, kvs, n).Valid() && UniqueKeys(UpsertAll(t, kvs, n))
    ensures Reads(UpsertAll(t, kvs, n), m + InputMap(kvs[..n]))
  {
    if n == 0 {
      assert kvs[..0] == [];
      assert m + InputMap([]) == m;
    } else {
      UpsertAllRead(t, m, kvs, n - 1);
      UpsertRead(UpsertAll(t, kvs, n - 1), m + InputMap(kvs[..n - 1]), kvs[n - 1].0, kvs[n - 1].1);
      InputMapSnoc(kvs, n);
      MergeUpdate(m, InputMap(kvs[..n - 1]), kvs[n - 1].0, kvs[n - 1].1);
    }
  }

  /** After the pairs are upserted, `getSystemSettings` answers the old settings with every
      input key mapped to its input value and every other key unchanged. */
  lemma UpdateThenRead(t: Table<Setting>, kvs: seq<(string, string)>)
    requires t.Valid() && UniqueKeys(t)
    ensures UpsertAll(t, kvs, |kvs|).Valid() && UniqueKeys(UpsertAll(t, kvs, |kvs|))
    ensures SettingsMap(Rows(UpsertAll(t, kvs, |kvs|))) == SettingsMap(Rows(t)) + InputMap(kvs)
  {
    var u := UpsertAll(t, kvs, |kvs|);
    SettingsRead(t);
    UpsertAllRead(t, SettingsMap(Rows(t)), kvs, |kvs|);
    assert kvs[..|kvs|] == kvs;
    SettingsRead(u);
    ReadsUnique(u, SettingsMap(Rows(u)), SettingsMap(Rows(t)) + InputMap(kvs));
  }

  /** `updateSystemSettings`: every pair upserted inside one transaction; a store error rolls
      every write back and answers 500. */
  method UpdateSystemSettings(db: Database, kvs: seq<(string, string)>) returns (r: Reply<()>)
    requires db.settings.Valid() && UniqueKeys(db.settings)
    modifies db`settings
    ensures db.settings.Valid() && UniqueKeys(db.settings)
    ensures r.Ok? || r == Err(ServerError)
    ensures r.Ok? ==> db.settings == UpsertAll(old(db.settings), kvs, |kvs|)
    ensures !r.Ok? ==> db.settings.rows == old(db.settings.rows)
  {
    var t0 := db.settings;
    var fails: bool := *;
    if fails {
      return Err(ServerError);
    }
    var i := 0;
    while i < |kvs|
      invariant 0 <= i <= |kvs|
      invariant db.settings == UpsertAll(t0, kvs, i)
      invariant db.settings.Valid() && UniqueKeys(db.settings) && db.settings.nextId >= t0.nextId
    {
      fails := *;
      if fails {
        db.settings := db.settings.RolledBack(t0);
        return Err(ServerError);
      }
      SettingsRead(db.settings);
      UpsertRead(db.settings, SettingsMap(Rows(db.settings)), kvs[i].0, kvs[i].1);
      db.settings := Upsert(db.settings, kvs[i].0, kvs[i].1);
      i := i + 1;
    }
    fails := *;
    if fails {
      db.settings := db.settings.RolledBack(t0);
      return Err(ServerError);
    }
    return Ok(());
  }
}
