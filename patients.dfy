/** The patients endpoint, api/patients.php: GET lists or searches the directory, POST adds
    a patient, PUT rewrites one and DELETE removes one, each through `PatientHandler`. The
    `id` query parameter is read with `intval`, absent meaning 0. */
module Patients {
  import opened Php
  import opened Tables
  import opened Schema
  import opened PatientHandler

  /** `isset($_GET['id']) ? intval($_GET['id']) : 0`. */
  function ParseId(param: Option<string>): (id: int)
    ensures param.None? ==> id == 0
    ensures PHP_INT_MIN <= id <= PHP_INT_MAX
  {
    if param.None? then 0 else Intval(param.value)
  }

  /** A decimal id in the query string is the id the endpoint works on. */
  lemma ParseIdDecimal(n: nat)
    requires n <= PHP_INT_MAX
    ensures ParseId(Some(DecimalString(n))) == n
  {
    IntvalReadsDecimal(n);
  }

  /** One entry of the drug list the `get_drugs` action answers with. */
  datatype ListedDrug = ListedDrug(id: int, name: string, dosageOptions: string)

  /** The fixed list `get_drugs` answers; it does not come from the store. */
  const FixedDrugs: seq<ListedDrug> := [
    ListedDrug(1, "أموكسيسيلين 500mg", "[\"bid\", \"tid\"]"),
    ListedDrug(2, "إيبوبروفين 400mg", "[\"bid\", \"tid\", \"qid\"]"),
    ListedDrug(3, "باراسيتامول 500mg", "[\"bid\", \"tid\", \"qid\"]")
  ]

  /** What a GET answers: patient rows, or the fixed drug list. */
  datatype Listing = PatientList(patients: seq<Row<Patient>>) | DrugList(drugs: seq<ListedDrug>)

  /** The term a GET searches for, if any: `term` for the `search` action, otherwise a
      non-empty `search_query`; `None` lists every patient. */
  function SearchTerm(action: Option<string>, term: Option<string>, searchQuery: Option<string>): (q: Option<string>)
    requires action != Some("get_drugs") && !(action == Some("search") && term.None?)
    ensures action == Some("search") ==> q == term
    ensures action != Some("search") ==> (q.Some? <==> Filled(searchQuery)) && (q.Some? ==> q == searchQuery)
  {
    if action == Some("search") then term
    else if Filled(searchQuery) then searchQuery
    else None
  }

  /** GET: the `search` action needs `term` (400 without it); `get_drugs` answers the fixed
      list; any other action, or none, searches `search_query` when it is non-empty and
      lists every patient otherwise. A store error is hidden: the answer is 200 with no rows. */
  function HandleGet(action: Option<string>, term: Option<string>, searchQuery: Option<string>,
                     patients: Table<Patient>, fails: bool): (r: Reply<Listing>)
    ensures r == Err(BadRequest) <==> action == Some("search") && term.None?
    ensures r.Ok? <==> r != Err(BadRequest)
    ensures action == Some("get_drugs") ==> r == Ok(DrugList(FixedDrugs))
    ensures r.Ok? && action != Some("get_drugs") ==> r.value.PatientList?
    ensures r.Ok? && r.value.PatientList? ==>
      var q := SearchTerm(action, term, searchQuery);
      r.value.patients == if q.Some? then SearchPatients(patients, q.value, fails) else GetPatients(patients, fails)
    ensures r.Ok? && r.value.PatientList? && fails ==> r.value.patients == []
    ensures r.Ok? && r.value.PatientList? ==>
      forall i, j :: 0 <= i < j < |r.value.patients| ==> r.value.patients[i].id > r.value.patients[j].id
  {
    if action == Some("get_drugs") then Ok(DrugList(FixedDrugs))
    else if action == Some("search") && term.None? then Err(BadRequest)
    else
      match SearchTerm(action, term, searchQuery)
      case Some(q) => Ok(PatientList(SearchPatients(patients, q, fails)))
      case None => Ok(PatientList(GetPatients(patients, fails)))
  }

  /** Without a search, GET lists exactly the stored patients. */
  lemma ListingIsDirectory(action: Option<string>, searchQuery: Option<string>, patients: Table<Patient>, x: Row<Patient>)
    requires patients.Valid() && action != Some("get_drugs") && action != Some("search") && !Filled(searchQuery)
    ensures HandleGet(action, None, searchQuery, patients, false).Ok?
    ensures x in HandleGet(action, None, searchQuery, patients, false).value.patients <==>
      x.id in patients.rows && x.val == patients.rows[x.id]
  {
  }

  /** The checks POST and PUT make on the decoded body: it decoded to something, and
      first_name and phone_number are non-empty. */
  predicate ValidBody(body: Option<Patient>) {
    body.Some? && Filled(body.value.firstName) && Filled(body.value.phoneNumber)
  }

  /** POST: 400 for an invalid body; 201 once the row is inserted; 500 on a store error. */
  method HandlePost(db: Database, body: Option<Patient>) returns (r: Reply<()>)
    requires db.patients.Valid()
    modifies db`patients
    ensures db.patients.Valid()
    ensures r == Err(BadRequest) <==> !ValidBody(body)
    ensures r.Created? || r == Err(BadRequest) || r == Err(ServerError)
    ensures r.Created? ==> db.patients == old(db.patients).Insert(body.value)
    ensures !r.Created? ==> db.patients == old(db.patients)
  {
    if !ValidBody(body) {
      return Err(BadRequest);
    }
    var ok := AddPatient(db, body.value);
    if ok {
      return Created(());
    }
    return Err(ServerError);
  }

  /** A patient POST creates is listed first by a following plain GET. */
  lemma PostedListedFirst(patients: Table<Patient>, data: Patient)
    requires patients.Valid()
    ensures HandleGet(None, None, None, patients.Insert(data), false) == Ok(PatientList(GetPatients(patients.Insert(data), false)))
    ensures GetPatients(patients.Insert(data), false) != []
    ensures GetPatients(patients.Insert(data), false)[0] == Row(patients.nextId, data)
  {
    AddedPatientFirst(patients, data);
  }

  /** PUT: a non-positive id or an invalid body is a 400; 200 when the row changed; 404
      when the id is unknown, nothing changed, or the store failed. */
  method HandlePut(db: Database, idParam: Option<string>, body: Option<Patient>) returns (r: Reply<()>)
    requires db.patients.Valid()
    modifies db`patients
    ensures db.patients.Valid()
    ensures r == Err(BadRequest) <==> ParseId(idParam) <= 0 || !ValidBody(body)
    ensures r.Ok? || r == Err(BadRequest) || r == Err(NotFound)
    ensures r.Ok? ==>
      Changes(old(db.patients), ParseId(idParam), body.value) &&
      db.patients == old(db.patients).Set(ParseId(idParam), body.value)
    ensures !r.Ok? ==> db.patients == old(db.patients)
    ensures ParseId(idParam) > 0 && ValidBody(body) && !Changes(old(db.patients), ParseId(idParam), body.value) ==>
      r == Err(NotFound)
  {
    var id := ParseId(idParam);
    if id <= 0 || !ValidBody(body) {
      return Err(BadRequest);
    }
    var ok := UpdatePatient(db, id, body.value);
    if ok {
      return Ok(());
    }
    return Err(NotFound);
  }

  /** DELETE: a non-positive id is a 400; 200 when a row was removed, 404 otherwise. */
  method HandleDelete(db: Database, idParam: Option<string>) returns (r: Reply<()>)
    requires db.patients.Valid()
    modifies db`patients
    ensures db.patients.Valid()
    ensures r == Err(BadRequest) <==> ParseId(idParam) <= 0
    ensures r.Ok? || r == Err(BadRequest) || r == Err(NotFound)
    ensures r.Ok? ==> ParseId(idParam) in old(db.patients.rows) && db.patients == old(db.patients).Delete(ParseId(idParam))
    ensures !r.Ok? ==> db.patients == old(db.patients)
    ensures ParseId(idParam) > 0 && ParseId(idParam) !in old(db.patients.rows) ==> r == Err(NotFound)
  {
    var id := ParseId(idParam);
    if id <= 0 {
      return Err(BadRequest);
    }
    var ok := DeletePatient(db, id);
    if ok {
      return Ok(());
    }
    return Err(NotFound);
  }

  /** After a successful DELETE the patient is no longer listed. */
  lemma DeletedNotListed(patients: Table<Patient>, id: int, x: Row<Patient>)
    requires patients.Valid()
    requires x in GetPatients(patients.Delete(id), false)
    ensures x.id != id && x in GetPatients(patients, false)
  {
  }
}
