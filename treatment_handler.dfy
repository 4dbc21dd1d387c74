/** The session engine of api/treatment_handler.php: catalog reads (treatment types, the
    steps of a type, canal types), the one-transaction `addSession` that records a visit
    with its treatments, their steps and the optional working length of each step, and the
    GET/POST dispatch in front of them. */
module TreatmentHandler {
  import opened Php
  import opened Tables
  import opened Query
  import opened Schema

  /** One element of a treatment's `steps_data`. */
  datatype StepInput = StepInput(stepId: int, notes: Option<string>, workingLength: Json, canalTypeId: Json)

  /** One element of the `treatments` list. Money keys absent from the request are `None`. */
  datatype TreatmentInput = TreatmentInput(
    toothNumber: int,
    typeId: int,
    cost: Option<real>,
    additionalCost: Option<real>,
    discount: Option<real>,
    notes: Option<string>,
    steps: seq<StepInput>)

  // ---------------------------------------------------------------------------
  // Catalog reads; a store error yields an empty list
  // ---------------------------------------------------------------------------

  function TypeName(): Row<TreatmentType> -> string {
    (x: Row<TreatmentType>) => x.val.name
  }

  function CanalName(): Row<CanalType> -> string {
    (x: Row<CanalType>) => x.val.name
  }

  function StepOrder(): Row<TreatmentStep> -> int {
    (x: Row<TreatmentStep>) => x.val.stepOrder
  }

  function OfType(typeId: int): Row<TreatmentStep> -> bool {
    (x: Row<TreatmentStep>) => x.val.typeId == typeId
  }

  /** `SELECT * FROM treatment_types ORDER BY name`. */
  function GetTreatmentTypes(t: Table<TreatmentType>, fails: bool): (r: seq<Row<TreatmentType>>)
    ensures fails ==> r == []
    ensures !fails ==> multiset(r) == multiset(Rows(t)) && Sorted(r, ByText(TypeName()))
  {
    ByTextTotalPreorder(TypeName());
    if fails then [] else SortBy(Rows(t), ByText(TypeName()))
  }

  /** `SELECT * FROM canal_types ORDER BY name`. */
  function GetCanalTypes(t: Table<CanalType>, fails: bool): (r: seq<Row<CanalType>>)
    ensures fails ==> r == []
    ensures !fails ==> multiset(r) == multiset(Rows(t)) && Sorted(r, ByText(CanalName()))
  {
    ByTextTotalPreorder(CanalName());
    if fails then [] else SortBy(Rows(t), ByText(CanalName()))
  }

  /** `SELECT * FROM treatment_steps WHERE treatment_type_id = ? ORDER BY step_order`. */
  function GetTreatmentSteps(t: Table<TreatmentStep>, typeId: int, fails: bool): (r: seq<Row<TreatmentStep>>)
    ensures fails ==> r == []
    ensures !fails ==> Sorted(r, ByInt(StepOrder()))
    ensures !fails ==> forall x :: x in r <==> x in Rows(t) && x.val.typeId == typeId
    ensures forall i, j :: 0 <= i < j < |r| ==> r[i].id != r[j].id
  {
    ByIntTotalPreorder(StepOrder());
    if fails then []
    else
      var r := SortBy(Filter(Rows(t), OfType(typeId)), ByInt(StepOrder()));
      assert forall x :: x in r <==> x in Rows(t) && x.val.typeId == typeId by {
        forall x
          ensures x in r <==> x in Rows(t) && x.val.typeId == typeId
        {
          SortByMembers(Filter(Rows(t), OfType(typeId)), ByInt(StepOrder()), x);
          FilterMembers(Rows(t), OfType(typeId), x);
          assert OfType(typeId)(x) == (x.val.typeId == typeId);
        }
      }
      SortFilterDistinct(Rows(t), OfType(typeId), ByInt(StepOrder()), RowId());
      r
  }

  /** What a GET answers with. */
  datatype Listing =
    | TypeList(types: seq<Row<TreatmentType>>)
    | StepList(steps: seq<Row<TreatmentStep>>)
    | CanalList(canals: seq<Row<CanalType>>)

  /** The GET dispatch on `action`. A missing or falsy `treatment_type_id` and an unknown
      action answer 400; the reads themselves never fail the request. */
  function HandleGet(action: string, typeId: Option<int>, types: Table<TreatmentType>,
                     steps: Table<TreatmentStep>, canals: Table<CanalType>, fails: bool): (r: Reply<Listing>)
    ensures r.Ok? <==> action == "get_treatment_types" || action == "get_canal_types"
                       || (action == "get_treatment_steps" && TruthyId(typeId))
    ensures !r.Ok? ==> r == Err(BadRequest)
    ensures action == "get_treatment_types" ==> r == Ok(TypeList(GetTreatmentTypes(types, fails)))
    ensures action == "get_canal_types" ==> r == Ok(CanalList(GetCanalTypes(canals, fails)))
    ensures r.Ok? && action == "get_treatment_steps" ==>
      r.value == StepList(GetTreatmentSteps(steps, typeId.value, fails))
  {
    if action == "get_treatment_types" then Ok(TypeList(GetTreatmentTypes(types, fails)))
    else if action == "get_treatment_steps" then
      if TruthyId(typeId) then Ok(StepList(GetTreatmentSteps(steps, typeId.value, fails)))
      else Err(BadRequest)
    else if action == "get_canal_types" then Ok(CanalList(GetCanalTypes(canals, fails)))
    else Err(BadRequest)
  }

  // ---------------------------------------------------------------------------
  // The rows addSession writes, as functions of its input
  // ---------------------------------------------------------------------------

  /** The treatments row written for one input treatment of session `sid`. */
  function TreatmentValue(sid: int, t: TreatmentInput): Treatment {
    Treatment(sid, t.toothNumber, t.typeId, t.cost, t.additionalCost, t.discount, t.notes)
  }

  /** The treatments rows of the first `n` input treatments. */
  function TreatmentValues(sid: int, ts: seq<TreatmentInput>, n: nat): seq<Treatment>
    requires n <= |ts|
  {
    if n == 0 then [] else TreatmentValues(sid, ts, n - 1) + [TreatmentValue(sid, ts[n - 1])]
  }

  /** The treatment_details row of one step: step_notes defaults to ''. */
  function StepDetail(tid: int, s: StepInput): TreatmentDetail {
    TreatmentDetail(tid, s.stepId, Some(s.notes.GetOr("")), None)
  }

  /** The treatment_details rows of one treatment, one per step. */
  function StepDetails(tid: int, steps: seq<StepInput>): (r: seq<TreatmentDetail>)
    ensures |r| == |steps|
  {
    if steps == [] then [] else StepDetails(tid, steps[..|steps| - 1]) + [StepDetail(tid, steps[|steps| - 1])]
  }

  /** The treatment_details rows of the first `n` treatments; treatment i has id t0 + i. */
  function DetailValues(t0: int, ts: seq<TreatmentInput>, n: nat): seq<TreatmentDetail>
    requires n <= |ts|
  {
    if n == 0 then [] else DetailValues(t0, ts, n - 1) + StepDetails(t0 + n - 1, ts[n - 1].steps)
  }

  /** The steps of the first `n` treatments, in the order the loops visit them. */
  function AllSteps(ts: seq<TreatmentInput>, n: nat): seq<StepInput>
    requires n <= |ts|
  {
    if n == 0 then [] else AllSteps(ts, n - 1) + ts[n - 1].steps
  }

  /** The working-length rule: `working_length` is set and not empty, and `canal_type_id` is truthy. */
  predicate RecordsLength(s: StepInput) {
    !Empty(s.workingLength) && Truthy(s.canalTypeId)
  }

  /** The working_lengths rows for `steps`, whose detail rows have ids d0, d0 + 1, .... */
  function LengthValues(d0: int, steps: seq<StepInput>): seq<WorkingLength> {
    if steps == [] then []
    else
      var s := steps[|steps| - 1];
      LengthValues(d0, steps[..|steps| - 1])
        + (if RecordsLength(s) then [WorkingLength(d0 + |steps| - 1, s.canalTypeId, s.workingLength)] else [])
  }

  // ---------------------------------------------------------------------------
  // Properties of those rows
  // ---------------------------------------------------------------------------

  /** One treatments row per input treatment, in order, each pointing at the session. */
  lemma {:induction false} TreatmentsOfSession(sid: int, ts: seq<TreatmentInput>, n: nat)
    requires n <= |ts|
    ensures |TreatmentValues(sid, ts, n)| == n
    ensures forall k :: 0 <= k < n ==> TreatmentValues(sid, ts, n)[k] == TreatmentValue(sid, ts[k])
    ensures forall k :: 0 <= k < n ==> TreatmentValues(sid, ts, n)[k].sessionId == sid
  {
    if n > 0 {
      TreatmentsOfSession(sid, ts, n - 1);
    }
  }

  /** One detail row per step, across the treatments. */
  lemma {:induction false} DetailCount(t0: int, ts: seq<TreatmentInput>, n: nat)
    requires n <= |ts|
    ensures |DetailValues(t0, ts, n)| == |AllSteps(ts, n)|
  {
    if n > 0 {
      DetailCount(t0, ts, n - 1);
    }
  }

  lemma {:induction false} LengthValuesAppend(d0: int, a: seq<StepInput>, b: seq<StepInput>)
    ensures LengthValues(d0, a + b) == LengthValues(d0, a) + LengthValues(d0 + |a|, b)
    decreases |b|
  {
    if b == [] {
      assert a + b == a;
    } else {
      var b' := b[..|b| - 1];
      assert (a + b)[..|a + b| - 1] == a + b';
      LengthValuesAppend(d0, a, b');
    }
  }

  /** Step k of treatment i is stored at position |AllSteps(ts, i)| + k of the detail rows,
      pointing at treatment id t0 + i. */
  lemma {:induction false} DetailAt(t0: int, ts: seq<TreatmentInput>, n: nat, i: nat, k: nat)
    requires i < n <= |ts| && k < |ts[i].steps|
    ensures |AllSteps(ts, i)| + k < |DetailValues(t0, ts, n)|
    ensures DetailValues(t0, ts, n)[|AllSteps(ts, i)| + k] == StepDetail(t0 + i, ts[i].steps[k])
  {
    var p := DetailValues(t0, ts, n - 1);
    var q := StepDetails(t0 + n - 1, ts[n - 1].steps);
    var x := |AllSteps(ts, i)| + k;
    assert DetailValues(t0, ts, n) == p + q;
    DetailCount(t0, ts, n - 1);
    if i < n - 1 {
      DetailAt(t0, ts, n - 1, i, k);
      assert (p + q)[x] == p[x];
    } else {
      StepDetailAt(t0 + n - 1, ts[n - 1].steps, k);
      assert (p + q)[x] == q[k];
    }
  }

  /** The k-th detail row of a treatment is its k-th step. */
  lemma {:induction false} StepDetailAt(tid: int, steps: seq<StepInput>, k: nat)
    requires k < |steps|
    ensures StepDetails(tid, steps)[k] == StepDetail(tid, steps[k])
    decreases |steps|
  {
    if k < |steps| - 1 {
      StepDetailAt(tid, steps[..|steps| - 1], k);
    }
  }

  /** Every detail row of one treatment points at it. */
  lemma {:induction false} StepDetailsPoint(tid: int, steps: seq<StepInput>)
    ensures forall j :: 0 <= j < |steps| ==> StepDetails(tid, steps)[j].treatmentId == tid
  {
    forall j | 0 <= j < |steps|
      ensures StepDetails(tid, steps)[j].treatmentId == tid
    {
      StepDetailAt(tid, steps, j);
    }
  }

  /** Every detail row of the first n treatments points at one of their ids, t0 .. t0 + n - 1. */
  lemma {:induction false} DetailsPointBelow(t0: int, ts: seq<TreatmentInput>, n: nat)
    requires n <= |ts|
    ensures forall j :: 0 <= j < |DetailValues(t0, ts, n)| ==>
      t0 <= DetailValues(t0, ts, n)[j].treatmentId < t0 + n
  {
    if n > 0 {
      DetailsPointBelow(t0, ts, n - 1);
      StepDetailsPoint(t0 + n - 1, ts[n - 1].steps);
    }
  }

  /** A working-length row exists for the step whose detail id is d0 + j exactly when the
      step satisfies the rule, and then it holds that step's canal type and length. */
  lemma {:induction false} LengthRule(d0: int, steps: seq<StepInput>, j: int)
    requires 0 <= j < |steps|
    ensures (exists w :: w in LengthValues(d0, steps) && w.detailId == d0 + j) <==> RecordsLength(steps[j])
    ensures RecordsLength(steps[j]) ==>
      WorkingLength(d0 + j, steps[j].canalTypeId, steps[j].workingLength) in LengthValues(d0, steps)
    decreases |steps|
  {
    var n := |steps| - 1;
    LengthsBelow(d0, steps[..n]);
    if j < n {
      LengthRule(d0, steps[..n], j);
    }
  }

  /** Every working-length row points at a detail id in [d0, d0 + |steps|) whose step satisfies the rule. */
  lemma {:induction false} LengthsBelow(d0: int, steps: seq<StepInput>)
    ensures forall w :: w in LengthValues(d0, steps) ==>
      d0 <= w.detailId < d0 + |steps| && RecordsLength(steps[w.detailId - d0])
    decreases |steps|
  {
    if steps != [] {
      var n := |steps| - 1;
      LengthsBelow(d0, steps[..n]);
    }
  }

  lemma StepsSnoc(tid: int, d0: int, steps: seq<StepInput>, j: int)
    requires 0 <= j < |steps|
    ensures StepDetails(tid, steps[..j + 1]) == StepDetails(tid, steps[..j]) + [StepDetail(tid, steps[j])]
    ensures RecordsLength(steps[j]) ==>
      LengthValues(d0, steps[..j + 1]) == LengthValues(d0, steps[..j]) + [WorkingLength(d0 + j, steps[j].canalTypeId, steps[j].workingLength)]
    ensures !RecordsLength(steps[j]) ==> LengthValues(d0, steps[..j + 1]) == LengthValues(d0, steps[..j])
  {
    assert steps[..j + 1][..j] == steps[..j];
    assert LengthValues(d0, steps[..j]) + [] == LengthValues(d0, steps[..j]);
  }

  // ---------------------------------------------------------------------------
  // addSession
  // ---------------------------------------------------------------------------

  /** The four tables after a committed addSession that created session `sid`. */
  ghost predicate SessionAdded(
    s0: Table<Session>, t0: Table<Treatment>, d0: Table<TreatmentDetail>, w0: Table<WorkingLength>,
    s1: Table<Session>, t1: Table<Treatment>, d1: Table<TreatmentDetail>, w1: Table<WorkingLength>,
    patientId: int, doctorId: int, now: int, ts: seq<TreatmentInput>, sid: int)
  {
    sid == s0.nextId &&
    s1 == s0.Insert(Session(patientId, doctorId, now, Some(""))) &&
    t1 == InsertAll(t0, TreatmentValues(sid, ts, |ts|)) &&
    d1 == InsertAll(d0, DetailValues(t0.nextId, ts, |ts|)) &&
    w1 == InsertAll(w0, LengthValues(d0.nextId, AllSteps(ts, |ts|)))
  }

  /** The body of the inner loop: one step's detail row and, when the rule holds, its
      working length. `ok` is false when a statement failed. */
  method InsertStep(db: Database, tid: int, step: StepInput) returns (ok: bool)
    requires db.treatmentDetails.Valid() && db.workingLengths.Valid()
    modifies db`treatmentDetails, db`workingLengths
    ensures db.treatmentDetails.Valid() && db.workingLengths.Valid()
    ensures db.treatmentDetails.nextId >= old(db.treatmentDetails.nextId)
    ensures db.workingLengths.nextId >= old(db.workingLengths.nextId)
    ensures ok ==> db.treatmentDetails == old(db.treatmentDetails).Insert(StepDetail(tid, step))
    ensures ok && RecordsLength(step) ==>
      db.workingLengths == old(db.workingLengths).Insert(WorkingLength(old(db.treatmentDetails.nextId), step.canalTypeId, step.workingLength))
    ensures ok && !RecordsLength(step) ==> db.workingLengths == old(db.workingLengths)
  {
    var fails: bool := *;
    if fails {
      return false;
    }
    var detailId := db.treatmentDetails.nextId;
    db.treatmentDetails := db.treatmentDetails.Insert(StepDetail(tid, step));
    if !Empty(step.workingLength) {
      fails := *;
      if fails {
        return false;
      }
      var canal := step.canalTypeId;
      if Truthy(canal) {
        fails := *;
        if fails {
          return false;
        }
        db.workingLengths := db.workingLengths.Insert(WorkingLength(detailId, canal, step.workingLength));
      }
    }
    return true;
  }

  /** One more step of the inner loop, stated on the tables the loop holds. */
  lemma StepAdvance(d0: Table<TreatmentDetail>, w0: Table<WorkingLength>, tid: int, steps: seq<StepInput>, j: int,
                    d: Table<TreatmentDetail>, w: Table<WorkingLength>)
    requires 0 <= j < |steps|
    requires d == InsertAll(d0, StepDetails(tid, steps[..j]))
    requires w == InsertAll(w0, LengthValues(d0.nextId, steps[..j]))
    ensures d.nextId == d0.nextId + j
    ensures d.Insert(StepDetail(tid, steps[j])) == InsertAll(d0, StepDetails(tid, steps[..j + 1]))
    ensures RecordsLength(steps[j]) ==>
      w.Insert(WorkingLength(d.nextId, steps[j].canalTypeId, steps[j].workingLength)) == InsertAll(w0, LengthValues(d0.nextId, steps[..j + 1]))
    ensures !RecordsLength(steps[j]) ==> w == InsertAll(w0, LengthValues(d0.nextId, steps[..j + 1]))
  {
    StepsSnoc(tid, d0.nextId, steps, j);
    InsertAllOne(d0, StepDetails(tid, steps[..j]), StepDetail(tid, steps[j]));
    InsertAllOne(w0, LengthValues(d0.nextId, steps[..j]), WorkingLength(d0.nextId + j, steps[j].canalTypeId, steps[j].workingLength));
  }

  /** The inner loop over one treatment's steps. `ok` is false when a statement failed; the
      caller then rolls the whole transaction back. */
  method InsertSteps(db: Database, tid: int, steps: seq<StepInput>) returns (ok: bool)
    requires db.treatmentDetails.Valid() && db.workingLengths.Valid()
    modifies db`treatmentDetails, db`workingLengths
    ensures db.treatmentDetails.Valid() && db.workingLengths.Valid()
    ensures db.treatmentDetails.nextId >= old(db.treatmentDetails.nextId)
    ensures db.workingLengths.nextId >= old(db.workingLengths.nextId)
    ensures ok ==> db.treatmentDetails == InsertAll(old(db.treatmentDetails), StepDetails(tid, steps))
    ensures ok ==> db.workingLengths == InsertAll(old(db.workingLengths), LengthValues(old(db.treatmentDetails.nextId), steps))
  {
    ghost var d0 := db.treatmentDetails;
    ghost var w0 := db.workingLengths;
    var j := 0;
    while j < |steps|
      invariant 0 <= j <= |steps|
      invariant db.treatmentDetails.Valid() && db.workingLengths.Valid()
      invariant db.treatmentDetails == InsertAll(d0, StepDetails(tid, steps[..j]))
      invariant db.workingLengths == InsertAll(w0, LengthValues(d0.nextId, steps[..j]))
    {
      StepAdvance(d0, w0, tid, steps, j, db.treatmentDetails, db.workingLengths);
      ok := InsertStep(db, tid, steps[j]);
      if !ok {
        return false;
      }
      j := j + 1;
    }
    assert steps[..j] == steps;
    return true;
  }

  /** One more treatment of the outer loop, for the treatments table. */
  lemma TreatmentRowAdvance(t0: Table<Treatment>, sid: int, ts: seq<TreatmentInput>, i: nat, t: Table<Treatment>)
    requires i < |ts|
    requires t == InsertAll(t0, TreatmentValues(sid, ts, i))
    ensures t.nextId == t0.nextId + i
    ensures t.Insert(TreatmentValue(sid, ts[i])) == InsertAll(t0, TreatmentValues(sid, ts, i + 1))
  {
    TreatmentsOfSession(sid, ts, i);
    InsertAllOne(t0, TreatmentValues(sid, ts, i), TreatmentValue(sid, ts[i]));
  }

  /** One more treatment of the outer loop, for the treatment_details table. */
  lemma DetailRowsAdvance(t0: int, d0: Table<TreatmentDetail>, ts: seq<TreatmentInput>, i: nat, d: Table<TreatmentDetail>, tid: int)
    requires i < |ts|
    requires d == InsertAll(d0, DetailValues(t0, ts, i))
    requires tid == t0 + i
    ensures d.nextId == d0.nextId + |AllSteps(ts, i)|
    ensures InsertAll(d, StepDetails(tid, ts[i].steps)) == InsertAll(d0, DetailValues(t0, ts, i + 1))
  {
    DetailCount(t0, ts, i);
    InsertAllAppend(d0, DetailValues(t0, ts, i), StepDetails(tid, ts[i].steps));
  }

  /** One more treatment of the outer loop, for the working_lengths table; `dn` is the next
      detail id when the treatment's steps start. */
  lemma LengthRowsAdvance(d0: int, w0: Table<WorkingLength>, ts: seq<TreatmentInput>, i: nat, w: Table<WorkingLength>, dn: int)
    requires i < |ts|
    requires w == InsertAll(w0, LengthValues(d0, AllSteps(ts, i)))
    requires dn == d0 + |AllSteps(ts, i)|
    ensures InsertAll(w, LengthValues(dn, ts[i].steps)) == InsertAll(w0, LengthValues(d0, AllSteps(ts, i + 1)))
  {
    LengthValuesAppend(d0, AllSteps(ts, i), ts[i].steps);
    InsertAllAppend(w0, LengthValues(d0, AllSteps(ts, i)), LengthValues(dn, ts[i].steps));
  }

  /** The body of the outer loop: one treatment row pointing at session `sid`, then its
      steps when `steps_data` is not empty. `ok` is false when a statement failed. */
  method InsertTreatment(db: Database, sid: int, t: TreatmentInput) returns (ok: bool)
    requires db.treatments.Valid() && db.treatmentDetails.Valid() && db.workingLengths.Valid()
    modifies db`treatments, db`treatmentDetails, db`workingLengths
    ensures db.treatments.Valid() && db.treatmentDetails.Valid() && db.workingLengths.Valid()
    ensures db.treatments.nextId >= old(db.treatments.nextId)
    ensures db.treatmentDetails.nextId >= old(db.treatmentDetails.nextId)
    ensures db.workingLengths.nextId >= old(db.workingLengths.nextId)
    ensures ok ==> db.treatments == old(db.treatments).Insert(TreatmentValue(sid, t))
    ensures ok ==> db.treatmentDetails == InsertAll(old(db.treatmentDetails), StepDetails(old(db.treatments.nextId), t.steps))
    ensures ok ==> db.workingLengths == InsertAll(old(db.workingLengths), LengthValues(old(db.treatmentDetails.nextId), t.steps))
  {
    var fails: bool := *;
    if fails {
      return false;
    }
    var tid := db.treatments.nextId;
    db.treatments := db.treatments.Insert(TreatmentValue(sid, t));
    if |t.steps| > 0 {
      ok := InsertSteps(db, tid, t.steps);
    } else {
      ok := true;
    }
  }

  /** `TreatmentHandler::addSession`: one transaction that inserts the session (notes '',
      session_date from the column default, here `now`), then each treatment pointing at it,
      then each step's detail row and, when the rule holds, its working length. On commit it
      answers the new session id; after any failed statement it rolls back and answers false. */
  method AddSession(db: Database, patientId: int, doctorId: int, now: int, ts: seq<TreatmentInput>) returns (r: Option<int>)
    requires db.sessions.Valid() && db.treatments.Valid() && db.treatmentDetails.Valid() && db.workingLengths.Valid()
    modifies db`sessions, db`treatments, db`treatmentDetails, db`workingLengths
    ensures db.sessions.Valid() && db.treatments.Valid() && db.treatmentDetails.Valid() && db.workingLengths.Valid()
    ensures r.Some? ==> SessionAdded(
      old(db.sessions), old(db.treatments), old(db.treatmentDetails), old(db.workingLengths),
      db.sessions, db.treatments, db.treatmentDetails, db.workingLengths,
      patientId, doctorId, now, ts, r.value)
    ensures r.None? ==>
      db.sessions.rows == old(db.sessions.rows) && db.treatments.rows == old(db.treatments.rows) &&
      db.treatmentDetails.rows == old(db.treatmentDetails.rows) && db.workingLengths.rows == old(db.workingLengths.rows)
  {
    var s0, t0, d0, w0 := db.sessions, db.treatments, db.treatmentDetails, db.workingLengths;
    var fails: bool := *;
    if fails {
      return None;
    }
    var sid := db.sessions.nextId;
    db.sessions := db.sessions.Insert(Session(patientId, doctorId, now, Some("")));
    var i := 0;
    while i < |ts|
      invariant 0 <= i <= |ts|
      invariant db.sessions.Valid() && db.treatments.Valid() && db.treatmentDetails.Valid() && db.workingLengths.Valid()
      invariant db.sessions == s0.Insert(Session(patientId, doctorId, now, Some(""))) && sid == s0.nextId
      invariant db.treatments == InsertAll(t0, TreatmentValues(sid, ts, i))
      invariant db.treatmentDetails == InsertAll(d0, DetailValues(t0.nextId, ts, i))
      invariant db.workingLengths == InsertAll(w0, LengthValues(d0.nextId, AllSteps(ts, i)))
    {
      TreatmentRowAdvance(t0, sid, ts, i, db.treatments);
      DetailRowsAdvance(t0.nextId, d0, ts, i, db.treatmentDetails, db.treatments.nextId);
      LengthRowsAdvance(d0.nextId, w0, ts, i, db.workingLengths, db.treatmentDetails.nextId);
      var ok := InsertTreatment(db, sid, ts[i]);
      if !ok {
        RollBack(db, s0, t0, d0, w0);
        return None;
      }
      i := i + 1;
    }
    return Some(sid);
  }

  /** `ROLLBACK`: the rows of the four tables return to the snapshot; AUTO_INCREMENT keeps
      the ids the transaction consumed. */
  method RollBack(db: Database, s0: Table<Session>, t0: Table<Treatment>, d0: Table<TreatmentDetail>, w0: Table<WorkingLength>)
    requires db.sessions.Valid() && db.treatments.Valid() && db.treatmentDetails.Valid() && db.workingLengths.Valid()
    requires s0.Valid() && t0.Valid() && d0.Valid() && w0.Valid()
    requires db.sessions.nextId >= s0.nextId && db.treatments.nextId >= t0.nextId
    requires db.treatmentDetails.nextId >= d0.nextId && db.workingLengths.nextId >= w0.nextId
    modifies db`sessions, db`treatments, db`treatmentDetails, db`workingLengths
    ensures db.sessions.Valid() && db.treatments.Valid() && db.treatmentDetails.Valid() && db.workingLengths.Valid()
    ensures db.sessions.rows == s0.rows && db.treatments.rows == t0.rows
    ensures db.treatmentDetails.rows == d0.rows && db.workingLengths.rows == w0.rows
  {
    db.sessions := db.sessions.RolledBack(s0);
    db.treatments := db.treatments.RolledBack(t0);
    db.treatmentDetails := db.treatmentDetails.RolledBack(d0);
    db.workingLengths := db.workingLengths.RolledBack(w0);
  }

  /** POST with `action`: only `add_session` is known; it needs patient_id, doctor_id and
      treatments to be set, else 400 with nothing written; a false result answers 500. */
  method HandlePost(db: Database, action: Option<string>, patientId: Option<int>, doctorId: Option<int>,
                    treatments: Option<seq<TreatmentInput>>, now: int) returns (r: Reply<int>)
    requires db.sessions.Valid() && db.treatments.Valid() && db.treatmentDetails.Valid() && db.workingLengths.Valid()
    modifies db`sessions, db`treatments, db`treatmentDetails, db`workingLengths
    ensures db.sessions.Valid() && db.treatments.Valid() && db.treatmentDetails.Valid() && db.workingLengths.Valid()
    ensures (action != Some("add_session") || patientId.None? || doctorId.None? || treatments.None?) <==> r == Err(BadRequest)
    ensures r == Err(BadRequest) ==> unchanged(db`sessions, db`treatments, db`treatmentDetails, db`workingLengths)
    ensures r.Ok? ==> SessionAdded(
      old(db.sessions), old(db.treatments), old(db.treatmentDetails), old(db.workingLengths),
      db.sessions, db.treatments, db.treatmentDetails, db.workingLengths,
      patientId.value, doctorId.value, now, treatments.value, r.value)
    ensures r == Err(ServerError) ==>
      db.sessions.rows == old(db.sessions.rows) && db.treatments.rows == old(db.treatments.rows) &&
      db.treatmentDetails.rows == old(db.treatmentDetails.rows) && db.workingLengths.rows == old(db.workingLengths.rows)
    ensures r.Ok? || r == Err(BadRequest) || r == Err(ServerError)
  {
    if action != Some("add_session") || patientId.None? || doctorId.None? || treatments.None? {
      return Err(BadRequest);
    }
    var result := AddSession(db, patientId.value, doctorId.value, now, treatments.value);
    if result.Some? {
      r := Ok(result.value);
    } else {
      r := Err(ServerError);
    }
  }
}
