/** The ledger of api/financial.php: a patient's balance (the discounted charges of the
    treatments of the patient's sessions, less the patient's payments), the payment and
    invoice listings, adding, updating and deleting payments, and appending invoices.
    DECIMAL(12,2) amounts are exact `real`s. */
module Financial {
  import opened Php
  import opened Tables
  import opened Query
  import opened Schema

  // ---------------------------------------------------------------------------
  // The balance
  // ---------------------------------------------------------------------------

  /** One treatment's term of the charge sum:
      `(cost + COALESCE(additional_cost, 0)) - (cost + COALESCE(additional_cost, 0)) * (COALESCE(discount, 0) / 100)`.
      A NULL cost makes the term NULL, which SUM skips: it weighs 0. */
  function Charge(t: Treatment): (c: real)
    ensures t.cost.None? ==> c == 0.0
    ensures t.cost.Some? && (t.discount.None? || t.discount == Some(0.0)) ==>
      c == t.cost.value + t.additionalCost.GetOr(0.0)
    ensures t.cost.Some? && t.discount == Some(100.0) ==> c == 0.0
  {
    match t.cost
    case None => 0.0
    case Some(cost) =>
      var gross := cost + t.additionalCost.GetOr(0.0);
      gross - gross * (t.discount.GetOr(0.0) / 100.0)
  }

  /** With non-negative amounts and a discount between 0 and 100 percent, the charge lies
      between 0 and the undiscounted price. */
  lemma ChargeBounds(t: Treatment)
    requires t.cost.Some? && t.cost.value >= 0.0 && t.additionalCost.GetOr(0.0) >= 0.0
    requires 0.0 <= t.discount.GetOr(0.0) <= 100.0
    ensures 0.0 <= Charge(t) <= t.cost.value + t.additionalCost.GetOr(0.0)
  {
    var gross := t.cost.value + t.additionalCost.GetOr(0.0);
    var f := t.discount.GetOr(0.0) / 100.0;
    assert 0.0 <= f <= 1.0;
    assert Charge(t) == gross * (1.0 - f);
    assert gross * 1.0 - gross * (1.0 - f) == gross * f;
  }

  /** The weight of a treatment in `... FROM treatments t JOIN sessions s ON t.session_id = s.id
      WHERE s.patient_id = ?`: its charge when its session belongs to the patient, else 0. */
  function ChargeTo(sessions: map<int, Session>, patientId: int): Treatment -> real {
    (t: Treatment) => if t.sessionId in sessions && sessions[t.sessionId].patientId == patientId then Charge(t) else 0.0
  }

  /** The weight of a payment in `SELECT COALESCE(SUM(amount), 0) FROM payments WHERE patient_id = ?`. */
  function PaidBy(patientId: int): Payment -> real {
    (p: Payment) => if p.patientId == patientId then p.amount else 0.0
  }

  function TotalCharge(treatments: Table<Treatment>, sessions: Table<Session>, patientId: int): real {
    SumOver(Rows(treatments), ChargeTo(sessions.rows, patientId))
  }

  function TotalPaid(payments: Table<Payment>, patientId: int): real {
    SumOver(Rows(payments), PaidBy(patientId))
  }

  /** `getPatientBalance`: total charge minus total payments. Invoices are not read. */
  function Balance(treatments: Table<Treatment>, sessions: Table<Session>, payments: Table<Payment>, patientId: int): real {
    TotalCharge(treatments, sessions, patientId) - TotalPaid(payments, patientId)
  }

  /** A patient with no payments and no treatment in any of their sessions owes nothing:
      both sums fall back to 0. */
  lemma BalanceOfNewPatient(treatments: Table<Treatment>, sessions: Table<Session>, payments: Table<Payment>, patientId: int)
    requires treatments.Valid() && payments.Valid()
    requires forall k :: k in payments.rows ==> payments.rows[k].patientId != patientId
    requires forall k :: k in treatments.rows ==>
      var s := treatments.rows[k].sessionId; s !in sessions.rows || sessions.rows[s].patientId != patientId
    ensures Balance(treatments, sessions, payments, patientId) == 0.0
  {
    RowsExact(treatments);
    RowsExact(payments);
    SumZero(Rows(treatments), ChargeTo(sessions.rows, patientId));
    SumZero(Rows(payments), PaidBy(patientId));
  }

  /** Recording a payment lowers exactly its payer's balance, by its amount. */
  lemma BalanceAfterPayment(treatments: Table<Treatment>, sessions: Table<Session>, payments: Table<Payment>,
                            p: Payment, patientId: int)
    requires payments.Valid()
    ensures Balance(treatments, sessions, payments.Insert(p), patientId)
         == Balance(treatments, sessions, payments, patientId) - (if p.patientId == patientId then p.amount else 0.0)
  {
    SumRowsInsert(payments, p, PaidBy(patientId));
  }

  /** Deleting a payment raises its payer's balance by its amount; a missing id changes nothing. */
  lemma BalanceAfterPaymentDeleted(treatments: Table<Treatment>, sessions: Table<Session>, payments: Table<Payment>,
                                   id: int, patientId: int)
    requires payments.Valid()
    ensures Balance(treatments, sessions, payments.Delete(id), patientId)
         == Balance(treatments, sessions, payments, patientId) +
            (if id in payments.rows && payments.rows[id].patientId == patientId then payments.rows[id].amount else 0.0)
  {
    SumRowsDelete(payments, id, PaidBy(patientId));
  }

  /** Changing a payment's amount shifts its payer's balance by the difference; notes and
      payment method do not matter. */
  lemma BalanceAfterPaymentChanged(treatments: Table<Treatment>, sessions: Table<Session>, payments: Table<Payment>,
                                   id: int, q: Payment, patientId: int)
    requires payments.Valid()
    requires id in payments.rows && q.patientId == payments.rows[id].patientId
    ensures Balance(treatments, sessions, payments.Set(id, q), patientId)
         == Balance(treatments, sessions, payments, patientId) -
            (if q.patientId == patientId then q.amount - payments.rows[id].amount else 0.0)
  {
    SumRowsSet(payments, id, q, PaidBy(patientId));
  }

  /** A new treatment in one of the patient's sessions raises the balance by its charge; in
      another patient's session it changes nothing. */
  lemma BalanceAfterTreatment(treatments: Table<Treatment>, sessions: Table<Session>, payments: Table<Payment>,
                              t: Treatment, patientId: int)
    requires treatments.Valid()
    ensures Balance(treatments.Insert(t), sessions, payments, patientId)
         == Balance(treatments, sessions, payments, patientId) +
            (if t.sessionId in sessions.rows && sessions.rows[t.sessionId].patientId == patientId then Charge(t) else 0.0)
  {
    SumRowsInsert(treatments, t, ChargeTo(sessions.rows, patientId));
  }

  // ---------------------------------------------------------------------------
  // Listings and the GET dispatch
  // ---------------------------------------------------------------------------

  function PaymentOf(patientId: int): Row<Payment> -> bool {
    (x: Row<Payment>) => x.val.patientId == patientId
  }

  function PaymentTime(): Row<Payment> -> int {
    (x: Row<Payment>) => x.val.createdAt
  }

  function InvoiceOf(patientId: int): Row<Invoice> -> bool {
    (x: Row<Invoice>) => x.val.patientId == patientId
  }

  function InvoiceTime(): Row<Invoice> -> int {
    (x: Row<Invoice>) => x.val.createdAt
  }

  /** `SELECT * FROM payments WHERE patient_id = ? ORDER BY created_at DESC`. */
  function PatientPayments(payments: Table<Payment>, patientId: int): (r: seq<Row<Payment>>)
    ensures forall x :: x in r <==> x in Rows(payments) && x.val.patientId == patientId
    ensures forall i, j :: 0 <= i < j < |r| ==> r[i].val.createdAt >= r[j].val.createdAt
    ensures forall i, j :: 0 <= i < j < |r| ==> r[i].id != r[j].id
  {
    ByIntTotalPreorder(PaymentTime());
    FlipTotalPreorder(ByInt(PaymentTime()));
    var r := SortBy(Filter(Rows(payments), PaymentOf(patientId)), Flip(ByInt(PaymentTime())));
    assert forall x :: x in r <==> x in Rows(payments) && x.val.patientId == patientId by {
      forall x
        ensures x in r <==> x in Rows(payments) && x.val.patientId == patientId
      {
        SortByMembers(Filter(Rows(payments), PaymentOf(patientId)), Flip(ByInt(PaymentTime())), x);
        FilterMembers(Rows(payments), PaymentOf(patientId), x);
      }
    }
    assert forall i, j :: 0 <= i < j < |r| ==> r[i].val.createdAt >= r[j].val.createdAt by {
      forall i, j | 0 <= i < j < |r|
        ensures r[i].val.createdAt >= r[j].val.createdAt
      {
        assert Flip(ByInt(PaymentTime()))(r[i], r[j]);
      }
    }
    SortFilterDistinct(Rows(payments), PaymentOf(patientId), Flip(ByInt(PaymentTime())), RowId());
    r
  }

  /** `SELECT * FROM invoices WHERE patient_id = ? ORDER BY created_at DESC`. */
  function PatientInvoices(invoices: Table<Invoice>, patientId: int): (r: seq<Row<Invoice>>)
    ensures forall x :: x in r <==> x in Rows(invoices) && x.val.patientId == patientId
    ensures forall i, j :: 0 <= i < j < |r| ==> r[i].val.createdAt >= r[j].val.createdAt
    ensures forall i, j :: 0 <= i < j < |r| ==> r[i].id != r[j].id
  {
    ByIntTotalPreorder(InvoiceTime());
    FlipTotalPreorder(ByInt(InvoiceTime()));
    var r := SortBy(Filter(Rows(invoices), InvoiceOf(patientId)), Flip(ByInt(InvoiceTime())));
    assert forall x :: x in r <==> x in Rows(invoices) && x.val.patientId == patientId by {
      forall x
        ensures x in r <==> x in Rows(invoices) && x.val.patientId == patientId
      {
        SortByMembers(Filter(Rows(invoices), InvoiceOf(patientId)), Flip(ByInt(InvoiceTime())), x);
        FilterMembers(Rows(invoices), InvoiceOf(patientId), x);
      }
    }
    assert forall i, j :: 0 <= i < j < |r| ==> r[i].val.createdAt >= r[j].val.createdAt by {
      forall i, j | 0 <= i < j < |r|
        ensures r[i].val.createdAt >= r[j].val.createdAt
      {
        assert Flip(ByInt(InvoiceTime()))(r[i], r[j]);
      }
    }
    SortFilterDistinct(Rows(invoices), InvoiceOf(patientId), Flip(ByInt(InvoiceTime())), RowId());
    r
  }

  datatype Ledger =
    | BalanceOf(balance: real)
    | PaymentList(payments: seq<Row<Payment>>)
    | InvoiceList(invoices: seq<Row<Invoice>>)

  /** The GET dispatch: the three actions need a truthy patient_id (checked before the action
      is looked at), an unknown action answers 400, a store error 500. */
  function HandleGet(action: string, patientId: Option<int>, treatments: Table<Treatment>, sessions: Table<Session>,
                     payments: Table<Payment>, invoices: Table<Invoice>, fails: bool): (r: Reply<Ledger>)
    ensures r == Err(BadRequest) <==>
      action !in {"get_patient_balance", "get_patient_payments", "get_patient_invoices"} || !TruthyId(patientId)
    ensures r.Ok? <==> r != Err(BadRequest) && !fails
    ensures r.Err? ==> r.error in {BadRequest, ServerError}
    ensures r.Ok? && action == "get_patient_balance" ==>
      r.value == BalanceOf(Balance(treatments, sessions, payments, patientId.value))
    ensures r.Ok? && action == "get_patient_payments" ==> r.value == PaymentList(PatientPayments(payments, patientId.value))
    ensures r.Ok? && action == "get_patient_invoices" ==> r.value == InvoiceList(PatientInvoices(invoices, patientId.value))
  {
    if action !in {"get_patient_balance", "get_patient_payments", "get_patient_invoices"} || !TruthyId(patientId) then
      Err(BadRequest)
    else if fails then Err(ServerError)
    else if action == "get_patient_balance" then Ok(BalanceOf(Balance(treatments, sessions, payments, patientId.value)))
    else if action == "get_patient_payments" then Ok(PaymentList(PatientPayments(payments, patientId.value)))
    else Ok(InvoiceList(PatientInvoices(invoices, patientId.value)))
  }

  // ---------------------------------------------------------------------------
  // Payments and invoices
  // ---------------------------------------------------------------------------

  /** `addPayment`: patient_id and amount must be set; notes and payment_method default to
      NULL; created_at is the insert time. The answer carries the new id with status 200. */
  method AddPayment(db: Database, patientId: Option<int>, amount: Option<real>, notes: Option<string>,
                    paymentMethod: Option<string>, now: int) returns (r: Reply<int>)
    requires db.payments.Valid()
    modifies db`payments
    ensures db.payments.Valid()
    ensures r == Err(BadRequest) <==> patientId.None? || amount.None?
    ensures r.Ok? ==>
      r.value == old(db.payments.nextId) &&
      db.payments == old(db.payments).Insert(Payment(patientId.value, amount.value, paymentMethod, notes, now))
    ensures !r.Ok? ==> db.payments == old(db.payments)
    ensures r.Ok? || r == Err(BadRequest) || r == Err(ServerError)
  {
    if patientId.None? || amount.None? {
      return Err(BadRequest);
    }
    var fails: bool := *;
    if fails {
      return Err(ServerError);
    }
    var id := db.payments.nextId;
    db.payments := db.payments.Insert(Payment(patientId.value, amount.value, paymentMethod, notes, now));
    return Ok(id);
  }

  /** `generateInvoice`: patient_id and total_amount must be set; only the invoices table is
      written, so no balance changes. */
  method GenerateInvoice(db: Database, patientId: Option<int>, totalAmount: Option<real>, notes: Option<string>, now: int)
    returns (r: Reply<int>)
    requires db.invoices.Valid()
    modifies db`invoices
    ensures db.invoices.Valid()
    ensures r == Err(BadRequest) <==> patientId.None? || totalAmount.None?
    ensures r.Ok? ==>
      r.value == old(db.invoices.nextId) &&
      db.invoices == old(db.invoices).Insert(Invoice(patientId.value, totalAmount.value, notes, now))
    ensures !r.Ok? ==> db.invoices == old(db.invoices)
    ensures r.Ok? || r == Err(BadRequest) || r == Err(ServerError)
  {
    if patientId.None? || totalAmount.None? {
      return Err(BadRequest);
    }
    var fails: bool := *;
    if fails {
      return Err(ServerError);
    }
    var id := db.invoices.nextId;
    db.invoices := db.invoices.Insert(Invoice(patientId.value, totalAmount.value, notes, now));
    return Ok(id);
  }

  /** The payment after `UPDATE payments SET <the supplied columns> WHERE id = ?`. */
  function Patched(p: Payment, amount: Option<real>, notes: Option<string>, paymentMethod: Option<string>): (q: Payment)
    ensures q.patientId == p.patientId && q.createdAt == p.createdAt
    ensures q.amount == (if amount.Some? then amount.value else p.amount)
    ensures q.notes == (if notes.Some? then notes else p.notes)
    ensures q.paymentMethod == (if paymentMethod.Some? then paymentMethod else p.paymentMethod)
    ensures amount.None? && notes.None? && paymentMethod.None? ==> q == p
  {
    p.(amount := amount.GetOr(p.amount),
       notes := if notes.Some? then notes else p.notes,
       paymentMethod := if paymentMethod.Some? then paymentMethod else p.paymentMethod)
  }

  /** The columns an update names, in the order the SET clause lists them. */
  function SetColumns(amount: Option<real>, notes: Option<string>, paymentMethod: Option<string>): (cs: seq<string>)
    ensures cs == [] <==> amount.None? && notes.None? && paymentMethod.None?
    ensures "amount" in cs <==> amount.Some?
    ensures "notes" in cs <==> notes.Some?
    ensures "payment_method" in cs <==> paymentMethod.Some?
  {
    (if amount.Some? then ["amount"] else []) + (if notes.Some? then ["notes"] else []) +
    (if paymentMethod.Some? then ["payment_method"] else [])
  }

  /** `updatePayment`: a falsy id answers 400, and so does a request with none of amount,
      notes and payment_method; otherwise only the supplied columns of that row change. There is
      no affected-row check: an unknown id also answers 200. */
  method UpdatePayment(db: Database, id: Option<int>, amount: Option<real>, notes: Option<string>,
                       paymentMethod: Option<string>) returns (r: Reply<()>)
    requires db.payments.Valid()
    modifies db`payments
    ensures db.payments.Valid()
    ensures r == Err(BadRequest) <==> !TruthyId(id) || (amount.None? && notes.None? && paymentMethod.None?)
    ensures r.Ok? && id.value in old(db.payments.rows) ==>
      db.payments == old(db.payments).Set(id.value, Patched(old(db.payments.rows[id.value]), amount, notes, paymentMethod))
    ensures r.Ok? && id.value !in old(db.payments.rows) ==> db.payments == old(db.payments)
    ensures !r.Ok? ==> db.payments == old(db.payments)
    ensures r.Ok? || r == Err(BadRequest) || r == Err(ServerError)
  {
    if !TruthyId(id) {
      return Err(BadRequest);
    }
    var fields: seq<string> := [];
    if amount.Some? {
      fields := fields + ["amount"];
    }
    if notes.Some? {
      fields := fields + ["notes"];
    }
    if paymentMethod.Some? {
      fields := fields + ["payment_method"];
    }
    assert fields == SetColumns(amount, notes, paymentMethod);
    if fields == [] {
      return Err(BadRequest);
    }
    var fails: bool := *;
    if fails {
      return Err(ServerError);
    }
    var k := id.value;
    if k in db.payments.rows {
      db.payments := db.payments.Set(k, Patched(db.payments.rows[k], amount, notes, paymentMethod));
    }
    return Ok(());
  }

  /** `deletePayment`: a falsy id answers 400; the row is removed, or 404 when there was none. */
  method DeletePayment(db: Database, id: Option<int>) returns (r: Reply<()>)
    requires db.payments.Valid()
    modifies db`payments
    ensures db.payments.Valid()
    ensures r == Err(BadRequest) <==> !TruthyId(id)
    ensures r.Ok? ==> id.value in old(db.payments.rows) && db.payments == old(db.payments).Delete(id.value)
    ensures r == Err(NotFound) ==> id.value !in old(db.payments.rows)
    ensures TruthyId(id) && r != Err(ServerError) ==> (r.Ok? <==> id.value in old(db.payments.rows))
    ensures !r.Ok? ==> db.payments == old(db.payments)
    ensures r.Ok? || r == Err(BadRequest) || r == Err(NotFound) || r == Err(ServerError)
  {
    if !TruthyId(id) {
      return Err(BadRequest);
    }
    var fails: bool := *;
    if fails {
      return Err(ServerError);
    }
    var k := id.value;
    if k in db.payments.rows {
      db.payments := db.payments.Delete(k);
      return Ok(());
    }
    return Err(NotFound);
  }
}
