/** The clinic's database: one value per row of each table the endpoints touch, and the
    store that holds every table. Columns that a code path may leave NULL are `Option`s;
    ids and DATETIME columns are `int`s (DATETIMEs as seconds since the epoch). Where two
    files write different column sets to the same table, the record carries both. */
module Schema {
  import opened Php
  import opened Tables
  import opened Query

  /** patients (first_name, father_name, last_name, date_of_birth, phone_number, address,
      visit_status). Keys missing from the request are stored as NULL. */
  datatype Patient = Patient(
    firstName: Option<string>,
    fatherName: Option<string>,
    lastName: Option<string>,
    dateOfBirth: Option<string>,
    phoneNumber: Option<string>,
    address: Option<string>,
    visitStatus: Option<string>)

  /** `CONCAT(p.first_name, ' ', p.father_name, ' ', p.last_name)`. */
  function PatientName(p: Patient): Option<string> {
    Concat([p.firstName, Some(" "), p.fatherName, Some(" "), p.lastName])
  }

  /** The patient_name column of a join is NULL exactly when one of the three name columns is. */
  lemma PatientNameNull(p: Patient)
    ensures PatientName(p).None? <==> p.firstName.None? || p.fatherName.None? || p.lastName.None?
  {
    var parts := [p.firstName, Some(" "), p.fatherName, Some(" "), p.lastName];
    if PatientName(p).None? {
      var i :| 0 <= i < |parts| && parts[i].None?;
    } else {
      assert parts[0].Some? && parts[2].Some? && parts[4].Some?;
    }
  }

  /** users (username, password, role, created_at); `password` holds a password hash. */
  datatype User = User(username: string, passwordHash: string, role: string, createdAt: int)

  /** appointments. `date` is appointment_date, one date-and-time instant; `time` is the
      appointment_time column, which only the handler class writes; `None` in `status` or
      `createdAt` is the column default of a path that does not write the column. */
  datatype Appointment = Appointment(
    patientId: int,
    date: int,
    time: Option<int>,
    notes: Option<string>,
    status: Option<string>,
    createdAt: Option<int>)

  /** sessions (patient_id, doctor_id, session_date, session_notes). */
  datatype Session = Session(patientId: int, doctorId: int, sessionDate: int, notes: Option<string>)

  /** treatments; the money columns are NULL when a request leaves them out. */
  datatype Treatment = Treatment(
    sessionId: int,
    toothNumber: int,
    typeId: int,
    cost: Option<real>,
    additionalCost: Option<real>,
    discount: Option<real>,
    notes: Option<string>)

  /** treatment_details. The session engine writes step_notes; the sessions endpoint writes
      working_length_details (a JSON text); each leaves the other column NULL. */
  datatype TreatmentDetail = TreatmentDetail(
    treatmentId: int,
    stepId: int,
    stepNotes: Option<string>,
    workingLengthDetails: Option<string>)

  /** working_lengths (treatment_detail_id, canal_type_id, length), values as the request sent them. */
  datatype WorkingLength = WorkingLength(detailId: int, canalTypeId: Json, length: Json)

  datatype TreatmentType = TreatmentType(name: string, defaultCost: real)

  datatype TreatmentStep = TreatmentStep(typeId: int, stepOrder: int, name: string)

  datatype CanalType = CanalType(name: string)

  /** drugs (name, dosage_options as JSON text). */
  datatype Drug = Drug(name: string, dosageOptions: Option<string>)

  /** prescriptions. The prescription endpoint writes patient_id, prescription_date,
      general_notes, created_at and updated_at; the drug catalog's reference check reads
      drug_id, a column of the per-session prescription layout that this endpoint leaves NULL. */
  datatype Prescription = Prescription(
    patientId: Option<int>,
    prescriptionDate: Option<string>,
    generalNotes: string,
    createdAt: int,
    updatedAt: Option<int>,
    drugId: Option<int>)

  /** prescription_medicines (prescription_id, medicine_name, dosage, medicine_type, duration, notes). */
  datatype Medicine = Medicine(
    prescriptionId: int,
    name: Option<string>,
    dosage: Option<string>,
    kind: Option<string>,
    duration: Option<string>,
    notes: string)

  /** payments (patient_id, amount DECIMAL(12,2), payment_method, notes, created_at). */
  datatype Payment = Payment(patientId: int, amount: real, paymentMethod: Option<string>, notes: Option<string>, createdAt: int)

  /** invoices (patient_id, total_amount DECIMAL(12,2), notes, created_at). */
  datatype Invoice = Invoice(patientId: int, totalAmount: real, notes: Option<string>, createdAt: int)

  datatype ClinicInfo = ClinicInfo(
    name: string,
    address: string,
    phone: string,
    email: string,
    doctorName: string,
    specialization: string)

  /** system_settings (setting_key UNIQUE, setting_value). */
  datatype Setting = Setting(key: string, value: string)

  /** The UNIQUE index on setting_key: no two rows share a key. */
  ghost predicate UniqueKeys(t: Table<Setting>) {
    forall i, j :: i in t.rows && j in t.rows && t.rows[i].key == t.rows[j].key ==> i == j
  }

  /** The store: every table the endpoints read or write. */
  class Database {
    var patients: Table<Patient>
    var users: Table<User>
    var appointments: Table<Appointment>
    var sessions: Table<Session>
    var treatments: Table<Treatment>
    var treatmentDetails: Table<TreatmentDetail>
    var workingLengths: Table<WorkingLength>
    var treatmentTypes: Table<TreatmentType>
    var treatmentSteps: Table<TreatmentStep>
    var canalTypes: Table<CanalType>
    var drugs: Table<Drug>
    var prescriptions: Table<Prescription>
    var medicines: Table<Medicine>
    var payments: Table<Payment>
    var invoices: Table<Invoice>
    var clinicInfo: Table<ClinicInfo>
    var settings: Table<Setting>

    /** A freshly created database: every table empty and well formed. Each operation
        requires and keeps `Valid()` of the tables it touches. */
    constructor ()
      ensures patients.Valid() && users.Valid() && appointments.Valid() && sessions.Valid()
      ensures treatments.Valid() && treatmentDetails.Valid() && workingLengths.Valid()
      ensures treatmentTypes.Valid() && treatmentSteps.Valid() && canalTypes.Valid() && drugs.Valid()
      ensures prescriptions.Valid() && medicines.Valid() && payments.Valid() && invoices.Valid()
      ensures clinicInfo.Valid() && settings.Valid() && UniqueKeys(settings)
      ensures patients.rows == map[] && users.rows == map[] && appointments.rows == map[]
      ensures sessions.rows == map[] && treatments.rows == map[] && treatmentDetails.rows == map[]
      ensures workingLengths.rows == map[] && treatmentTypes.rows == map[] && treatmentSteps.rows == map[]
      ensures canalTypes.rows == map[] && drugs.rows == map[] && prescriptions.rows == map[]
      ensures medicines.rows == map[] && payments.rows == map[] && invoices.rows == map[]
      ensures clinicInfo.rows == map[] && settings.rows == map[]
    {
      patients := EmptyTable();
      users := EmptyTable();
      appointments := EmptyTable();
      sessions := EmptyTable();
      treatments := EmptyTable();
      treatmentDetails := EmptyTable();
      workingLengths := EmptyTable();
      treatmentTypes := EmptyTable();
      treatmentSteps := EmptyTable();
      canalTypes := EmptyTable();
      drugs := EmptyTable();
      prescriptions := EmptyTable();
      medicines := EmptyTable();
      payments := EmptyTable();
      invoices := EmptyTable();
      clinicInfo := EmptyTable();
      settings := EmptyTable();
    }
  }
}
