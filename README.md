# Dental clinic backend: a verified model of its store and endpoints

This project is a Dafny model of the PHP backend of a single-clinic dental practice. It
covers the JSON endpoints under `api/` that change or read the clinic's MySQL tables:

- the patient directory (`patients.php`, `patient_handler.php`);
- the appointment scheduler with its exact-instant conflict check (`appointments.php`),
  and the alternate handler class (`appointment_handler.php`);
- the session engine that records a visit with its treatments, procedure steps and canal
  working lengths in one transaction (`treatment_handler.php`), and the per-row session
  and treatment operations (`sessions.php`);
- the ledger: a patient's balance, payments and invoices (`financial.php`);
- prescriptions with their medicine lines (`prescription.php`);
- the administration endpoints: users, treatment types, drugs, clinic information and
  system settings (`settings.php`).

How the model is built:

- Every table is a `Tables.Table<T>`: a map from id to row plus the AUTO_INCREMENT counter.
- `Schema.Database` is a class with one such field per table. Each endpoint is a method
  over it. Its `modifies` frame names exactly the tables the PHP function writes.
- A statement that may throw a `PDOException` is a nondeterministic choice. That makes
  the rollback and error paths part of every contract.
- Reads are functions of the tables. A `fails` flag stands for a store error.
- `NOW()`, `CURDATE()` and `password_hash` are passed in as values.
- Results use `Php.Reply`. It is 200 (`Ok`), 201 (`Created`) or an error: 400, 404, 409 or 500.

Modules, leaves first:

- `Php`: PHP truthiness, `intval`, the reply datatype.
- `Tables`: a table, its primary-key scan, inserts, rollback and sums.
- `Query`: filters, stable ORDER BY, `LIKE`, `CONCAT`, `DATE()`.
- `Schema`: the row types and the database class.
- The endpoint modules: `PatientHandler`, `Patients`, `Appointments`, `AppointmentHandler`,
  `TreatmentHandler`, `Sessions`, `Financial`, `Prescriptions` and `Settings`.

Rules the model follows:

- Row order. `Tables.Rows` scans in primary-key order. ORDER BY is a stable sort of that
  scan, so rows with equal keys keep id order.
- Updates. `UPDATE` reports an affected row only when a value actually changes. This is
  PDO's default for MySQL. So the endpoints that check `rowCount()` answer 404 both for an
  unknown id and for an update that writes the values a row already holds.
- Rollback. A rolled-back transaction restores every row. AUTO_INCREMENT counters keep
  the ids the transaction used up. The failure postconditions are therefore stated on
  `.rows`.
- Behaviours kept exactly as the code has them:
  - Deleting a session does not cascade. Its treatments stay (`Sessions.DeletedSessionOrphans`).
  - A working length given without a truthy `canal_type_id` is silently dropped
    (`TreatmentHandler.LengthRule`).
  - `addPayment` checks only that `amount` is present, not that it is non-negative.
  - A discount over 100 is not rejected. `Financial.ChargeBounds` states the charge bounds
    only for discounts from 0 to 100.
  - The appointment conflict check compares `appointment_date` with itself, in place of
    date and time. `appointment_date` is one DATETIME instant, so the check is an
    exact-instant comparison.
  - `updatePayment`, `updateUser`, the treatment-type and drug updates, and the
    appointment PUT do not consult the affected-row count. They answer 200 for an unknown id.
  - The upcoming-appointments listing compares with `CURDATE()`: it starts at today's
    midnight, not at the current instant.

## Model

| member | source | states |
|---|---|---|
| Php.Intval | api/patients.php:19 | `intval` of a string is always within PHP's 64-bit range; the empty string and a string not starting with whitespace, a sign or a digit read as 0 |
| Php.IntvalReadsDecimal | api/patients.php:19 | the decimal text of any id up to PHP_INT_MAX reads back as that id |
| Php.IntvalReadsNegative | api/patients.php:19 | `-` followed by the decimal text of n reads as -n, so a negative id reaches the `id <= 0` check |
| Php.IntvalIgnoresSuffix | api/patients.php:19 | trailing non-digit text after the digits does not change the id read |
| Query.Contains | api/patient_handler.php:72-79 | for a term without `%` or `_`, `LIKE '%term%'` holds exactly when the term occurs somewhere in the text, letters compared case-insensitively |
| Query.Concat | api/appointments.php:63 | `CONCAT` is NULL exactly when one of its arguments is NULL |
| Query.DayOf | api/appointments.php:79 | `DATE()` of an instant is the day whose 24 hours contain it |
| Query.OnOrAfterToday | api/appointments.php:91 | `appointment_date >= CURDATE()` holds exactly for instants whose date is today or later |
| Schema.PatientNameNull | api/appointments.php:63 | the joined patient_name is NULL exactly when the first, father or last name is NULL |
| PatientHandler.AddPatient | api/patient_handler.php:24-46 | on success exactly one row with the given columns is appended under the next id; on a store error nothing changes and false is answered |
| PatientHandler.GetPatients | api/patient_handler.php:52-65 | the list holds exactly the stored patients, ids strictly decreasing; a store error gives the empty list |
| PatientHandler.SearchPatients | api/patient_handler.php:72-84 | the list holds exactly the stored patients whose first name, last name or phone number is LIKE `%q%` (father_name is not searched), ids strictly decreasing; a store error gives the empty list |
| PatientHandler.SearchFindsSubstrings | api/patient_handler.php:72-79 | for a wildcard-free term, a patient is found exactly when the term occurs, up to case, in one of those three non-NULL columns |
| PatientHandler.AddedPatientFirst | api/patient_handler.php:52-60 | a patient just added is the first entry of the listing, under its new id |
| PatientHandler.UpdatePatient | api/patient_handler.php:92-113 | true exactly when the row exists and its columns actually change, and then the seven columns of that row alone are overwritten; otherwise the table is unchanged |
| PatientHandler.DeletePatient | api/patient_handler.php:120-132 | true only when the row existed and it alone was removed; an unknown id answers false and changes nothing |
| Patients.ParseId | api/patients.php:19 | an absent id parameter is 0; any id is within PHP's integer range |
| Patients.ParseIdDecimal | api/patients.php:19 | a decimal id in the query string is the id the endpoint acts on |
| Patients.SearchTerm | api/patients.php:26-63 | the `search` action searches its `term`; any other listing action searches `search_query` exactly when it is non-empty and not "0", and otherwise lists everything |
| Patients.HandleGet | api/patients.php:22-64 | 400 exactly for `search` without a term, 200 otherwise; `get_drugs` answers the fixed three-drug list; every other 200 is a patient listing, and every patient listing is the search or the full listing, ids decreasing, and empty on a store error |
| Patients.ListingIsDirectory | api/patients.php:46-63 | without a search, GET lists exactly the stored patients |
| Patients.HandlePost | api/patients.php:66-83 | 400 exactly when the body is missing or first_name or phone_number is empty or "0"; 201 appends the body as one row; 400 and 500 change nothing |
| Patients.PostedListedFirst | api/patients.php:66-83 | a patient a POST created is the first entry of the next plain GET |
| Patients.HandlePut | api/patients.php:85-106 | 400 exactly for an id that is not positive or an invalid body; 200 only when the row changed, and then it holds the body; a valid request that changes nothing is a 404; only a 200 changes the table |
| Patients.HandleDelete | api/patients.php:108-123 | 400 exactly for an id that is not positive; 200 only when the row existed and it alone was removed; an unknown id is a 404 |
| Patients.DeletedNotListed | api/patients.php:108-123 | after a DELETE the patient is no longer listed, and every listed patient was listed before |
| Appointments.PatientList | api/appointments.php:59-70 | a patient's listing holds exactly that patient's joined appointments, each once, latest instant first |
| Appointments.TimedList | api/appointments.php:71-95 | the filtered listing holds exactly the joined appointments that pass the filter, each once, earliest instant first |
| Appointments.List | api/appointments.php:54-95 | a truthy patient_id wins and lists that patient latest first; otherwise a date lists that day's appointments, and no filter lists those from today on, both earliest first; every listing holds each joined appointment at most once |
| Appointments.HandleGet | api/appointments.php:54-104 | 200 with the listing unless the store fails, which is a 500 |
| Appointments.AsWrittenColumnsRepeat | api/appointments.php:137 | the INSERT's column list names appointment_date twice; the corrected list names no column twice |
| Appointments.BookWith | api/appointments.php:106-160 | 400 exactly when patient_id is falsy or the date is missing; a taken instant never books; a booking appends one 'scheduled' row under the next id only when the column list is valid and the instant free; every failure changes nothing; instant exclusivity is preserved |
| Appointments.BookAsWritten | api/appointments.php:106-160 | as written, no booking is ever stored: a valid request for a free instant always answers 500 |
| Appointments.Book | api/appointments.php:106-160 | with the column list corrected, a valid request books exactly when the instant is free (409 otherwise), unless the store fails; instant exclusivity is preserved |
| Appointments.Patched | api/appointments.php:173-194 | each supplied column among date, notes and status is replaced and every other column kept |
| Appointments.UpdateKeepsSlots | api/appointments.php:203-227 | a PUT that keeps the date, or moves it to an instant no other row holds, keeps instants exclusive |
| Appointments.Update | api/appointments.php:162-238 | 400 exactly for a falsy id or no updatable field; 409 only when another row holds the new instant, and such a request never succeeds; success applies the patch to that row only; failures change nothing; exclusivity is preserved |
| Appointments.Delete | api/appointments.php:240-267 | 400 exactly for a falsy id; success only when the row existed, and it alone was removed; 404 for an unknown id; exclusivity is preserved |
| AppointmentHandler.AddAppointment | api/appointment_handler.php:24-40 | on success exactly one row is appended with the given columns, an absent appointment_time stored as NULL, with no conflict check; on a store error nothing changes |
| AppointmentHandler.AddBreaksSlots | api/appointment_handler.php:24-35 | adding at an instant another appointment holds leaves two appointments on one instant |
| AppointmentHandler.GetAppointments | api/appointment_handler.php:47-70 | the list holds exactly the joined rows, each once, only those at the given instant when one is given, sorted by date then time; a store error gives the empty list |
| AppointmentHandler.Rewritten | api/appointment_handler.php:78-90 | the update writes patient_id, date, time (NULL when absent) and notes and keeps status and created_at |
| AppointmentHandler.UpdateAppointment | api/appointment_handler.php:78-95 | true only when the row existed and actually changed, and then that row alone is rewritten; otherwise nothing changes |
| AppointmentHandler.DeleteAppointment | api/appointment_handler.php:102-113 | true only when the row existed and it alone was removed; an unknown id answers false |
| TreatmentHandler.GetTreatmentTypes | api/treatment_handler.php:33-42 | a permutation of the stored treatment types sorted by name; empty on a store error |
| TreatmentHandler.GetCanalTypes | api/treatment_handler.php:61-70 | a permutation of the stored canal types sorted by name; empty on a store error |
| TreatmentHandler.GetTreatmentSteps | api/treatment_handler.php:45-58 | exactly the steps of the given treatment type, each once, sorted by step_order; empty on a store error |
| TreatmentHandler.HandleGet | api/treatment_handler.php:155-182 | 200 exactly for the two catalog actions, or for `get_treatment_steps` with a truthy type id; `get_treatment_types` answers the sorted type catalog, `get_canal_types` the sorted canal catalog and `get_treatment_steps` that type's steps; every other request is a 400 |
| TreatmentHandler.TreatmentsOfSession | api/treatment_handler.php:95-110 | one treatment row per input treatment, in input order, each pointing at the new session |
| TreatmentHandler.DetailCount | api/treatment_handler.php:113-122 | exactly one treatment_details row per input step, across all treatments |
| TreatmentHandler.DetailAt | api/treatment_handler.php:113-122 | step k of treatment i is stored in input order, points at treatment i's new id, and its step_notes default to '' |
| TreatmentHandler.DetailsPointBelow | api/treatment_handler.php:113-122 | every detail row written points at one of the treatments the same call created |
| TreatmentHandler.LengthRule | api/treatment_handler.php:125-135 | a working_lengths row exists for a step exactly when its working_length is non-empty and its canal_type_id truthy, and then it holds that step's canal type and length |
| TreatmentHandler.LengthsBelow | api/treatment_handler.php:125-135 | every working_lengths row written points at a detail the call created, whose step satisfies the rule |
| TreatmentHandler.InsertStep | api/treatment_handler.php:113-135 | one step writes its detail row and, exactly when the rule holds, one working length pointing at that detail |
| TreatmentHandler.InsertSteps | api/treatment_handler.php:113-135 | the inner loop writes every step's detail row in order, and the working lengths of exactly the steps satisfying the rule |
| TreatmentHandler.InsertTreatment | api/treatment_handler.php:95-136 | one treatment row for the session, then its steps' detail and working-length rows, all linked to the new treatment id |
| TreatmentHandler.AddSession | api/treatment_handler.php:80-148 | on commit, one session row (notes '') with the returned id, and exactly the treatment, detail and working-length rows the input describes; on any failure no row of the four tables differs from before the call |
| TreatmentHandler.RollBack | api/treatment_handler.php:143-147 | rollback restores the rows of the four tables exactly |
| TreatmentHandler.HandlePost | api/treatment_handler.php:184-222 | 400 exactly when the action is not `add_session` or patient_id, doctor_id or treatments is missing, and then nothing is written; 200 carries a committed session; 500 leaves every row as before |
| Sessions.DoctorName | api/sessions.php:174-177 | the doctor_name column is NULL exactly when no user has the session's doctor id |
| Sessions.SessionViews | api/sessions.php:172-190 | one joined row per session row, in order, each with its doctor's name |
| Sessions.GetPatientSessions | api/sessions.php:172-190 | exactly the patient's sessions, each once with its doctor's name, latest session_date first |
| Sessions.GetSessionDetails | api/sessions.php:193-219 | found exactly when the session exists and its patient row does; then it carries the session, the patient's name and phone, and the doctor's name; otherwise 404 |
| Sessions.GetSessionTreatments | api/sessions.php:222-239 | exactly the session's treatments whose type exists, each once with its type's name and default cost, ascending by tooth_number |
| Sessions.HandleGet | api/sessions.php:51-97 | 400 exactly for an unknown action or a falsy id; 404 exactly when an existing-id details request finds no session; 500 exactly on a store error for a valid request; otherwise 200 (never 201) with the corresponding read |
| Sessions.CreateSession | api/sessions.php:262-291 | 400 exactly when patient_id or doctor_id is missing; 201 appends one session with the given notes under the returned id; otherwise nothing changes |
| Sessions.CreatedSessionListed | api/sessions.php:262-291 | a created session appears among its patient's sessions with its doctor's name |
| Sessions.NewTreatment | api/sessions.php:301-314 | cost, additional_cost and discount are never NULL and default to 0 |
| Sessions.DetailRowsLinked | api/sessions.php:319-331 | one detail row per element of `treatment_details`, in order, each linked to the new treatment |
| Sessions.AddTreatment | api/sessions.php:294-342 | 400 exactly when session_id, tooth_number or treatment_type_id is missing, and nothing is written; 201 means the treatment and all its detail rows were written; a 500 leaves nothing written or the treatment plus a prefix of the detail rows |
| Sessions.SetNotes | api/sessions.php:386-394 | only session_notes of the target row changes; every other row and column is kept |
| Sessions.UpdateSession | api/sessions.php:378-406 | 400 exactly without session_id; otherwise, barring a store error, 200 exactly when the row exists and its notes change, else 404; only a 200 changes the table |
| Sessions.SetNotesUnaffected | api/sessions.php:396-401 | an update that affects no row leaves the table exactly as it was |
| Sessions.Recharged | api/sessions.php:417-428 | the update writes cost, additional_cost, discount (absent ones as 0) and notes, and keeps session, tooth and type |
| Sessions.UpdateTreatment | api/sessions.php:409-440 | 400 exactly without treatment_id; 200 only when the row exists and changes, and then only that row is rewritten; 404 only for an unknown id or an update that writes the values the row already holds |
| Sessions.DeleteSession | api/sessions.php:443-458 | 400 exactly for a falsy id; barring a store error, 200 exactly when the session existed; only the session row is removed |
| Sessions.DeletedSessionOrphans | api/sessions.php:443-458 | after deleting a session its details answer 404 while its treatments are still listed |
| Sessions.DeleteTreatment | api/sessions.php:461-476 | 400 exactly for a falsy id; barring a store error, 200 exactly when the treatment existed; only that row is removed |
| Sessions.DeletedTreatmentUnlisted | api/sessions.php:461-476 | a deleted treatment no longer appears among its session's treatments |
| Financial.Charge | api/financial.php:171-176 | a treatment with NULL cost weighs 0; with discount 0 or NULL the charge is cost plus additional cost; with discount 100 it is 0 |
| Financial.ChargeBounds | api/financial.php:172 | with non-negative amounts and a discount from 0 to 100, the charge lies between 0 and the undiscounted price |
| Financial.BalanceOfNewPatient | api/financial.php:163-182 | a patient with no payments and no treatments in their sessions has balance 0 |
| Financial.BalanceAfterPayment | api/financial.php:216-245 | a new payment lowers exactly its payer's balance, by its amount |
| Financial.BalanceAfterPaymentDeleted | api/financial.php:327-354 | deleting a payment raises its payer's balance by its amount; a missing id changes nothing |
| Financial.BalanceAfterPaymentChanged | api/financial.php:278-324 | changing a payment shifts its payer's balance by the difference of the amounts |
| Financial.BalanceAfterTreatment | api/financial.php:163-182 | a new treatment raises the balance of its session's patient by its charge and no one else's |
| Financial.PatientPayments | api/financial.php:190-200 | exactly the patient's payments, each once, newest created_at first |
| Financial.PatientInvoices | api/financial.php:203-213 | exactly the patient's invoices, each once, newest created_at first |
| Financial.HandleGet | api/financial.php:85-111 | 400 exactly for an unknown action or a falsy patient_id; otherwise 200 with the balance, the payments or the invoices, or 500 on a store error |
| Financial.AddPayment | api/financial.php:216-245 | 400 exactly when patient_id or amount is missing; success appends one payment under the returned id; otherwise nothing changes |
| Financial.GenerateInvoice | api/financial.php:248-275 | 400 exactly when patient_id or total_amount is missing; success appends one invoice; payments and treatments are untouched, so no balance changes |
| Financial.Patched | api/financial.php:289-313 | each supplied column among amount, notes and payment_method is replaced and the rest kept; with none supplied the payment is unchanged |
| Financial.SetColumns | api/financial.php:289-307 | the SET list names exactly the supplied columns, and is empty exactly when none is supplied |
| Financial.UpdatePayment | api/financial.php:278-324 | 400 exactly for a falsy id or no supplied column; success patches that payment only, and changes nothing for an unknown id; failures change nothing |
| Financial.DeletePayment | api/financial.php:327-354 | 400 exactly for a falsy id; barring a store error, 200 exactly when the payment existed, and it alone was removed |
| Prescriptions.Lines | api/prescription.php:127-149 | one medicine row per input line, in input order, notes defaulting to '' |
| Prescriptions.LinesOf | api/prescription.php:249-255 | exactly the medicine rows of the prescription, in id order |
| Prescriptions.Kept | api/prescription.php:294-295 | the delete keeps exactly the lines of other prescriptions, unchanged |
| Prescriptions.LinesOfInsertAll | api/prescription.php:127-149 | inserting lines that all name a prescription appends them to its lines with consecutive new ids; lines naming others leave its lines as they were |
| Prescriptions.CreatedLines | api/prescription.php:104-164 | after a create the prescription's lines end with one new row per input line, in input order |
| Prescriptions.DropLinesGone | api/prescription.php:294-295 | after the delete no line names the prescription |
| Prescriptions.DropLinesOthers | api/prescription.php:294-295 | after the delete every other prescription keeps its lines in the same order |
| Prescriptions.ReplacedLines | api/prescription.php:294-320 | after an update the prescription's lines are exactly the input lines, in input order |
| Prescriptions.ReplacedLinesOthers | api/prescription.php:294-320 | an update leaves every other prescription's lines as they were |
| Prescriptions.InsertLines | api/prescription.php:127-149 | the loop inserts every input line, in order, linked to the prescription |
| Prescriptions.CreatePrescription | api/prescription.php:104-164 | 400 exactly for a missing or empty body; success appends the header under the returned id and one line per input medicine; on failure no row of either table differs |
| Prescriptions.Revise | api/prescription.php:281-291 | the update rewrites date, general_notes (default '') and updated_at of that header only, keeping patient and created_at |
| Prescriptions.UpdatePrescription | api/prescription.php:268-334 | 400 exactly for a missing body or falsy id; success revises the header and replaces that prescription's lines with the input lines; on failure no row differs |
| Prescriptions.DeletePrescription | api/prescription.php:336-360 | 400 exactly for a falsy id; success removes the header and every line of it; on failure no row differs |
| Prescriptions.DeletedLeavesNothing | api/prescription.php:341-346 | after a delete neither the header nor any line of the prescription remains |
| Prescriptions.GetPrescriptions | api/prescription.php:166-215 | exactly the prescriptions joined with a patient, each once, only that patient's when a truthy patient_id is given, each with the patient's name and its lines, newest first |
| Prescriptions.GetPrescription | api/prescription.php:217-266 | found exactly when the prescription exists and its patient does; then it carries the header, the patient's name, phone, address and date of birth, and its lines in id order |
| Prescriptions.HandleGet | api/prescription.php:51-66 | 400 exactly for an unknown action or `get_prescription` without an id; 404 exactly for an id that is not found; 500 exactly on a store error for a valid request; otherwise 200 with the read |
| Settings.AddUser | api/settings.php:160-209 | the replies are 200, 400, 409 or 500; 400 exactly when username, password or role is empty; a taken username gets 409 (barring a store error) and never a second account; a filled request with a free username succeeds barring a store error, appending one account under the returned id; usernames stay unique |
| Settings.EditUser | api/settings.php:226-258 | the update changes only the target account: it sets each supplied username, password hash and role and keeps the others and created_at |
| Settings.UpdateUser | api/settings.php:211-270 | the replies are 200, 400, 409 or 500; 400 exactly for a falsy id or nothing to set; 409 exactly when another account holds the supplied username, barring a store error; any other valid request succeeds barring a store error, applying the supplied columns with an empty password ignored; usernames stay unique |
| Settings.DeleteUser | api/settings.php:272-314 | the replies are 200, 400, 404 or 500; the last administrator is never deleted; otherwise, barring a store error, an existing account is removed alone with 200 and an unknown id answers 404; if an administrator existed, one still does |
| Settings.DeleteKeepsAdmin | api/settings.php:283-295 | deleting an account the guard lets through leaves an administrator |
| Settings.DemotingLastAdmin | api/settings.php:245-248 | a role change has no such guard and can leave no administrator |
| Settings.EditType | api/settings.php:367-410 | the update replaces the supplied columns of that type only |
| Settings.UpdateTreatmentType | api/settings.php:367-410 | 400 exactly for a falsy id or nothing to set; success applies the supplied columns; no treatment loses its type |
| Settings.DeleteTreatmentType | api/settings.php:412-451 | the replies are 200, 400, 404 or 500; refused (400) while any treatment uses the type; otherwise, barring a store error, an existing type is removed alone with 200 and an unknown id answers 404; no treatment is left pointing at a deleted type |
| Settings.EditDrug | api/settings.php:506-549 | the update replaces the supplied columns of that drug only |
| Settings.UpdateDrug | api/settings.php:506-549 | 400 exactly for a falsy id or nothing to set; success applies the supplied columns; no prescription loses its drug |
| Settings.DeleteDrug | api/settings.php:551-590 | the replies are 200, 400, 404 or 500; refused (400) while any prescription names the drug; otherwise, barring a store error, an existing drug is removed alone with 200 and an unknown id answers 404; no prescription is left pointing at a deleted drug |
| Settings.GetClinicInfo | api/settings.php:593-617 | all-empty defaults when no row exists, otherwise the row with the smallest id; 500 exactly on a store error |
| Settings.PatchedInfo | api/settings.php:631-638 | with no supplied field the information is unchanged |
| Settings.UpdateClinicInfo | api/settings.php:619-670 | success saves the patched or newly inserted information; a store error changes nothing |
| Settings.SavedInfoSingle | api/settings.php:622-659 | with at most one row stored, saving leaves exactly one row |
| Settings.ClinicInfoReadBack | api/settings.php:593-670 | with at most one row stored, reading after saving returns the stored or default information with every supplied field replaced |
| Settings.SettingsMap | api/settings.php:680-683 | the folded map has exactly the keys of the rows |
| Settings.GetSystemSettings | api/settings.php:673-691 | the answer's keys are exactly the stored keys; under the unique index on setting_key it maps every stored key to its stored value; 500 exactly on a store error |
| Settings.SettingsMapDistinct | api/settings.php:680-683 | with distinct keys every row's value survives the fold |
| Settings.SettingsRead | api/settings.php:673-691 | under the unique index the folded rows map every stored key to its stored value; GetSystemSettings answers that fold |
| Settings.UpsertRead | api/settings.php:698-703 | one upsert keeps keys unique and changes the read map at that key only |
| Settings.InputMap | api/settings.php:697 | the decoded input has exactly the keys of its pairs |
| Settings.UpsertAllRead | api/settings.php:697-704 | upserting the pairs in order reads as the old map overridden by them |
| Settings.UpdateThenRead | api/settings.php:693-718 | after the upserts the settings read as the old ones with every input key mapped to its input value and every other key unchanged |
| Settings.UpdateSystemSettings | api/settings.php:693-718 | success applies every upsert in order; a store error rolls every write back; keys stay unique |

## Left out

- `getSessionPrescriptions` and `addPrescription` in api/sessions.php: they use another
  column set for `prescriptions` (session_id, drug_id). `Sessions.HandleGet` answers the
  session id in place of the rows.
- `getUsers`, `getTreatmentTypes`, `getDrugs`, `addTreatmentType` and `addDrug` in
  api/settings.php, and the settings dispatch: plain reads and inserts with no rule.
- The 405 answer for other HTTP methods, the `OPTIONS` preflight, CORS headers and the
  JSON texts of replies: transport, not store behaviour.
- api/login.php, api/db_connect.php, the `ensureFinancialTables` DDL and the browser
  scripts are not part of this model.
- Concurrency and isolation: transactions are sequential all-or-nothing.
- DECIMAL(12,2) rounding: amounts are exact reals. The `(float)` casts of the balance are
  not modelled.
- DATETIME parsing and formatting: instants are whole seconds, already parsed.
- MySQL's conversion of numeric strings in comparisons: ids arrive as integers.
- `intval` of floats and of exponent or hexadecimal notation: only decimal strings are read.
- JSON field types: patient, prescription and settings fields are strings. A settings
  value that is not a string, and PHP's conversion of numeric-string array keys, are left
  out.
- `password_hash`: the hash is passed in as a value.
- Collation: MySQL's default utf8mb4 collation folds the case of every letter, ignores
  accents and orders text by collation weight. The model approximates it: only the ASCII
  letters A to Z are folded, accents count, and text is ordered by character code after that
  folding. Role names and setting keys are compared exactly.
- Query.Contains: `LIKE` matching under the collation is modelled with ASCII-only case
  folding, so a term differing from the text only in a non-ASCII letter's case or an
  accent does not match in the model.
- PatientHandler.SearchPatients: the search inherits the ASCII-only folding of `LIKE`.
- TreatmentHandler.GetTreatmentTypes: `ORDER BY name` is modelled as code-point order after
  ASCII folding, not the collation's weight order.
- TreatmentHandler.GetCanalTypes: `ORDER BY name` is ordered as in GetTreatmentTypes.
- TreatmentHandler.AddSession: `commit()` itself (api/treatment_handler.php:139) is taken to
  succeed once every statement has; a failure there would also leave every row as before.
- Settings.AddUser: two usernames that differ only in a non-ASCII letter's case or an
  accent count as different, whereas the collation treats them as the same name.
- Settings.UpdateUser: the username check folds case in the same ASCII-only way.
- Foreign keys: the model has none. An update naming an unknown prescription id writes
  lines for it, and `Prescriptions.CreatedLines` accounts for lines written that way.
- Settings.GetClinicInfo: `SELECT *` also returns the id column, which the model leaves out.
- Settings.DeleteUser: the guard counts administrators with `role = 'admin'` compared
  exactly, not under the column's collation.
- Sessions.AddTreatment: the detail rows carry the `json_encode` text of
  `working_length_details` as given, not the encoding itself.

## Findings

| source | as written | input that shows it | evidently intended | confidence | as-written member | corrected member |
|---|---|---|---|---|---|---|
| api/appointments.php:137 | the INSERT's column list names `appointment_date` twice, so MySQL refuses every insert (error 1110) and POST answers 500 | POST `{"patient_id": 7, "appointment_date": "2024-03-01 09:00:00"}` on an empty table | name `appointment_date` once, so a free instant is booked with status 'scheduled' | not executed | Appointments.BookAsWritten | Appointments.Book |
