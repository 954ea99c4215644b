# Hospital reservation system — a verified model of its data layer

The hospital reservation system keeps patients, doctors, reservations and
medical records in four SQLite tables behind a set of data-access objects
(PatientDAO, DoctorDAO, ReservationDAO, MedicalRecordDAO) and a
HospitalService that validates input before calling them. This project
models that core in Dafny and proves what it promises:

- the tables and the schema's constraints: AUTOINCREMENT keys, the UNIQUE
  phone numbers, the gender CHECK, and the foreign keys;
- each DAO operation as a method on a `Database` object whose fields are the
  tables. Each method's contract states the whole new state, or the rows it
  returns, in terms of the old state;
- the slot-availability query: a 14-slot daily template anti-joined with the
  booked reservations;
- the diagnosis statistics query: GROUP BY, COUNT, ORDER BY count DESC and
  LIMIT 10;
- the all-or-nothing cascade of `deletePatient`;
- the service-level validators: trimmed non-blank names, the
  `010-DDDD-DDDD` phone pattern, no booking in the past, and no booking of a
  slot that is not free.

Module layout:

| file | module | contents |
|---|---|---|
| `entities.dfy` | `Entities` | rows, keys, statuses, the SQL error and service outcome types |
| `sequences.dfy` | `Sequences` | `Filter` (a WHERE clause), pairwise relations, key sets, lookup by key |
| `ordering.dfy` | `Ordering` | ORDER BY as a stable insertion sort, plus SQLite's binary text order |
| `text.dfy` | `Text` | `String.trim`, the phone-number pattern, and `LIKE` with ASCII case folding |
| `store.dfy` | `Store` | the `Database` class, its constraints (`Valid`), and rollback |
| `schedule.dfy` | `Schedule` | the slot template, availability, and cancellation |
| `statistics.dfy` | `Statistics` | the diagnosis ranking |
| `patient_dao.dfy`, `doctor_dao.dfy`, `reservation_dao.dfy`, `medical_record_dao.dfy` | one module per DAO | the DAO methods |
| `service.dfy` | `Service` | the HospitalService methods |

Modelling decisions:

- An SQLException that a DAO raises after rolling back is a
  `RolledBack(error)` result. A successful `executeUpdate` followed by a
  commit is `Committed(changed)`, where `changed` means `result > 0`.
- The service catches SQLException and answers `false`; this becomes
  `Returned(false)`. An IllegalArgumentException becomes
  `IllegalArgument(reason)`.
- Dates are day numbers. Times are minutes after midnight. The clock
  (`LocalDate.now()`, `CURRENT_TIMESTAMP`) is a parameter: `today` or `now`.
- HospitalService holds nothing but its DAOs, so its operations are
  module-level methods that take the `Database`.
- The slot template of `getAvailableTimeSlots` (lines 658-664) lists
  fourteen slots: 09:00–11:30 and 14:00–17:30, every half hour.
- The RESERVATION table (lines 65-76) has no uniqueness constraint on
  doctor, date and time, and the code raises no dedicated conflict or
  not-found error:
  - a second booking of a slot is meant to be refused by the availability
    check in `makeReservation` (lines 892-895), which throws
    IllegalArgumentException;
  - `cancelReservation` of an unknown key just returns `false`.

  The model gives the availability query its intended meaning: a stored
  reservation time equals a template slot exactly when they name the same
  time of day (see "## Left out" for how the stored encoding can defeat
  this). Under that meaning it proves that bookings made through
  `makeReservation`, and every cancellation, keep the invariant that no two
  booked rows share doctor, date and time.

## Model

| member | source | states |
|---|---|---|
| Store.Database.constructor | Search/HospitalReservationSystem.java:47-86 | a new database has four empty tables whose counters start at 1, and it satisfies every schema constraint |
| Store.Database.Restore | Search/HospitalReservationSystem.java:432-434 | a rollback returns all four tables and counters to the saved state |
| Store.AppendKeepsWellKeyed | Search/HospitalReservationSystem.java:48 | an INSERT under the next AUTOINCREMENT key keeps keys increasing and below the counter, and adds exactly that key to the key set |
| Store.UpdateKeepsWellKeyed | Search/HospitalReservationSystem.java:377-394 | an UPDATE that keeps a row's key keeps the key order and the key set |
| Store.FilterKeepsWellKeyed | Search/HospitalReservationSystem.java:399-436 | a DELETE keeps the remaining keys in order and below the counter |
| Store.KeyIsUnique | Search/HospitalReservationSystem.java:48 | under the PRIMARY KEY order, two rows with the same key are the same row |
| Text.TrimSpec | Search/HospitalReservationSystem.java:817 | `trim` cuts only characters at or below U+0020 from both ends, and a non-empty result starts and ends with another character |
| Text.BlankIffAllTrimmable | Search/HospitalReservationSystem.java:817 | `name.trim().isEmpty()` holds exactly when every character of the name is at or below U+0020 |
| Text.TrimIdempotent | Search/HospitalReservationSystem.java:824 | trimming an already trimmed name changes nothing |
| Text.PhoneNumberShape | Search/HospitalReservationSystem.java:820 | a phone number matches `^010-\d{4}-\d{4}$` exactly when it has 13 characters: `010-`, four ASCII digits, `-`, four ASCII digits |
| Text.LikeAnyMatches | Search/HospitalReservationSystem.java:353-357 | the pattern `%` matches every name |
| Text.LikePrefix | Search/HospitalReservationSystem.java:353-357 | for wildcard-free text `t`, `LIKE t%` holds exactly when the name starts with `t`, ignoring ASCII case |
| Text.LikeLeadingPercent | Search/HospitalReservationSystem.java:353-357 | a leading `%` matches exactly when the rest of the pattern matches some suffix |
| Text.LikeContains | Search/HospitalReservationSystem.java:353-357 | for wildcard-free text, `LIKE %t%` holds exactly when the name contains `t`, ignoring ASCII case |
| Ordering.SortBySorted | Search/HospitalReservationSystem.java:328-329 | under a total preorder, ORDER BY returns its rows sorted; `SortBy` itself keeps the same multiset of rows |
| Ordering.TextLeTotal | Search/HospitalReservationSystem.java:329 | any two names compare in the binary text order one way or the other |
| Ordering.TextLeTransitive | Search/HospitalReservationSystem.java:329 | the binary text order is transitive |
| Ordering.TextLeAntisymmetric | Search/HospitalReservationSystem.java:476-477 | two texts that compare both ways are equal |
| Schedule.TemplateIsChronological | Search/HospitalReservationSystem.java:658-664 | the slot table has 14 slots in strictly increasing time order |
| Schedule.AvailableIsSetDifference | Search/HospitalReservationSystem.java:654-686 | a slot is offered exactly when it is in the template and the doctor has no booked reservation at it on the date; the offered slots are chronological and free of repeats |
| Schedule.FullTemplateWhenFree | Search/HospitalReservationSystem.java:666-671 | with no booked reservation for the doctor on the date, the whole template is offered in order |
| Schedule.UnrelatedRowKeepsSlots | Search/HospitalReservationSystem.java:666-669 | a cancelled reservation, or one for another doctor or date, leaves availability unchanged |
| Schedule.BookingRemovesExactlyThatSlot | Search/HospitalReservationSystem.java:666-671 | adding a booked reservation removes exactly its own time from that doctor's availability on that date |
| Schedule.BookedSlotIsTaken | Search/HospitalReservationSystem.java:892-895 | right after a booking, its time is no longer offered, so booking it again is refused |
| Schedule.WithoutRemovesOne | Search/HospitalReservationSystem.java:893 | removing an offered slot from the chronological list shortens it by exactly one |
| Schedule.BookingKeepsNoDoubleBooking | Search/HospitalReservationSystem.java:892-898 | a booking of an offered slot keeps "no two booked rows share doctor, date and time" |
| Schedule.FreeBookingKeepsNoDoubleBooking | Search/HospitalReservationSystem.java:892-898 | adding a row at a time its doctor has not booked on its date keeps no-double-booking |
| Schedule.BookingThroughAvailability | Search/HospitalReservationSystem.java:892-898 | a booking of an offered slot takes exactly that slot, shrinks availability by one, and keeps no-double-booking |
| Schedule.CancelIdempotent | Search/HospitalReservationSystem.java:691-692 | cancelling a reservation twice is the same as cancelling it once |
| Schedule.CancelKeepsUnbooked | Search/HospitalReservationSystem.java:691-692 | cancellation never books a time |
| Schedule.CancelNeverRemovesSlot | Search/HospitalReservationSystem.java:691-692 | an offered slot is still offered after any cancellation |
| Schedule.CancelKeepsNoDoubleBooking | Search/HospitalReservationSystem.java:691-692 | cancellation keeps the no-double-booking invariant |
| Schedule.CancelFreesSlot | Search/HospitalReservationSystem.java:669 | once a booked template slot's reservation is cancelled, that slot is offered again |
| Statistics.ByCountDescIsTotalPreorder | Search/HospitalReservationSystem.java:784-785 | ORDER BY diagnosis_count DESC is a total preorder |
| Statistics.InsertKeepsDistinct | Search/HospitalReservationSystem.java:782-785 | inserting a group with a new diagnosis into sorted groups keeps the diagnoses distinct |
| Statistics.SortKeepsDistinct | Search/HospitalReservationSystem.java:784-785 | sorting groups keeps their diagnoses distinct |
| Statistics.SortedGroups | Search/HospitalReservationSystem.java:784-785 | the sorted groups are in descending count order, keep distinct diagnoses, and hold the same groups |
| Statistics.TopGroupsComplete | Search/HospitalReservationSystem.java:786 | a diagnosis of the range left out by LIMIT 10 means ten entries are listed, each at least as frequent as it |
| Statistics.TopGroupsOrdered | Search/HospitalReservationSystem.java:784-786 | the first ten groups by count are at most ten distinct groups, taken from the grouping, with non-increasing counts |
| Statistics.TopGroupsRanks | Search/HospitalReservationSystem.java:782-786 | sorting and limiting a grouping gives a ranking: at most 10 distinct diagnoses with exact positive counts, non-increasing, and nothing more frequent omitted |
| Statistics.HitsAtMostOne | Search/HospitalReservationSystem.java:780-783 | a record contributes to at most one group, and only when it is in the range |
| Statistics.CountsOverBounded | Search/HospitalReservationSystem.java:780-783 | over distinct diagnoses, the counted records never exceed the records in the range |
| Statistics.TotalIsCountsOver | Search/HospitalReservationSystem.java:776-777 | the sum of exact per-diagnosis counts equals the number of records those diagnoses cover |
| Statistics.RankingTotalBounded | Search/HospitalReservationSystem.java:773-801 | the counts of a ranking sum to at most the number of records treated in the range |
| Statistics.RangeDiagnoses | Search/HospitalReservationSystem.java:780-783 | lists each diagnosis occurring in the range exactly once |
| Statistics.GroupByDiagnosis | Search/HospitalReservationSystem.java:776-783 | GROUP BY m.diagnosis with COUNT(*): distinct diagnoses, exact positive counts, every diagnosis in the range present |
| Statistics.DiagnosisStatistics | Search/HospitalReservationSystem.java:774-786 | the query's result is a diagnosis ranking whose counts sum to at most the records in the range |
| Statistics.Put | Search/HospitalReservationSystem.java:795-797 | LinkedHashMap.put appends a new key at the end, or replaces an existing key's value; the key set grows by that key and other entries stay |
| PatientDao.InsertKeepsValid | Search/HospitalReservationSystem.java:47-53 | a new patient row with the next key, an allowed gender and an unused phone number keeps every constraint |
| PatientDao.UpdateKeepsValid | Search/HospitalReservationSystem.java:377-394 | the UPDATE overwrites exactly the row with that key, and keeps every constraint when the values pass the CHECK and UNIQUE |
| PatientDao.CascadeKeepsValid | Search/HospitalReservationSystem.java:399-436 | each of the three DELETEs leaves every foreign key satisfied; afterwards exactly the patient, their reservations and those reservations' records are gone |
| PatientDao.DeleteCountsPatient | Search/HospitalReservationSystem.java:425-430 | the last DELETE affects a row exactly when the patient exists |
| PatientDao.ByNameIsTotalPreorder | Search/HospitalReservationSystem.java:328-329 | ORDER BY patient_name is a total preorder |
| PatientDao.InsertPatient | Search/HospitalReservationSystem.java:293-309 | a disallowed gender is a CHECK violation, then a phone on file is a UNIQUE violation, and either leaves the tables unchanged; otherwise the row is appended under the next key |
| PatientDao.UpdatePatient | Search/HospitalReservationSystem.java:377-394 | an unknown key gives false with nothing changed; a CHECK or UNIQUE failure rolls back; otherwise exactly that row is replaced |
| PatientDao.DeletePatient | Search/HospitalReservationSystem.java:399-436 | without a fault it commits the whole cascade and reports whether the patient existed; a fault at any statement or at the commit restores every table |
| PatientDao.GetAllPatients | Search/HospitalReservationSystem.java:315-347 | every patient exactly once, ordered by name |
| PatientDao.SearchPatientsByName | Search/HospitalReservationSystem.java:352-372 | the patients matching `%name%`, ordered by name; for wildcard-free text, exactly those whose name contains it, ignoring ASCII case |
| DoctorDao.InsertKeepsValid | Search/HospitalReservationSystem.java:57-62 | a new doctor row with the next key and an unused phone number keeps every constraint |
| DoctorDao.UpdateKeepsValid | Search/HospitalReservationSystem.java:523-539 | the UPDATE overwrites exactly the row with that key, and keeps every constraint when the phone passes UNIQUE |
| DoctorDao.InsertDoctor | Search/HospitalReservationSystem.java:444-458 | a phone on file is a UNIQUE violation with nothing changed; otherwise the row is appended under the next key |
| DoctorDao.UpdateDoctor | Search/HospitalReservationSystem.java:523-539 | an unknown key gives false with nothing changed; a UNIQUE failure rolls back; otherwise exactly that row is replaced |
| DoctorDao.ByNameIsTotalPreorder | Search/HospitalReservationSystem.java:500 | ORDER BY doctor_name is a total preorder |
| DoctorDao.ByDepartmentThenNameIsTotalPreorder | Search/HospitalReservationSystem.java:476-477 | ORDER BY department, doctor_name is a total preorder |
| DoctorDao.GetAllDoctors | Search/HospitalReservationSystem.java:465-494 | every doctor exactly once, ordered by department and then name |
| DoctorDao.GetDoctorsByDepartment | Search/HospitalReservationSystem.java:499-518 | exactly the doctors of that department, ordered by name |
| ReservationDao.InsertKeepsValid | Search/HospitalReservationSystem.java:66-75 | a new reservation with the next key and existing patient and doctor keeps every constraint |
| ReservationDao.CancelKeepsColumns | Search/HospitalReservationSystem.java:692 | cancellation changes only statuses: keys, patients and doctors stay |
| ReservationDao.CancelKeepsKeys | Search/HospitalReservationSystem.java:692 | cancellation keeps the reservation keys in order, below the counter, and as the same set |
| ReservationDao.CancelKeepsValid | Search/HospitalReservationSystem.java:691-704 | cancellation keeps every key and foreign key |
| ReservationDao.InsertReservation | Search/HospitalReservationSystem.java:547-564 | a missing patient or doctor is a foreign-key violation with nothing changed; otherwise the row is appended under the next key |
| ReservationDao.FreeSlots | Search/HospitalReservationSystem.java:666-682 | walking the slot table keeps, in order, exactly the slots the doctor has not booked on the date |
| ReservationDao.GetAvailableTimeSlots | Search/HospitalReservationSystem.java:654-686 | returns the template minus the doctor's booked times on the date, in chronological order |
| ReservationDao.CancelReservation | Search/HospitalReservationSystem.java:691-704 | sets the status of the row with that key to cancelled, reports whether such a row exists, and keeps no-double-booking |
| ReservationDao.ByTimeIsTotalPreorder | Search/HospitalReservationSystem.java:583-584 | ORDER BY reservation_time is a total preorder |
| ReservationDao.LatestFirstIsTotalPreorder | Search/HospitalReservationSystem.java:624-625 | ORDER BY date DESC, time DESC is a total preorder |
| ReservationDao.ReadRows | Search/HospitalReservationSystem.java:592-604 | the result-set loop returns one row per reservation, in order, each with its doctor's columns and, in the per-date listing, its patient's name |
| ReservationDao.ListedRows | Search/HospitalReservationSystem.java:581-582 | every listed row is a stored row that passes the WHERE clause, and under the foreign keys its patient and doctor exist, so the inner joins drop nothing |
| ReservationDao.ViewOf | Search/HospitalReservationSystem.java:574-580 | a reservation whose patient and doctor exist gets its doctor's name and department and, when asked, its patient's name |
| ReservationDao.ViewedRows | Search/HospitalReservationSystem.java:592-604 | each result row carries one of the listed reservations |
| ReservationDao.GetReservationsByDate | Search/HospitalReservationSystem.java:570-607 | exactly the reservations on the date, ordered by time, each joined to its patient and doctor |
| ReservationDao.GetReservationsByPatient | Search/HospitalReservationSystem.java:613-646 | exactly the patient's reservations, latest first, each joined to its doctor |
| MedicalRecordDao.InsertKeepsValid | Search/HospitalReservationSystem.java:79-86 | a new record with the next key and an existing reservation keeps every constraint |
| MedicalRecordDao.InsertMedicalRecord | Search/HospitalReservationSystem.java:712-727 | a missing reservation is a foreign-key violation with nothing changed; otherwise the record is appended, stamped with the current time |
| MedicalRecordDao.LatestFirstIsTotalPreorder | Search/HospitalReservationSystem.java:745-746 | ORDER BY treatment_date DESC is a total preorder |
| MedicalRecordDao.ViewOf | Search/HospitalReservationSystem.java:739-742 | a record whose reservation exists, where every reservation's doctor exists, carries the name and department of its reservation's doctor |
| MedicalRecordDao.ReadRows | Search/HospitalReservationSystem.java:754-766 | the result-set loop returns one row per record, in order, each joined to its doctor |
| MedicalRecordDao.GetMedicalRecordsByPatient | Search/HospitalReservationSystem.java:732-769 | exactly the records of the patient's reservations, latest treatment first, each joined to its doctor |
| MedicalRecordDao.PutRows | Search/HospitalReservationSystem.java:795-797 | putting rows with distinct diagnoses into the LinkedHashMap gives exactly those rows, in query order |
| MedicalRecordDao.GetDiagnosisStatistics | Search/HospitalReservationSystem.java:773-801 | a ranking of at most 10 distinct diagnoses with exact counts, non-increasing, none more frequent omitted, summing to at most the records in the range |
| Service.RegisterPatient | Search/HospitalReservationSystem.java:814-830 | a blank name, then a malformed phone, is refused with nothing changed; otherwise the trimmed name is stored; true exactly when the gender is allowed and the phone is new |
| Service.RegisterDoctor | Search/HospitalReservationSystem.java:851-863 | a blank name is refused; otherwise the trimmed name is stored; true exactly when the phone is new |
| Service.MakeReservation | Search/HospitalReservationSystem.java:884-902 | a past date, then a slot that is not offered, is refused; a success books exactly that slot, shrinks availability by one, and keeps no-double-booking |
| Service.AddMedicalRecord | Search/HospitalReservationSystem.java:924-936 | a blank diagnosis is refused; otherwise the trimmed diagnosis is stored; true exactly when the reservation exists |
| Service.StoredNameIsTrimmed | Search/HospitalReservationSystem.java:824 | the stored name of a non-blank input is non-empty, trimmed, and starts and ends with a non-whitespace character |

## Left out

- JDBC's encoding of `DATE`, `TIME` and `DATETIME` values is not modelled. Dates are day numbers, times are minutes, and a treatment timestamp is a day number plus a second of the day.
- The model compares dates and times as plain values, which is what the queries evidently intend. Written as they are, the queries may not behave that way, because the values the driver stores need not equal the literals they are compared with. `insertReservation` binds the time with `setTime` (line 554). The SQLite JDBC driver by default stores such a value as an integer count of milliseconds, and can be configured to store `yyyy-MM-dd HH:mm:ss.SSS` text instead. Neither form equals the text `'09:00:00'` that the slot table compares it with (lines 658-668). If so, the LEFT JOIN never removes a booked slot, and `makeReservation` (line 893) never refuses a second booking of the same slot. The same holds for `DATE(m.treatment_date)` in the statistics query (line 781): it is text written by `CURRENT_TIMESTAMP` (line 84), but the bounds are bound with `setDate` (lines 791-792). Schedule.AvailableSlots, Schedule.BookedSlotIsTaken, Service.MakeReservation and Statistics.InRange therefore state the intended semantics, not the driver-level behaviour.
- `PRAGMA foreign_keys = ON` (line 42) is assumed to take effect, so the foreign keys are always enforced. The connection runs with auto-commit off, and SQLite ignores this pragma inside an open transaction; whether the driver has opened one at that point depends on the driver.
- Concurrency, connection handling, and the single shared `Connection` are not modelled.
- The `last_visit_date` and `today_appointments` columns of `getAllPatients` and `getAllDoctors` are not modelled. The `Patient` and `Doctor` objects those methods build never read them.
- Null arguments (`name == null`) are not modelled: strings are values.
- The console UI, `DatabaseConnection`'s index DDL, and the Python files are not part of this model.
- The service read wrappers (`getAllPatients`, `searchPatients`, `getAllDoctors`, `getDoctorsByDepartment`, `getReservationsByDate`, `getAvailableTimeSlots`, `getPatientMedicalHistory`, `getDiagnosisStatistics`; lines 832-849, 865-882, 905-922, 938-955) are not modelled separately. `ReservationDAO.getReservationsByPatient` (line 613) has no service wrapper. The wrappers only turn an SQLException into an empty list or map, and DAO reads cannot fail in the model.
- Storage faults (an SQLException that is not a constraint violation) are modelled only for `deletePatient`, the one multi-statement transaction. In a single-statement DAO method, such a fault rolls back the only statement, leaving the tables as the refusal paths leave them.
- The reservation status column holds only the two values the code writes, '예약완료' and '취소'.
- Ties in ORDER BY follow a stable insertion sort over the table's row order, and the statistics groups are formed in order of first occurrence. SQLite leaves the order of tied rows unspecified, so the model picks one. The `SortedBy` and `IsDiagnosisRanking` contracts hold for any tie order. Contracts that equate a result with `SortBy` or `DiagnosisStatistics` fix this particular one; MedicalRecordDao.GetDiagnosisStatistics is one of them (`stats == DiagnosisStatistics(...)`).
- ReservationDao.GetReservationsByDate, ReservationDao.GetReservationsByPatient and MedicalRecordDao.GetMedicalRecordsByPatient require `db.Valid()`. Under the foreign keys no inner join drops a row, which is what those contracts state.
- Statistics.Put: states LinkedHashMap.put's effect on the key set and on entries, not the position at which an existing key's value is replaced. The statistics loop only ever puts new keys, where the ensures gives the exact result.
