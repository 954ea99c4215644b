/** The database the data-access objects share: the four tables, the
    AUTOINCREMENT counters, and the constraints the schema declares
    (primary keys, UNIQUE phone numbers, the gender CHECK, foreign keys). */
module Store {
  import opened Entities
  import opened Sequences

  /** The whole database as a value: what a transaction saves and a rollback restores. */
  datatype Tables = Tables(
    patients: seq<Patient>,
    doctors: seq<Doctor>,
    reservations: seq<Reservation>,
    records: seq<MedicalRecord>,
    nextPatientId: int,
    nextDoctorId: int,
    nextReservationId: int,
    nextRecordId: int)

  /** Rows in rowid order, every key positive and below the next key to be handed out. */
  ghost predicate WellKeyed<T>(rows: seq<T>, key: T -> int, next: int)
  {
    && 0 < next
    && StrictlyIncreasing(rows, key)
    && forall i :: 0 <= i < |rows| ==> 0 < key(rows[i]) < next
  }

  predicate PatientPhoneTaken(ps: seq<Patient>, phone: string)
  {
    exists p :: p in ps && p.phone == phone
  }

  predicate DoctorPhoneTaken(ds: seq<Doctor>, phone: string)
  {
    exists d :: d in ds && d.phone == phone
  }

  /** CHECK (gender IN ('M','F')) */
  predicate GenderAllowed(g: char) { g == 'M' || g == 'F' }

  predicate PatientPhonesDiffer(a: Patient, b: Patient) { a.phone != b.phone }

  predicate DoctorPhonesDiffer(a: Doctor, b: Doctor) { a.phone != b.phone }

  /** UNIQUE phone_number and the gender CHECK of PATIENT. */
  ghost predicate PatientConstraints(ps: seq<Patient>)
  {
    && Pairwise(ps, PatientPhonesDiffer)
    && (forall p :: p in ps ==> GenderAllowed(p.gender))
  }

  /** UNIQUE phone_number of DOCTOR. */
  ghost predicate DoctorConstraints(ds: seq<Doctor>)
  {
    Pairwise(ds, DoctorPhonesDiffer)
  }

  /** The foreign keys of RESERVATION and MEDICAL_RECORD. */
  ghost predicate ReferencesHold(ps: seq<Patient>, ds: seq<Doctor>, rs: seq<Reservation>, ms: seq<MedicalRecord>)
  {
    && (forall r :: r in rs ==> r.patientId in KeySet(ps, PatientId) && r.doctorId in KeySet(ds, DoctorId))
    && (forall m :: m in ms ==> m.reservationId in KeySet(rs, ReservationId))
  }

  ghost predicate ValidTables(t: Tables)
  {
    && WellKeyed(t.patients, PatientId, t.nextPatientId)
    && WellKeyed(t.doctors, DoctorId, t.nextDoctorId)
    && WellKeyed(t.reservations, ReservationId, t.nextReservationId)
    && WellKeyed(t.records, RecordId, t.nextRecordId)
    && PatientConstraints(t.patients)
    && DoctorConstraints(t.doctors)
    && ReferencesHold(t.patients, t.doctors, t.reservations, t.records)
  }

  /** The keys of the patient's reservations (SELECT reservation_id FROM RESERVATION WHERE patient_id = ?). */
  function ReservationIdsOf(rs: seq<Reservation>, patientId: int): set<int>
  {
    set r | r in rs && r.patientId == patientId :: r.id
  }

  /** An INSERT appends the row under the next AUTOINCREMENT key. */
  lemma AppendKeepsWellKeyed<T(!new)>(rows: seq<T>, key: T -> int, next: int, x: T)
    requires WellKeyed(rows, key, next)
    requires key(x) == next
    ensures WellKeyed(rows + [x], key, next + 1)
    ensures KeySet(rows + [x], key) == KeySet(rows, key) + {next}
  {
    forall y | y in rows
      ensures KeyBefore(key)(y, x)
    {
      var i :| 0 <= i < |rows| && rows[i] == y;
    }
    AppendKeepsPairwise(rows, x, KeyBefore(key));
    var r := rows + [x];
    forall i | 0 <= i < |r|
      ensures 0 < key(r[i]) < next + 1
    {
      if i < |rows| {
        assert r[i] == rows[i];
      }
    }
  }

  /** An UPDATE that keeps the key of row `k` keeps the keys. */
  lemma UpdateKeepsWellKeyed<T(!new)>(rows: seq<T>, key: T -> int, next: int, k: int, x: T)
    requires WellKeyed(rows, key, next)
    requires 0 <= k < |rows| && key(x) == key(rows[k])
    ensures WellKeyed(rows[k := x], key, next)
    ensures KeySet(rows[k := x], key) == KeySet(rows, key)
  {
    assert forall i :: 0 <= i < k ==> KeyBefore(key)(rows[i], rows[k]);
    assert forall i :: k < i < |rows| ==> KeyBefore(key)(rows[k], rows[i]);
    UpdateKeepsPairwise(rows, k, x, KeyBefore(key));
    var r := rows[k := x];
    forall n | n in KeySet(rows, key)
      ensures n in KeySet(r, key)
    {
      var y :| y in rows && key(y) == n;
      var i :| 0 <= i < |rows| && rows[i] == y;
      if i == k {
        assert key(r[k]) == n;
      } else {
        assert r[i] == y;
      }
    }
  }

  /** A DELETE keeps the remaining rows in key order below the counter. */
  lemma FilterKeepsWellKeyed<T(!new)>(rows: seq<T>, key: T -> int, next: int, keep: T -> bool)
    requires WellKeyed(rows, key, next)
    ensures WellKeyed(Filter(rows, keep), key, next)
  {
    FilterKeepsPairwise(rows, keep, KeyBefore(key));
    var r := Filter(rows, keep);
    forall i | 0 <= i < |r|
      ensures 0 < key(r[i]) < next
    {
      assert r[i] in rows;
    }
  }

  /** Under strictly increasing keys, the row with a given key is the only one. */
  lemma KeyIsUnique<T>(rows: seq<T>, key: T -> int, i: int, j: int)
    requires StrictlyIncreasing(rows, key)
    requires 0 <= i < |rows| && 0 <= j < |rows| && key(rows[i]) == key(rows[j])
    ensures i == j
  {
  }

  class Database {
    var patients: seq<Patient>
    var doctors: seq<Doctor>
    var reservations: seq<Reservation>
    var records: seq<MedicalRecord>
    // AUTOINCREMENT: the key each table hands out next.
    var nextPatientId: int
    var nextDoctorId: int
    var nextReservationId: int
    var nextRecordId: int

    function Snap(): Tables
      reads this
    {
      Tables(patients, doctors, reservations, records,
             nextPatientId, nextDoctorId, nextReservationId, nextRecordId)
    }

    /** Every committed state satisfies the schema's constraints. */
    ghost predicate Valid()
      reads this
    {
      ValidTables(Snap())
    }

    /** A fresh database: four empty tables. */
    constructor ()
      ensures Valid()
      ensures Snap() == Tables([], [], [], [], 1, 1, 1, 1)
    {
      patients, doctors, reservations, records := [], [], [], [];
      nextPatientId, nextDoctorId, nextReservationId, nextRecordId := 1, 1, 1, 1;
    }

    /** Connection.rollback: the tables return to the saved state. */
    method Restore(saved: Tables)
      modifies this
      ensures Snap() == saved
    {
      patients, doctors, reservations, records := saved.patients, saved.doctors, saved.reservations, saved.records;
      nextPatientId, nextDoctorId := saved.nextPatientId, saved.nextDoctorId;
      nextReservationId, nextRecordId := saved.nextReservationId, saved.nextRecordId;
    }
  }
}
