/** PatientDAO: registering, listing, searching, updating and deleting
    patients. Every statement runs in the connection's transaction, which
    is committed on success and rolled back when a statement fails. */
module PatientDao {
  import opened Entities
  import opened Sequences
  import opened Ordering
  import opened Text
  import opened Store

  /** Some row other than the one keyed `id` already has `phone`. */
  predicate PhoneTakenByOther(ps: seq<Patient>, phone: string, id: int)
  {
    exists q :: q in ps && q.phone == phone && q.id != id
  }

  /** UPDATE PATIENT SET ... WHERE patient_id = p.id */
  function ReplacePatient(ps: seq<Patient>, p: Patient): seq<Patient>
  {
    seq(|ps|, i requires 0 <= i < |ps| => if ps[i].id == p.id then p else ps[i])
  }

  function RecordNotIn(ids: set<int>): MedicalRecord -> bool
  {
    (m: MedicalRecord) => m.reservationId !in ids
  }

  function ReservationNotOf(patientId: int): Reservation -> bool
  {
    (r: Reservation) => r.patientId != patientId
  }

  function PatientIsNot(patientId: int): Patient -> bool
  {
    (p: Patient) => p.id != patientId
  }

  /** The three DELETE statements of deletePatient, applied in order. */
  function DeleteRecordsOf(t: Tables, patientId: int): Tables
  {
    t.(records := Filter(t.records, RecordNotIn(ReservationIdsOf(t.reservations, patientId))))
  }

  function DeleteReservationsOf(t: Tables, patientId: int): Tables
  {
    t.(reservations := Filter(t.reservations, ReservationNotOf(patientId)))
  }

  function DeletePatientRow(t: Tables, patientId: int): Tables
  {
    t.(patients := Filter(t.patients, PatientIsNot(patientId)))
  }

  function Cascade(t: Tables, patientId: int): Tables
  {
    DeletePatientRow(DeleteReservationsOf(DeleteRecordsOf(t, patientId), patientId), patientId)
  }

  /** The statements of deletePatient, in the order they run; a fault at a
      step is the SQLException that statement (or the commit) raises. */
  datatype Step = RecordStatement | ReservationStatement | PatientStatement | CommitStatement

  /** A new patient row with the next key keeps every constraint. */
  lemma InsertKeepsValid(t: Tables, p: Patient)
    requires ValidTables(t)
    requires p.id == t.nextPatientId
    requires GenderAllowed(p.gender) && !PatientPhoneTaken(t.patients, p.phone)
    ensures ValidTables(t.(patients := t.patients + [p], nextPatientId := t.nextPatientId + 1))
  {
    AppendKeepsWellKeyed(t.patients, PatientId, t.nextPatientId, p);
    forall y | y in t.patients
      ensures PatientPhonesDiffer(y, p)
    {
    }
    AppendKeepsPairwise(t.patients, p, PatientPhonesDiffer);
  }

  /** Overwriting the row keyed `p.id` keeps every constraint when the new
      values pass the CHECK and the UNIQUE test. */
  lemma UpdateKeepsValid(t: Tables, p: Patient, k: int)
    requires ValidTables(t)
    requires 0 <= k < |t.patients| && t.patients[k].id == p.id
    requires GenderAllowed(p.gender) && !PhoneTakenByOther(t.patients, p.phone, p.id)
    ensures ReplacePatient(t.patients, p) == t.patients[k := p]
    ensures ValidTables(t.(patients := ReplacePatient(t.patients, p)))
  {
    var ps := t.patients;
    forall i | 0 <= i < |ps| && i != k
      ensures ps[i].id != p.id
    {
      if ps[i].id == p.id {
        KeyIsUnique(ps, PatientId, i, k);
      }
    }
    assert ReplacePatient(ps, p) == ps[k := p];
    UpdateKeepsWellKeyed(ps, PatientId, t.nextPatientId, k, p);
    forall i | 0 <= i < k
      ensures PatientPhonesDiffer(ps[i], p)
    {
      assert ps[i] in ps;
    }
    forall i | k < i < |ps|
      ensures PatientPhonesDiffer(p, ps[i])
    {
      assert ps[i] in ps;
    }
    UpdateKeepsPairwise(ps, k, p, PatientPhonesDiffer);
    forall q | q in ps[k := p]
      ensures GenderAllowed(q.gender)
    {
      var i :| 0 <= i < |ps| && ps[k := p][i] == q;
      if i != k {
        assert ps[i] in ps;
      }
    }
  }

  /** The cascade deletes the patient's medical records, then the patient's
      reservations, then the patient. Each statement leaves the foreign keys
      satisfied, so none of them is refused. Afterwards nothing refers to
      the patient, and every row that did not belong to the patient remains. */
  lemma CascadeKeepsValid(t: Tables, patientId: int)
    requires ValidTables(t)
    ensures ValidTables(DeleteRecordsOf(t, patientId))
    ensures ValidTables(DeleteReservationsOf(DeleteRecordsOf(t, patientId), patientId))
    ensures ValidTables(Cascade(t, patientId))
    ensures forall p :: p in Cascade(t, patientId).patients <==> p in t.patients && p.id != patientId
    ensures forall r :: r in Cascade(t, patientId).reservations <==> r in t.reservations && r.patientId != patientId
    ensures forall m :: m in Cascade(t, patientId).records <==>
      m in t.records && m.reservationId !in ReservationIdsOf(t.reservations, patientId)
  {
    var ids := ReservationIdsOf(t.reservations, patientId);
    var t1 := DeleteRecordsOf(t, patientId);
    var t2 := DeleteReservationsOf(t1, patientId);
    var t3 := DeletePatientRow(t2, patientId);
    FilterKeepsWellKeyed(t.records, RecordId, t.nextRecordId, RecordNotIn(ids));
    assert ValidTables(t1);
    FilterKeepsWellKeyed(t.reservations, ReservationId, t.nextReservationId, ReservationNotOf(patientId));
    forall m | m in t2.records
      ensures m.reservationId in KeySet(t2.reservations, ReservationId)
    {
      var r :| r in t.reservations && ReservationId(r) == m.reservationId;
      assert r.patientId != patientId;
      assert r in t2.reservations;
    }
    assert ValidTables(t2);
    FilterKeepsWellKeyed(t.patients, PatientId, t.nextPatientId, PatientIsNot(patientId));
    FilterKeepsPairwise(t.patients, PatientIsNot(patientId), PatientPhonesDiffer);
    forall r | r in t3.reservations
      ensures r.patientId in KeySet(t3.patients, PatientId)
    {
      var p :| p in t.patients && PatientId(p) == r.patientId;
      assert p in t3.patients;
    }
    assert ValidTables(t3);
  }

  /** PatientDAO.insertPatient. The CHECK on gender is evaluated before the
      UNIQUE index on phone_number; a refused row rolls the transaction back. */
  method InsertPatient(db: Database, name: string, birthDate: Day, phone: string, gender: char) returns (result: DbResult)
    requires db.Valid()
    modifies db
    ensures db.Valid()
    ensures !GenderAllowed(gender) ==> result == RolledBack(CheckViolation)
    ensures GenderAllowed(gender) && PatientPhoneTaken(old(db.patients), phone) ==> result == RolledBack(UniqueViolation)
    ensures result.Committed? <==> GenderAllowed(gender) && !PatientPhoneTaken(old(db.patients), phone)
    ensures result.RolledBack? ==> db.Snap() == old(db.Snap())
    ensures result.Committed? ==> result.changed && db.Snap() == old(db.Snap()).(
      patients := old(db.patients) + [Patient(old(db.nextPatientId), name, birthDate, phone, gender)],
      nextPatientId := old(db.nextPatientId) + 1)
  {
    if !GenderAllowed(gender) {
      return RolledBack(CheckViolation);
    }
    if PatientPhoneTaken(db.patients, phone) {
      return RolledBack(UniqueViolation);
    }
    var p := Patient(db.nextPatientId, name, birthDate, phone, gender);
    InsertKeepsValid(db.Snap(), p);
    db.patients := db.patients + [p];
    db.nextPatientId := db.nextPatientId + 1;
    result := Committed(true);
  }

  /** PatientDAO.updatePatient: true when a row with the patient's key was
      overwritten; an unknown key updates nothing and reports false. */
  method UpdatePatient(db: Database, p: Patient) returns (result: DbResult)
    requires db.Valid()
    modifies db
    ensures db.Valid()
    ensures p.id !in KeySet(old(db.patients), PatientId) ==> result == Committed(false)
    ensures p.id in KeySet(old(db.patients), PatientId) && !GenderAllowed(p.gender) ==> result == RolledBack(CheckViolation)
    ensures p.id in KeySet(old(db.patients), PatientId) && GenderAllowed(p.gender) && PhoneTakenByOther(old(db.patients), p.phone, p.id) ==>
      result == RolledBack(UniqueViolation)
    ensures result == Committed(true) <==>
      p.id in KeySet(old(db.patients), PatientId) && GenderAllowed(p.gender) && !PhoneTakenByOther(old(db.patients), p.phone, p.id)
    ensures result == Committed(true) ==> db.Snap() == old(db.Snap()).(patients := ReplacePatient(old(db.patients), p))
    ensures result != Committed(true) ==> db.Snap() == old(db.Snap())
  {
    if p.id !in KeySet(db.patients, PatientId) {
      return Committed(false);
    }
    if !GenderAllowed(p.gender) {
      return RolledBack(CheckViolation);
    }
    if PhoneTakenByOther(db.patients, p.phone, p.id) {
      return RolledBack(UniqueViolation);
    }
    var k := IndexOfKey(db.patients, PatientId, p.id);
    UpdateKeepsValid(db.Snap(), p, k);
    db.patients := ReplacePatient(db.patients, p);
    result := Committed(true);
  }

  /** PatientDAO.deletePatient: the three deletions commit together, or a
      failing statement rolls all of them back. The result says whether a
      patient row was deleted. */
  method DeletePatient(db: Database, patientId: int, fault: Option<Step>) returns (result: DbResult)
    requires db.Valid()
    modifies db
    ensures db.Valid()
    ensures result.Committed? <==> fault == None
    ensures result.Committed? ==> db.Snap() == Cascade(old(db.Snap()), patientId)
    ensures result.Committed? ==> (result.changed <==> patientId in KeySet(old(db.patients), PatientId))
    ensures result.RolledBack? ==> result.error == StorageFailure && db.Snap() == old(db.Snap())
  {
    var saved := db.Snap();
    CascadeKeepsValid(saved, patientId);
    if fault == Some(RecordStatement) {
      db.Restore(saved);
      return RolledBack(StorageFailure);
    }
    db.records := DeleteRecordsOf(saved, patientId).records;
    assert db.Snap() == DeleteRecordsOf(saved, patientId);
    if fault == Some(ReservationStatement) {
      db.Restore(saved);
      return RolledBack(StorageFailure);
    }
    db.reservations := Filter(db.reservations, ReservationNotOf(patientId));
    assert db.Snap() == DeleteReservationsOf(DeleteRecordsOf(saved, patientId), patientId);
    if fault == Some(PatientStatement) {
      db.Restore(saved);
      return RolledBack(StorageFailure);
    }
    var before := |db.patients|;
    db.patients := Filter(db.patients, PatientIsNot(patientId));
    assert db.Snap() == Cascade(saved, patientId);
    DeleteCountsPatient(saved.patients, patientId);
    // The only fault left is the commit's.
    if fault.Some? {
      db.Restore(saved);
      return RolledBack(StorageFailure);
    }
    result := Committed(|db.patients| < before);
  }

  /** The last DELETE affects a row exactly when the patient exists. */
  lemma DeleteCountsPatient(ps: seq<Patient>, patientId: int)
    ensures |Filter(ps, PatientIsNot(patientId))| < |ps| <==> patientId in KeySet(ps, PatientId)
  {
    if patientId in KeySet(ps, PatientId) {
      var p :| p in ps && p.id == patientId;
      if |Filter(ps, PatientIsNot(patientId))| == |ps| {
        FilterKeepsAll(ps, PatientIsNot(patientId));
        assert false;
      }
    } else {
      FilterKeepsAll(ps, PatientIsNot(patientId));
    }
  }

  /** ORDER BY patient_name */
  predicate ByName(a: Patient, b: Patient) { TextLe(a.name, b.name) }

  lemma ByNameIsTotalPreorder()
    ensures TotalPreorder(ByName)
  {
    forall a: Patient, b: Patient
      ensures ByName(a, b) || ByName(b, a)
    {
      TextLeTotal(a.name, b.name);
    }
    forall a: Patient, b: Patient, c: Patient | ByName(a, b) && ByName(b, c)
      ensures ByName(a, c)
    {
      TextLeTransitive(a.name, b.name, c.name);
    }
  }

  /** WHERE patient_name LIKE '%' || name || '%' */
  function NameContains(name: string): Patient -> bool
  {
    (p: Patient) => Like("%" + name + "%", p.name)
  }

  /** The rows as the query returns them, in ORDER BY order. */
  function AllByName(ps: seq<Patient>): seq<Patient>
  {
    SortBy(ps, ByName)
  }

  /** PatientDAO.getAllPatients: every patient, ordered by name. */
  method GetAllPatients(db: Database) returns (list: seq<Patient>)
    ensures SortedBy(list, ByName)
    ensures multiset(list) == multiset(db.patients)
  {
    var rows := AllByName(db.patients);
    list := [];
    var i := 0;
    while i < |rows|
      invariant 0 <= i <= |rows|
      invariant list == rows[..i]
    {
      list := list + [rows[i]];
      i := i + 1;
    }
    assert rows[..|rows|] == rows;
    ByNameIsTotalPreorder();
    SortBySorted(db.patients, ByName);
  }

  /** PatientDAO.searchPatientsByName: the patients whose name matches the
      pattern, ordered by name. A search text without wildcards finds
      exactly the names that contain it, ignoring ASCII case. */
  method SearchPatientsByName(db: Database, name: string) returns (list: seq<Patient>)
    ensures SortedBy(list, ByName)
    ensures multiset(list) == multiset(Filter(db.patients, NameContains(name)))
    ensures HasNoWildcard(name) ==>
      forall p :: p in list <==> p in db.patients && ContainsIgnoringAsciiCase(p.name, name)
  {
    var rows := AllByName(Filter(db.patients, NameContains(name)));
    list := [];
    var i := 0;
    while i < |rows|
      invariant 0 <= i <= |rows|
      invariant list == rows[..i]
    {
      list := list + [rows[i]];
      i := i + 1;
    }
    assert rows[..|rows|] == rows;
    ByNameIsTotalPreorder();
    SortBySorted(Filter(db.patients, NameContains(name)), ByName);
    if HasNoWildcard(name) {
      forall p
        ensures p in list <==> p in db.patients && ContainsIgnoringAsciiCase(p.name, name)
      {
        assert p in list <==> p in multiset(list);
        assert p in Filter(db.patients, NameContains(name)) <==> p in multiset(Filter(db.patients, NameContains(name)));
        LikeContains(name, p.name);
      }
    }
  }
}
