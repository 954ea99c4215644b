/** MedicalRecordDAO: recording a treatment, a patient's treatment history
    and the diagnosis statistics. */
module MedicalRecordDao {
  import opened Entities
  import opened Sequences
  import opened Ordering
  import opened Statistics
  import opened Store

  /** A medical record with the joined doctor columns. */
  datatype RecordView = RecordView(record: MedicalRecord, doctorName: string, department: string)

  function RecordsOf(views: seq<RecordView>): (ms: seq<MedicalRecord>)
    ensures |ms| == |views| && forall i :: 0 <= i < |views| ==> ms[i] == views[i].record
  {
    seq(|views|, i requires 0 <= i < |views| => views[i].record)
  }

  /** JOIN RESERVATION r ON m.reservation_id = r.reservation_id
      JOIN DOCTOR d ON r.doctor_id = d.doctor_id, selecting d.doctor_name, d.department. */
  predicate JoinsDoctor(rs: seq<Reservation>, ds: seq<Doctor>, v: RecordView)
  {
    exists r :: r in rs && r.id == v.record.reservationId && HasDoctorColumns(ds, r.doctorId, v)
  }

  predicate HasDoctorColumns(ds: seq<Doctor>, doctorId: int, v: RecordView)
  {
    exists d :: d in ds && d.id == doctorId && v.doctorName == d.name && v.department == d.department
  }

  /** A new record with the next key and an existing reservation keeps every constraint. */
  lemma InsertKeepsValid(t: Tables, m: MedicalRecord)
    requires ValidTables(t)
    requires m.id == t.nextRecordId && m.reservationId in KeySet(t.reservations, ReservationId)
    ensures ValidTables(t.(records := t.records + [m], nextRecordId := t.nextRecordId + 1))
  {
    AppendKeepsWellKeyed(t.records, RecordId, t.nextRecordId, m);
  }

  /** MedicalRecordDAO.insertMedicalRecord: the record is stamped with the
      current time; a reservation key that does not exist is refused by the
      foreign key and rolls the transaction back. */
  method InsertMedicalRecord(db: Database, reservationId: int, diagnosis: string, prescription: Option<string>, now: Timestamp)
    returns (result: DbResult)
    requires db.Valid()
    modifies db
    ensures db.Valid()
    ensures result.Committed? <==> reservationId in KeySet(old(db.reservations), ReservationId)
    ensures result.RolledBack? ==> result.error == ForeignKeyViolation && db.Snap() == old(db.Snap())
    ensures result.Committed? ==> result.changed && db.Snap() == old(db.Snap()).(
      records := old(db.records) + [MedicalRecord(old(db.nextRecordId), reservationId, diagnosis, prescription, now)],
      nextRecordId := old(db.nextRecordId) + 1)
  {
    if reservationId !in KeySet(db.reservations, ReservationId) {
      return RolledBack(ForeignKeyViolation);
    }
    var m := MedicalRecord(db.nextRecordId, reservationId, diagnosis, prescription, now);
    InsertKeepsValid(db.Snap(), m);
    db.records := db.records + [m];
    db.nextRecordId := db.nextRecordId + 1;
    result := Committed(true);
  }

  /** WHERE r.patient_id = ?, through the record's reservation. */
  function OfPatient(rs: seq<Reservation>, patientId: int): MedicalRecord -> bool
  {
    (m: MedicalRecord) => m.reservationId in ReservationIdsOf(rs, patientId)
  }

  /** ORDER BY m.treatment_date DESC */
  predicate LatestFirst(a: MedicalRecord, b: MedicalRecord)
  {
    a.treatedAt.day > b.treatedAt.day || (a.treatedAt.day == b.treatedAt.day && a.treatedAt.second >= b.treatedAt.second)
  }

  lemma LatestFirstIsTotalPreorder()
    ensures TotalPreorder(LatestFirst)
  {
  }

  /** The foreign keys the two inner joins follow. */
  ghost predicate DoctorsReachable(t: Tables)
  {
    forall r :: r in t.reservations ==> r.doctorId in KeySet(t.doctors, DoctorId)
  }

  /** One result row: the record with the columns of its reservation's doctor. */
  function ViewOf(t: Tables, m: MedicalRecord): (v: RecordView)
    requires DoctorsReachable(t) && m.reservationId in KeySet(t.reservations, ReservationId)
    ensures v.record == m && JoinsDoctor(t.reservations, t.doctors, v)
  {
    var r := RowWithKey(t.reservations, ReservationId, m.reservationId);
    assert r in t.reservations;
    var d := RowWithKey(t.doctors, DoctorId, r.doctorId);
    var v := RecordView(m, d.name, d.department);
    assert HasDoctorColumns(t.doctors, r.doctorId, v);
    v
  }

  /** The result-set loop: each record read with its doctor's columns. */
  method ReadRows(db: Database, rows: seq<MedicalRecord>) returns (views: seq<RecordView>)
    requires DoctorsReachable(db.Snap())
    requires forall m :: m in rows ==> m.reservationId in KeySet(db.reservations, ReservationId)
    ensures RecordsOf(views) == rows
    ensures forall v :: v in views ==> JoinsDoctor(db.reservations, db.doctors, v)
  {
    var t := db.Snap();
    views := [];
    var i := 0;
    while i < |rows|
      invariant 0 <= i <= |rows|
      invariant RecordsOf(views) == rows[..i]
      invariant forall v :: v in views ==> JoinsDoctor(t.reservations, t.doctors, v)
    {
      var v := ViewOf(t, rows[i]);
      assert RecordsOf(views + [v]) == RecordsOf(views) + [rows[i]];
      assert rows[..i + 1] == rows[..i] + [rows[i]];
      views := views + [v];
      i := i + 1;
    }
    assert rows[..|rows|] == rows;
  }

  /** MedicalRecordDAO.getMedicalRecordsByPatient: the records of the
      patient's reservations, latest treatment first, with the doctor's columns. */
  method GetMedicalRecordsByPatient(db: Database, patientId: int) returns (views: seq<RecordView>)
    requires db.Valid()
    ensures SortedBy(RecordsOf(views), LatestFirst)
    ensures multiset(RecordsOf(views)) == multiset(Filter(db.records, OfPatient(db.reservations, patientId)))
    ensures forall v :: v in views ==> exists r :: r in db.reservations && r.id == v.record.reservationId && r.patientId == patientId
    ensures forall v :: v in views ==> JoinsDoctor(db.reservations, db.doctors, v)
  {
    var keep := OfPatient(db.reservations, patientId);
    var rows := SortBy(Filter(db.records, keep), LatestFirst);
    forall m | m in rows
      ensures m in db.records && keep(m)
    {
      assert m in multiset(rows);
      assert m in Filter(db.records, keep);
    }
    assert DoctorsReachable(db.Snap());
    views := ReadRows(db, rows);
    forall v | v in views
      ensures exists r :: r in db.reservations && r.id == v.record.reservationId && r.patientId == patientId
    {
      var k :| 0 <= k < |views| && views[k] == v;
      assert RecordsOf(views)[k] == v.record && v.record in rows;
    }
    LatestFirstIsTotalPreorder();
    SortBySorted(Filter(db.records, keep), LatestFirst);
  }

  /** The result-set loop of the statistics: each row put into a
      LinkedHashMap. With distinct diagnoses every put adds a new key at the
      end, so the map lists the rows in query order. */
  method PutRows(rows: seq<DiagnosisCount>) returns (stats: seq<DiagnosisCount>)
    requires DistinctDiagnoses(rows)
    ensures stats == rows
  {
    stats := [];
    var i := 0;
    while i < |rows|
      invariant 0 <= i <= |rows|
      invariant stats == rows[..i]
    {
      assert rows[i].diagnosis !in Diagnoses(stats) by {
        forall g | g in stats
          ensures g.diagnosis != rows[i].diagnosis
        {
          var k :| 0 <= k < i && rows[k] == g;
        }
      }
      assert rows[..i + 1] == rows[..i] + [rows[i]];
      stats := Put(stats, rows[i].diagnosis, rows[i].count);
      i := i + 1;
    }
    assert rows[..|rows|] == rows;
  }

  /** MedicalRecordDAO.getDiagnosisStatistics: at most ten distinct diagnoses
      of the records treated between the two dates inclusive, with their exact
      counts, most frequent first, put into a map that keeps the row order. */
  method GetDiagnosisStatistics(db: Database, start: Day, end: Day) returns (stats: seq<DiagnosisCount>)
    ensures stats == DiagnosisStatistics(db.records, start, end)
    ensures IsDiagnosisRanking(db.records, start, end, stats)
    ensures TotalCount(stats) <= RangeSize(db.records, start, end)
  {
    var rows := DiagnosisStatistics(db.records, start, end);
    stats := PutRows(rows);
  }
}
