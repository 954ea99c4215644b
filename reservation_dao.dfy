/** ReservationDAO: booking, the per-date and per-patient listings, slot
    availability and cancellation. */
module ReservationDao {
  import opened Entities
  import opened Sequences
  import opened Ordering
  import opened Schedule
  import opened Store

  /** A reservation row with the joined columns: the patient's name (only
      the per-date listing joins PATIENT), the doctor's name and department. */
  datatype ReservationView = ReservationView(reservation: Reservation, patientName: Option<string>,
                                             doctorName: string, department: string)

  function ReservationsOf(views: seq<ReservationView>): (rs: seq<Reservation>)
    ensures |rs| == |views| && forall i :: 0 <= i < |views| ==> rs[i] == views[i].reservation
  {
    seq(|views|, i requires 0 <= i < |views| => views[i].reservation)
  }

  /** JOIN PATIENT p ON r.patient_id = p.patient_id, selecting p.patient_name. */
  predicate JoinsPatient(ps: seq<Patient>, v: ReservationView)
  {
    exists p :: p in ps && p.id == v.reservation.patientId && v.patientName == Some(p.name)
  }

  /** JOIN DOCTOR d ON r.doctor_id = d.doctor_id, selecting d.doctor_name, d.department. */
  predicate JoinsDoctor(ds: seq<Doctor>, v: ReservationView)
  {
    exists d :: d in ds && d.id == v.reservation.doctorId && v.doctorName == d.name && v.department == d.department
  }

  /** A new reservation row with the next key and existing parties keeps every constraint. */
  lemma InsertKeepsValid(t: Tables, r: Reservation)
    requires ValidTables(t)
    requires r.id == t.nextReservationId
    requires r.patientId in KeySet(t.patients, PatientId) && r.doctorId in KeySet(t.doctors, DoctorId)
    ensures ValidTables(t.(reservations := t.reservations + [r], nextReservationId := t.nextReservationId + 1))
  {
    AppendKeepsWellKeyed(t.reservations, ReservationId, t.nextReservationId, r);
  }

  /** Cancelling changes only statuses: every row keeps its key and its parties. */
  lemma CancelKeepsColumns(rs: seq<Reservation>, id: int)
    ensures |CancelById(rs, id)| == |rs|
    ensures forall i :: 0 <= i < |rs| ==>
      CancelById(rs, id)[i].id == rs[i].id && CancelById(rs, id)[i].patientId == rs[i].patientId &&
      CancelById(rs, id)[i].doctorId == rs[i].doctorId
  {
  }

  /** Cancelling keeps the keys in order and keeps the key set. */
  lemma CancelKeepsKeys(rs: seq<Reservation>, id: int, next: int)
    requires WellKeyed(rs, ReservationId, next)
    ensures WellKeyed(CancelById(rs, id), ReservationId, next)
    ensures KeySet(CancelById(rs, id), ReservationId) == KeySet(rs, ReservationId)
  {
    var c := CancelById(rs, id);
    CancelKeepsColumns(rs, id);
    forall i, j | 0 <= i < j < |c|
      ensures KeyBefore(ReservationId)(c[i], c[j])
    {
      assert KeyBefore(ReservationId)(rs[i], rs[j]);
      assert ReservationId(c[i]) == ReservationId(rs[i]) && ReservationId(c[j]) == ReservationId(rs[j]);
    }
    forall i | 0 <= i < |c|
      ensures 0 < ReservationId(c[i]) < next
    {
      assert ReservationId(rs[i]) == ReservationId(c[i]);
    }
    forall k | k in KeySet(rs, ReservationId)
      ensures k in KeySet(c, ReservationId)
    {
      var r :| r in rs && ReservationId(r) == k;
      var i :| 0 <= i < |rs| && rs[i] == r;
      assert c[i] in c;
    }
  }

  /** Cancelling keeps every key and reference. */
  lemma CancelKeepsValid(t: Tables, id: int)
    requires ValidTables(t)
    ensures ValidTables(t.(reservations := CancelById(t.reservations, id)))
  {
    var rs := t.reservations;
    var c := CancelById(rs, id);
    CancelKeepsColumns(rs, id);
    CancelKeepsKeys(rs, id, t.nextReservationId);
    forall r | r in c
      ensures r.patientId in KeySet(t.patients, PatientId) && r.doctorId in KeySet(t.doctors, DoctorId)
    {
      var i :| 0 <= i < |c| && c[i] == r;
      assert rs[i] in rs;
    }
  }

  /** ReservationDAO.insertReservation: a patient or doctor key that does
      not exist is refused by the foreign keys and rolls the transaction back. */
  method InsertReservation(db: Database, patientId: int, doctorId: int, date: Day, time: Minute, status: Status)
    returns (result: DbResult)
    requires db.Valid()
    modifies db
    ensures db.Valid()
    ensures result.Committed? <==> patientId in KeySet(old(db.patients), PatientId) && doctorId in KeySet(old(db.doctors), DoctorId)
    ensures result.RolledBack? ==> result.error == ForeignKeyViolation && db.Snap() == old(db.Snap())
    ensures result.Committed? ==> result.changed && db.Snap() == old(db.Snap()).(
      reservations := old(db.reservations) + [Reservation(old(db.nextReservationId), patientId, doctorId, date, time, status)],
      nextReservationId := old(db.nextReservationId) + 1)
  {
    if patientId !in KeySet(db.patients, PatientId) || doctorId !in KeySet(db.doctors, DoctorId) {
      return RolledBack(ForeignKeyViolation);
    }
    var r := Reservation(db.nextReservationId, patientId, doctorId, date, time, status);
    InsertKeepsValid(db.Snap(), r);
    db.reservations := db.reservations + [r];
    db.nextReservationId := db.nextReservationId + 1;
    result := Committed(true);
  }

  /** The anti-join loop: walks the slot table in order and keeps each slot
      for which the LEFT JOIN finds no booked reservation. */
  method FreeSlots(db: Database, table: seq<Minute>, doctorId: int, date: Day) returns (slots: seq<Minute>)
    ensures slots == Filter(table, SlotIsFree(db.reservations, doctorId, date))
  {
    var rs := db.reservations;
    slots := [];
    var i := 0;
    while i < |table|
      invariant 0 <= i <= |table|
      invariant slots == Filter(table[..i], SlotIsFree(rs, doctorId, date))
    {
      var t := table[i];
      FilterAppend(table[..i], t, SlotIsFree(rs, doctorId, date));
      assert table[..i + 1] == table[..i] + [t];
      if !IsBookedAt(rs, doctorId, date, t) {
        slots := slots + [t];
      }
      i := i + 1;
    }
    assert table[..|table|] == table;
  }

  /** ReservationDAO.getAvailableTimeSlots: the template slots at which the
      doctor has no booked reservation on the date, in chronological order. */
  method GetAvailableTimeSlots(db: Database, doctorId: int, date: Day) returns (slots: seq<Minute>)
    ensures slots == AvailableSlots(db.reservations, doctorId, date)
    ensures forall t :: t in slots <==> t in Template && !IsBookedAt(db.reservations, doctorId, date, t)
    ensures StrictlyIncreasing(slots, Identity)
  {
    slots := FreeSlots(db, Template, doctorId, date);
    AvailableIsSetDifference(db.reservations, doctorId, date);
  }

  /** ReservationDAO.cancelReservation: marks the reservation cancelled and
      reports whether a row has that key. No booking is created, and the
      invariant that no slot is booked twice is kept. */
  method CancelReservation(db: Database, id: int) returns (result: DbResult)
    requires db.Valid()
    modifies db
    ensures db.Valid()
    ensures result == Committed(id in KeySet(old(db.reservations), ReservationId))
    ensures db.Snap() == old(db.Snap()).(reservations := CancelById(old(db.reservations), id))
    ensures old(NoDoubleBooking(db.reservations)) ==> NoDoubleBooking(db.reservations)
  {
    CancelKeepsValid(db.Snap(), id);
    var found := id in KeySet(db.reservations, ReservationId);
    if NoDoubleBooking(db.reservations) {
      CancelKeepsNoDoubleBooking(db.reservations, id);
    }
    db.reservations := CancelById(db.reservations, id);
    result := Committed(found);
  }

  /** WHERE r.reservation_date = ? */
  function OnDate(date: Day): Reservation -> bool
  {
    (r: Reservation) => r.date == date
  }

  /** WHERE r.patient_id = ? */
  function OfPatient(patientId: int): Reservation -> bool
  {
    (r: Reservation) => r.patientId == patientId
  }

  /** ORDER BY r.reservation_time */
  predicate ByTime(a: Reservation, b: Reservation) { a.time <= b.time }

  /** ORDER BY r.reservation_date DESC, r.reservation_time DESC */
  predicate LatestFirst(a: Reservation, b: Reservation)
  {
    a.date > b.date || (a.date == b.date && a.time >= b.time)
  }

  lemma ByTimeIsTotalPreorder()
    ensures TotalPreorder(ByTime)
  {
  }

  lemma LatestFirstIsTotalPreorder()
    ensures TotalPreorder(LatestFirst)
  {
  }

  /** One result row: the reservation with its doctor's columns and, when
      `withPatient`, its patient's name. */
  function ViewOf(t: Tables, r: Reservation, withPatient: bool): (v: ReservationView)
    requires r.patientId in KeySet(t.patients, PatientId) && r.doctorId in KeySet(t.doctors, DoctorId)
    ensures v.reservation == r && JoinsDoctor(t.doctors, v)
    ensures if withPatient then JoinsPatient(t.patients, v) else v.patientName == None
  {
    var d := RowWithKey(t.doctors, DoctorId, r.doctorId);
    var name := if withPatient then Some(RowWithKey(t.patients, PatientId, r.patientId).name) else None;
    ReservationView(r, name, d.name, d.department)
  }

  /** The result-set loop of both listings: each reservation row read
      with the joined doctor columns and, when `withPatient`, the patient's name. */
  method ReadRows(db: Database, rows: seq<Reservation>, withPatient: bool) returns (views: seq<ReservationView>)
    requires forall r :: r in rows ==> r.patientId in KeySet(db.patients, PatientId) && r.doctorId in KeySet(db.doctors, DoctorId)
    ensures ReservationsOf(views) == rows
    ensures forall v :: v in views ==> JoinsDoctor(db.doctors, v)
    ensures forall v :: v in views ==> if withPatient then JoinsPatient(db.patients, v) else v.patientName == None
  {
    var t := db.Snap();
    views := [];
    var i := 0;
    while i < |rows|
      invariant 0 <= i <= |rows|
      invariant ReservationsOf(views) == rows[..i]
      invariant forall v :: v in views ==> JoinsDoctor(t.doctors, v)
      invariant forall v :: v in views ==> if withPatient then JoinsPatient(t.patients, v) else v.patientName == None
    {
      var v := ViewOf(t, rows[i], withPatient);
      assert ReservationsOf(views + [v]) == ReservationsOf(views) + [rows[i]];
      assert rows[..i + 1] == rows[..i] + [rows[i]];
      views := views + [v];
      i := i + 1;
    }
    assert rows[..|rows|] == rows;
  }

  /** The rows of a listing all come from the table, keep the filter, and
      have their patient and doctor on file. */
  lemma ListedRows(t: Tables, keep: Reservation -> bool, rows: seq<Reservation>)
    requires ValidTables(t)
    requires multiset(rows) == multiset(Filter(t.reservations, keep))
    ensures forall r :: r in rows ==> r in t.reservations && keep(r)
    ensures forall r :: r in rows ==>
      r.patientId in KeySet(t.patients, PatientId) && r.doctorId in KeySet(t.doctors, DoctorId)
  {
    forall r | r in rows
      ensures r in t.reservations && keep(r)
    {
      assert r in multiset(rows);
      assert r in Filter(t.reservations, keep);
    }
  }

  /** Each view's reservation is one of the listed rows. */
  lemma ViewedRows(views: seq<ReservationView>)
    ensures forall v :: v in views ==> v.reservation in ReservationsOf(views)
  {
    forall v | v in views
      ensures v.reservation in ReservationsOf(views)
    {
      var k :| 0 <= k < |views| && views[k] == v;
      assert ReservationsOf(views)[k] == v.reservation;
    }
  }

  /** ReservationDAO.getReservationsByDate: the reservations on the date, by
      time, each with its patient's name and its doctor's name and department. */
  method GetReservationsByDate(db: Database, date: Day) returns (views: seq<ReservationView>)
    requires db.Valid()
    ensures SortedBy(ReservationsOf(views), ByTime)
    ensures multiset(ReservationsOf(views)) == multiset(Filter(db.reservations, OnDate(date)))
    ensures forall v :: v in views ==> v.reservation.date == date
    ensures forall v :: v in views ==> JoinsPatient(db.patients, v) && JoinsDoctor(db.doctors, v)
  {
    var rows := SortBy(Filter(db.reservations, OnDate(date)), ByTime);
    ListedRows(db.Snap(), OnDate(date), rows);
    views := ReadRows(db, rows, true);
    ViewedRows(views);
    ByTimeIsTotalPreorder();
    SortBySorted(Filter(db.reservations, OnDate(date)), ByTime);
  }

  /** ReservationDAO.getReservationsByPatient: the patient's reservations,
      latest first, each with its doctor's name and department. */
  method GetReservationsByPatient(db: Database, patientId: int) returns (views: seq<ReservationView>)
    requires db.Valid()
    ensures SortedBy(ReservationsOf(views), LatestFirst)
    ensures multiset(ReservationsOf(views)) == multiset(Filter(db.reservations, OfPatient(patientId)))
    ensures forall v :: v in views ==> v.reservation.patientId == patientId && v.patientName == None
    ensures forall v :: v in views ==> JoinsDoctor(db.doctors, v)
  {
    var rows := SortBy(Filter(db.reservations, OfPatient(patientId)), LatestFirst);
    ListedRows(db.Snap(), OfPatient(patientId), rows);
    views := ReadRows(db, rows, false);
    ViewedRows(views);
    LatestFirstIsTotalPreorder();
    SortBySorted(Filter(db.reservations, OfPatient(patientId)), LatestFirst);
  }
}
