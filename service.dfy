/** HospitalService: the business rules in front of the data-access layer.
    A rule that fails throws IllegalArgumentException before any statement
    runs; an SQLException from the data-access layer becomes `false`. */
module Service {
  import opened Entities
  import opened Sequences
  import opened Text
  import opened Schedule
  import opened Store
  import PatientDao
  import DoctorDao
  import ReservationDao
  import MedicalRecordDao

  /** registerPatient: a blank name or a phone number not of the form
      010-DDDD-DDDD is refused; otherwise the trimmed name is stored, and a
      phone number already on file or a gender outside 'M'/'F' gives false
      with the tables unchanged. */
  method RegisterPatient(db: Database, name: string, birthDate: Day, phone: string, gender: char)
    returns (outcome: Outcome)
    requires db.Valid()
    modifies db
    ensures db.Valid()
    ensures IsBlank(name) ==> outcome == IllegalArgument(BlankName)
    ensures !IsBlank(name) && !IsPhoneNumber(phone) ==> outcome == IllegalArgument(BadPhoneFormat)
    ensures !IsBlank(name) && IsPhoneNumber(phone) ==> outcome.Returned?
    ensures outcome == Returned(true) <==>
      !IsBlank(name) && IsPhoneNumber(phone) && GenderAllowed(gender) && !PatientPhoneTaken(old(db.patients), phone)
    ensures outcome == Returned(true) ==> db.Snap() == old(db.Snap()).(
      patients := old(db.patients) + [Patient(old(db.nextPatientId), Trim(name), birthDate, phone, gender)],
      nextPatientId := old(db.nextPatientId) + 1)
    ensures outcome != Returned(true) ==> db.Snap() == old(db.Snap())
  {
    if IsBlank(name) {
      return IllegalArgument(BlankName);
    }
    if !IsPhoneNumber(phone) {
      return IllegalArgument(BadPhoneFormat);
    }
    var result := PatientDao.InsertPatient(db, Trim(name), birthDate, phone, gender);
    outcome := Returned(result.Committed?);
  }

  /** registerDoctor: a blank name is refused; otherwise the trimmed name is
      stored, and a phone number already on file gives false. The phone
      number's format is not checked. */
  method RegisterDoctor(db: Database, name: string, department: string, phone: string) returns (outcome: Outcome)
    requires db.Valid()
    modifies db
    ensures db.Valid()
    ensures IsBlank(name) <==> outcome == IllegalArgument(BlankName)
    ensures outcome == Returned(true) <==> !IsBlank(name) && !DoctorPhoneTaken(old(db.doctors), phone)
    ensures outcome == Returned(true) ==> db.Snap() == old(db.Snap()).(
      doctors := old(db.doctors) + [Doctor(old(db.nextDoctorId), Trim(name), department, phone)],
      nextDoctorId := old(db.nextDoctorId) + 1)
    ensures outcome != Returned(true) ==> db.Snap() == old(db.Snap())
  {
    if IsBlank(name) {
      return IllegalArgument(BlankName);
    }
    var result := DoctorDao.InsertDoctor(db, Trim(name), department, phone);
    outcome := Returned(result.Committed?);
  }

  /** makeReservation: a date before today is refused, and so is a time
      that is not among the doctor's free slots on the date; otherwise a
      booked reservation is inserted, which gives false when the patient or
      doctor does not exist. A successful booking takes exactly that slot
      away and never books a slot twice. */
  method MakeReservation(db: Database, patientId: int, doctorId: int, date: Day, time: Minute, today: Day)
    returns (outcome: Outcome)
    requires db.Valid()
    modifies db
    ensures db.Valid()
    ensures date < today ==> outcome == IllegalArgument(PastDate)
    ensures today <= date && time !in AvailableSlots(old(db.reservations), doctorId, date) ==>
      outcome == IllegalArgument(SlotUnavailable)
    ensures today <= date && time in AvailableSlots(old(db.reservations), doctorId, date) ==> outcome.Returned?
    ensures outcome == Returned(true) <==>
      today <= date && time in AvailableSlots(old(db.reservations), doctorId, date) &&
      patientId in KeySet(old(db.patients), PatientId) && doctorId in KeySet(old(db.doctors), DoctorId)
    ensures outcome == Returned(true) ==> db.Snap() == old(db.Snap()).(
      reservations := old(db.reservations) + [Reservation(old(db.nextReservationId), patientId, doctorId, date, time, Booked)],
      nextReservationId := old(db.nextReservationId) + 1)
    ensures outcome == Returned(true) ==>
      AvailableSlots(db.reservations, doctorId, date) == Without(AvailableSlots(old(db.reservations), doctorId, date), time) &&
      |AvailableSlots(db.reservations, doctorId, date)| == |AvailableSlots(old(db.reservations), doctorId, date)| - 1
    ensures outcome != Returned(true) ==> db.Snap() == old(db.Snap())
    ensures old(NoDoubleBooking(db.reservations)) ==> NoDoubleBooking(db.reservations)
  {
    if date < today {
      return IllegalArgument(PastDate);
    }
    var slots := ReservationDao.GetAvailableTimeSlots(db, doctorId, date);
    if time !in slots {
      return IllegalArgument(SlotUnavailable);
    }
    ghost var before := db.reservations;
    var result := ReservationDao.InsertReservation(db, patientId, doctorId, date, time, Booked);
    if result.Committed? {
      ghost var r := Reservation(old(db.nextReservationId), patientId, doctorId, date, time, Booked);
      BookingThroughAvailability(before, r);
    }
    outcome := Returned(result.Committed?);
  }

  /** addMedicalRecord: a blank diagnosis is refused; otherwise the record
      is stored with the trimmed diagnosis and the current time, which gives
      false when the reservation does not exist. */
  method AddMedicalRecord(db: Database, reservationId: int, diagnosis: string, prescription: Option<string>, now: Timestamp)
    returns (outcome: Outcome)
    requires db.Valid()
    modifies db
    ensures db.Valid()
    ensures IsBlank(diagnosis) <==> outcome == IllegalArgument(BlankDiagnosis)
    ensures outcome == Returned(true) <==> !IsBlank(diagnosis) && reservationId in KeySet(old(db.reservations), ReservationId)
    ensures outcome == Returned(true) ==> db.Snap() == old(db.Snap()).(
      records := old(db.records) + [MedicalRecord(old(db.nextRecordId), reservationId, Trim(diagnosis), prescription, now)],
      nextRecordId := old(db.nextRecordId) + 1)
    ensures outcome != Returned(true) ==> db.Snap() == old(db.Snap())
  {
    if IsBlank(diagnosis) {
      return IllegalArgument(BlankDiagnosis);
    }
    var result := MedicalRecordDao.InsertMedicalRecord(db, reservationId, Trim(diagnosis), prescription, now);
    outcome := Returned(result.Committed?);
  }

  /** What registerPatient stores as the name is never blank and carries no
      leading or trailing whitespace. */
  lemma StoredNameIsTrimmed(name: string)
    requires !IsBlank(name)
    ensures Trim(name) != [] && Trim(Trim(name)) == Trim(name)
    ensures !IsTrimmable(Trim(name)[0]) && !IsTrimmable(Trim(name)[|Trim(name)| - 1])
  {
    TrimIdempotent(name);
    TrimSpec(name);
  }
}
