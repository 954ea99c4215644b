/** The rows of the four tables (PATIENT, DOCTOR, RESERVATION, MEDICAL_RECORD)
    and the outcomes the data-access and service layers report. */
module Entities {

  /** A calendar date, as a day number. */
  type Day = int

  /** A time of day, as minutes since midnight. */
  type Minute = int

  datatype Option<T> = None | Some(value: T)

  /** A point in time: a day and the second within it (a DATETIME column). */
  datatype Timestamp = Timestamp(day: Day, second: int)

  /** A PATIENT row; `phone` is UNIQUE and `gender` is 'M' or 'F' by the schema. */
  datatype Patient = Patient(id: int, name: string, birthDate: Day, phone: string, gender: char)

  /** A DOCTOR row; `phone` is UNIQUE by the schema. */
  datatype Doctor = Doctor(id: int, name: string, department: string, phone: string)

  /** The two values the status column takes: '예약완료' (booked) and '취소' (cancelled). */
  datatype Status = Booked | Cancelled

  /** A RESERVATION row; `patientId` and `doctorId` are foreign keys. */
  datatype Reservation = Reservation(id: int, patientId: int, doctorId: int, date: Day, time: Minute, status: Status)

  /** A MEDICAL_RECORD row; `reservationId` is a foreign key, `prescription` is nullable. */
  datatype MedicalRecord = MedicalRecord(id: int, reservationId: int, diagnosis: string,
                                         prescription: Option<string>, treatedAt: Timestamp)

  /** The kinds of SQLException a statement can raise. */
  datatype SqlError = UniqueViolation | CheckViolation | ForeignKeyViolation | StorageFailure

  /** What a data-access method does: it commits and returns `result > 0`,
      or it rolls back and rethrows the SQLException. */
  datatype DbResult = Committed(changed: bool) | RolledBack(error: SqlError)

  /** Why a service method throws IllegalArgumentException. */
  datatype Rejection = BlankName | BadPhoneFormat | PastDate | SlotUnavailable | BlankDiagnosis

  /** What a service method does: it returns a boolean (false when the
      data-access layer threw SQLException), or it throws IllegalArgumentException. */
  datatype Outcome = Returned(success: bool) | IllegalArgument(reason: Rejection)

  function PatientId(p: Patient): int { p.id }
  function DoctorId(d: Doctor): int { d.id }
  function ReservationId(r: Reservation): int { r.id }
  function RecordId(m: MedicalRecord): int { m.id }
}
