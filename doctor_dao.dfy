/** DoctorDAO: registering, listing and updating doctors. */
module DoctorDao {
  import opened Entities
  import opened Sequences
  import opened Ordering
  import opened Store

  /** Some row other than the one keyed `id` already has `phone`. */
  predicate PhoneTakenByOther(ds: seq<Doctor>, phone: string, id: int)
  {
    exists e :: e in ds && e.phone == phone && e.id != id
  }

  /** UPDATE DOCTOR SET ... WHERE doctor_id = d.id */
  function ReplaceDoctor(ds: seq<Doctor>, d: Doctor): seq<Doctor>
  {
    seq(|ds|, i requires 0 <= i < |ds| => if ds[i].id == d.id then d else ds[i])
  }

  /** A new doctor row with the next key keeps every constraint. */
  lemma InsertKeepsValid(t: Tables, d: Doctor)
    requires ValidTables(t)
    requires d.id == t.nextDoctorId && !DoctorPhoneTaken(t.doctors, d.phone)
    ensures ValidTables(t.(doctors := t.doctors + [d], nextDoctorId := t.nextDoctorId + 1))
  {
    AppendKeepsWellKeyed(t.doctors, DoctorId, t.nextDoctorId, d);
    forall e | e in t.doctors
      ensures DoctorPhonesDiffer(e, d)
    {
    }
    AppendKeepsPairwise(t.doctors, d, DoctorPhonesDiffer);
  }

  /** Overwriting the row keyed `d.id` keeps every constraint when the new
      phone number passes the UNIQUE test. */
  lemma UpdateKeepsValid(t: Tables, d: Doctor, k: int)
    requires ValidTables(t)
    requires 0 <= k < |t.doctors| && t.doctors[k].id == d.id
    requires !PhoneTakenByOther(t.doctors, d.phone, d.id)
    ensures ReplaceDoctor(t.doctors, d) == t.doctors[k := d]
    ensures ValidTables(t.(doctors := ReplaceDoctor(t.doctors, d)))
  {
    var ds := t.doctors;
    forall i | 0 <= i < |ds| && i != k
      ensures ds[i].id != d.id
    {
      if ds[i].id == d.id {
        KeyIsUnique(ds, DoctorId, i, k);
      }
    }
    assert ReplaceDoctor(ds, d) == ds[k := d];
    UpdateKeepsWellKeyed(ds, DoctorId, t.nextDoctorId, k, d);
    forall i | 0 <= i < k
      ensures DoctorPhonesDiffer(ds[i], d)
    {
      assert ds[i] in ds;
    }
    forall i | k < i < |ds|
      ensures DoctorPhonesDiffer(d, ds[i])
    {
      assert ds[i] in ds;
    }
    UpdateKeepsPairwise(ds, k, d, DoctorPhonesDiffer);
  }

  /** DoctorDAO.insertDoctor: a phone number already on file is refused by
      the UNIQUE index and rolls the transaction back. */
  method InsertDoctor(db: Database, name: string, department: string, phone: string) returns (result: DbResult)
    requires db.Valid()
    modifies db
    ensures db.Valid()
    ensures DoctorPhoneTaken(old(db.doctors), phone) ==> result == RolledBack(UniqueViolation)
    ensures result.Committed? <==> !DoctorPhoneTaken(old(db.doctors), phone)
    ensures result.RolledBack? ==> db.Snap() == old(db.Snap())
    ensures result.Committed? ==> result.changed && db.Snap() == old(db.Snap()).(
      doctors := old(db.doctors) + [Doctor(old(db.nextDoctorId), name, department, phone)],
      nextDoctorId := old(db.nextDoctorId) + 1)
  {
    if DoctorPhoneTaken(db.doctors, phone) {
      return RolledBack(UniqueViolation);
    }
    var d := Doctor(db.nextDoctorId, name, department, phone);
    InsertKeepsValid(db.Snap(), d);
    db.doctors := db.doctors + [d];
    db.nextDoctorId := db.nextDoctorId + 1;
    result := Committed(true);
  }

  /** DoctorDAO.updateDoctor: true when a row with the doctor's key was
      overwritten; an unknown key updates nothing and reports false. */
  method UpdateDoctor(db: Database, d: Doctor) returns (result: DbResult)
    requires db.Valid()
    modifies db
    ensures db.Valid()
    ensures d.id !in KeySet(old(db.doctors), DoctorId) ==> result == Committed(false)
    ensures d.id in KeySet(old(db.doctors), DoctorId) && PhoneTakenByOther(old(db.doctors), d.phone, d.id) ==>
      result == RolledBack(UniqueViolation)
    ensures result == Committed(true) <==>
      d.id in KeySet(old(db.doctors), DoctorId) && !PhoneTakenByOther(old(db.doctors), d.phone, d.id)
    ensures result == Committed(true) ==> db.Snap() == old(db.Snap()).(doctors := ReplaceDoctor(old(db.doctors), d))
    ensures result != Committed(true) ==> db.Snap() == old(db.Snap())
  {
    if d.id !in KeySet(db.doctors, DoctorId) {
      return Committed(false);
    }
    if PhoneTakenByOther(db.doctors, d.phone, d.id) {
      return RolledBack(UniqueViolation);
    }
    var k := IndexOfKey(db.doctors, DoctorId, d.id);
    UpdateKeepsValid(db.Snap(), d, k);
    db.doctors := ReplaceDoctor(db.doctors, d);
    result := Committed(true);
  }

  /** ORDER BY doctor_name */
  predicate ByName(a: Doctor, b: Doctor) { TextLe(a.name, b.name) }

  /** ORDER BY department, doctor_name */
  predicate ByDepartmentThenName(a: Doctor, b: Doctor)
  {
    if a.department == b.department then TextLe(a.name, b.name) else TextLe(a.department, b.department)
  }

  lemma ByNameIsTotalPreorder()
    ensures TotalPreorder(ByName)
  {
    forall a: Doctor, b: Doctor
      ensures ByName(a, b) || ByName(b, a)
    {
      TextLeTotal(a.name, b.name);
    }
    forall a: Doctor, b: Doctor, c: Doctor | ByName(a, b) && ByName(b, c)
      ensures ByName(a, c)
    {
      TextLeTransitive(a.name, b.name, c.name);
    }
  }

  lemma ByDepartmentThenNameIsTotalPreorder()
    ensures TotalPreorder(ByDepartmentThenName)
  {
    forall a: Doctor, b: Doctor
      ensures ByDepartmentThenName(a, b) || ByDepartmentThenName(b, a)
    {
      TextLeTotal(a.name, b.name);
      TextLeTotal(a.department, b.department);
    }
    forall a: Doctor, b: Doctor, c: Doctor | ByDepartmentThenName(a, b) && ByDepartmentThenName(b, c)
      ensures ByDepartmentThenName(a, c)
    {
      if a.department == b.department && b.department == c.department {
        TextLeTransitive(a.name, b.name, c.name);
      } else if a.department == c.department {
        TextLeAntisymmetric(a.department, b.department);
      } else {
        // Equal departments compare as TextLe in both directions.
        TextLeTotal(b.department, b.department);
        TextLeTransitive(a.department, b.department, c.department);
      }
    }
  }

  /** WHERE department = ? */
  function InDepartment(department: string): Doctor -> bool
  {
    (d: Doctor) => d.department == department
  }

  /** DoctorDAO.getAllDoctors: every doctor, ordered by department and then name. */
  method GetAllDoctors(db: Database) returns (list: seq<Doctor>)
    ensures SortedBy(list, ByDepartmentThenName)
    ensures multiset(list) == multiset(db.doctors)
  {
    var rows := SortBy(db.doctors, ByDepartmentThenName);
    list := [];
    var i := 0;
    while i < |rows|
      invariant 0 <= i <= |rows|
      invariant list == rows[..i]
    {
      list := list + [rows[i]];
      i := i + 1;
    }
    assert rows[..|rows|] == rows;
    ByDepartmentThenNameIsTotalPreorder();
    SortBySorted(db.doctors, ByDepartmentThenName);
  }

  /** DoctorDAO.getDoctorsByDepartment: the doctors of exactly that
      department, ordered by name. */
  method GetDoctorsByDepartment(db: Database, department: string) returns (list: seq<Doctor>)
    ensures SortedBy(list, ByName)
    ensures multiset(list) == multiset(Filter(db.doctors, InDepartment(department)))
    ensures forall d :: d in list <==> d in db.doctors && d.department == department
  {
    var rows := SortBy(Filter(db.doctors, InDepartment(department)), ByName);
    list := [];
    var i := 0;
    while i < |rows|
      invariant 0 <= i <= |rows|
      invariant list == rows[..i]
    {
      list := list + [rows[i]];
      i := i + 1;
    }
    assert rows[..|rows|] == rows;
    ByNameIsTotalPreorder();
    SortBySorted(Filter(db.doctors, InDepartment(department)), ByName);
    forall d
      ensures d in list <==> d in db.doctors && d.department == department
    {
      assert d in list <==> d in multiset(list);
      assert d in Filter(db.doctors, InDepartment(department)) <==> d in multiset(Filter(db.doctors, InDepartment(department)));
    }
  }
}
