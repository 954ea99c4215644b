/** The slot-availability query: a fixed daily template of half-hour slots,
    anti-joined with the booked reservations of one doctor on one date. */
module Schedule {
  import opened Entities
  import opened Sequences

  /** The time_slot table of the query: 09:00-11:30 and 14:00-17:30, in minutes. */
  const Template: seq<Minute> := [540, 570, 600, 630, 660, 690, 840, 870, 900, 930, 960, 990, 1020, 1050]

  function Identity(t: Minute): int { t }

  /** `r` is a booked ('예약완료') reservation of `doctorId` at `time` on `date`. */
  predicate Occupies(r: Reservation, doctorId: int, date: Day, time: Minute)
  {
    r.doctorId == doctorId && r.date == date && r.time == time && r.status == Booked
  }

  /** The LEFT JOIN finds a row for the slot. */
  predicate IsBookedAt(rs: seq<Reservation>, doctorId: int, date: Day, time: Minute)
  {
    exists r :: r in rs && Occupies(r, doctorId, date, time)
  }

  /** The WHERE r.reservation_id IS NULL test, as a function of the slot. */
  function SlotIsFree(rs: seq<Reservation>, doctorId: int, date: Day): Minute -> bool
  {
    t => !IsBookedAt(rs, doctorId, date, t)
  }

  /** What getAvailableTimeSlots returns: the template slots left free. */
  function AvailableSlots(rs: seq<Reservation>, doctorId: int, date: Day): seq<Minute>
  {
    Filter(Template, SlotIsFree(rs, doctorId, date))
  }

  /** `s` without the slot `t`. */
  function Without(s: seq<Minute>, t: Minute): seq<Minute>
  {
    Filter(s, x => x != t)
  }

  /** No two booked reservations share doctor, date and time. */
  ghost predicate NoDoubleBooking(rs: seq<Reservation>)
  {
    forall i, j :: 0 <= i < j < |rs| && rs[i].status == Booked && rs[j].status == Booked ==>
      !(rs[i].doctorId == rs[j].doctorId && rs[i].date == rs[j].date && rs[i].time == rs[j].time)
  }

  /** The UPDATE of cancelReservation: status '취소' on the rows with that id. */
  function CancelById(rs: seq<Reservation>, id: int): seq<Reservation>
  {
    seq(|rs|, i requires 0 <= i < |rs| => if rs[i].id == id then rs[i].(status := Cancelled) else rs[i])
  }

  /** The template has 14 slots, in strictly increasing (chronological) order. */
  lemma TemplateIsChronological()
    ensures |Template| == 14
    ensures StrictlyIncreasing(Template, Identity)
  {
    forall i, j | 0 <= i < j < |Template|
      ensures KeyBefore(Identity)(Template[i], Template[j])
    {
      assert Identity(Template[i]) < Identity(Template[j]);
    }
  }

  /** Availability is the template minus the booked times of that doctor
      and date, listed in chronological order and without repetition. */
  lemma AvailableIsSetDifference(rs: seq<Reservation>, doctorId: int, date: Day)
    ensures forall t :: t in AvailableSlots(rs, doctorId, date) <==> t in Template && !IsBookedAt(rs, doctorId, date, t)
    ensures StrictlyIncreasing(AvailableSlots(rs, doctorId, date), Identity)
  {
    TemplateIsChronological();
    FilterKeepsPairwise(Template, SlotIsFree(rs, doctorId, date), KeyBefore(Identity));
  }

  /** With no booked reservation for the doctor on the date, every template
      slot is offered, in template order. */
  lemma FullTemplateWhenFree(rs: seq<Reservation>, doctorId: int, date: Day)
    requires forall r :: r in rs ==> !(r.doctorId == doctorId && r.date == date && r.status == Booked)
    ensures AvailableSlots(rs, doctorId, date) == Template
  {
    FilterKeepsAll(Template, SlotIsFree(rs, doctorId, date));
  }

  /** A cancelled reservation, or one of another doctor or date, never takes a slot. */
  lemma UnrelatedRowKeepsSlots(rs: seq<Reservation>, r: Reservation, doctorId: int, date: Day)
    requires !(r.doctorId == doctorId && r.date == date && r.status == Booked)
    ensures AvailableSlots(rs + [r], doctorId, date) == AvailableSlots(rs, doctorId, date)
  {
    forall t | t in Template
      ensures SlotIsFree(rs + [r], doctorId, date)(t) == SlotIsFree(rs, doctorId, date)(t)
    {
      if IsBookedAt(rs + [r], doctorId, date, t) {
        var x :| x in rs + [r] && Occupies(x, doctorId, date, t);
        assert x in rs;
      }
      if IsBookedAt(rs, doctorId, date, t) {
        var x :| x in rs && Occupies(x, doctorId, date, t);
        assert x in rs + [r];
      }
    }
    FilterCongruent(Template, SlotIsFree(rs + [r], doctorId, date), SlotIsFree(rs, doctorId, date));
  }

  /** Adding a booked reservation takes away exactly its own time from that
      doctor's availability on that date and leaves every other slot as it was. */
  lemma BookingRemovesExactlyThatSlot(rs: seq<Reservation>, r: Reservation)
    requires r.status == Booked
    ensures AvailableSlots(rs + [r], r.doctorId, r.date) == Without(AvailableSlots(rs, r.doctorId, r.date), r.time)
  {
    var d, day := r.doctorId, r.date;
    forall t | t in Template
      ensures SlotIsFree(rs + [r], d, day)(t) == (SlotIsFree(rs, d, day)(t) && t != r.time)
    {
      if IsBookedAt(rs + [r], d, day, t) {
        var x :| x in rs + [r] && Occupies(x, d, day, t);
        if x != r {
          assert x in rs;
        }
      }
      if t == r.time {
        assert r in rs + [r] && Occupies(r, d, day, t);
      }
      if IsBookedAt(rs, d, day, t) {
        var x :| x in rs && Occupies(x, d, day, t);
        assert x in rs + [r];
      }
    }
    FilterTwice(Template, SlotIsFree(rs, d, day), x => x != r.time, SlotIsFree(rs + [r], d, day));
  }

  /** Right after a slot is booked it is no longer offered, so a second
      booking of the same doctor, date and time is refused. */
  lemma BookedSlotIsTaken(rs: seq<Reservation>, r: Reservation)
    requires r.status == Booked
    ensures r.time !in AvailableSlots(rs + [r], r.doctorId, r.date)
  {
    assert r in rs + [r] && Occupies(r, r.doctorId, r.date, r.time);
  }

  /** Removing a slot that occurs once shortens the list by one. */
  lemma {:induction false} WithoutRemovesOne(s: seq<Minute>, t: Minute)
    requires StrictlyIncreasing(s, Identity)
    requires t in s
    ensures |Without(s, t)| == |s| - 1
  {
    if s[0] == t {
      forall x | x in s[1..]
        ensures x != t
      {
        var j :| 0 <= j < |s[1..]| && s[1..][j] == x;
        assert s[j + 1] == x;
      }
      FilterKeepsAll(s[1..], x => x != t);
    } else {
      assert StrictlyIncreasing(s[1..], Identity) by {
        forall i, j | 0 <= i < j < |s[1..]|
          ensures KeyBefore(Identity)(s[1..][i], s[1..][j])
        {
          assert s[1..][i] == s[i + 1] && s[1..][j] == s[j + 1];
          assert KeyBefore(Identity)(s[i + 1], s[j + 1]);
        }
      }
      WithoutRemovesOne(s[1..], t);
    }
  }

  /** A booking made through the availability check keeps the invariant that
      no two booked rows share doctor, date and time. */
  lemma BookingKeepsNoDoubleBooking(rs: seq<Reservation>, r: Reservation)
    requires NoDoubleBooking(rs)
    requires r.time in AvailableSlots(rs, r.doctorId, r.date)
    ensures NoDoubleBooking(rs + [r])
  {
    assert SlotIsFree(rs, r.doctorId, r.date)(r.time);
    FreeBookingKeepsNoDoubleBooking(rs, r);
  }

  /** Adding a row at a time its doctor has not booked on its date keeps
      the no-double-booking invariant. */
  lemma FreeBookingKeepsNoDoubleBooking(rs: seq<Reservation>, r: Reservation)
    requires NoDoubleBooking(rs)
    requires !IsBookedAt(rs, r.doctorId, r.date, r.time)
    ensures NoDoubleBooking(rs + [r])
  {
    var s := rs + [r];
    forall i, j | 0 <= i < j < |s| && s[i].status == Booked && s[j].status == Booked
      ensures !(s[i].doctorId == s[j].doctorId && s[i].date == s[j].date && s[i].time == s[j].time)
    {
      assert s[i] == rs[i] && rs[i] in rs;
      if j == |rs| {
        assert !Occupies(rs[i], r.doctorId, r.date, r.time);
      } else {
        assert s[j] == rs[j];
      }
    }
  }

  /** What a booking through the availability check does to the schedule:
      exactly its slot is taken, availability shrinks by one, and no slot
      becomes double-booked. */
  lemma BookingThroughAvailability(rs: seq<Reservation>, r: Reservation)
    requires r.status == Booked
    requires r.time in AvailableSlots(rs, r.doctorId, r.date)
    ensures AvailableSlots(rs + [r], r.doctorId, r.date) == Without(AvailableSlots(rs, r.doctorId, r.date), r.time)
    ensures |AvailableSlots(rs + [r], r.doctorId, r.date)| == |AvailableSlots(rs, r.doctorId, r.date)| - 1
    ensures NoDoubleBooking(rs) ==> NoDoubleBooking(rs + [r])
  {
    BookingRemovesExactlyThatSlot(rs, r);
    AvailableIsSetDifference(rs, r.doctorId, r.date);
    WithoutRemovesOne(AvailableSlots(rs, r.doctorId, r.date), r.time);
    if NoDoubleBooking(rs) {
      BookingKeepsNoDoubleBooking(rs, r);
    }
  }

  /** Cancelling twice is cancelling once. */
  lemma CancelIdempotent(rs: seq<Reservation>, id: int)
    ensures CancelById(CancelById(rs, id), id) == CancelById(rs, id)
  {
  }

  /** Cancellation never makes a time of a doctor and date booked. */
  lemma CancelKeepsUnbooked(rs: seq<Reservation>, id: int, doctorId: int, date: Day, t: Minute)
    requires !IsBookedAt(rs, doctorId, date, t)
    ensures !IsBookedAt(CancelById(rs, id), doctorId, date, t)
  {
    var c := CancelById(rs, id);
    forall k | 0 <= k < |c|
      ensures !Occupies(c[k], doctorId, date, t)
    {
      assert rs[k] in rs;
    }
  }

  /** Cancellation never takes a slot away. */
  lemma CancelNeverRemovesSlot(rs: seq<Reservation>, id: int, doctorId: int, date: Day, t: Minute)
    requires t in AvailableSlots(rs, doctorId, date)
    ensures t in AvailableSlots(CancelById(rs, id), doctorId, date)
  {
    assert t in Template && !IsBookedAt(rs, doctorId, date, t);
    CancelKeepsUnbooked(rs, id, doctorId, date, t);
  }

  /** Cancellation keeps the no-double-booking invariant. */
  lemma CancelKeepsNoDoubleBooking(rs: seq<Reservation>, id: int)
    requires NoDoubleBooking(rs)
    ensures NoDoubleBooking(CancelById(rs, id))
  {
    var c := CancelById(rs, id);
    forall i, j | 0 <= i < j < |c| && c[i].status == Booked && c[j].status == Booked
      ensures !(c[i].doctorId == c[j].doctorId && c[i].date == c[j].date && c[i].time == c[j].time)
    {
      assert c[i] == rs[i] && c[j] == rs[j];
    }
  }

  /** Once its reservation is cancelled, a booked template slot is offered
      again, so the same slot can be booked anew. */
  lemma CancelFreesSlot(rs: seq<Reservation>, k: nat)
    requires NoDoubleBooking(rs)
    requires k < |rs| && rs[k].status == Booked && rs[k].time in Template
    ensures rs[k].time in AvailableSlots(CancelById(rs, rs[k].id), rs[k].doctorId, rs[k].date)
  {
    var r := rs[k];
    var c := CancelById(rs, r.id);
    forall x | x in c
      ensures !Occupies(x, r.doctorId, r.date, r.time)
    {
      var j :| 0 <= j < |c| && c[j] == x;
      if rs[j].id != r.id && rs[j].status == Booked {
        assert j != k;
        if j < k {
          assert !(rs[j].doctorId == rs[k].doctorId && rs[j].date == rs[k].date && rs[j].time == rs[k].time);
        } else {
          assert !(rs[k].doctorId == rs[j].doctorId && rs[k].date == rs[j].date && rs[k].time == rs[j].time);
        }
      }
    }
    assert SlotIsFree(c, r.doctorId, r.date)(r.time);
  }
}
