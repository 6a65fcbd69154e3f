/**
 * The rest of `getAvailableTimeSlots` (date validation, schedule lookup and
 * the booked-start filter) and `checkTimeSlot`, which admits a booking only
 * at the start of an available slot.
 */
module Booking {
  import opened Wrappers
  import opened Clock
  import opened HourRange
  import opened SlotGeneration
  import opened Appointments
  import opened Sequences

  /** One entry of a doctor's `availibilitySchedule`: a weekday name and its hours, e.g. "9-17". */
  datatype ScheduleEntry = ScheduleEntry(day: string, time: string)

  /** The parts of a doctor document the slot engine reads; the duration is in minutes. */
  datatype Doctor = Doctor(availibilitySchedule: seq<ScheduleEntry>, appointmentDuration: nat)

  datatype SlotError = InvalidDate | DoctorNotFound | DoctorUnavailable | SlotUnavailable

  /** The weekday names the controller knows; Saturday is missing. */
  const Days: seq<string> := ["Sunday", "Monday", "Tuesday", "Wednesday", "Thursday", "Friday"]

  /** `days[givenDay]`: `None` (undefined) past the six names. */
  function DayName(weekday: int): (name: Option<string>)
    ensures name.None? <==> weekday < 0 || weekday >= 6
    ensures name.Some? ==> name.value == Days[weekday]
  {
    if 0 <= weekday < |Days| then Some(Days[weekday]) else None
  }

  /** `schedule.find((ob) => ob.day === name)`: the first entry for `name`. */
  function FindEntry(schedule: seq<ScheduleEntry>, name: string): (r: Option<ScheduleEntry>)
    ensures r.None? <==> forall i :: 0 <= i < |schedule| ==> schedule[i].day != name
    ensures r.Some? ==> exists i :: (0 <= i < |schedule| && schedule[i] == r.value && r.value.day == name
      && forall j :: 0 <= j < i ==> schedule[j].day != name)
  {
    if schedule == [] then None
    else if schedule[0].day == name then Some(schedule[0])
    else
      var r := FindEntry(schedule[1..], name);
      assert r.Some? ==> exists i :: (1 <= i < |schedule| && schedule[i] == r.value && r.value.day == name
        && forall j :: 0 <= j < i ==> schedule[j].day != name)
      by {
        if r.Some? {
          var i :| 0 <= i < |schedule[1..]| && schedule[1..][i] == r.value && r.value.day == name
            && forall j :: 0 <= j < i ==> schedule[1..][j].day != name;
          assert forall j :: 1 <= j < i + 1 ==> schedule[j].day != name by {
            forall j | 1 <= j < i + 1 ensures schedule[j].day != name {
              assert schedule[j] == schedule[1..][j - 1];
            }
          }
        }
      }
      r
  }

  /** The schedule entry for the weekday of `target`; an Invalid Date has no weekday. */
  function EntryForDay(schedule: seq<ScheduleEntry>, target: Option<int>): (entry: Option<ScheduleEntry>)
    ensures target.None? ==> entry.None?
    ensures target.Some? && DayName(Weekday(target.value)).None? ==> entry.None?
    ensures target.Some? && DayName(Weekday(target.value)).Some?
      ==> entry == FindEntry(schedule, DayName(Weekday(target.value)).value)
  {
    if target.None? then None
    else
      WeekdayOfMidnight(target.value);
      match DayName(Weekday(Midnight(target.value)))
      case None => None
      case Some(name) => FindEntry(schedule, name)
  }

  /**
   * The slots for working hours `time`: a finishing hour below the starting
   * hour is moved 12 hours on, and with either hour NaN the loop never runs.
   */
  function SlotsForHours(dayStart: int, time: string, duration: nat): (slots: seq<TimeSlot>)
    requires duration > 0
    ensures ParseHours(time).0.None? || ParseHours(time).1.None? ==> slots == []
  {
    var hours := ParseHours(time);
    if hours.0.Some? && hours.1.Some? then
      Slots(dayStart, hours.0.value, NormaliseFinish(hours.0.value, hours.1.value), duration)
    else []
  }

  /** `finishingHour < startingHour ? finishingHour + 12 : finishingHour`. */
  function NormaliseFinish(startingHour: nat, finishingHour: nat): (finish: nat)
    ensures finishingHour < startingHour ==> finish == finishingHour + 12
    ensures startingHour <= finishingHour ==> finish == finishingHour
    ensures startingHour <= finishingHour + 12 ==> startingHour <= finish
  {
    if finishingHour < startingHour then finishingHour + 12 else finishingHour
  }

  /**
   * Every document has an `appointmentDate`: the day-range query only returns
   * documents whose date lies in the range, so `getTime()` never fails on them.
   */
  predicate Dated(booked: seq<AppointmentRecord>)
  {
    forall i :: 0 <= i < |booked| ==> booked[i].appointmentDate.Some?
  }

  /** `bookedAppointments.map((appmnt) => appmnt.appointmentDate.getTime())`. */
  function BookedDates(booked: seq<AppointmentRecord>): (dates: seq<int>)
    requires Dated(booked)
    ensures forall d :: d in dates <==> exists b :: b in booked && b.appointmentDate == Some(d)
  {
    var dates := seq(|booked|, i requires 0 <= i < |booked| => booked[i].appointmentDate.value);
    assert forall i :: 0 <= i < |booked| ==> dates[i] == booked[i].appointmentDate.value;
    dates
  }

  /** The start times of `slots`, in order. */
  function StartTimes(slots: seq<TimeSlot>): seq<int>
  {
    seq(|slots|, i requires 0 <= i < |slots| => slots[i].startTime)
  }

  /**
   * `timeSlots.filter((slot) => !bookedDates.includes(slot.startTime.getTime()))`:
   * the slots in order, each kept exactly when no booking starts at its start.
   */
  function FilterBooked(slots: seq<TimeSlot>, bookedDates: seq<int>): (available: seq<TimeSlot>)
    ensures IsSubsequence(available, slots)
    ensures forall x :: x in available <==> x in slots && x.startTime !in bookedDates
  {
    if slots == [] then []
    else
      var rest := FilterBooked(slots[1..], bookedDates);
      assert forall x :: x in slots <==> x == slots[0] || x in slots[1..];
      if slots[0].startTime in bookedDates then rest else [slots[0]] + rest
  }

  /**
   * The filter keeps every copy of an unbooked slot and no copy of a booked
   * one; with `IsSubsequence` this fixes its result.
   */
  lemma {:induction false} FilterBookedCounts(slots: seq<TimeSlot>, bookedDates: seq<int>, x: TimeSlot)
    ensures multiset(FilterBooked(slots, bookedDates))[x]
         == if x.startTime in bookedDates then 0 else multiset(slots)[x]
  {
    if slots != [] {
      FilterBookedCounts(slots[1..], bookedDates, x);
      assert slots == [slots[0]] + slots[1..];
      assert multiset(slots) == multiset{slots[0]} + multiset(slots[1..]);
      if slots[0].startTime !in bookedDates {
        var rest := FilterBooked(slots[1..], bookedDates);
        assert multiset([slots[0]] + rest) == multiset{slots[0]} + multiset(rest);
      }
    }
  }

  /** With no bookings every generated slot stays available. */
  lemma {:induction false} FilterNoBookings(slots: seq<TimeSlot>)
    ensures FilterBooked(slots, []) == slots
  {
    if slots != [] {
      FilterNoBookings(slots[1..]);
      assert slots == [slots[0]] + slots[1..];
    }
  }

  /** No two slots of `slots` share a start time. */
  predicate DistinctStarts(slots: seq<TimeSlot>)
  {
    forall i, j :: 0 <= i < j < |slots| ==> slots[i].startTime != slots[j].startTime
  }

  /** One booking at the start of slot `k` removes exactly slot `k`. */
  lemma {:induction false} FilterOneBooking(slots: seq<TimeSlot>, k: nat)
    requires DistinctStarts(slots) && k < |slots|
    ensures FilterBooked(slots, [slots[k].startTime]) == slots[..k] + slots[k + 1..]
  {
    var b := [slots[k].startTime];
    var tail := slots[1..];
    if k == 0 {
      FirstStartUnique(slots);
      NothingBooked(tail, b);
      assert FilterBooked(slots, b) == FilterBooked(tail, b);
    } else {
      DistinctStartsTail(slots);
      assert tail[k - 1] == slots[k];
      FilterOneBooking(tail, k - 1);
      assert slots[0].startTime != slots[k].startTime;
      FilterStep(slots, b);
      assert slots[..k] == [slots[0]] + tail[..k - 1];
      assert slots[k + 1..] == tail[k..];
    }
  }

  /** One step of the filter: the first slot is dropped exactly when it is booked. */
  lemma FilterStep(slots: seq<TimeSlot>, bookedDates: seq<int>)
    requires slots != []
    ensures FilterBooked(slots, bookedDates) == if slots[0].startTime in bookedDates
      then FilterBooked(slots[1..], bookedDates)
      else [slots[0]] + FilterBooked(slots[1..], bookedDates)
  {
  }

  /** With distinct starts, no later slot starts where the first one does. */
  lemma FirstStartUnique(slots: seq<TimeSlot>)
    requires DistinctStarts(slots) && slots != []
    ensures forall x :: x in slots[1..] ==> x.startTime !in [slots[0].startTime]
  {
    var tail := slots[1..];
    forall x | x in tail ensures x.startTime !in [slots[0].startTime] {
      var i :| 0 <= i < |tail| && tail[i] == x;
      assert tail[i] == slots[i + 1];
    }
  }

  /** Dropping the first slot keeps the starts distinct. */
  lemma DistinctStartsTail(slots: seq<TimeSlot>)
    requires DistinctStarts(slots) && slots != []
    ensures DistinctStarts(slots[1..])
  {
    var tail := slots[1..];
    forall i, j | 0 <= i < j < |tail| ensures tail[i].startTime != tail[j].startTime {
      assert tail[i] == slots[i + 1] && tail[j] == slots[j + 1];
    }
  }

  /** Slots whose starts are all unbooked are all kept. */
  lemma {:induction false} NothingBooked(slots: seq<TimeSlot>, bookedDates: seq<int>)
    requires forall x :: x in slots ==> x.startTime !in bookedDates
    ensures FilterBooked(slots, bookedDates) == slots
  {
    if slots != [] {
      NothingBooked(slots[1..], bookedDates);
      assert slots == [slots[0]] + slots[1..];
    }
  }

  /**
   * The filter reads only the bookings' dates: bookings with the same dates
   * but any statuses, cancelled ones included, block the same slots.
   */
  lemma StatusNotConsulted(slots: seq<TimeSlot>, booked: seq<AppointmentRecord>, statuses: seq<Option<Status>>)
    requires Dated(booked) && |statuses| == |booked|
    ensures var restatused := seq(|booked|, i requires 0 <= i < |booked| => booked[i].(status := statuses[i]));
      FilterBooked(slots, BookedDates(restatused)) == FilterBooked(slots, BookedDates(booked))
  {
    var restatused := seq(|booked|, i requires 0 <= i < |booked| => booked[i].(status := statuses[i]));
    assert BookedDates(restatused) == BookedDates(booked);
  }

  /** A cancelled booking still removes the slot that starts at its date. */
  lemma CancelledBookingBlocks(slots: seq<TimeSlot>, booked: seq<AppointmentRecord>, k: nat, slot: TimeSlot)
    requires Dated(booked) && k < |booked| && booked[k].status == Some(Cancelled)
    requires booked[k].appointmentDate == Some(slot.startTime)
    ensures slot !in FilterBooked(slots, BookedDates(booked))
  {
    assert BookedDates(booked)[k] == slot.startTime;
  }

  /**
   * `checkTimeSlot`: a requested `appointmentDate` (`None` for an Invalid
   * Date) is admitted exactly when it equals the start of an available slot.
   */
  function CheckTimeSlot(appointmentDate: Option<int>, available: seq<TimeSlot>): (r: Result<int, SlotError>)
    ensures r.Success? <==> (appointmentDate.Some?
      && exists i :: 0 <= i < |available| && available[i].startTime == appointmentDate.value)
    ensures r.Success? ==> r.value == appointmentDate.value
    ensures r.Failure? ==> r.error == SlotUnavailable
  {
    var starts := StartTimes(available);
    assert forall i :: 0 <= i < |available| ==> starts[i] == available[i].startTime;
    if appointmentDate.Some? && appointmentDate.value in starts then
      Success(appointmentDate.value)
    else Failure(SlotUnavailable)
  }

  /** A target lies on a past day exactly when its day index since the epoch is below today's. */
  lemma PastDayIsEarlierDate(t: int, now: int)
    ensures IsPastDay(Some(t), now) <==> t / DayMs < now / DayMs
    ensures !IsPastDay(None, now)
  {
    MidnightIsDayIndex(t);
    MidnightIsDayIndex(now);
    var p, q := t / DayMs, now / DayMs;
    if p < q {
      assert p * DayMs < q * DayMs by { assert (q - p) * DayMs > 0; }
    } else {
      assert p * DayMs >= q * DayMs by { assert (p - q) * DayMs >= 0; }
    }
  }

  /** The target day lies before today (both truncated to midnight); an Invalid Date never does. */
  predicate IsPastDay(target: Option<int>, now: int)
  {
    target.Some? && Midnight(target.value) < Midnight(now)
  }

  /** All slots the doctor's schedule entry for the day of `target` generates. */
  function DaySlots(target: int, doctor: Doctor): seq<TimeSlot>
    requires doctor.appointmentDuration > 0
    requires EntryForDay(doctor.availibilitySchedule, Some(target)).Some?
  {
    SlotsForHours(Midnight(target), EntryForDay(doctor.availibilitySchedule, Some(target)).value.time,
                  doctor.appointmentDuration)
  }

  /**
   * Every copy of an unbooked slot of the day is offered, and no copy of a
   * booked one.
   */
  lemma AvailableCounts(target: Option<int>, now: int, doctor: Option<Doctor>, booked: seq<AppointmentRecord>,
                        x: TimeSlot)
    requires doctor.Some? ==> doctor.value.appointmentDuration > 0
    requires Dated(booked)
    requires AvailableTimeSlots(target, now, doctor, booked).Success?
    ensures multiset(AvailableTimeSlots(target, now, doctor, booked).value)[x]
         == if x.startTime in BookedDates(booked) then 0 else multiset(DaySlots(target.value, doctor.value))[x]
  {
    FilterBookedCounts(DaySlots(target.value, doctor.value), BookedDates(booked), x);
  }

  /**
   * The available slots for `target` (`None` for an Invalid Date) as
   * `getAvailableTimeSlots` computes them at time `now`, given the doctor (if
   * found) and the appointments booked with that doctor on that day.
   */
  function AvailableTimeSlots(target: Option<int>, now: int, doctor: Option<Doctor>, booked: seq<AppointmentRecord>)
    : (r: Result<seq<TimeSlot>, SlotError>)
    requires doctor.Some? ==> doctor.value.appointmentDuration > 0
    requires Dated(booked)
    ensures r == Failure(InvalidDate) <==> IsPastDay(target, now)
    ensures r == Failure(DoctorNotFound) <==> !IsPastDay(target, now) && doctor.None?
    ensures r == Failure(DoctorUnavailable) <==> (!IsPastDay(target, now) && doctor.Some?
      && EntryForDay(doctor.value.availibilitySchedule, target).None?)
    ensures r != Failure(SlotUnavailable)
    ensures r.Success? ==> (target.Some? && doctor.Some?
      && EntryForDay(doctor.value.availibilitySchedule, target).Some?
      && IsSubsequence(r.value, DaySlots(target.value, doctor.value))
      && forall x :: x in r.value <==> x in DaySlots(target.value, doctor.value) && x.startTime !in BookedDates(booked))
  {
    if IsPastDay(target, now) then Failure(InvalidDate)
    else if doctor.None? then Failure(DoctorNotFound)
    else match EntryForDay(doctor.value.availibilitySchedule, target)
      case None => Failure(DoctorUnavailable)
      case Some(entry) =>
        var slots := SlotsForHours(Midnight(target.value), entry.time, doctor.value.appointmentDuration);
        Success(FilterBooked(slots, BookedDates(booked)))
  }

  /** `getAvailableTimeSlots`, with the database answers and the clock as inputs. */
  method GetAvailableTimeSlots(target: Option<int>, now: int, doctor: Option<Doctor>, booked: seq<AppointmentRecord>)
    returns (r: Result<seq<TimeSlot>, SlotError>)
    requires doctor.Some? ==> doctor.value.appointmentDuration > 0
    requires Dated(booked)
    ensures r == AvailableTimeSlots(target, now, doctor, booked)
  {
    var currentDay := Midnight(now);
    if target.Some? && Midnight(target.value) < currentDay {
      return Failure(InvalidDate);
    }
    if doctor.None? {
      return Failure(DoctorNotFound);
    }
    var entry := EntryForDay(doctor.value.availibilitySchedule, target);
    if entry.None? {
      return Failure(DoctorUnavailable);
    }
    var targetDay := Midnight(target.value);
    var bookedDates := BookedDates(booked);
    var hours := ParseHours(entry.value.time);
    var startingHour, finishingHour := hours.0, hours.1;
    var timeSlots := [];
    if startingHour.Some? && finishingHour.Some? {
      var finish := NormaliseFinish(startingHour.value, finishingHour.value);
      timeSlots := GenerateSlots(targetDay, startingHour.value, finish, doctor.value.appointmentDuration);
    }
    assert timeSlots == SlotsForHours(targetDay, entry.value.time, doctor.value.appointmentDuration);
    r := Success(FilterBooked(timeSlots, bookedDates));
  }

  /** A Saturday target is never available: `days` has no seventh name. */
  lemma SaturdayNeverAvailable(t: int, now: int, doctor: Doctor, booked: seq<AppointmentRecord>)
    requires doctor.appointmentDuration > 0 && Dated(booked)
    requires Weekday(t) == 6 && Midnight(now) <= Midnight(t)
    ensures AvailableTimeSlots(Some(t), now, Some(doctor), booked) == Failure(DoctorUnavailable)
  {
    WeekdayOfMidnight(t);
  }

  /** A target day equal to today is accepted by the date check, whatever the time of day. */
  lemma TodayIsNotPast(t: int, now: int, doctor: Option<Doctor>, booked: seq<AppointmentRecord>)
    requires doctor.Some? ==> doctor.value.appointmentDuration > 0
    requires Dated(booked)
    requires t / DayMs == now / DayMs
    ensures AvailableTimeSlots(Some(t), now, doctor, booked) != Failure(InvalidDate)
  {
    assert Midnight(t) == Midnight(now);
  }

  /** Working hours written "a-b" are read as a and b, and b is moved on by 12 when below a. */
  lemma SlotsForWrittenHours(dayStart: int, a: nat, b: nat, duration: nat)
    requires duration > 0
    ensures SlotsForHours(dayStart, Show(a) + "-" + Show(b), duration)
         == Slots(dayStart, a, if b < a then b + 12 else b, duration)
  {
    ParseHoursShow(a, b);
  }

  /** Every slot in `slots` starts on a whole hour after `dayStart`. */
  predicate StartsOnTheHour(slots: seq<TimeSlot>, dayStart: int)
  {
    forall x :: x in slots ==> (x.startTime - dayStart) % HourMs == 0
  }

  /** The slots of a day all start on whole hours, at 06:00 or later. */
  lemma SlotsOnTheHour(dayStart: int, a: nat, b: nat, duration: nat)
    requires duration > 0
    ensures StartsOnTheHour(Slots(dayStart, a, b, duration), dayStart)
    ensures forall x :: x in Slots(dayStart, a, b, duration) ==> x.startTime >= dayStart + 6 * HourMs
  {
    var slots := Slots(dayStart, a, b, duration);
    forall x | x in slots
      ensures (x.startTime - dayStart) % HourMs == 0 && x.startTime >= dayStart + 6 * HourMs
    {
      var i :| 0 <= i < |slots| && slots[i] == x;
      SlotStartOnTheHour(dayStart, a, b, duration, i);
    }
  }

  /** The generated slots of working hours all start on whole hours, at 06:00 or later. */
  lemma SlotsForHoursOnTheHour(dayStart: int, time: string, duration: nat)
    requires duration > 0
    ensures StartsOnTheHour(SlotsForHours(dayStart, time, duration), dayStart)
    ensures forall x :: x in SlotsForHours(dayStart, time, duration) ==> x.startTime >= dayStart + 6 * HourMs
  {
    var hours := ParseHours(time);
    if hours.0.Some? && hours.1.Some? {
      SlotsOnTheHour(dayStart, hours.0.value, NormaliseFinish(hours.0.value, hours.1.value), duration);
    }
  }

  /**
   * The slots offered for a target day all start on whole hours after its
   * midnight, at 06:00 or later.
   */
  lemma AvailableOnTheHour(target: Option<int>, now: int, doctor: Option<Doctor>, booked: seq<AppointmentRecord>)
    requires doctor.Some? ==> doctor.value.appointmentDuration > 0
    requires Dated(booked)
    requires AvailableTimeSlots(target, now, doctor, booked).Success?
    ensures var available := AvailableTimeSlots(target, now, doctor, booked).value;
      && StartsOnTheHour(available, Midnight(target.value))
      && forall x :: x in available ==> x.startTime >= Midnight(target.value) + DisplayOffsetHours * HourMs
  {
    var available := AvailableTimeSlots(target, now, doctor, booked).value;
    var entry := EntryForDay(doctor.value.availibilitySchedule, target).value;
    var dayStart := Midnight(target.value);
    var slots := SlotsForHours(dayStart, entry.time, doctor.value.appointmentDuration);
    SlotsForHoursOnTheHour(dayStart, entry.time, doctor.value.appointmentDuration);
    forall x | x in available ensures x in slots {
      SubsequenceMembers(available, slots, x);
    }
  }

  /** A booking is admitted only at a start no existing booking holds. */
  lemma AcceptedBookingIsFree(t: int, slots: seq<TimeSlot>, booked: seq<AppointmentRecord>)
    requires Dated(booked)
    requires CheckTimeSlot(Some(t), FilterBooked(slots, BookedDates(booked))).Success?
    ensures t !in BookedDates(booked)
    ensures exists x :: x in slots && x.startTime == t
  {
    var available := FilterBooked(slots, BookedDates(booked));
    var i :| 0 <= i < |available| && available[i].startTime == t;
    assert available[i] in available;
  }

  /**
   * Exact match only: when every available slot starts on a whole hour of
   * the day (as `AvailableOnTheHour` shows of the offered slots) and `t` is
   * admitted, `t + 1` and `t - 1` are rejected as unavailable.
   */
  lemma NeighbouringMillisecondsRejected(t: int, available: seq<TimeSlot>, dayStart: int)
    requires StartsOnTheHour(available, dayStart)
    requires CheckTimeSlot(Some(t), available).Success?
    ensures CheckTimeSlot(Some(t + 1), available) == Failure(SlotUnavailable)
    ensures CheckTimeSlot(Some(t - 1), available) == Failure(SlotUnavailable)
  {
    var i :| 0 <= i < |available| && available[i].startTime == t;
    assert available[i] in available;
    forall j | 0 <= j < |available|
      ensures available[j].startTime != t + 1 && available[j].startTime != t - 1
    {
      assert available[j] in available;
      WholeHoursApart(t - dayStart, available[j].startTime - dayStart);
    }
  }

  /**
   * The booking route takes the requested `appointmentDate` as the target
   * day, so an admitted booking does not clash with a booked start and
   * starts on a whole hour of its own day at 06:00 or later: a slot whose
   * offset start rolls past midnight is offered but can never be booked.
   */
  lemma AdmittedBookingLiesInItsDay(t: int, now: int, doctor: Option<Doctor>, booked: seq<AppointmentRecord>)
    requires doctor.Some? ==> doctor.value.appointmentDuration > 0
    requires Dated(booked)
    requires AvailableTimeSlots(Some(t), now, doctor, booked).Success?
    requires CheckTimeSlot(Some(t), AvailableTimeSlots(Some(t), now, doctor, booked).value).Success?
    ensures Midnight(now) <= Midnight(t)
    ensures t !in BookedDates(booked)
    ensures (t - Midnight(t)) % HourMs == 0
    ensures Midnight(t) + DisplayOffsetHours * HourMs <= t < Midnight(t) + DayMs
  {
    var available := AvailableTimeSlots(Some(t), now, doctor, booked).value;
    AvailableOnTheHour(Some(t), now, doctor, booked);
    AdmittedAt(t, available, Midnight(t), BookedDates(booked));
  }

  /** The step of `AdmittedBookingLiesInItsDay` about one admitted start. */
  lemma AdmittedAt(t: int, available: seq<TimeSlot>, dayStart: int, bookedDates: seq<int>)
    requires StartsOnTheHour(available, dayStart)
    requires forall x :: x in available ==> x.startTime >= dayStart + DisplayOffsetHours * HourMs
    requires forall x :: x in available ==> x.startTime !in bookedDates
    requires CheckTimeSlot(Some(t), available).Success?
    ensures t !in bookedDates && (t - dayStart) % HourMs == 0 && t >= dayStart + DisplayOffsetHours * HourMs
  {
    var i :| 0 <= i < |available| && available[i].startTime == t;
    assert available[i] in available;
  }

  /** With a whole number of hours per slot, no two slots share a start. */
  lemma WholeHourSlotsDistinct(dayStart: int, startingHour: nat, finishingHour: nat, duration: nat)
    requires duration > 0 && duration % 60 == 0
    ensures DistinctStarts(Slots(dayStart, startingHour, finishingHour, duration))
  {
    var slots := Slots(dayStart, startingHour, finishingHour, duration);
    forall i, j | 0 <= i < j < |slots| ensures slots[i].startTime != slots[j].startTime {
      WholeHourSlotsIncrease(dayStart, startingHour, finishingHour, duration, i, j);
    }
  }

  /**
   * "9-17" with one-hour appointments and one booking at the start of slot
   * `k`: seven slots stay, the booked one is gone and the rest keep their order.
   */
  lemma NineToFiveWithOneBooking(dayStart: int, k: nat)
    requires k < 8
    ensures var slots := Slots(dayStart, 9, 17, 60);
      && |slots| == 8
      && FilterBooked(slots, [slots[k].startTime]) == slots[..k] + slots[k + 1..]
      && |FilterBooked(slots, [slots[k].startTime])| == 7
  {
    NineToFiveSlots(dayStart);
    WholeHourSlotsDistinct(dayStart, 9, 17, 60);
    FilterOneBooking(Slots(dayStart, 9, 17, 60), k);
  }
}
