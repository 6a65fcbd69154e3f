/**
 * `upcomingAppointments`: the caller's appointments that lie in the future
 * and are not cancelled, found by doctor or by patient according to role.
 */
module Upcoming {
  import opened Wrappers
  import opened Appointments
  import opened Sequences
  import Cancellation

  datatype Role = PatientRole | DoctorRole | AdminRole

  /** The authenticated caller, `req.user`. */
  datatype User = User(id: ObjectId, role: Role)

  datatype UpcomingError = NoUpcomingAppointments

  /**
   * The query filter: doctor (or, with `byDoctor` false, patient) `id`, an
   * `appointmentDate` after `now` (an undated document fails `$gt`) and a
   * status other than cancelled (a missing status passes `$ne`).
   */
  predicate IsUpcoming(a: AppointmentRecord, id: ObjectId, byDoctor: bool, now: int)
  {
    && (if byDoctor then a.doctor else a.patient) == id
    && a.appointmentDate.Some? && a.appointmentDate.value > now
    && a.status != Some(Status.Cancelled)
  }

  /** The documents of `all` that pass the query filter, in order. */
  function Select(all: seq<AppointmentRecord>, id: ObjectId, byDoctor: bool, now: int): (r: seq<AppointmentRecord>)
    ensures IsSubsequence(r, all)
    ensures forall a :: a in r <==> a in all && IsUpcoming(a, id, byDoctor, now)
  {
    if all == [] then []
    else
      var a := all[0];
      var rest := Select(all[1..], id, byDoctor, now);
      assert forall x :: x in all <==> x == a || x in all[1..];
      if IsUpcoming(a, id, byDoctor, now) then [a] + rest else rest
  }

  /**
   * The query returns every copy of a matching document and none of the
   * others: with `IsSubsequence` this fixes the result, duplicates included.
   */
  lemma {:induction false} SelectCounts(all: seq<AppointmentRecord>, id: ObjectId, byDoctor: bool, now: int,
                                        x: AppointmentRecord)
    ensures multiset(Select(all, id, byDoctor, now))[x]
         == if IsUpcoming(x, id, byDoctor, now) then multiset(all)[x] else 0
  {
    if all != [] {
      SelectCounts(all[1..], id, byDoctor, now, x);
      assert all == [all[0]] + all[1..];
    }
  }

  /**
   * The upcoming appointments of `user` at time `now` among the documents
   * `all`. An empty list is still a success; only a caller who is neither a
   * doctor nor a patient gets the "no upcoming appointments" error.
   */
  function UpcomingAppointments(all: seq<AppointmentRecord>, user: User, now: int)
    : (r: Result<seq<AppointmentRecord>, UpcomingError>)
    ensures r.Failure? <==> user.role != DoctorRole && user.role != PatientRole
    ensures r.Success? ==> IsSubsequence(r.value, all)
    ensures r.Success? ==> forall a :: a in r.value <==> (a in all
      && (if user.role == DoctorRole then a.doctor == user.id else a.patient == user.id)
      && a.appointmentDate.Some? && a.appointmentDate.value > now && a.status != Some(Status.Cancelled))
  {
    if user.role == DoctorRole then Success(Select(all, user.id, true, now))
    else if user.role == PatientRole then Success(Select(all, user.id, false, now))
    else Failure(NoUpcomingAppointments)
  }

  /** Every copy of a matching document is listed, and no other document. */
  lemma UpcomingCounts(all: seq<AppointmentRecord>, user: User, now: int, x: AppointmentRecord)
    requires UpcomingAppointments(all, user, now).Success?
    ensures multiset(UpcomingAppointments(all, user, now).value)[x]
         == if IsUpcoming(x, user.id, user.role == DoctorRole, now) then multiset(all)[x] else 0
  {
    SelectCounts(all, user.id, user.role == DoctorRole, now, x);
  }

  /** Once cancelled, an appointment is no longer upcoming for anyone. */
  lemma CancelledIsNotUpcoming(all: seq<AppointmentRecord>, a: AppointmentRecord, user: User, now: int)
    requires UpcomingAppointments(all, user, now).Success?
    ensures Cancellation.Cancelled(a) !in UpcomingAppointments(all, user, now).value
  {
  }
}
