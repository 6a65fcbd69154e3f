/**
 * `cancelAppointment`: the policy checks, run in order with the first
 * failure winning, then the in-place update of the appointment and the
 * refund summary sent back to the patient.
 */
module Cancellation {
  import opened Wrappers
  import opened Appointments

  /** The required notice, `24 * 60 * 60 * 1000` ms. */
  const CancellationNoticeMs: int := 24 * 60 * 60 * 1000

  /** The time promised for a refund, `10 * 24 * 60 * 60 * 1000` ms. */
  const RefundCompletionMs: int := 10 * 24 * 60 * 60 * 1000

  /**
   * The policy errors, in the order they are checked, and `DateMissing`: on a
   * document without `appointmentDate` the first `appointmentDate.getTime()`,
   * the one in the log call before the notice check, throws a TypeError,
   * which `catchAsync` hands to the error handler.
   */
  datatype CancelError = NotFound | Forbidden | DateMissing | WindowExpired | PastAppointment | AlreadyCancelled

  /**
   * The HTTP status the controller gives each error; the thrown TypeError
   * carries none, and the status it is answered with is chosen by the error
   * handler, controllers/errorController.js, which is not part of this model.
   */
  function HttpStatus(e: CancelError): (status: Option<int>)
    ensures status == Some(403) <==> e == Forbidden
    ensures status.None? <==> e == DateMissing
    ensures status.Some? ==> status.value == 400 || status.value == 403
  {
    if e == Forbidden then Some(403) else if e == DateMissing then None else Some(400)
  }

  /** The `refundDetails` of a successful cancellation. */
  datatype RefundSummary = RefundSummary(amount: Option<real>, status: Refund, expectedCompletion: int)

  /** The appointment as the successful path leaves it: cancelled, refund processing, nothing else changed. */
  function Cancelled(a: AppointmentRecord): (c: AppointmentRecord)
    ensures c.status == Some(Status.Cancelled) && c.refund == Some(RefundProcessing)
    ensures c.(status := a.status, refund := a.refund) == a
  {
    a.(status := Some(Status.Cancelled), refund := Some(RefundProcessing))
  }

  /** The appointment is dated and at least the required notice ahead of `now`. */
  predicate InNotice(a: AppointmentRecord, now: int)
  {
    a.appointmentDate.Some? && a.appointmentDate.value - now >= CancellationNoticeMs
  }

  /**
   * The answer to a cancellation of `appointment` (`None` when no document
   * has the id) asked by patient `caller` at time `now`.
   */
  function CancellationOutcome(appointment: Option<AppointmentRecord>, caller: ObjectId, now: int)
    : (r: Result<RefundSummary, CancelError>)
    ensures r == Failure(NotFound) <==> appointment.None?
    ensures r == Failure(Forbidden) <==> appointment.Some? && caller != appointment.value.patient
    ensures r == Failure(DateMissing) <==> (appointment.Some? && caller == appointment.value.patient
      && appointment.value.appointmentDate.None?)
    ensures r == Failure(WindowExpired) <==> (appointment.Some? && caller == appointment.value.patient
      && appointment.value.appointmentDate.Some?
      && appointment.value.appointmentDate.value - now < CancellationNoticeMs)
    ensures r != Failure(PastAppointment)
    ensures r == Failure(AlreadyCancelled) <==> (appointment.Some? && caller == appointment.value.patient
      && InNotice(appointment.value, now) && appointment.value.status == Some(Status.Cancelled))
    ensures r.Success? <==> (appointment.Some? && caller == appointment.value.patient
      && InNotice(appointment.value, now) && appointment.value.status != Some(Status.Cancelled))
    ensures r.Success? ==> (r.value.amount == appointment.value.paymentAmount
      && r.value.status == RefundProcessing && r.value.expectedCompletion == now + RefundCompletionMs)
  {
    if appointment.None? then Failure(NotFound)
    else if caller != appointment.value.patient then Failure(Forbidden)
    else if appointment.value.appointmentDate.None? then Failure(DateMissing)
    else if appointment.value.appointmentDate.value - now < CancellationNoticeMs then Failure(WindowExpired)
    else if appointment.value.appointmentDate.value < now then Failure(PastAppointment)
    else if appointment.value.status == Some(Status.Cancelled) then Failure(AlreadyCancelled)
    else Success(RefundSummary(appointment.value.paymentAmount, RefundProcessing, now + RefundCompletionMs))
  }

  /**
   * `cancelAppointment` on the loaded document (`null` when none has the
   * id): on success it sets `status` and `refund` and nothing else; on any
   * failure the document is left as it was. Saving is not modelled.
   */
  method CancelAppointment(appointment: Appointment?, caller: ObjectId, now: int)
    returns (r: Result<RefundSummary, CancelError>)
    modifies appointment
    ensures r == CancellationOutcome(if appointment == null then None else Some(old(appointment.Record())), caller, now)
    ensures appointment != null ==> (appointment.Record()
      == if r.Success? then Cancelled(old(appointment.Record())) else old(appointment.Record()))
  {
    if appointment == null {
      return Failure(NotFound);
    }
    if caller != appointment.patient {
      return Failure(Forbidden);
    }
    if appointment.appointmentDate.None? {
      return Failure(DateMissing);
    }
    if appointment.appointmentDate.value - now < CancellationNoticeMs {
      return Failure(WindowExpired);
    }
    if appointment.appointmentDate.value < now {
      return Failure(PastAppointment);
    }
    if appointment.status == Some(Status.Cancelled) {
      return Failure(AlreadyCancelled);
    }
    appointment.status := Some(Status.Cancelled);
    appointment.refund := Some(RefundProcessing);
    r := Success(RefundSummary(appointment.paymentAmount, RefundProcessing, now + RefundCompletionMs));
  }

  /** The notice boundary: 24 h - 1 ms is too late, exactly 24 h and 24 h + 1 ms are in time. */
  lemma NoticeBoundary(a: AppointmentRecord, now: int)
    requires a.status != Some(Status.Cancelled)
    ensures a.appointmentDate == Some(now + CancellationNoticeMs - 1)
      ==> CancellationOutcome(Some(a), a.patient, now) == Failure(WindowExpired)
    ensures a.appointmentDate == Some(now + CancellationNoticeMs)
      ==> CancellationOutcome(Some(a), a.patient, now).Success?
    ensures a.appointmentDate == Some(now + CancellationNoticeMs + 1)
      ==> CancellationOutcome(Some(a), a.patient, now).Success?
  {
  }

  /**
   * Cancelled is terminal: once an appointment has been cancelled, no later
   * request, by anyone, cancels it again.
   */
  lemma CancelledIsTerminal(a: AppointmentRecord, caller: ObjectId, now: int, caller2: ObjectId, later: int)
    requires CancellationOutcome(Some(a), caller, now).Success?
    ensures CancellationOutcome(Some(Cancelled(a)), caller2, later).Failure?
    ensures caller2 == a.patient && InNotice(a, later)
      ==> CancellationOutcome(Some(Cancelled(a)), caller2, later) == Failure(AlreadyCancelled)
  {
  }
}
