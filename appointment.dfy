/**
 * The appointment document. The schema spells its `default` options for
 * `status` and `refund` as `defualt`, so neither gets a default and both
 * may be absent. `appointmentDate`, `reason`, `notes`, `paymentAmount`,
 * `paymentMethod` and `updatedAt` are neither required nor defaulted, so
 * they may be absent too; `doctor` and `patient` are required, and
 * `paymentStatus` and `createdAt` have defaults.
 */
module Appointments {
  import opened Wrappers

  /** A document id; `ObjectId.equals` is equality of ids. */
  type ObjectId = nat

  datatype Status = Pending | Scheduled | Completed | Cancelled

  datatype PaymentStatus = PaymentPending | PaymentPaid | PaymentFailed

  datatype Refund = RefundProcessing | RefundPaid | NonRefundable

  /** The value of an appointment document, as queries see it. */
  datatype AppointmentRecord = AppointmentRecord(
    doctor: ObjectId,
    patient: ObjectId,
    appointmentDate: Option<int>,
    reason: Option<string>,
    notes: Option<string>,
    status: Option<Status>,
    paymentAmount: Option<real>,
    paymentStatus: PaymentStatus,
    refund: Option<Refund>,
    paymentMethod: Option<string>,
    createdAt: int,
    updatedAt: Option<int>)

  /** A loaded appointment document, whose fields the controller assigns in place. */
  class Appointment {
    var doctor: ObjectId
    var patient: ObjectId
    var appointmentDate: Option<int>
    var reason: Option<string>
    var notes: Option<string>
    var status: Option<Status>
    var paymentAmount: Option<real>
    var paymentStatus: PaymentStatus
    var refund: Option<Refund>
    var paymentMethod: Option<string>
    var createdAt: int
    var updatedAt: Option<int>

    /** The document's current value. */
    function Record(): AppointmentRecord
      reads this
    {
      AppointmentRecord(doctor, patient, appointmentDate, reason, notes, status,
                        paymentAmount, paymentStatus, refund, paymentMethod, createdAt, updatedAt)
    }

    /** A document loaded with the value `r`. */
    constructor (r: AppointmentRecord)
      ensures Record() == r
    {
      doctor, patient, appointmentDate := r.doctor, r.patient, r.appointmentDate;
      reason, notes, status := r.reason, r.notes, r.status;
      paymentAmount, paymentStatus, refund := r.paymentAmount, r.paymentStatus, r.refund;
      paymentMethod, createdAt, updatedAt := r.paymentMethod, r.createdAt, r.updatedAt;
    }
  }
}
