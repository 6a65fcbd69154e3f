# Appointment slot and booking engine

This Dafny project models the slot-and-booking engine of a clinic appointment backend
(`controllers/appointmentController.js`). It covers five pieces:

- **`getAvailableTimeSlots`** (`Booking.AvailableTimeSlots`, `Booking.GetAvailableTimeSlots`,
  `SlotGeneration.GenerateSlots`):
  - it rejects a target day before today;
  - it finds the doctor's schedule entry for the target weekday;
  - it reads the entry's `"start-end"` hours as `split('-')` and `Number.parseInt` do (`HourRange`);
  - it moves the finishing hour on by 12 when it is below the starting hour;
  - it runs the `while (f <= finishingHour)` loop that emits contiguous slots shifted by a fixed 6 hours;
  - it drops every slot whose start equals a booked appointment's date.
- **`checkTimeSlot`** (`Booking.CheckTimeSlot`): a requested date is admitted only when it equals the start of an available slot.
- **`cancelAppointment`** (`Cancellation.CancellationOutcome`, `Cancellation.CancelAppointment`):
  - five checks run in order, and the first failing one wins;
  - a document without a date throws before the notice check;
  - on success the loaded appointment document changes in place (`Appointments.Appointment`);
  - the caller gets a refund summary.
- **`upcomingAppointments`** (`Upcoming.UpcomingAppointments`): the caller's future, non-cancelled appointments, by role.
- **The appointment schema** (`models/appointmentsModel.js`): the status, payment-status and refund enums.

Time is a whole number of milliseconds since the epoch (`Clock`):

- local time is taken to be UTC with no daylight saving;
- midnight is `t - t % DayMs`, and the weekday is `(t / DayMs + 4) % 7`;
- `new Date(y, m, d, h, 0, 0)` is `dayStart + h * HourMs`, so an hour of 24 or more rolls into the next day, as JavaScript does.

The loop's hour values `s` and `f` are kept in minutes (hour × 60), so durations that are not whole hours stay exact. The `Date` constructor truncates the fractional hour argument (the MakeTime operation, ECMA-262 section 21.4.1). The model keeps that truncation: with 30-minute appointments, "9-10" yields a zero-length slot 15:00–15:00 and then a slot 15:00–16:00 (`SlotGeneration.HalfHourSlotsTruncate`). The properties that need exact lengths (exact length, strictly increasing starts) are proved for durations that are a multiple of 60.

The clock (`Date.now()`, `new Date()`) and the database answers are inputs. These are the doctor document (`Option<Doctor>`), the day's booked appointments, the appointment found by id (`null` when none) and the collection searched by `upcomingAppointments`. An Invalid Date is `None`:

- `NaN < currentDay` is false, so an invalid target passes the past-date check;
- `days[NaN]` is then undefined, so the doctor is reported "not available".

An hour that parses to NaN, or a missing second hour, stops the loop before it runs, so no slots are produced.

The schema writes `default` as `defualt` for `status` and `refund`. Neither field gets a default, so both are `Option` values. A missing status is not `'cancelled'`: it passes both the cancellation check and the upcoming filter.

`appointmentDate` is neither required nor defaulted by the schema, so it is an `Option` too:
- an undated document makes `cancelAppointment` throw at its first `appointmentDate.getTime()`, the one inside the log call (line 178), which `catchAsync` hands to the error handler (`Cancellation.DateMissing`);
- an undated document never matches the `$gt` date filter of `upcomingAppointments`;
- the day-range query of `getAvailableTimeSlots` returns only dated documents, which the model states as `Booking.Dated`.

Behaviour of the code that the model keeps:

- the code answers a missing appointment on cancellation with status 400 (`Cancellation.HttpStatus`);
- the schedule lookup takes the first matching entry, whatever the number of entries per weekday;
- a non-positive duration is not reported as a configuration error: the loop never ends whenever a first slot fits, so the model requires `appointmentDuration > 0`;
- `upcomingAppointments` never answers "no upcoming appointments" to a doctor or a patient, because an empty result list is truthy;
- cancelled bookings still block their slot, because the booked-start filter never looks at the status.

## Model

| member | source | states |
|---|---|---|
| `Clock.Midnight` | controllers/appointmentController.js:38-41 | the truncated day start is a multiple of a day and the instant lies in `[m, m + DayMs)` |
| `Clock.Weekday` | controllers/appointmentController.js:46 | `getDay()` lies in 0..6; which day is which is pinned by `Clock.EpochIsThursday` and `Clock.WeekdayNextDay` |
| `Clock.EpochIsThursday` | controllers/appointmentController.js:46 | `getDay()` of the epoch is 4 (Thursday) and of the millisecond before it 3, which pins the offset of `Weekday` |
| `Clock.WeekdayNextDay` | controllers/appointmentController.js:46 | the day after any instant has the next weekday, modulo 7 |
| `Clock.KnownWeekdays` | controllers/appointmentController.js:46 | 1 January 2024 is a Monday and 6 January 2024 a Saturday |
| `Clock.MidnightIsDayIndex` | controllers/appointmentController.js:39-40 | the truncated day start is the day index since the epoch times `DayMs` |
| `Clock.WeekdayOfMidnight` | controllers/appointmentController.js:39-46 | truncating the target to midnight does not change its weekday |
| `Clock.MidnightUnique` | controllers/appointmentController.js:39-41 | any day-aligned `m` with `m <= t < m + DayMs` is the midnight of `t` |
| `Clock.HourRollsOver` | controllers/appointmentController.js:97-105 | hour `24 + h` of one day is hour `h` of the next, as the `Date` constructor rolls over |
| `Clock.AtHourMonotone` | controllers/appointmentController.js:97-105 | later hour arguments give later instants |
| `Clock.AtHourOnTheHour` | controllers/appointmentController.js:97-105 | `AtHour`, the `Date` built from a whole hour, lies a whole number of hours after the day's midnight |
| `Clock.WholeHoursApart` | controllers/appointmentController.js:144-151 | two whole-hour offsets are never one millisecond apart |
| `HourRange.Split` | controllers/appointmentController.js:82-83 | `split('-')` yields at least one piece and no piece contains `-` |
| `HourRange.JoinSplit` | controllers/appointmentController.js:82-83 | joining the pieces with `-` gives back the schedule string |
| `HourRange.SplitWithoutSeparator` | controllers/appointmentController.js:82-83 | a string without `-` is one piece |
| `HourRange.SplitAtSeparator` | controllers/appointmentController.js:82-83 | the first `-` ends the first piece |
| `HourRange.TrimStart` | controllers/appointmentController.js:84 | `parseInt` drops exactly the leading white space |
| `HourRange.DigitPrefix` | controllers/appointmentController.js:84 | `parseInt` reads the longest run of digits of the radix |
| `HourRange.ParseInt` | controllers/appointmentController.js:84 | a piece without `-` parses to NaN or to a non-negative integer |
| `HourRange.ParseIntDecimal` | controllers/appointmentController.js:84 | a decimal numeral parses to its value |
| `HourRange.ParseIntShow` | controllers/appointmentController.js:84 | `parseInt` inverts writing a non-negative integer in decimal |
| `HourRange.DecimalPrefixIsWhole` | controllers/appointmentController.js:84 | a string of decimal digits is read to its end |
| `HourRange.DigitsValueShow` | controllers/appointmentController.js:84 | the digits of a decimal numeral denote its value |
| `HourRange.Show` | controllers/appointmentController.js:82-84 | a decimal numeral is non-empty and made of digits |
| `HourRange.ParseHours` | controllers/appointmentController.js:82-84 | both hours are NaN/undefined or non-negative |
| `HourRange.ParseHoursShow` | controllers/appointmentController.js:82-84 | hours written "a-b" are read back as a and b |
| `SlotGeneration.SlotTime` | controllers/appointmentController.js:97-105 | `new Date(y, m, d, s + 6, 0, 0)` for loop value `s` lies a whole number of hours after midnight (also `SlotGeneration.SlotsAt`, `SlotGeneration.SlotOnTheHour`) |
| `SlotGeneration.SlotTimeTruncates` | controllers/appointmentController.js:97-105 | the fractional hour is truncated: the loop value, shifted by 6 hours, lies within the hour that starts at its slot time |
| `SlotGeneration.GenerateSlots` | controllers/appointmentController.js:88-113 | the slot loop emits exactly the slot list `Slots` of the working hours |
| `SlotGeneration.SlotsFromAt` | controllers/appointmentController.js:96-112 | slot k spans loop values `s + k*d` to `s + (k+1)*d` |
| `SlotGeneration.SlotsFromLength` | controllers/appointmentController.js:96-113 | as many whole slots as fit are emitted, one more would not fit |
| `SlotGeneration.SlotsAt` | controllers/appointmentController.js:88-112 | slot k of a day starts at `floor(start + k*d/60) + 6` and ends at or before the finishing hour |
| `SlotGeneration.SlotsCount` | controllers/appointmentController.js:96-113 | the count is `(finish - start) * 60 / d` (0 when finish < start); a trailing partial slot is dropped, never shortened |
| `SlotGeneration.SlotsContiguous` | controllers/appointmentController.js:111-112 | each slot finishes where the next one starts |
| `SlotGeneration.SlotsFirstStart` | controllers/appointmentController.js:90-97 | the first slot starts at `startingHour + 6` |
| `SlotGeneration.SlotsWithinHours` | controllers/appointmentController.js:96-105 | every slot lies between `startingHour + 6` and `finishingHour + 6`, start not after finish |
| `SlotGeneration.SlotsNonDecreasing` | controllers/appointmentController.js:96-113 | slot starts never decrease |
| `SlotGeneration.WholeHourSlotAt` | controllers/appointmentController.js:88-112 | with whole-hour durations slot k starts `k * duration` after the first and lasts exactly `duration` |
| `SlotGeneration.WholeHourSlotsIncrease` | controllers/appointmentController.js:88-113 | with whole-hour durations every slot is exactly `duration` long and starts strictly increase |
| `SlotGeneration.SlotOnTheHour` | controllers/appointmentController.js:97-105 | slot bounds fall on whole hours after the day's midnight |
| `SlotGeneration.SlotStartOnTheHour` | controllers/appointmentController.js:97 | slot starts fall on whole hours, at 06:00 or later |
| `SlotGeneration.NineToFiveSlots` | controllers/appointmentController.js:86-113 | "9-17" with 60 minutes gives 8 slots from 15:00 to 23:00 |
| `SlotGeneration.HalfHourSlotsTruncate` | controllers/appointmentController.js:88-105 | 30-minute slots of "9-10" are 15:00–15:00 and 15:00–16:00 (truncated hour argument) |
| `Booking.DayName` | controllers/appointmentController.js:46-54 | `days[givenDay]` is undefined iff the index is outside 0..5 (Saturday has no name), otherwise it is the listed name |
| `Booking.EntryForDay` | controllers/appointmentController.js:39-59 | an Invalid Date has no entry; otherwise the entry is the first one named after the target's own weekday, whatever its time of day, and none when that weekday has no name |
| `Booking.NormaliseFinish` | controllers/appointmentController.js:86-87 | a finishing hour below the start is moved on by exactly 12, otherwise it is kept; a start at most 12 hours past the written finish then lies at or before it |
| `Booking.SlotsForHours` | controllers/appointmentController.js:82-113 | with either hour NaN or missing the loop never runs and no slot exists (the written-hours case is `Booking.SlotsForWrittenHours`) |
| `Booking.FindEntry` | controllers/appointmentController.js:57-59 | `find` fails iff no entry has the day's name, and otherwise returns the first entry that has it |
| `Booking.SlotsForWrittenHours` | controllers/appointmentController.js:82-87 | hours "a-b" give the slots of a to b, with b moved on by 12 when b < a |
| `Booking.BookedDates` | controllers/appointmentController.js:118-120 | a date is booked iff some fetched appointment has exactly that `appointmentDate` |
| `Booking.FilterBooked` | controllers/appointmentController.js:118-124 | the kept slots are an order-preserving subsequence and a slot is kept iff its start is not a booked date |
| `Booking.FilterBookedCounts` | controllers/appointmentController.js:122-124 | every copy of an unbooked slot is kept, no copy of a booked one |
| `Booking.FilterNoBookings` | controllers/appointmentController.js:118-124 | with no bookings every generated slot is available |
| `Booking.NothingBooked` | controllers/appointmentController.js:118-124 | slots whose starts are all unbooked are all kept |
| `Booking.FilterOneBooking` | controllers/appointmentController.js:118-124 | with distinct starts, one booking at slot k removes exactly slot k |
| `Booking.StatusNotConsulted` | controllers/appointmentController.js:69-75 | changing the bookings' statuses does not change the available slots |
| `Booking.CancelledBookingBlocks` | controllers/appointmentController.js:118-124 | a cancelled booking still removes the slot starting at its date |
| `Booking.PastDayIsEarlierDate` | controllers/appointmentController.js:38-42 | `IsPastDay` holds iff the target's day index since the epoch is below today's; an Invalid Date is never past |
| `Booking.CheckTimeSlot` | controllers/appointmentController.js:142-156 | a request is admitted iff it is a valid date equal to some available slot's start; otherwise the error is "slot unavailable" |
| `Booking.AvailableCounts` | controllers/appointmentController.js:118-124 | the offered list holds every copy of each unbooked slot of the day and no copy of a booked one |
| `Booking.AvailableTimeSlots` | controllers/appointmentController.js:30-124 | errors in order: past day iff target midnight < today's midnight; doctor missing; no schedule entry for the weekday; success gives an order-preserving subsequence of the day's slots holding exactly those whose start is not a booked date |
| `Booking.GetAvailableTimeSlots` | controllers/appointmentController.js:30-130 | the controller step computes exactly `AvailableTimeSlots` |
| `Booking.SaturdayNeverAvailable` | controllers/appointmentController.js:46-61 | a Saturday target that is not past always gets "doctor not available" |
| `Booking.TodayIsNotPast` | controllers/appointmentController.js:38-42 | a target on today's date passes the date check at any time of day |
| `Booking.SlotsOnTheHour` | controllers/appointmentController.js:96-110 | all slots of a day start on whole hours at 06:00 or later |
| `Booking.SlotsForHoursOnTheHour` | controllers/appointmentController.js:82-110 | the same, for the slots of any schedule string |
| `Booking.AvailableOnTheHour` | controllers/appointmentController.js:30-124 | the offered slots start on whole hours of the target day at 06:00 or later |
| `Booking.AcceptedBookingIsFree` | controllers/appointmentController.js:118-154 | an admitted start is not a booked date and is the start of a generated slot |
| `Booking.NeighbouringMillisecondsRejected` | controllers/appointmentController.js:144-154 | when `t` is admitted on whole-hour slots, `t + 1` and `t - 1` are rejected |
| `Booking.AdmittedBookingLiesInItsDay` | controllers/appointmentController.js:33-154 | on the booking route the target is the requested date, so an admitted booking is not before today, is unbooked, and starts on a whole hour of its own day at 06:00 or later |
| `Booking.AdmittedAt` | controllers/appointmentController.js:142-154 | an admitted start inherits the properties every available slot has |
| `Booking.WholeHourSlotsDistinct` | controllers/appointmentController.js:88-113 | with whole-hour durations no two slots share a start |
| `Booking.NineToFiveWithOneBooking` | controllers/appointmentController.js:86-124 | "9-17", 60 minutes and one booking at slot k leave the 7 other slots in order |
| `Cancellation.HttpStatus` | controllers/appointmentController.js:163-192 | 403 exactly for the permission error, 400 for the other policy errors, and no status of its own for the thrown TypeError |
| `Cancellation.Cancelled` | controllers/appointmentController.js:195-196 | the cancelled document has status cancelled and refund processing, and every other field unchanged |
| `Cancellation.CancellationOutcome` | controllers/appointmentController.js:158-207 | the checks in order, first failure wins: not found iff missing; forbidden iff caller is not the patient; the thrown error iff the document has no date; window error iff less than 24 h notice (also for an already-cancelled one); the past branch never fires; already cancelled iff status cancelled after those; success otherwise, with amount = payment amount, status processing, completion = now + 10 days |
| `Cancellation.CancelAppointment` | controllers/appointmentController.js:158-208 | returns `CancellationOutcome`; on success only `status` becomes cancelled and `refund` processing, on failure the document is unchanged |
| `Cancellation.NoticeBoundary` | controllers/appointmentController.js:177-185 | 24 h − 1 ms of notice is refused; exactly 24 h and 24 h + 1 ms are accepted |
| `Cancellation.CancelledIsTerminal` | controllers/appointmentController.js:187-196 | a cancelled appointment cannot be cancelled again, and with enough notice the owner gets "already cancelled" |
| `Upcoming.Select` | controllers/appointmentController.js:213-224 | the query result is an order-preserving subsequence, holding exactly the caller's appointments dated after now (an undated one never) and not cancelled |
| `Upcoming.SelectCounts` | controllers/appointmentController.js:213-224 | the query result holds every copy of a matching document and none of the others, so duplicates are all listed |
| `Upcoming.IsUpcoming` | controllers/appointmentController.js:214-224 | the query filter: the caller as doctor or patient, a date after now (an undated document fails `$gt`), status not cancelled (a missing status passes `$ne`); pinned by `Upcoming.Select` and `Upcoming.SelectCounts` |
| `Upcoming.UpcomingAppointments` | controllers/appointmentController.js:210-227 | error iff the role is neither doctor nor patient; otherwise the caller's (as doctor or as patient) future non-cancelled appointments, in order |
| `Upcoming.UpcomingCounts` | controllers/appointmentController.js:210-225 | the upcoming list holds every copy of each of the caller's matching documents and nothing else |
| `Upcoming.CancelledIsNotUpcoming` | controllers/appointmentController.js:217-223 | a cancelled appointment is never in an upcoming list |
| `Appointments.Appointment.constructor` | models/appointmentsModel.js:4-42 | a loaded document holds the given field values |

## Left out

- The Stripe checkout session and `updatePaymentStatus`: third-party payment calls and a redirect.
- `bookAppointment`, `getAllAppointments`, `getAppointment`, `updateAppointment`, `deleteAppointment` and `getDoctorPatientIds`: database create/CRUD through factory helpers, and cookies.
- The database queries and `appointment.save()`. The doctor, the day's bookings, the appointment found by id and the collection searched for upcoming appointments are inputs. The save is the field update only; its promise is never awaited, so a failed write is not modelled.
- The day-range query for bookings, which uses `setHours` with `$gte`/`$lt`. The model takes its result as given, so it does not capture that a slot whose start rolls past midnight is checked against the target day's bookings only.
- Time zones and daylight saving of JavaScript's local `Date`. Local time is UTC, and the 6-hour offset is kept as written.
- The `Date` value range limit (±8.64e15 ms) and the parsing of the request body's date string. The target arrives as a millisecond value or as an Invalid Date.
- Floating-point arithmetic. `appointmentDuration` is a whole number of minutes and the hour values are exact rationals. The source's repeated float addition of `duration / 60` is exact for durations such as 15, 30, 45 and multiples of 60. For other durations (20 minutes, say) rounding may move a slot boundary; the model does not capture that.
- `Number.parseInt` of numerals too long to be exact doubles: the model reads their exact value.
- `CancelAppointment` reads the clock once. The source calls `Date.now()` separately for the notice check, the past check and the refund date.
- The double-booking race between `checkTimeSlot` and the create: two concurrent requests can both pass. This needs concurrency and is not expressible in this sequential model.
- `utils/appError.js`, `utils/catchAsync.js`, `controllers/handlerFactory.js`, `controllers/authController.js` and `models/doctorsModel.js` are not part of this model. The error for a missing schedule entry is built without a status code; what `AppError` sends for it is not modelled.
- Routes, `app.js`, multer configuration, the medical-record, admin and prescription controllers, and `public/js/script.js`: framework wiring, file I/O, CRUD and UI.
- Schedule entries are taken to have a `day` and a `time` string, and the doctor an `availibilitySchedule` list (`Booking.ScheduleEntry`, `Booking.Doctor`). An entry without `day` would match `days[6] === undefined` for a Saturday target; an entry without `time` makes `.split('-')` throw (lines 82-83); a missing schedule makes `.find` throw (line 57). The doctor schema, models/doctorsModel.js, is not part of this model.
- `Booking.AvailableTimeSlots` requires `appointmentDuration > 0` even where the source ends normally with no slots for a duration of 0 or less (NaN hours, or no first slot fitting, as with duration 0 and "20-3"); that empty result is not modelled.
- `Upcoming.UpcomingAppointments`: `all` stands for the documents in the order the query returns them; `Appointment.find` has no sort, so the database promises no order, and "in order" means in that returned order.
- The `console.log` calls (lines 62-65 and 178): logging output. Only the throw of the log call's `getTime()` on an undated document is modelled (`Cancellation.DateMissing`).
- The status the error handler sends for the thrown TypeError of an undated document (`Cancellation.DateMissing`): controllers/errorController.js is not part of this model.
- `SlotGeneration.WholeHourSlotsIncrease`: exact slot length and strictly increasing starts are stated only for durations that are a multiple of 60, because truncating the hour argument breaks both for other durations (see `SlotGeneration.HalfHourSlotsTruncate`).
