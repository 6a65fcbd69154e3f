/**
 * Slot generation: the `while (f <= finishingHour)` loop of
 * `getAvailableTimeSlots`. The loop's hour values `s` and `f` are kept here
 * in minutes after midnight (the hour value times 60), so that durations that
 * are not whole hours stay exact. Each slot's bounds are built with
 * `new Date(y, m, d, s + 6, 0, 0)`, which truncates the fractional hour.
 */
module SlotGeneration {
  import opened Clock

  /** The fixed offset added to both bounds of every slot. */
  const DisplayOffsetHours: int := 6

  datatype TimeSlot = TimeSlot(startTime: int, finishTime: int)

  /** The `Date` built for the loop value `m` minutes after midnight of `dayStart`. */
  function SlotTime(dayStart: int, m: nat): (t: int)
    ensures (t - dayStart) % HourMs == 0
  {
    AtHourOnTheHour(dayStart, m / 60 + DisplayOffsetHours);
    AtHour(dayStart, m / 60 + DisplayOffsetHours)
  }

  /**
   * The hour argument is truncated: the loop value, as an instant shifted by
   * 6 hours, lies within the hour that starts at its slot time.
   */
  lemma SlotTimeTruncates(dayStart: int, m: nat)
    ensures var t := SlotTime(dayStart, m);
      t <= dayStart + DisplayOffsetHours * HourMs + m * MinuteMs < t + HourMs
  {
    var h, r := m / 60, m % 60;
    assert m * MinuteMs == h * HourMs + r * MinuteMs;
  }

  /** The slots the loop emits once `s` has reached `sMin`, up to `finishMin`. */
  function SlotsFrom(dayStart: int, sMin: nat, finishMin: nat, duration: nat): seq<TimeSlot>
    requires duration > 0
    decreases finishMin - sMin
  {
    if sMin + duration <= finishMin then
      [TimeSlot(SlotTime(dayStart, sMin), SlotTime(dayStart, sMin + duration))]
        + SlotsFrom(dayStart, sMin + duration, finishMin, duration)
    else []
  }

  /** All slots of a day whose working hours run from `startingHour` to `finishingHour`. */
  function Slots(dayStart: int, startingHour: nat, finishingHour: nat, duration: nat): seq<TimeSlot>
    requires duration > 0
  {
    SlotsFrom(dayStart, startingHour * 60, finishingHour * 60, duration)
  }

  /** The slot loop of `getAvailableTimeSlots`, for `duration` minutes per slot. */
  method GenerateSlots(dayStart: int, startingHour: nat, finishingHour: nat, duration: nat)
    returns (timeSlots: seq<TimeSlot>)
    requires duration > 0
    ensures timeSlots == Slots(dayStart, startingHour, finishingHour, duration)
  {
    timeSlots := [];
    var s: nat := startingHour * 60;
    var f: nat := s + duration;
    while f <= finishingHour * 60
      invariant f == s + duration
      invariant timeSlots + SlotsFrom(dayStart, s, finishingHour * 60, duration)
             == Slots(dayStart, startingHour, finishingHour, duration)
      decreases finishingHour * 60 - s
    {
      var startTime := AtHour(dayStart, s / 60 + DisplayOffsetHours);
      var finishTime := AtHour(dayStart, f / 60 + DisplayOffsetHours);
      timeSlots := timeSlots + [TimeSlot(startTime, finishTime)];
      s := f;
      f := f + duration;
    }
  }

  /** Slot `k` spans the loop values `sMin + k * duration` to `sMin + (k + 1) * duration`. */
  lemma {:induction false} SlotsFromAt(dayStart: int, sMin: nat, finishMin: nat, duration: nat, k: nat)
    requires duration > 0
    requires k < |SlotsFrom(dayStart, sMin, finishMin, duration)|
    ensures SlotsFrom(dayStart, sMin, finishMin, duration)[k]
         == TimeSlot(SlotTime(dayStart, sMin + k * duration), SlotTime(dayStart, sMin + (k + 1) * duration))
    decreases finishMin - sMin
  {
    if k > 0 {
      SlotsFromAt(dayStart, sMin + duration, finishMin, duration, k - 1);
      assert sMin + duration + (k - 1) * duration == sMin + k * duration;
    }
  }

  /**
   * The number of slots: that many whole slots fit between `sMin` and
   * `finishMin`, one more does not, so a trailing partial slot is dropped.
   */
  lemma {:induction false} SlotsFromLength(dayStart: int, sMin: nat, finishMin: nat, duration: nat)
    requires duration > 0
    ensures var n := |SlotsFrom(dayStart, sMin, finishMin, duration)|;
      (n == 0 || sMin + n * duration <= finishMin) && finishMin < sMin + (n + 1) * duration
    decreases finishMin - sMin
  {
    if sMin + duration <= finishMin {
      SlotsFromLength(dayStart, sMin + duration, finishMin, duration);
      var n := |SlotsFrom(dayStart, sMin + duration, finishMin, duration)|;
      assert sMin + duration + n * duration == sMin + (n + 1) * duration;
      assert sMin + duration + (n + 1) * duration == sMin + (n + 2) * duration;
    }
  }

  /** Multiplying by a positive number keeps the order. */
  lemma MulMonotone(x: int, y: int, d: nat)
    requires x <= y
    ensures x * d <= y * d
    ensures x < y && d > 0 ==> x * d < y * d
  {
  }

  /** Bounds of slot `k` of a day, in the loop's minutes. */
  lemma SlotsAt(dayStart: int, startingHour: nat, finishingHour: nat, duration: nat, k: nat)
    requires duration > 0
    requires k < |Slots(dayStart, startingHour, finishingHour, duration)|
    ensures var slot := Slots(dayStart, startingHour, finishingHour, duration)[k];
      && slot.startTime == SlotTime(dayStart, startingHour * 60 + k * duration)
      && slot.finishTime == SlotTime(dayStart, startingHour * 60 + (k + 1) * duration)
      && startingHour * 60 + (k + 1) * duration <= finishingHour * 60
  {
    var sMin, finishMin := startingHour * 60, finishingHour * 60;
    SlotsFromAt(dayStart, sMin, finishMin, duration, k);
    SlotsFromLength(dayStart, sMin, finishMin, duration);
    MulMonotone(k + 1, |Slots(dayStart, startingHour, finishingHour, duration)|, duration);
  }

  /**
   * The slot count: as many whole slots as fit in the working hours, and a
   * trailing partial slot is dropped rather than shortened.
   */
  lemma SlotsCount(dayStart: int, startingHour: nat, finishingHour: nat, duration: nat)
    requires duration > 0
    ensures var n := |Slots(dayStart, startingHour, finishingHour, duration)|;
      && (n == 0 || startingHour * 60 + n * duration <= finishingHour * 60)
      && finishingHour * 60 < startingHour * 60 + (n + 1) * duration
      && n == (if startingHour <= finishingHour then (finishingHour - startingHour) * 60 / duration else 0)
  {
    var n := |Slots(dayStart, startingHour, finishingHour, duration)|;
    SlotsFromLength(dayStart, startingHour * 60, finishingHour * 60, duration);
    if startingHour <= finishingHour {
      var w := (finishingHour - startingHour) * 60;
      assert n * duration <= w < (n + 1) * duration;
      QuotientUnique(w, duration, n);
    }
  }

  /** The only `n` with `n * d <= w < (n + 1) * d` is `w / d`. */
  lemma QuotientUnique(w: nat, d: nat, n: nat)
    requires d > 0 && n * d <= w < (n + 1) * d
    ensures n == w / d
  {
    var q := w / d;
    assert q * d <= w < (q + 1) * d;
    if n < q {
      MulMonotone(n + 1, q, d);
    } else if n > q {
      MulMonotone(q + 1, n, d);
    }
  }

  /** Consecutive slots touch: each one finishes where the next one starts. */
  lemma SlotsContiguous(dayStart: int, startingHour: nat, finishingHour: nat, duration: nat, i: nat)
    requires duration > 0
    requires i + 1 < |Slots(dayStart, startingHour, finishingHour, duration)|
    ensures Slots(dayStart, startingHour, finishingHour, duration)[i].finishTime
         == Slots(dayStart, startingHour, finishingHour, duration)[i + 1].startTime
  {
    SlotsAt(dayStart, startingHour, finishingHour, duration, i);
    SlotsAt(dayStart, startingHour, finishingHour, duration, i + 1);
  }

  /** The first slot starts at the starting hour plus the offset. */
  lemma SlotsFirstStart(dayStart: int, startingHour: nat, finishingHour: nat, duration: nat)
    requires duration > 0
    requires |Slots(dayStart, startingHour, finishingHour, duration)| > 0
    ensures Slots(dayStart, startingHour, finishingHour, duration)[0].startTime
         == AtHour(dayStart, startingHour + DisplayOffsetHours)
  {
    SlotsAt(dayStart, startingHour, finishingHour, duration, 0);
  }

  /**
   * Every slot lies within the working hours shifted by the offset, and its
   * start does not come after its finish.
   */
  lemma SlotsWithinHours(dayStart: int, startingHour: nat, finishingHour: nat, duration: nat, i: nat)
    requires duration > 0
    requires i < |Slots(dayStart, startingHour, finishingHour, duration)|
    ensures var slot := Slots(dayStart, startingHour, finishingHour, duration)[i];
      && AtHour(dayStart, startingHour + DisplayOffsetHours) <= slot.startTime
      && slot.startTime <= slot.finishTime
      && slot.finishTime <= AtHour(dayStart, finishingHour + DisplayOffsetHours)
  {
    SlotsAt(dayStart, startingHour, finishingHour, duration, i);
    var s0 := startingHour * 60;
    var s := s0 + i * duration;
    var f := s + duration;
    assert f == s0 + (i + 1) * duration;
    assert startingHour <= s / 60 <= f / 60 <= finishingHour;
    AtHourMonotone(dayStart, startingHour + DisplayOffsetHours, s / 60 + DisplayOffsetHours);
    AtHourMonotone(dayStart, s / 60 + DisplayOffsetHours, f / 60 + DisplayOffsetHours);
    AtHourMonotone(dayStart, f / 60 + DisplayOffsetHours, finishingHour + DisplayOffsetHours);
  }

  /** Later slots never start earlier. */
  lemma SlotsNonDecreasing(dayStart: int, startingHour: nat, finishingHour: nat, duration: nat, i: nat, j: nat)
    requires duration > 0
    requires i <= j < |Slots(dayStart, startingHour, finishingHour, duration)|
    ensures Slots(dayStart, startingHour, finishingHour, duration)[i].startTime
         <= Slots(dayStart, startingHour, finishingHour, duration)[j].startTime
  {
    SlotsAt(dayStart, startingHour, finishingHour, duration, i);
    SlotsAt(dayStart, startingHour, finishingHour, duration, j);
    MulMonotone(i, j, duration);
    var si := startingHour * 60 + i * duration;
    var sj := startingHour * 60 + j * duration;
    assert si / 60 <= sj / 60;
    AtHourMonotone(dayStart, si / 60 + DisplayOffsetHours, sj / 60 + DisplayOffsetHours);
  }

  /** With a whole number of hours per slot, slot `k` starts `k` slot lengths after the first. */
  lemma WholeHourSlotAt(dayStart: int, startingHour: nat, finishingHour: nat, duration: nat, k: nat)
    requires duration > 0 && duration % 60 == 0
    requires k < |Slots(dayStart, startingHour, finishingHour, duration)|
    ensures var slot := Slots(dayStart, startingHour, finishingHour, duration)[k];
      && slot.startTime == AtHour(dayStart, startingHour + DisplayOffsetHours) + k * duration * MinuteMs
      && slot.finishTime == slot.startTime + duration * MinuteMs
  {
    SlotsAt(dayStart, startingHour, finishingHour, duration, k);
    var h := duration / 60;
    assert duration == 60 * h;
    assert k * duration == 60 * (k * h);
    assert (k + 1) * duration == 60 * (k * h + h);
    assert (startingHour * 60 + k * duration) / 60 == startingHour + k * h;
    assert (startingHour * 60 + (k + 1) * duration) / 60 == startingHour + k * h + h;
    assert k * h * HourMs == k * duration * MinuteMs;
    assert h * HourMs == duration * MinuteMs;
  }

  /**
   * With a whole number of hours per slot, every slot is exactly `duration`
   * minutes long and the slots are strictly increasing.
   */
  lemma WholeHourSlotsIncrease(dayStart: int, startingHour: nat, finishingHour: nat, duration: nat, i: nat, j: nat)
    requires duration > 0 && duration % 60 == 0
    requires i < j < |Slots(dayStart, startingHour, finishingHour, duration)|
    ensures Slots(dayStart, startingHour, finishingHour, duration)[i].finishTime
         - Slots(dayStart, startingHour, finishingHour, duration)[i].startTime == duration * MinuteMs
    ensures Slots(dayStart, startingHour, finishingHour, duration)[i].startTime
          < Slots(dayStart, startingHour, finishingHour, duration)[j].startTime
  {
    WholeHourSlotAt(dayStart, startingHour, finishingHour, duration, i);
    WholeHourSlotAt(dayStart, startingHour, finishingHour, duration, j);
    MulMonotone(i, j, duration * MinuteMs);
  }

  /** Every slot bound falls on a whole hour after the day's midnight. */
  lemma SlotOnTheHour(dayStart: int, startingHour: nat, finishingHour: nat, duration: nat, i: nat)
    requires duration > 0
    requires i < |Slots(dayStart, startingHour, finishingHour, duration)|
    ensures (Slots(dayStart, startingHour, finishingHour, duration)[i].startTime - dayStart) % HourMs == 0
    ensures (Slots(dayStart, startingHour, finishingHour, duration)[i].finishTime - dayStart) % HourMs == 0
  {
    SlotsAt(dayStart, startingHour, finishingHour, duration, i);
    AtHourOnTheHour(dayStart, (startingHour * 60 + i * duration) / 60 + DisplayOffsetHours);
    AtHourOnTheHour(dayStart, (startingHour * 60 + (i + 1) * duration) / 60 + DisplayOffsetHours);
  }

  /**
   * A doctor working "9-17" with one-hour appointments has eight slots,
   * from 15:00 to 23:00 on the target day.
   */
  lemma NineToFiveSlots(dayStart: int)
    ensures var slots := Slots(dayStart, 9, 17, 60);
      && |slots| == 8
      && slots[0].startTime == dayStart + 15 * HourMs
      && slots[7].finishTime == dayStart + 23 * HourMs
  {
    SlotsCount(dayStart, 9, 17, 60);
    SlotsAt(dayStart, 9, 17, 60, 0);
    SlotsAt(dayStart, 9, 17, 60, 7);
  }

  /**
   * Half-hour appointments: the truncated hour argument makes the first slot
   * of "9-10" zero-length, and both slots start at 15:00.
   */
  lemma HalfHourSlotsTruncate(dayStart: int)
    ensures Slots(dayStart, 9, 10, 30)
         == [TimeSlot(dayStart + 15 * HourMs, dayStart + 15 * HourMs),
             TimeSlot(dayStart + 15 * HourMs, dayStart + 16 * HourMs)]
  {
    assert SlotsFrom(dayStart, 600, 600, 30) == [];
    assert SlotsFrom(dayStart, 570, 600, 30) == [TimeSlot(dayStart + 15 * HourMs, dayStart + 16 * HourMs)];
  }

  /** Every slot starts on a whole hour of the day, 06:00 or later. */
  lemma SlotStartOnTheHour(dayStart: int, startingHour: nat, finishingHour: nat, duration: nat, i: nat)
    requires duration > 0
    requires i < |Slots(dayStart, startingHour, finishingHour, duration)|
    ensures var start := Slots(dayStart, startingHour, finishingHour, duration)[i].startTime;
      (start - dayStart) % HourMs == 0 && start >= dayStart + DisplayOffsetHours * HourMs
  {
    SlotOnTheHour(dayStart, startingHour, finishingHour, duration, i);
    SlotsAt(dayStart, startingHour, finishingHour, duration, i);
    var h := (startingHour * 60 + i * duration) / 60 + DisplayOffsetHours;
    AtHourMonotone(dayStart, DisplayOffsetHours, h);
  }
}
