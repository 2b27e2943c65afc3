/** What a table of alarms has done so far: a log of firings and, for each slot, the part
    of its history that the schedule of its next firing depends on. */
module AlarmHistory {
  import opened Schedule
  import opened TimeLib
  import opened Words
  import opened Wrappers

  /** One call of a handler. Each allocation of a slot has a serial number of its own. */
  datatype Firing = Firing(serial: nat, alarm: Alarm, armedAt: uint32, at: nat)

  /** The allocation in a slot: its serial number, when its trigger time was set, and the
      latest trigger time of its firings so far, or -1. */
  datatype Trace = Trace(serial: nat, armedAt: uint32, lastFired: int)

  /** The trigger time is one that the alarm's type and value call for. */
  ghost predicate OnSchedule(a: Alarm, armedAt: nat) {
    match a.alarmType
    case NotAllocated => false
    case Timer => a.nextTrigger == armedAt + a.value
    case ExplicitAlarm => a.nextTrigger == a.value
    case DailyAlarm => a.value <= SECS_PER_DAY ==> DailyInstant(a.value, a.nextTrigger)
    case WeeklyAlarm => a.value < SECS_PER_WEEK ==> WeeklyInstant(a.value, a.nextTrigger)
  }

  /** The trigger time is what the scheduler sets at armedAt for the alarm's type and value. */
  ghost predicate Armed(a: Alarm, armedAt: uint32) {
    && a.alarmType != NotAllocated
    && (IsAlarm(a.alarmType) ==> armedAt >= SECS_PER_YEAR)
    && a.nextTrigger == Updated(a.(isEnabled := true, nextTrigger := 0), armedAt).nextTrigger
  }

  ghost predicate SlotOk(a: Alarm, tr: Trace, clock: nat) {
    && (a.alarmType == NotAllocated ==>
          !a.isEnabled && a.handler == None && a.value == 0 && a.nextTrigger == 0)
    && (a.isEnabled ==> a.handler.Some? && (UsesAbsoluteValue(a.alarmType) ==> a.value != 0))
    && (a.isEnabled || a.nextTrigger != 0 ==>
          && Armed(a, tr.armedAt)
          && (Fits(a, tr.armedAt) ==> OnSchedule(a, tr.armedAt) && a.nextTrigger > tr.lastFired))
    && (IsAlarm(a.alarmType) ==> clock >= SECS_PER_YEAR)
    && (a.alarmType == ExplicitAlarm ==> a.isOneShot)
    && (a.alarmType != NotAllocated && a.isOneShot ==> tr.lastFired == -1)
    && tr.armedAt <= clock && tr.lastFired <= clock
  }

  /** A firing happened, with the handler set, no earlier than its trigger time, which is what
      the scheduler set at armedAt, and an instant of the schedule if the sums fitted then. */
  ghost predicate FiringOk(f: Firing, clock: nat) {
    && f.alarm.isEnabled && f.alarm.handler.Some? && f.alarm.nextTrigger <= f.at <= clock
    && f.armedAt <= f.at && Armed(f.alarm, f.armedAt)
    && (Fits(f.alarm, f.armedAt) ==> OnSchedule(f.alarm, f.armedAt))
  }

  /** Of two firings of one allocation, neither is a one-shot, and the later has the later
      scheduled instant if its sums fitted. */
  ghost predicate LogOrdered(log: seq<Firing>) {
    forall j, k | 0 <= j < k < |log| && log[j].serial == log[k].serial ::
      && !log[j].alarm.isOneShot && !log[k].alarm.isOneShot
      && (Fits(log[k].alarm, log[k].armedAt) ==> log[j].alarm.nextTrigger < log[k].alarm.nextTrigger)
  }

  datatype History = History(traces: seq<Trace>, log: seq<Firing>, clock: nat, nextSerial: nat)

  /** Earlier firings of the allocation in a slot. */
  ghost predicate SlotFits(a: Alarm, tr: Trace, log: seq<Firing>, nextSerial: nat) {
    && tr.serial < nextSerial
    && forall j | 0 <= j < |log| && log[j].serial == tr.serial ::
         !a.isOneShot && !log[j].alarm.isOneShot && log[j].alarm.nextTrigger <= tr.lastFired
  }

  ghost predicate Consistent(alarms: seq<Alarm>, h: History) {
    && |h.traces| == |alarms|
    && (forall i | 0 <= i < |alarms| :: SlotOk(alarms[i], h.traces[i], h.clock))
    && (forall i | 0 <= i < |alarms| && alarms[i].alarmType != NotAllocated ::
          SlotFits(alarms[i], h.traces[i], h.log, h.nextSerial))
    && (forall i, j | 0 <= i < j < |alarms|
          && alarms[i].alarmType != NotAllocated && alarms[j].alarmType != NotAllocated ::
          h.traces[i].serial != h.traces[j].serial)
    && (forall j | 0 <= j < |h.log| :: FiringOk(h.log[j], h.clock) && h.log[j].serial < h.nextSerial)
    && LogOrdered(h.log)
  }

  /** Letting time pass keeps everything. */
  lemma Later(alarms: seq<Alarm>, h: History, now: nat)
    requires Consistent(alarms, h) && h.clock <= now
    ensures Consistent(alarms, h.(clock := now))
  {}

  // ----- changing one slot -----

  /** What updateNextTrigger() makes of the trace of an alarm. */
  ghost function Rearmed(a: Alarm, tr: Trace, now: uint32): Trace {
    if a.isEnabled && (a.alarmType == Timer || (IsAlarm(a.alarmType) && a.nextTrigger <= now))
    then tr.(armedAt := now) else tr
  }

  /** An update that sets a trigger time whose sums fit puts the alarm on schedule, and
      strictly after now unless it is for an explicit instant. */
  lemma UpdatedOnSchedule(a: Alarm, now: uint32)
    requires a.isEnabled && a.alarmType != NotAllocated && Fits(a, now)
    requires IsAlarm(a.alarmType) ==> now >= SECS_PER_YEAR && a.nextTrigger <= now
    ensures OnSchedule(Updated(a, now), now)
    ensures a.alarmType != ExplicitAlarm && (a.alarmType == Timer ==> a.value != 0) ==>
              Updated(a, now).nextTrigger > now
  {
    if a.alarmType == Timer {
      Unwrapped(now + a.value);
    } else if a.alarmType == DailyAlarm {
      DailyOnSchedule(a, now);
    } else if a.alarmType == WeeklyAlarm {
      WeeklyOnSchedule(a, now);
    }
  }

  /** A trigger time that is set now is armed now; its sums fit as the type and value say. */
  lemma UpdatedArmed(a: Alarm, now: uint32)
    requires a.isEnabled && a.alarmType != NotAllocated
    requires IsAlarm(a.alarmType) ==> now >= SECS_PER_YEAR && a.nextTrigger <= now
    ensures Armed(Updated(a, now), now) && Fits(Updated(a, now), now) == Fits(a, now)
  {}

  /** Updating an alarm keeps its slot in order, whether its sums fit or not. */
  lemma UpdatedOk(a: Alarm, tr: Trace, now: uint32)
    requires a.isEnabled && a.alarmType != NotAllocated && a.handler.Some?
    requires IsAlarm(a.alarmType) ==> now >= SECS_PER_YEAR
    requires UsesAbsoluteValue(a.alarmType) ==> a.value != 0
    requires a.alarmType == ExplicitAlarm ==> a.isOneShot
    requires a.isOneShot ==> tr.lastFired == -1
    requires tr.armedAt <= now && tr.lastFired <= now
    requires a.nextTrigger > now ==>
               && Armed(a, tr.armedAt)
               && (Fits(a, tr.armedAt) ==> OnSchedule(a, tr.armedAt) && a.nextTrigger > tr.lastFired)
    ensures SlotOk(Updated(a, now), Rearmed(a, tr, now), now)
  {
    if a.alarmType == Timer || a.nextTrigger <= now {
      UpdatedArmed(a, now);
      if Fits(a, now) {
        UpdatedOnSchedule(a, now);
      }
    }
  }

  lemma DailyOnSchedule(a: Alarm, now: uint32)
    requires a.isEnabled && a.alarmType == DailyAlarm && a.nextTrigger <= now
    requires Fits(a, now) && now >= SECS_PER_YEAR
    ensures Updated(a, now).nextTrigger > now
    ensures DailyInstant(a.value, Updated(a, now).nextTrigger)
  {
    MidnightBounds(now, a.value);
    Unwrapped(a.value + PreviousMidnight(now));
    if a.value + PreviousMidnight(now) <= now {
      Unwrapped(a.value + NextMidnight(now));
    }
  }

  lemma WeeklyOnSchedule(a: Alarm, now: uint32)
    requires a.isEnabled && a.alarmType == WeeklyAlarm && a.nextTrigger <= now
    requires Fits(a, now) && now >= SECS_PER_YEAR
    ensures Updated(a, now).nextTrigger > now
    ensures a.value < SECS_PER_WEEK ==> WeeklyInstant(a.value, Updated(a, now).nextTrigger)
  {
    var s := SundayBefore(now);
    Unwrapped(a.value + s);
    if a.value + s <= now {
      Unwrapped(a.value + s + SECS_PER_WEEK);
    }
    if a.value < SECS_PER_WEEK {
      s := SundayOf(now, a.value);
    }
  }

  lemma SundayBefore(now: nat) returns (s: nat)
    requires now >= SECS_PER_WEEK
    ensures s == PreviousSunday(now) && s <= now < s + SECS_PER_WEEK
  {
    s := SundayOf(now, 0);
  }

  /** One slot changes, within the same allocation or by giving it up. */
  lemma Replaced(alarms: seq<Alarm>, h: History, i: nat, a: Alarm, tr: Trace, now: nat)
    requires Consistent(alarms, h) && i < |alarms| && h.clock <= now && SlotOk(a, tr, now)
    requires a.alarmType != NotAllocated ==>
               && alarms[i].alarmType != NotAllocated && a.isOneShot == alarms[i].isOneShot
               && tr.serial == h.traces[i].serial && tr.lastFired == h.traces[i].lastFired
    ensures Consistent(alarms[i := a], h.(traces := h.traces[i := tr], clock := now))
  {
    Later(alarms, h, now);
  }

  /** A free slot is given to a new allocation, which has fired nothing. */
  lemma Allocated(alarms: seq<Alarm>, h: History, i: nat, a: Alarm, tr: Trace, now: nat)
    requires Consistent(alarms, h) && i < |alarms| && h.clock <= now
    requires alarms[i].alarmType == NotAllocated && SlotOk(a, tr, now) && tr.serial == h.nextSerial
    ensures Consistent(alarms[i := a],
              h.(traces := h.traces[i := tr], clock := now, nextSerial := h.nextSerial + 1))
  {
    Later(alarms, h, now);
  }

  ghost function Latest(a: int, b: int): int {
    if a < b then b else a
  }

  ghost function FiringOf(a: Alarm, tr: Trace, at: nat): Firing {
    Firing(tr.serial, a, tr.armedAt, at)
  }

  /** A slot that is due fires: a one-shot is freed and any other alarm moves on. */
  lemma Fires(alarms: seq<Alarm>, h: History, i: nat, a: Alarm, tr: Trace, now: nat)
    requires Consistent(alarms, h) && i < |alarms| && h.clock <= now
    requires alarms[i].isEnabled && alarms[i].nextTrigger <= now && SlotOk(a, tr, now)
    requires if alarms[i].isOneShot then a.alarmType == NotAllocated
             else a.isOneShot == false && tr.serial == h.traces[i].serial
                  && tr.lastFired == Latest(h.traces[i].lastFired, alarms[i].nextTrigger)
    ensures Consistent(alarms[i := a], h.(traces := h.traces[i := tr], clock := now,
              log := h.log + [FiringOf(alarms[i], h.traces[i], now)]))
  {
    Later(alarms, h, now);
    var f := FiringOf(alarms[i], h.traces[i], now);
    var log := h.log + [f];
    assert alarms[i].alarmType != NotAllocated;
    forall j, k | 0 <= j < k < |log| && log[j].serial == log[k].serial
      ensures !log[j].alarm.isOneShot && !log[k].alarm.isOneShot
      ensures Fits(log[k].alarm, log[k].armedAt) ==> log[j].alarm.nextTrigger < log[k].alarm.nextTrigger
    {
      if k < |h.log| {
        assert h.log[j].serial == h.log[k].serial;
      }
    }
    var next := alarms[i := a];
    forall k | 0 <= k < |next| && next[k].alarmType != NotAllocated
      ensures SlotFits(next[k], h.traces[i := tr][k], log, h.nextSerial)
    {
      assert SlotFits(alarms[i], h.traces[i], h.log, h.nextSerial);
      if k != i {
        assert SlotFits(alarms[k], h.traces[k], h.log, h.nextSerial);
      }
    }
  }
}
