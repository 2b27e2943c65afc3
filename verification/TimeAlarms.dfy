/** TimeAlarmsClass of TimeAlarms.cpp: a table of alarm slots, kept in place, whose every
    operation keeps the promises of AlarmHistory. The clock is the argument `now`. */
module TimeAlarms {
  import opened AlarmHistory
  import opened Schedule
  import opened TimeLib
  import opened Words
  import opened Wrappers

  const INVALID_ALARM_ID: uint8 := 255

  // ----- one service pass, slot by slot -----

  predicate Due(a: Alarm, now: uint32) {
    a.isEnabled && now >= a.nextTrigger
  }

  /** free(): everything but the one-shot flag is cleared. */
  function Freed(a: Alarm): Alarm {
    if a.alarmType == NotAllocated then a
    else Alarm(None, 0, 0, NotAllocated, false, a.isOneShot)
  }

  /** enable() on an allocated slot. */
  function Enabled(a: Alarm, now: uint32): Alarm
    requires IsAlarm(a.alarmType) ==> now >= SECS_PER_WEEK
  {
    if a.alarmType == NotAllocated then a
    else if !(UsesAbsoluteValue(a.alarmType) && a.value == 0) && a.handler.Some? then
      Updated(a.(isEnabled := true), now)
    else a.(isEnabled := false)
  }

  /** An allocated alarm with a handler is enabled unless it is a timer or an explicit alarm
      of value zero: a daily or weekly one may be for midnight. */
  lemma EnabledExactly(a: Alarm, now: uint32)
    requires IsAlarm(a.alarmType) ==> now >= SECS_PER_WEEK
    ensures a.alarmType != NotAllocated ==>
              (Enabled(a, now).isEnabled <==>
                a.handler.Some? && (a.value != 0 || a.alarmType == DailyAlarm || a.alarmType == WeeklyAlarm))
  {}

  /** What a pass leaves in a slot. */
  function Serviced(a: Alarm, now: uint32): Alarm
    requires IsAlarm(a.alarmType) ==> now >= SECS_PER_WEEK
  {
    if !Due(a, now) then a else if a.isOneShot then Freed(a) else Updated(a, now)
  }

  /** The firings of a pass over the first n slots, in slot order. */
  ghost function Fired(alarms: seq<Alarm>, traces: seq<Trace>, times: seq<uint32>, n: nat): seq<Firing>
    requires n <= |alarms| && |traces| == |times| == |alarms|
  {
    if n == 0 then []
    else Fired(alarms, traces, times, n - 1) +
         if Due(alarms[n - 1], times[n - 1])
         then [FiringOf(alarms[n - 1], traces[n - 1], times[n - 1])]
         else []
  }

  /** What fires in such a pass is every enabled slot whose trigger time has come, and no
      other, in slot order. */
  lemma {:induction false} FiredExactly(alarms: seq<Alarm>, traces: seq<Trace>, times: seq<uint32>, n: nat)
      returns (ids: seq<nat>)
    requires n <= |alarms| && |traces| == |times| == |alarms|
    ensures |ids| == |Fired(alarms, traces, times, n)|
    ensures forall i | 0 <= i < n :: i in ids <==> alarms[i].isEnabled && alarms[i].nextTrigger <= times[i]
    ensures forall j, k | 0 <= j < k < |ids| :: ids[j] < ids[k]
    ensures forall k | 0 <= k < |ids| ::
              var i := ids[k];
              i < n && Fired(alarms, traces, times, n)[k] == FiringOf(alarms[i], traces[i], times[i])
  {
    ids := [];
    if n > 0 {
      ids := FiredExactly(alarms, traces, times, n - 1);
      if Due(alarms[n - 1], times[n - 1]) {
        ids := ids + [n - 1];
      }
    }
  }

  class TimeAlarmsClass {
    const slots: array<Alarm>
    var isServicing: bool
    var servicedAlarmId: nat
    ghost var history: History

    ghost predicate Valid()
      reads this, slots
    {
      slots.Length <= 255 && Consistent(slots[..], history)
    }

    constructor (n: nat)
      requires n <= 255
      ensures Valid() && fresh(slots) && slots.Length == n && !isServicing
      ensures forall i | 0 <= i < n :: slots[i] == CLEARED
      ensures history.log == [] && history.clock == 0
    {
      slots := new Alarm[n](_ => CLEARED);
      isServicing := false;
      servicedAlarmId := 0;
      history := History(seq(n, _ => Trace(0, 0, -1)), [], 0, 0);
    }

    predicate IsAllocated(id: nat)
      reads slots
    {
      id < slots.Length && slots[id].alarmType != NotAllocated
    }

    // ----- writes to the table -----

    method ClearSlot(id: nat)
      requires id < slots.Length
      modifies slots
      ensures slots[..] == old(slots[..])[id := Freed(old(slots[id]))]
    {
      if IsAllocated(id) {
        slots[id] := slots[id].(isEnabled := false);
        slots[id] := slots[id].(alarmType := NotAllocated);
        slots[id] := slots[id].(handler := None);
        slots[id] := slots[id].(value := 0);
        slots[id] := slots[id].(nextTrigger := 0);
      }
    }

    /** updateNextTrigger(), with the branches of the source. */
    method UpdateNextTrigger(id: nat, time: uint32)
      requires id < slots.Length && (IsAlarm(slots[id].alarmType) ==> time >= SECS_PER_WEEK)
      modifies slots
      ensures slots[..] == old(slots[..])[id := Updated(old(slots[id]), time)]
    {
      var a := slots[id];
      if a.isEnabled {
        if IsAlarm(a.alarmType) && a.nextTrigger <= time {
          if a.alarmType == ExplicitAlarm {
            slots[id] := a.(nextTrigger := a.value);
          } else if a.alarmType == DailyAlarm {
            if Wrap32(a.value + PreviousMidnight(time)) <= time {
              slots[id] := a.(nextTrigger := Wrap32(a.value + NextMidnight(time)));
            } else {
              slots[id] := a.(nextTrigger := Wrap32(a.value + PreviousMidnight(time)));
            }
          } else {
            if Wrap32(a.value + PreviousSunday(time)) <= time {
              slots[id] := a.(nextTrigger := Wrap32(a.value + NextSunday(time)));
            } else {
              slots[id] := a.(nextTrigger := Wrap32(a.value + PreviousSunday(time)));
            }
          }
        }
        if a.alarmType == Timer {
          slots[id] := slots[id].(nextTrigger := Wrap32(time + a.value));
        }
      }
    }

    method EnableSlot(id: nat, now: uint32)
      requires id < slots.Length && (IsAlarm(slots[id].alarmType) ==> now >= SECS_PER_WEEK)
      modifies slots
      ensures slots[..] == old(slots[..])[id := Enabled(old(slots[id]), now)]
    {
      if IsAllocated(id) {
        if !(UsesAbsoluteValue(slots[id].alarmType) && slots[id].value == 0) && slots[id].handler.Some? {
          slots[id] := slots[id].(isEnabled := true);
          UpdateNextTrigger(id, now);
        } else {
          slots[id] := slots[id].(isEnabled := false);
        }
      }
    }

    // ----- public operations -----

    method Free(id: uint8, now: uint32)
      requires Valid() && history.clock <= now
      modifies slots, `history
      ensures Valid() && history == old(history).(clock := now)
      ensures slots[..] ==
              if id < slots.Length then old(slots[..])[id := Freed(old(slots[..])[id])] else old(slots[..])
    {
      Later(slots[..], history, now);
      if id < slots.Length {
        var a := Freed(slots[id]);
        Replaced(slots[..], history, id, a, history.traces[id], now);
        ClearSlot(id);
        assert history.traces[id := history.traces[id]] == history.traces;
      }
      history := history.(clock := now);
    }

    method Disable(id: uint8, now: uint32)
      requires Valid() && history.clock <= now
      modifies slots, `history
      ensures Valid() && history == old(history).(clock := now)
      ensures slots[..] ==
              if old(IsAllocated(id)) then old(slots[..])[id := old(slots[..])[id].(isEnabled := false)]
              else old(slots[..])
    {
      Later(slots[..], history, now);
      if IsAllocated(id) {
        Replaced(slots[..], history, id, slots[id].(isEnabled := false), history.traces[id], now);
        slots[id] := slots[id].(isEnabled := false);
        assert history.traces[id := history.traces[id]] == history.traces;
      }
      history := history.(clock := now);
    }

    method Enable(id: uint8, now: uint32)
      requires Valid() && history.clock <= now
      modifies slots, `history
      ensures Valid()
      ensures history == old(history).(clock := now, traces := history.traces)
      ensures history.traces ==
              if old(IsAllocated(id))
              then old(history.traces)[id := EnabledTrace(old(slots[..])[id], old(history.traces)[id], now)]
              else old(history.traces)
      ensures slots[..] ==
              if old(IsAllocated(id)) then old(slots[..])[id := Enabled(old(slots[..])[id], now)]
              else old(slots[..])
    {
      Later(slots[..], history, now);
      history := history.(clock := now);
      if IsAllocated(id) {
        ghost var a, tr := Enabled(slots[id], now), EnabledTrace(slots[id], history.traces[id], now);
        EnabledOk(slots[id], history.traces[id], now);
        Replaced(slots[..], history, id, a, tr, now);
        EnableSlot(id, now);
        history := history.(traces := history.traces[id := tr]);
      }
    }

    /** write(): the old trigger time is dropped, so the alarm is set afresh. */
    method Write(id: uint8, value: uint32, now: uint32)
      requires Valid() && history.clock <= now
      modifies slots, `history
      ensures Valid()
      ensures history == old(history).(clock := now, traces := history.traces)
      ensures history.traces ==
              if old(IsAllocated(id))
              then var a := old(slots[..])[id].(value := value, nextTrigger := 0);
                   old(history.traces)[id := EnabledTrace(a, old(history.traces)[id], now)]
              else old(history.traces)
      ensures slots[..] ==
              if old(IsAllocated(id))
              then old(slots[..])[id := Enabled(old(slots[..])[id].(value := value, nextTrigger := 0), now)]
              else old(slots[..])
    {
      Later(slots[..], history, now);
      history := history.(clock := now);
      if IsAllocated(id) {
        ghost var before := slots[..];
        ghost var a := slots[id].(value := value, nextTrigger := 0);
        ghost var tr := EnabledTrace(a, history.traces[id], now);
        EnabledOk(a, history.traces[id], now);
        Replaced(slots[..], history, id, Enabled(a, now), tr, now);
        slots[id] := slots[id].(value := value);
        slots[id] := slots[id].(nextTrigger := 0);
        EnableSlot(id, now);
        assert slots[..] == before[id := Enabled(a, now)];
        history := history.(traces := history.traces[id := tr]);
      }
    }

    /** create(): refuses a time-based alarm before 1971 and an empty delay or date; takes
        the first free slot, if there is one, for an allocation with no past. */
    method Create(value: uint32, handler: Option<nat>, isOneShot: bool, alarmType: AlarmType, now: uint32)
        returns (id: uint8)
      requires Valid() && history.clock <= now && alarmType != NotAllocated
      requires alarmType == ExplicitAlarm ==> isOneShot
      modifies slots, `history
      ensures Valid()
      ensures id == INVALID_ALARM_ID <==>
              || (alarmType != Timer && now < 31449600)
              || (value == 0 && alarmType != DailyAlarm && alarmType != WeeklyAlarm)
              || forall i | 0 <= i < slots.Length :: old(slots[..])[i].alarmType != NotAllocated
      ensures id == INVALID_ALARM_ID ==> slots[..] == old(slots[..]) && history == old(history).(clock := now)
      ensures id != INVALID_ALARM_ID ==>
                && id < slots.Length && old(slots[..])[id].alarmType == NotAllocated
                && (forall i | 0 <= i < id :: old(slots[..])[i].alarmType != NotAllocated)
                && slots[..] == old(slots[..])[id :=
                     Enabled(Alarm(handler, value, 0, alarmType, false, isOneShot), now)]
                && history == NewAllocation(old(history).(clock := now), id,
                     EnabledTrace(Alarm(handler, value, 0, alarmType, false, isOneShot),
                                  Trace(old(history.nextSerial), 0, -1), now))
    {
      Later(slots[..], history, now);
      history := history.(clock := now);
      id := INVALID_ALARM_ID;
      if !((IsAlarm(alarmType) && now < SECS_PER_YEAR) || (UsesAbsoluteValue(alarmType) && value == 0)) {
        for k := 0 to slots.Length
          invariant slots[..] == old(slots[..]) && history == old(history).(clock := now)
          invariant forall i | 0 <= i < k :: old(slots[..])[i].alarmType != NotAllocated
        {
          assert slots[k] == old(slots[..])[k];
          if slots[k].alarmType == NotAllocated {
            FillSlot(k, value, handler, isOneShot, alarmType, now);
            return k;
          }
        }
      }
    }

    /** The assignments of create(); the others of a free slot are as they were left. */
    method WriteSlot(id: nat, value: uint32, handler: Option<nat>, isOneShot: bool, alarmType: AlarmType)
      requires id < slots.Length
      modifies slots
      ensures slots[..] == old(slots[..])[id := old(slots[id]).(handler := handler, isOneShot := isOneShot,
                                                                alarmType := alarmType, value := value)]
    {
      slots[id] := slots[id].(handler := handler);
      slots[id] := slots[id].(isOneShot := isOneShot);
      slots[id] := slots[id].(alarmType := alarmType);
      slots[id] := slots[id].(value := value);
    }

    method FillSlot(id: nat, value: uint32, handler: Option<nat>, isOneShot: bool, alarmType: AlarmType,
                    now: uint32)
      requires Valid() && history.clock == now && alarmType != NotAllocated
      requires alarmType == ExplicitAlarm ==> isOneShot
      requires id < slots.Length && slots[id].alarmType == NotAllocated
      requires IsAlarm(alarmType) ==> now >= SECS_PER_YEAR
      modifies slots, `history
      ensures Valid()
      ensures slots[..] ==
              old(slots[..])[id := Enabled(Alarm(handler, value, 0, alarmType, false, isOneShot), now)]
      ensures history == NewAllocation(old(history), id,
                EnabledTrace(Alarm(handler, value, 0, alarmType, false, isOneShot),
                             Trace(old(history.nextSerial), 0, -1), now))
    {
      ghost var before := slots[..];
      ghost var a := Alarm(handler, value, 0, alarmType, false, isOneShot);
      ghost var tr := EnabledTrace(a, Trace(history.nextSerial, 0, -1), now);
      assert SlotOk(before[id], history.traces[id], now);
      EnabledOk(a, Trace(history.nextSerial, 0, -1), now);
      Allocated(slots[..], history, id, Enabled(a, now), tr, now);
      WriteSlot(id, value, handler, isOneShot, alarmType);
      assert slots[id] == a;
      EnableSlot(id, now);
      assert slots[..] == before[id := Enabled(a, now)];
      history := NewAllocation(history, id, tr);
    }

    /** One slot of the service pass. */
    method ServiceSlot(id: nat, now: uint32)
      requires Valid() && id < slots.Length && history.clock <= now
      modifies slots, `history
      ensures Valid() && history.clock == now && history.nextSerial == old(history.nextSerial)
      ensures history.traces ==
              old(history.traces)[id := FiredTrace(old(slots[..])[id], old(history.traces)[id], now)]
      ensures slots[..] == old(slots[..])[id := Serviced(old(slots[..])[id], now)]
      ensures Fits(old(slots[id]), now) ==> !Due(slots[id], now)
      ensures history.log == old(history.log) +
              if Due(old(slots[id]), now)
              then [FiringOf(old(slots[id]), old(history.traces)[id], now)]
              else []
    {
      ghost var a, tr := slots[id], history.traces[id];
      ghost var before := slots[..];
      ghost var tr' := FiredTrace(a, tr, now);
      assert SlotOk(before[id], tr, history.clock);
      ServicedOk(a, tr, history.clock, now);
      if Due(a, now) {
        Fires(before, history, id, Serviced(a, now), tr', now);
        history := history.(traces := history.traces[id := tr'], clock := now,
                            log := history.log + [FiringOf(a, tr, now)]);
      } else {
        Later(before, history, now);
        history := history.(clock := now);
        assert history.traces[id := tr'] == history.traces;
      }
      if slots[id].isEnabled && now >= slots[id].nextTrigger {
        if slots[id].isOneShot {
          ClearSlot(id);
        } else {
          UpdateNextTrigger(id, now);
        }
      }
      assert slots[..] == before[id := Serviced(a, now)];
    }

    /** Where a pass over the table stands after its first n slots. */
    ghost predicate Passing(alarms: seq<Alarm>, start: History, times: seq<uint32>, n: nat)
      reads this, slots
    {
      && Valid() && n <= slots.Length == |alarms| == |times| == |start.traces|
      && (forall i, j | 0 <= i <= j < |times| :: times[i] <= times[j])
      && (forall i | n <= i < |times| :: history.clock <= times[i] && slots[i] == alarms[i])
      && (forall i | 0 <= i < n ::
            && (IsAlarm(alarms[i].alarmType) ==> times[i] >= SECS_PER_WEEK)
            && slots[i] == Serviced(alarms[i], times[i])
            && history.traces[i] == FiredTrace(alarms[i], start.traces[i], times[i])
            && (Fits(alarms[i], times[i]) ==> !Due(slots[i], times[i])))
      && history.traces[n..] == start.traces[n..]
      && history.clock == (if n == 0 then start.clock else times[n - 1]) && history.nextSerial == start.nextSerial
      && history.log == start.log + Fired(alarms, start.traces, times, n)
    }

    method PassSlot(ghost alarms: seq<Alarm>, ghost start: History, times: seq<uint32>, n: nat)
      requires Passing(alarms, start, times, n) && n < slots.Length
      modifies slots, `history
      ensures Passing(alarms, start, times, n + 1)
    {
      ghost var before, traces := slots[..], history.traces;
      assert traces[n] == traces[n..][0] == start.traces[n];
      assert SlotOk(before[n], traces[n], history.clock);
      ServiceSlot(n, times[n]);
      assert slots[n] == slots[..][n];
      assert forall i | 0 <= i < slots.Length && i != n :: slots[i] == slots[..][i] == before[i];
      assert history.traces[n + 1..] == traces[n..][1..];
    }

    lemma PassBegins(times: seq<uint32>)
      requires Valid() && |times| == slots.Length
      requires forall i | 0 <= i < |times| :: history.clock <= times[i]
      requires forall i, j | 0 <= i <= j < |times| :: times[i] <= times[j]
      ensures Passing(slots[..], history, times, 0)
    {}

    /** serviceAlarms(), with slot i examined when the clock reads times[i] and handlers
        that leave the table alone: exactly the slots that are due fire, once each and in
        order; one-shots are freed; afterwards no slot is due whose sums fit. A nested call
        does nothing. */
    method ServiceAlarms(times: seq<uint32>)
      requires Valid() && |times| == slots.Length
      requires forall i | 0 <= i < |times| :: history.clock <= times[i]
      requires forall i, j | 0 <= i <= j < |times| :: times[i] <= times[j]
      modifies this, slots
      ensures Valid() && isServicing == old(isServicing)
      ensures old(isServicing) ==> slots[..] == old(slots[..]) && history == old(history)
      ensures !old(isServicing) ==> Passing(old(slots[..]), old(history), times, slots.Length)
    {
      if !isServicing {
        isServicing := true;
        servicedAlarmId := 0;
        ghost var alarms, start := slots[..], history;
        PassBegins(times);
        while servicedAlarmId < slots.Length
          invariant isServicing && Passing(alarms, start, times, servicedAlarmId)
        {
          PassSlot(alarms, start, times, servicedAlarmId);
          servicedAlarmId := servicedAlarmId + 1;
        }
        isServicing := false;
      }
    }
  }

  /** The history of a slot after a pass. */
  ghost function FiredTrace(a: Alarm, tr: Trace, now: uint32): Trace
    requires IsAlarm(a.alarmType) ==> now >= SECS_PER_WEEK
  {
    if !Due(a, now) then tr
    else if a.isOneShot then Trace(tr.serial, 0, -1)
    else Rearmed(a, tr, now).(lastFired := Latest(tr.lastFired, a.nextTrigger))
  }

  /** Firing moves every repeating alarm whose sums fit past the present. */
  lemma ServicedOk(a: Alarm, tr: Trace, clock: nat, now: uint32)
    requires SlotOk(a, tr, clock) && clock <= now
    ensures SlotOk(Serviced(a, now), FiredTrace(a, tr, now), now)
    ensures Fits(a, now) ==> !Due(Serviced(a, now), now)
  {
    if Due(a, now) && !a.isOneShot {
      var latest := tr.(lastFired := Latest(tr.lastFired, a.nextTrigger));
      UpdatedOk(a, latest, now);
      assert Rearmed(a, latest, now) == FiredTrace(a, tr, now);
      if Fits(a, now) {
        UpdatedOnSchedule(a, now);
      }
    }
  }

  /** The values that the public calls let through, for alarms that repeat. */
  predicate InRange(a: Alarm) {
    match a.alarmType
    case Timer => a.value != 0
    case DailyAlarm => a.value <= SECS_PER_DAY
    case WeeklyAlarm => a.value < SECS_PER_WEEK
    case _ => false
  }

  /** A repeating alarm that has fired is due again at once exactly if its sums do not fit. */
  lemma StillDue(a: Alarm, now: uint32)
    requires Due(a, now) && !a.isOneShot && InRange(a) && (IsAlarm(a.alarmType) ==> now >= SECS_PER_YEAR)
    ensures Due(Serviced(a, now), now) <==> !Fits(a, now)
  {
    match a.alarmType
    case Timer => TimerIsExact(a, now);
    case DailyAlarm =>
      var midnight := MidnightOf(now);
      NextFits(a.value, midnight, now, SECS_PER_DAY);
    case WeeklyAlarm =>
      var s := SundayOf(now, a.value);
      NextFits(a.value, s, now, SECS_PER_WEEK);
    case _ =>
  }

  /** A new allocation in slot i. */
  ghost function NewAllocation(h: History, i: nat, tr: Trace): History
    requires i < |h.traces|
  {
    h.(traces := h.traces[i := tr], nextSerial := h.nextSerial + 1)
  }

  /** The history of a slot that is enabled. */
  ghost function EnabledTrace(a: Alarm, tr: Trace, now: uint32): Trace {
    if !(UsesAbsoluteValue(a.alarmType) && a.value == 0) && a.handler.Some?
    then Rearmed(a.(isEnabled := true), tr, now) else tr
  }

  /** What enable() may start from: a trigger time of zero, or one that was set before. */
  ghost predicate Enableable(a: Alarm, tr: Trace, now: uint32) {
    && a.alarmType != NotAllocated
    && (a.nextTrigger != 0 ==>
          && Armed(a, tr.armedAt)
          && (Fits(a, tr.armedAt) ==> OnSchedule(a, tr.armedAt) && a.nextTrigger > tr.lastFired))
    && (IsAlarm(a.alarmType) ==> now >= SECS_PER_YEAR)
    && (a.alarmType == ExplicitAlarm ==> a.isOneShot)
    && (a.isOneShot ==> tr.lastFired == -1)
    && tr.armedAt <= now && tr.lastFired <= now
  }

  lemma EnabledOk(a: Alarm, tr: Trace, now: uint32)
    requires Enableable(a, tr, now)
    ensures SlotOk(Enabled(a, now), EnabledTrace(a, tr, now), now)
  {
    if !(UsesAbsoluteValue(a.alarmType) && a.value == 0) && a.handler.Some? {
      UpdatedOk(a.(isEnabled := true), tr, now);
    }
  }

  // ----- runs -----

  /** A step of a run: a call of the table with the clock that it reads, or a service pass
      with a reading for each slot. */
  datatype Step =
    | Creating(value: uint32, handler: Option<nat>, isOneShot: bool, alarmType: AlarmType, now: uint32)
    | Writing(id: uint8, value: uint32, now: uint32)
    | Enabling(id: uint8, now: uint32)
    | Disabling(id: uint8, now: uint32)
    | Freeing(id: uint8, now: uint32)
    | Pass(times: seq<uint32>)

  /** The clock does not go back within a step after `clock`, and the arguments are as the
      public calls pass them. */
  predicate Follows(step: Step, clock: nat, n: nat) {
    match step
    case Creating(_, _, isOneShot, alarmType, now) =>
      clock <= now && alarmType != NotAllocated && (alarmType == ExplicitAlarm ==> isOneShot)
    case Pass(times) =>
      && |times| == n
      && (forall i | 0 <= i < n :: clock <= times[i])
      && (forall i, j | 0 <= i <= j < n :: times[i] <= times[j])
    case _ => clock <= step.now
  }

  /** The clock after a step. */
  function ClockAfter(step: Step, clock: nat): nat {
    if !step.Pass? then step.now else if step.times == [] then clock else step.times[|step.times| - 1]
  }

  predicate InTime(steps: seq<Step>, clock: nat, n: nat) {
    steps == [] || (Follows(steps[0], clock, n) && InTime(steps[1..], ClockAfter(steps[0], clock), n))
  }

  /** What a step does to the table: the one slot that it names, or the first free one, or in a
      pass every slot; and only a pass calls handlers, those of the slots that are due. */
  ghost predicate Changed(before: seq<Alarm>, h: History, step: Step, after: seq<Alarm>, log: seq<Firing>)
    requires |h.traces| == |before|
  {
    match step
    case Creating(value, handler, isOneShot, alarmType, now) =>
      && log == h.log
      && if alarmType != Timer && now < 31449600 then after == before
         else if value == 0 && alarmType != DailyAlarm && alarmType != WeeklyAlarm then after == before
         else PutInFirstFree(before, Enabled(Alarm(handler, value, 0, alarmType, false, isOneShot), now), after)
    case Writing(id, value, now) =>
      && log == h.log
      && if id >= |before| || before[id].alarmType == NotAllocated then after == before
         else EnabledAt(before, id, before[id].(value := value, nextTrigger := 0), now, after)
    case Enabling(id, now) =>
      && log == h.log
      && if id >= |before| || before[id].alarmType == NotAllocated then after == before
         else EnabledAt(before, id, before[id], now, after)
    case Disabling(id, _) =>
      && log == h.log
      && if id >= |before| || before[id].alarmType == NotAllocated then after == before
         else after == before[id := before[id].(isEnabled := false)]
    case Freeing(id, _) =>
      && log == h.log
      && if id >= |before| then after == before else after == before[id := Freed(before[id])]
    case Pass(times) =>
      && |times| == |after| == |before| && log == h.log + Fired(before, h.traces, times, |before|)
      && forall i | 0 <= i < |before| ::
           && (IsAlarm(before[i].alarmType) ==> times[i] >= SECS_PER_WEEK)
           && after[i] == Serviced(before[i], times[i])
  }

  ghost predicate PutInFirstFree(before: seq<Alarm>, a: Alarm, after: seq<Alarm>) {
    if forall i | 0 <= i < |before| :: before[i].alarmType != NotAllocated then after == before
    else exists id | 0 <= id < |before| ::
           && before[id].alarmType == NotAllocated && after == before[id := a]
           && forall i | 0 <= i < id :: before[i].alarmType != NotAllocated
  }

  ghost predicate EnabledAt(before: seq<Alarm>, id: nat, a: Alarm, now: uint32, after: seq<Alarm>)
    requires id < |before|
  {
    (IsAlarm(a.alarmType) ==> now >= SECS_PER_WEEK) && after == before[id := Enabled(a, now)]
  }

  /** The table between two steps of a run. */
  datatype Snapshot = Snapshot(alarms: seq<Alarm>, history: History)

  /** From an empty table of n slots, each step changes the table as it should. */
  ghost predicate Runs(n: nat, steps: seq<Step>, tables: seq<Snapshot>) {
    && |tables| == |steps| + 1 && tables[0].alarms == seq(n, _ => CLEARED) && tables[0].history.log == []
    && (forall k | 0 <= k < |tables| :: |tables[k].history.traces| == |tables[k].alarms| == n)
    && (forall k | 0 <= k < |steps| ::
          Changed(tables[k].alarms, tables[k].history, steps[k], tables[k + 1].alarms, tables[k + 1].history.log))
  }

  lemma RunsOn(n: nat, steps: seq<Step>, k: nat, tables: seq<Snapshot>, next: Snapshot)
    requires k < |steps| && Runs(n, steps[..k], tables) && |next.history.traces| == |next.alarms| == n
    requires Changed(tables[k].alarms, tables[k].history, steps[k], next.alarms, next.history.log)
    ensures Runs(n, steps[..k + 1], tables + [next])
  {
    var more := tables + [next];
    forall j | 0 <= j < k + 1
      ensures Changed(more[j].alarms, more[j].history, steps[j], more[j + 1].alarms, more[j + 1].history.log)
    {
      assert j < k ==> steps[j] == steps[..k][j] && more[j] == tables[j] && more[j + 1] == tables[j + 1];
    }
  }

  /** Any run from an empty table of n slots, with a clock that does not go back: whatever the
      alarms and their values, every handler call of the run happened no earlier than a
      trigger time that the scheduler had set, one-shots fired at most once, and of two
      firings of one alarm the later has the later trigger time if its sums fitted. */
  method Run(n: nat, steps: seq<Step>) returns (table: TimeAlarmsClass, ghost tables: seq<Snapshot>)
    requires n <= 255 && InTime(steps, 0, n)
    ensures table.Valid() && !table.isServicing && table.slots.Length == n
    ensures Runs(n, steps, tables) && tables[|steps|] == Snapshot(table.slots[..], table.history)
    ensures LogOrdered(table.history.log)
    ensures forall k | 0 <= k < |table.history.log| :: FiringOk(table.history.log[k], table.history.clock)
    ensures table.history.clock < B32
  {
    table := new TimeAlarmsClass(n);
    tables := [Snapshot(table.slots[..], table.history)];
    for k := 0 to |steps|
      invariant table.Valid() && fresh(table) && fresh(table.slots)
      invariant !table.isServicing && table.slots.Length == n
      invariant table.history.clock < B32 && InTime(steps[k..], table.history.clock, n)
      invariant Runs(n, steps[..k], tables) && tables[k] == Snapshot(table.slots[..], table.history)
    {
      assert steps[k..][0] == steps[k] && steps[k..][1..] == steps[k + 1..];
      TakeStep(table, steps[k]);
      ghost var next := Snapshot(table.slots[..], table.history);
      RunsOn(n, steps, k, tables, next);
      tables := tables + [next];
    }
    assert steps[..|steps|] == steps;
  }

  method TakeStep(table: TimeAlarmsClass, step: Step)
    requires table.Valid() && !table.isServicing
    requires table.history.clock < B32 && Follows(step, table.history.clock, table.slots.Length)
    modifies table, table.slots
    ensures table.Valid() && !table.isServicing
    ensures table.history.clock == ClockAfter(step, old(table.history.clock)) < B32
    ensures Changed(old(table.slots[..]), old(table.history), step, table.slots[..], table.history.log)
  {
    match step
    case Creating(value, handler, isOneShot, alarmType, now) =>
      var id := table.Create(value, handler, isOneShot, alarmType, now);
    case Writing(id, value, now) =>
      table.Write(id, value, now);
    case Enabling(id, now) =>
      table.Enable(id, now);
    case Disabling(id, now) =>
      table.Disable(id, now);
    case Freeing(id, now) =>
      table.Free(id, now);
    case Pass(times) =>
      table.ServiceAlarms(times);
  }

  /** A timer that has fired was early exactly if its sum did not fit when it was armed. */
  lemma TimerEarlyExactly(f: Firing, clock: nat)
    requires FiringOk(f, clock) && clock < B32 && f.alarm.alarmType == Timer
    ensures f.at < f.armedAt + f.alarm.value <==> !Fits(f.alarm, f.armedAt)
  {
    TimerIsExact(f.alarm.(isEnabled := true, nextTrigger := 0), f.armedAt);
  }

  /** A daily alarm at one in the morning, over two nights: both firings are of one
      allocation, with sums that fit, and a day apart. */
  method TwoNights() returns (table: TimeAlarmsClass)
    ensures |table.history.log| == 2
    ensures var f, g := table.history.log[0], table.history.log[1];
            && f.serial == g.serial && Fits(f.alarm, f.armedAt) && Fits(g.alarm, g.armedAt)
            && f.alarm.alarmType == g.alarm.alarmType == DailyAlarm
            && f.at == f.alarm.nextTrigger == 1700010000 && g.at == g.alarm.nextTrigger == f.at + SECS_PER_DAY
  {
    table := new TimeAlarmsClass(1);
    var id := table.Create(3600, Some(0), false, DailyAlarm, 1700000000);
    ghost var a := Alarm(Some(0), 3600, 1700010000, DailyAlarm, true, false);
    assert table.slots[0] == table.slots[..][0] == a;
    ServeOne(table, a, 1700010000);
    ghost var b := a.(nextTrigger := 1700096400);
    assert Serviced(a, 1700010000) == b;
    ServeOne(table, b, 1700096400);
  }

  /** A pass over a table of one slot whose repeating alarm is due. */
  method ServeOne(table: TimeAlarmsClass, ghost a: Alarm, now: uint32)
    requires table.Valid() && !table.isServicing && table.slots.Length == 1 && table.slots[0] == a
    requires table.history.clock <= now && now >= SECS_PER_YEAR && Due(a, now) && !a.isOneShot
    modifies table, table.slots
    ensures table.Valid() && !table.isServicing && table.slots[0] == Serviced(a, now)
    ensures table.history.clock == now
    ensures table.history.traces[0] == FiredTrace(a, old(table.history.traces[0]), now)
    ensures table.history.log == old(table.history.log) + [FiringOf(a, old(table.history.traces[0]), now)]
  {
    ghost var alarms, traces := table.slots[..], table.history.traces;
    table.ServiceAlarms([now]);
    assert Fired(alarms, traces, [now], 1) == Fired(alarms, traces, [now], 0) + [FiringOf(alarms[0], traces[0], now)];
  }

  /** A timer of 2^32 - 1 seconds, set late in 2023, goes off in the same second. */
  method EarlyTimer() returns (table: TimeAlarmsClass)
    ensures |table.history.log| == 1
    ensures var f := table.history.log[0];
            f.alarm.alarmType == Timer && f.armedAt == f.at == 1700000000 && f.at < f.armedAt + f.alarm.value
  {
    var now: uint32 := 1700000000;
    table := new TimeAlarmsClass(1);
    ghost var a := Alarm(Some(0), 0xFFFF_FFFF, 0, Timer, false, true);
    var id := table.Create(0xFFFF_FFFF, Some(0), true, Timer, now);
    assert table.slots[0] == table.slots[..][0] == Enabled(a, now);
    TimerIsExact(a.(isEnabled := true), now);
    ghost var alarms, traces := table.slots[..], table.history.traces;
    table.ServiceAlarms([now]);
    assert Fired(alarms, traces, [now], 1) == Fired(alarms, traces, [now], 0) + [FiringOf(alarms[0], traces[0], now)];
  }
}
