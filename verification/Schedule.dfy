/** One alarm of TimeAlarms: when it is next due, and what its schedule promises. */
module Schedule {
  import opened TimeLib
  import opened Words
  import opened Wrappers

  datatype AlarmType = NotAllocated | Timer | ExplicitAlarm | DailyAlarm | WeeklyAlarm

  /** AlarmClass; the handler is a function pointer that may be null. */
  datatype Alarm = Alarm(
    handler: Option<nat>,
    value: uint32,
    nextTrigger: uint32,
    alarmType: AlarmType,
    isEnabled: bool,
    isOneShot: bool)

  const CLEARED: Alarm := Alarm(None, 0, 0, NotAllocated, false, false)

  /** dtIsAlarm: triggered by a time of day or date, not by a delay. */
  predicate IsAlarm(t: AlarmType) {
    t == ExplicitAlarm || t == DailyAlarm || t == WeeklyAlarm
  }

  /** dtUseAbsoluteValue: a value of zero means nothing. */
  predicate UsesAbsoluteValue(t: AlarmType) {
    t == Timer || t == ExplicitAlarm
  }

  /** updateNextTrigger with the clock at `now`, in 32-bit arithmetic. */
  function Updated(a: Alarm, now: uint32): Alarm
    requires IsAlarm(a.alarmType) ==> now >= SECS_PER_WEEK
  {
    if !a.isEnabled then a
    else if IsAlarm(a.alarmType) && a.nextTrigger <= now then
      if a.alarmType == ExplicitAlarm then a.(nextTrigger := a.value)
      else if a.alarmType == DailyAlarm then
        if Wrap32(a.value + PreviousMidnight(now)) <= now then
          a.(nextTrigger := Wrap32(a.value + NextMidnight(now)))
        else a.(nextTrigger := Wrap32(a.value + PreviousMidnight(now)))
      else
        if Wrap32(a.value + PreviousSunday(now)) <= now then
          a.(nextTrigger := Wrap32(a.value + NextSunday(now)))
        else a.(nextTrigger := Wrap32(a.value + PreviousSunday(now)))
    else if a.alarmType == Timer then a.(nextTrigger := Wrap32(now + a.value))
    else a
  }

  /** No sum that the scheduler forms for a due alarm of this type leaves 32 bits: that of
      today or this week and, if that has passed, that of tomorrow or next week. */
  predicate Fits(a: Alarm, now: uint32) {
    match a.alarmType
    case NotAllocated => true
    case ExplicitAlarm => true
    case Timer => now + a.value < B32
    case DailyAlarm => SumFits(a.value, PreviousMidnight(now), now, SECS_PER_DAY)
    case WeeklyAlarm => now >= SECS_PER_WEEK ==> SumFits(a.value, PreviousSunday(now), now, SECS_PER_WEEK)
  }

  predicate SumFits(value: uint32, start: nat, now: uint32, period: nat) {
    var first := value + start;
    (if first <= now then first + period else first) < B32
  }

  /** t is an instant that a daily alarm of this value asks for. */
  predicate DailyInstant(value: uint32, t: nat) {
    t % SECS_PER_DAY == value % SECS_PER_DAY
  }

  /** t is an instant that a weekly alarm of this value asks for. */
  predicate WeeklyInstant(value: uint32, t: nat) {
    ElapsedSecsThisWeek(t) == value
  }

  lemma Unwrapped(x: nat)
    requires x < B32
    ensures Wrap32(x) == x
  {}

  lemma MidnightBounds(now: nat, value: nat)
    ensures PreviousMidnight(now) <= now < NextMidnight(now)
    ensures (value + PreviousMidnight(now)) % SECS_PER_DAY == value % SECS_PER_DAY
    ensures (value + NextMidnight(now)) % SECS_PER_DAY == value % SECS_PER_DAY
  {
    var k := now / SECS_PER_DAY;
    DayTurns(value, k);
    DayTurns(value, k + 1);
  }

  lemma {:induction false} DayTurns(x: nat, k: nat)
    ensures (x + k * SECS_PER_DAY) % SECS_PER_DAY == x % SECS_PER_DAY
  {
    if k > 0 {
      DayTurns(x, k - 1);
      assert x + k * SECS_PER_DAY == (x + (k - 1) * SECS_PER_DAY) + SECS_PER_DAY;
    }
  }

  /** The least instant after now that a daily alarm of this value asks for. */
  ghost predicate LeastDaily(value: uint32, now: uint32, next: nat) {
    && next > now && DailyInstant(value, next)
    && forall t: nat | t > now && DailyInstant(value, t) :: next <= t
  }

  /** The least instant after now that a weekly alarm of this value asks for. */
  ghost predicate LeastWeekly(value: uint32, now: uint32, next: nat) {
    && next > now && WeeklyInstant(value, next)
    && forall t: nat | t > now && WeeklyInstant(value, t) :: next <= t
  }

  /** A timer is set to its delay after now exactly if that fits 32 bits; otherwise it is set
      to an instant in the past. */
  lemma TimerIsExact(a: Alarm, now: uint32)
    requires a.isEnabled && a.alarmType == Timer
    ensures Updated(a, now).nextTrigger == now + a.value <==> Fits(a, now)
    ensures !Fits(a, now) ==> Updated(a, now).nextTrigger < now
  {
    if Fits(a, now) {
      Unwrapped(now + a.value);
    }
  }

  /** A daily alarm that is due is set to the least instant after now at its time of day,
      for every value up to a whole day, exactly if that instant fits 32 bits. */
  lemma DailyIsLeast(a: Alarm, now: uint32)
    requires a.isEnabled && a.alarmType == DailyAlarm && a.nextTrigger <= now
    requires a.value <= SECS_PER_DAY && now >= SECS_PER_WEEK
    ensures LeastDaily(a.value, now, Updated(a, now).nextTrigger) <==> Fits(a, now)
  {
    var midnight := MidnightOf(now);
    var next := Updated(a, now).nextTrigger;
    assert next == NextOf(a.value, midnight, now, SECS_PER_DAY);
    NextFits(a.value, midnight, now, SECS_PER_DAY);
    if Fits(a, now) {
      DailyOf(a.value, now, next);
    }
  }

  lemma MidnightOf(now: nat) returns (m: nat)
    ensures m == PreviousMidnight(now) && m <= now < m + SECS_PER_DAY == NextMidnight(now)
  {
    m := PreviousMidnight(now);
  }

  lemma DailyOf(value: uint32, now: uint32, next: nat)
    requires value <= SECS_PER_DAY
    requires next == value + if value + PreviousMidnight(now) <= now then NextMidnight(now) else PreviousMidnight(now)
    ensures LeastDaily(value, now, next)
  {
    MidnightBounds(now, value);
    forall t: nat | t > now && DailyInstant(value, t)
      ensures next <= t
    {
      if t < next {
        SameTimeOfDay(t, next);
      }
    }
  }

  /** The choice between this period and the next, in 32-bit arithmetic. */
  function NextOf(value: uint32, start: nat, now: uint32, period: nat): uint32 {
    if Wrap32(value + start) <= now then Wrap32(value + (start + period)) else Wrap32(value + start)
  }

  /** It is exact where the sums fit, and not in the future where they do not. */
  lemma NextFits(value: uint32, start: nat, now: uint32, period: nat)
    requires start <= now < start + period && value <= period <= SECS_PER_WEEK <= now
    ensures var next := NextOf(value, start, now, period);
            if SumFits(value, start, now, period)
            then next == value + if value + start <= now then start + period else start
            else next <= now
  {}

  /** A midnight alarm in the last second of the 32-bit range has no next instant there. */
  lemma NoNextMidnight(a: Alarm)
    requires a.isEnabled && a.alarmType == DailyAlarm && a.value == 0
    ensures !Fits(a, 0xFFFF_FFFF) && !LeastDaily(0, 0xFFFF_FFFF, Updated(a, 0xFFFF_FFFF).nextTrigger)
  {
    DailyIsLeast(a, 0xFFFF_FFFF);
  }

  /** A weekly alarm that is due is set to the least instant after now at its second of the
      week, for every value under a week, exactly if that instant fits 32 bits. */
  lemma WeeklyIsLeast(a: Alarm, now: uint32)
    requires a.isEnabled && a.alarmType == WeeklyAlarm && a.nextTrigger <= now
    requires a.value < SECS_PER_WEEK && now >= SECS_PER_WEEK
    ensures LeastWeekly(a.value, now, Updated(a, now).nextTrigger) <==> Fits(a, now)
  {
    var s := SundayOf(now, a.value);
    var next := Updated(a, now).nextTrigger;
    assert next == NextOf(a.value, s, now, SECS_PER_WEEK);
    assert Fits(a, now) == SumFits(a.value, s, now, SECS_PER_WEEK);
    NextFits(a.value, s, now, SECS_PER_WEEK);
    if Fits(a, now) {
      WeeklyOf(a.value, now, next);
    }
  }

  lemma WeeklyOf(value: uint32, now: uint32, next: nat)
    requires value < SECS_PER_WEEK && now >= SECS_PER_WEEK
    requires next == value + if value + PreviousSunday(now) <= now then NextSunday(now) else PreviousSunday(now)
    ensures LeastWeekly(value, now, next)
  {
    var s := SundayOf(now, value);
    forall t: nat | t > now && WeeklyInstant(value, t)
      ensures next <= t
    {
      if t < next {
        SameTimeOfWeek(t, next);
      }
    }
  }

  lemma SundayOf(now: nat, value: nat) returns (s: nat)
    requires now >= SECS_PER_WEEK && value < SECS_PER_WEEK
    ensures s == PreviousSunday(now) && s <= now < s + SECS_PER_WEEK
    ensures ElapsedSecsThisWeek(s + value) == value
    ensures ElapsedSecsThisWeek(s + value + SECS_PER_WEEK) == value
  {
    WeekFromSunday(now, value);
    s := PreviousSunday(now);
    SameTimeOfWeek(s + value, s + value + SECS_PER_WEEK);
  }
}
