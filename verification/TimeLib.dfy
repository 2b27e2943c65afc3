/** The constants of TimeLib.h and the date macros that the alarm scheduler uses. */
module TimeLib {
  const SECS_PER_MIN: nat := 60
  const SECS_PER_HOUR: nat := 3600
  const SECS_PER_DAY: nat := 86400
  const SECS_PER_WEEK: nat := 604800
  const SECS_PER_YEAR: nat := SECS_PER_WEEK * 52

  function ElapsedSecsToday(t: nat): nat {
    t % SECS_PER_DAY
  }

  /** 1 is Sunday. */
  function DayOfWeek(t: nat): nat {
    (t / SECS_PER_DAY + 4) % 7 + 1
  }

  function PreviousMidnight(t: nat): nat {
    t / SECS_PER_DAY * SECS_PER_DAY
  }

  function NextMidnight(t: nat): nat {
    PreviousMidnight(t) + SECS_PER_DAY
  }

  function ElapsedSecsThisWeek(t: nat): nat {
    ElapsedSecsToday(t) + (DayOfWeek(t) - 1) * SECS_PER_DAY
  }

  /** The subtraction needs a time past the first Sunday. */
  function PreviousSunday(t: nat): nat
    requires t >= SECS_PER_WEEK
  {
    t - ElapsedSecsThisWeek(t)
  }

  function NextSunday(t: nat): nat
    requires t >= SECS_PER_WEEK
  {
    PreviousSunday(t) + SECS_PER_WEEK
  }

  /** 10^9 seconds are reached on 9 September 2001, a Sunday, at 01:46:40. */
  lemma KnownSunday()
    ensures DayOfWeek(1000000000) == 1 && PreviousSunday(1000000000) == 999993600
    ensures 1000000000 - PreviousMidnight(1000000000) == 1 * 3600 + 46 * 60 + 40
  {}

  /** The seconds of the week count from the Sunday before 1 January 1970, a Thursday. */
  lemma WeekIsPeriodic(t: nat)
    ensures ElapsedSecsThisWeek(t) == (t + 4 * SECS_PER_DAY) % SECS_PER_WEEK
  {
    var d := t / SECS_PER_DAY + 4;
    assert t + 4 * SECS_PER_DAY == d * SECS_PER_DAY + t % SECS_PER_DAY;
    assert d == d / 7 * 7 + d % 7;
    WeekRemainder(t + 4 * SECS_PER_DAY, d / 7, d % 7 * SECS_PER_DAY + t % SECS_PER_DAY);
  }

  lemma WeekRemainder(x: nat, weeks: nat, r: nat)
    requires x == weeks * SECS_PER_WEEK + r && r < SECS_PER_WEEK
    ensures x % SECS_PER_WEEK == r
  {}

  /** Instants at the same second of the day differ by whole days. */
  lemma SameTimeOfDay(a: nat, b: nat)
    requires a < b
    ensures a % SECS_PER_DAY == b % SECS_PER_DAY ==> b - a >= SECS_PER_DAY
    ensures b - a == SECS_PER_DAY ==> a % SECS_PER_DAY == b % SECS_PER_DAY
  {}

  lemma SameRemainder(x: nat, y: nat)
    requires x < y
    ensures x % SECS_PER_WEEK == y % SECS_PER_WEEK ==> y - x >= SECS_PER_WEEK
    ensures y - x == SECS_PER_WEEK ==> x % SECS_PER_WEEK == y % SECS_PER_WEEK
  {}

  lemma WholeWeeksPlus(x: nat, value: nat)
    requires value < SECS_PER_WEEK
    ensures (x - x % SECS_PER_WEEK + value) % SECS_PER_WEEK == value
  {
    assert x - x % SECS_PER_WEEK + value == x / SECS_PER_WEEK * SECS_PER_WEEK + value;
  }

  /** Instants at the same second of the week differ by whole weeks. */
  lemma SameTimeOfWeek(a: nat, b: nat)
    requires a < b
    ensures ElapsedSecsThisWeek(a) == ElapsedSecsThisWeek(b) ==> b - a >= SECS_PER_WEEK
    ensures b - a == SECS_PER_WEEK ==> ElapsedSecsThisWeek(a) == ElapsedSecsThisWeek(b)
  {
    var x := SecondOfWeek(a);
    var y := SecondOfWeek(b);
    SameRemainder(x, y);
  }

  /** The same second of the week, counted from a Sunday before 1970. */
  lemma SecondOfWeek(t: nat) returns (x: nat)
    ensures x == t + 4 * SECS_PER_DAY && ElapsedSecsThisWeek(t) == x % SECS_PER_WEEK
  {
    WeekIsPeriodic(t);
    x := t + 4 * SECS_PER_DAY;
  }

  /** A value under a week, counted from a Sunday, is the second of that week. */
  lemma WeekFromSunday(t: nat, value: nat)
    requires t >= SECS_PER_WEEK && value < SECS_PER_WEEK
    ensures ElapsedSecsThisWeek(PreviousSunday(t) + value) == value
    ensures PreviousSunday(t) <= t < NextSunday(t)
  {
    var x := SecondOfWeek(t);
    var y := SecondOfWeek(PreviousSunday(t) + value);
    WholeWeeksPlus(x, value);
  }
}
