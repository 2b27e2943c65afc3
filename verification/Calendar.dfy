/** breakTime and makeTime of Time.cpp, proved against the Gregorian calendar. */
module Calendar {
  import opened TimeLib
  import opened Words

  /** tmElements_t; year counts from 1970, month and day from 1, Sunday is weekday 1. */
  datatype TimeElements = TimeElements(
    second: uint8, minute: uint8, hour: uint8, wday: uint8, day: uint8, month: uint8, year: uint8)

  predicate LeapYear(y: nat) {
    (1970 + y) % 4 == 0 && ((1970 + y) % 100 != 0 || (1970 + y) % 400 == 0)
  }

  const MONTH_DAYS: seq<uint8> := [31, 28, 31, 30, 31, 30, 31, 31, 30, 31, 30, 31]

  // ----- the calendar -----

  function YearLength(y: nat): nat {
    if LeapYear(y) then 366 else 365
  }

  /** Months counted from 0; past December there is nothing to add. */
  function MonthLength(y: nat, m: nat): nat
    requires m < 12
  {
    if m == 1 && LeapYear(y) then 29 else MONTH_DAYS[m]
  }

  function DaysBeforeYear(y: nat): nat {
    if y == 0 then 0 else DaysBeforeYear(y - 1) + YearLength(y - 1)
  }

  function DaysBeforeMonth(y: nat, m: nat): nat
    requires m <= 12
  {
    if m == 0 then 0 else DaysBeforeMonth(y, m - 1) + MonthLength(y, m - 1)
  }

  /** Days from 1 January 1970; a month of 0 counts as January and 13 as the January after. */
  function DayNumber(e: TimeElements): int
    requires e.month <= 13
  {
    DaysBeforeYear(e.year) + DaysBeforeMonth(e.year, if e.month == 0 then 0 else e.month - 1) + e.day - 1
  }

  function SecondNumber(e: TimeElements): int
    requires e.month <= 13
  {
    DayNumber(e) * SECS_PER_DAY + e.hour * SECS_PER_HOUR + e.minute * SECS_PER_MIN + e.second
  }

  /** A date and a time of day that exist. */
  predicate ValidElements(e: TimeElements) {
    && 1 <= e.month <= 12 && 1 <= e.day <= MonthLength(e.year, e.month - 1)
    && e.hour < 24 && e.minute < 60 && e.second < 60
  }

  /** 1 January 1970 was a Thursday, weekday 5. */
  function WeekdayOf(dayNumber: int): int {
    (dayNumber + 4) % 7 + 1
  }

  /** Lexicographic order on year, month, day, hour, minute and second. */
  predicate Before(a: TimeElements, b: TimeElements) {
    if a.year != b.year then a.year < b.year
    else if a.month != b.month then a.month < b.month
    else if a.day != b.day then a.day < b.day
    else if a.hour != b.hour then a.hour < b.hour
    else if a.minute != b.minute then a.minute < b.minute
    else a.second < b.second
  }

  lemma NextMultiple(x: nat)
    requires x > 0
    ensures x / 4 - (x - 1) / 4 == if x % 4 == 0 then 1 else 0
    ensures x / 100 - (x - 1) / 100 == if x % 100 == 0 then 1 else 0
    ensures x / 400 - (x - 1) / 400 == if x % 400 == 0 then 1 else 0
  {}

  /** The Gregorian count of leap years up to and including calendar year z. */
  function LeapYearsThrough(z: nat): int {
    z / 4 - z / 100 + z / 400
  }

  /** Counting year by year agrees with the Gregorian count from 1970 on. */
  lemma {:induction false} DaysBeforeYearClosed(y: nat)
    ensures DaysBeforeYear(y) == 365 * y + LeapYearsThrough(1969 + y) - LeapYearsThrough(1969)
  {
    if y > 0 {
      DaysBeforeYearClosed(y - 1);
      LeapYearCounted(y - 1);
    }
  }

  /** The month table is the Gregorian one: from March on, five months have 153 days. */
  lemma {:induction false} DaysBeforeMonthClosed(y: nat, m: nat)
    requires m <= 12
    ensures DaysBeforeMonth(y, m)
         == if m < 2 then 31 * m else (153 * (m - 2) + 2) / 5 + 59 + (if LeapYear(y) then 1 else 0)
  {
    if m > 0 {
      DaysBeforeMonthClosed(y, m - 1);
    }
  }

  /** The day number of a date without the year loop and the month table. */
  lemma DayNumberClosed(e: TimeElements, z: int)
    requires 1 <= e.month <= 13 && z == 1969 + e.year
    ensures DayNumber(e)
         == 365 * e.year + z / 4 - z / 100 + z / 400 - 477 + e.day - 1
          + (if e.month < 3 then 31 * (e.month - 1)
             else (153 * (e.month - 3) + 2) / 5 + 59 + (if LeapYear(e.year) then 1 else 0))
  {
    DaysBeforeYearClosed(e.year);
    DaysBeforeMonthClosed(e.year, e.month - 1);
  }

  /** The epoch, a Thursday. */
  lemma FirstDay(e: TimeElements)
    requires e.year == 0 && e.month == 1 && e.day == 1
    ensures DayNumber(e) == 0 && WeekdayOf(DayNumber(e)) == 5
  {}

  /** 29 February 2000, a Tuesday. */
  lemma LeapDayOf2000(e: TimeElements)
    requires e.year == 30 && e.month == 2 && e.day == 29
    ensures DayNumber(e) == 11016 && WeekdayOf(DayNumber(e)) == 3
  {
    DayNumberClosed(e, 1999);
  }

  /** 9 September 2001, a Sunday: 10^9 seconds are reached at 01:46:40. */
  lemma BillionthSecond(e: TimeElements)
    requires e.year == 31 && e.month == 9 && e.day == 9
    ensures DayNumber(e) == 11574 && WeekdayOf(DayNumber(e)) == 1
  {
    DayNumberClosed(e, 2000);
  }

  /** 1 July 2023, a Saturday. */
  lemma MidYear2023(e: TimeElements)
    requires e.year == 53 && e.month == 7 && e.day == 1
    ensures DayNumber(e) == 19539 && WeekdayOf(DayNumber(e)) == 7
  {
    DayNumberClosed(e, 2022);
  }

  /** 1 March 2100, a Monday. */
  lemma NoLeapDayIn2100(e: TimeElements)
    requires e.year == 130 && e.month == 3 && e.day == 1
    ensures DayNumber(e) == 47541 && WeekdayOf(DayNumber(e)) == 2
  {
    DayNumberClosed(e, 2099);
  }

  /** 7 February 2106, a Sunday: 2^32 seconds are reached at 06:28:16. */
  lemma LastDay(e: TimeElements)
    requires e.year == 136 && e.month == 2 && e.day == 7
    ensures DayNumber(e) == 49710 && WeekdayOf(DayNumber(e)) == 1
  {
    DayNumberClosed(e, 2105);
  }

  lemma LeapYearCounted(y: nat)
    ensures LeapYearsThrough(1970 + y) - LeapYearsThrough(1969 + y) == YearLength(y) - 365
  {
    NextMultiple(1970 + y);
    MultiplesNest(1970 + y);
  }

  lemma MultiplesNest(x: nat)
    ensures x % 400 == 0 ==> x % 100 == 0
    ensures x % 100 == 0 ==> x % 4 == 0
  {
    assert x == 400 * (x / 400) + x % 400 && x == 100 * (x / 100) + x % 100;
    if x % 400 == 0 {
      Hundreds(x, 4 * (x / 400));
    }
    if x % 100 == 0 {
      Fours(x, 25 * (x / 100));
    }
  }

  lemma Hundreds(x: nat, k: nat)
    requires x == 100 * k
    ensures x % 100 == 0
  {}

  lemma Fours(x: nat, k: nat)
    requires x == 4 * k
    ensures x % 4 == 0
  {}

  lemma {:induction false} YearsAdd(a: nat, b: nat)
    requires a < b
    ensures DaysBeforeYear(a) + YearLength(a) <= DaysBeforeYear(b)
    decreases b
  {
    if a < b - 1 {
      YearsAdd(a, b - 1);
    }
  }

  lemma {:induction false} MonthsAdd(y: nat, a: nat, b: nat)
    requires a < b <= 12
    ensures DaysBeforeMonth(y, a) + MonthLength(y, a) <= DaysBeforeMonth(y, b)
    decreases b
  {
    if a < b - 1 {
      MonthsAdd(y, a, b - 1);
    }
  }

  /** Twelve months make a year. */
  lemma MonthsMakeYear(y: nat)
    ensures DaysBeforeMonth(y, 12) == YearLength(y)
  {
    var leap := if LeapYear(y) then 1 else 0;
    assert DaysBeforeMonth(y, 1) == 31;
    assert DaysBeforeMonth(y, 2) == 59 + leap;
    assert DaysBeforeMonth(y, 4) == 120 + leap;
    assert DaysBeforeMonth(y, 6) == 181 + leap;
    assert DaysBeforeMonth(y, 8) == 243 + leap;
    assert DaysBeforeMonth(y, 10) == 304 + leap;
  }

  lemma DayInYear(e: TimeElements)
    requires ValidElements(e)
    ensures DaysBeforeYear(e.year) <= DayNumber(e) < DaysBeforeYear(e.year) + YearLength(e.year)
  {
    MonthsMakeYear(e.year);
    if e.month < 12 {
      MonthsAdd(e.year, e.month - 1, 12);
    }
  }

  /** Later dates have larger day numbers. */
  lemma DaysIncrease(a: TimeElements, b: TimeElements)
    requires ValidElements(a) && ValidElements(b)
    ensures a.year < b.year ==> DayNumber(a) < DayNumber(b)
    ensures a.year == b.year && a.month < b.month ==> DayNumber(a) < DayNumber(b)
    ensures a.year == b.year && a.month == b.month ==> DayNumber(b) - DayNumber(a) == b.day - a.day
  {
    DayInYear(a);
    DayInYear(b);
    if a.year < b.year {
      YearsAdd(a.year, b.year);
    } else if a.year == b.year && a.month < b.month {
      MonthsAdd(a.year, a.month - 1, b.month - 1);
    }
  }

  /** Seconds increase strictly in the order of the calendar. */
  lemma SecondsIncrease(a: TimeElements, b: TimeElements)
    requires ValidElements(a) && ValidElements(b) && Before(a, b)
    ensures SecondNumber(a) < SecondNumber(b)
  {
    DaysIncrease(a, b);
  }

  /** No two valid dates share a second, apart from the weekday field. */
  lemma SecondsInjective(a: TimeElements, b: TimeElements)
    requires ValidElements(a) && ValidElements(b) && SecondNumber(a) == SecondNumber(b)
    ensures a == b.(wday := a.wday)
  {
    if Before(a, b) {
      SecondsIncrease(a, b);
    } else if Before(b, a) {
      SecondsIncrease(b, a);
    }
  }

  /** The day after, at the same time of day. */
  function NextDate(e: TimeElements): TimeElements
    requires ValidElements(e) && e.year < 255
  {
    var wday := e.wday % 7 + 1;
    if e.day < MonthLength(e.year, e.month - 1) then e.(day := e.day + 1, wday := wday)
    else if e.month < 12 then e.(month := e.month + 1, day := 1, wday := wday)
    else e.(year := e.year + 1, month := 1, day := 1, wday := wday)
  }

  /** Stepping to the next date is stepping 86400 seconds, and the weekday follows. */
  lemma NextDateIsNextDay(e: TimeElements)
    requires ValidElements(e) && e.year < 255 && e.wday == WeekdayOf(DayNumber(e))
    ensures var n := NextDate(e);
            && ValidElements(n) && n.wday == WeekdayOf(DayNumber(n))
            && SecondNumber(n) == SecondNumber(e) + SECS_PER_DAY
  {
    NextDateCounts(e);
    NextWeekday(DayNumber(e));
  }

  lemma NextDateCounts(e: TimeElements)
    requires ValidElements(e) && e.year < 255
    ensures ValidElements(NextDate(e)) && DayNumber(NextDate(e)) == DayNumber(e) + 1
  {
    var month: nat := e.month - 1;
    if e.day < MonthLength(e.year, month) {
    } else if e.month < 12 {
      NextMonth(e.year, month);
    } else {
      MonthsMakeYear(e.year);
      NextMonth(e.year, month);
      NextYear(e.year);
    }
  }

  lemma NextMonth(y: nat, m: nat)
    requires m < 12
    ensures DaysBeforeMonth(y, m + 1) == DaysBeforeMonth(y, m) + MonthLength(y, m)
    ensures m < 11 ==> MonthLength(y, m + 1) >= 1
  {}

  lemma NextYear(y: nat)
    ensures DaysBeforeYear(y + 1) == DaysBeforeYear(y) + YearLength(y)
    ensures DaysBeforeMonth(y + 1, 0) == 0 && MonthLength(y + 1, 0) >= 1
  {}

  lemma NextWeekday(day: int)
    ensures WeekdayOf(day + 1) == WeekdayOf(day) % 7 + 1
  {}

  // ----- the code -----

  lemma {:induction false} YearsAtLeast(y: nat)
    ensures 365 * y <= DaysBeforeYear(y)
  {
    if y > 0 {
      YearsAtLeast(y - 1);
    }
  }

  /** The days up to the end of the next year, in 16 bits as long as this one ends by a day
      of the 32-bit range. */
  method PassYear(year: uint8, days: uint32) returns (next: uint32)
    requires days == DaysBeforeYear(year + 1) <= 49710
    ensures year < 255 && next == DaysBeforeYear(year + 2) < B16
  {
    YearsAtLeast(year + 1);
    next := days + (if LeapYear(year + 1) then 366 else 365);
  }

  method FirstYear() returns (year: uint8, days: uint32)
    ensures DaysBeforeYear(year) == 0 && days == DaysBeforeYear(year + 1) < B16
  {
    year := 0;
    days := 0;
    days := days + (if LeapYear(year) then 366 else 365);
    NextYear(year);
  }

  /** The year loop: the year that a day number falls in and the day within it. The year
      fits its byte, and comparing in 16 bits, as `unsigned` may be, loses nothing. */
  method FindYear(dayNumber: uint32) returns (year: uint8, time: uint32)
    requires dayNumber <= 49710
    ensures dayNumber == DaysBeforeYear(year) + time && time < YearLength(year)
  {
    var days;
    year, days := FirstYear();
    while days % B16 <= dayNumber
      invariant days == DaysBeforeYear(year + 1) < B16
      invariant DaysBeforeYear(year) <= dayNumber
      decreases 255 - year
    {
      days := PassYear(year, days);
      year := year + 1;
    }
    NextYear(year);
    days := days - (if LeapYear(year) then 366 else 365);
    time := dayNumber - days;
  }

  /** The month loop: the month, from 0, that a day of the year falls in and the day
      within it, from 0. */
  method FindMonth(year: uint8, dayOfYear: uint32) returns (month: uint8, time: uint32)
    requires dayOfYear < YearLength(year)
    ensures month < 12 && time < MonthLength(year, month)
    ensures dayOfYear == DaysBeforeMonth(year, month) + time
  {
    MonthsMakeYear(year);
    time := dayOfYear;
    month := 0;
    var monthLength: uint8 := 0;
    while month < 12
      invariant month <= 12
      invariant DaysBeforeMonth(year, month) + time == dayOfYear
    {
      if month == 1 {
        if LeapYear(year) {
          monthLength := 29;
        } else {
          monthLength := 28;
        }
      } else {
        monthLength := MONTH_DAYS[month];
      }
      if time >= monthLength {
        time := time - monthLength;
      } else {
        break;
      }
      month := month + 1;
    }
  }

  lemma SplitSeconds(t: uint32)
    ensures var minutes, hours := t / 60, t / 60 / 60;
            t == hours / 24 * SECS_PER_DAY + hours % 24 * SECS_PER_HOUR + minutes % 60 * SECS_PER_MIN + t % 60
    ensures t / 60 / 60 / 24 == t / SECS_PER_DAY <= 49710
  {
    var minutes := t / 60;
    var hours := minutes / 60;
    assert t == 60 * minutes + t % 60;
    assert minutes == 60 * hours + minutes % 60;
    assert hours == 24 * (hours / 24) + hours % 24;
  }

  /** Every 32-bit time breaks into the one valid date and time that it counts, and no
      field overflows its byte. */
  method BreakTime(timeInput: uint32) returns (tm: TimeElements)
    ensures ValidElements(tm) && SecondNumber(tm) == timeInput
    ensures tm.wday == WeekdayOf(timeInput / SECS_PER_DAY)
  {
    var time: uint32 := timeInput;
    var second: uint8 := time % 60;
    time := time / 60;
    var minute: uint8 := time % 60;
    time := time / 60;
    var hour: uint8 := time % 24;
    time := time / 24;
    SplitSeconds(timeInput);
    var wday: uint8 := (time + 4) % 7 + 1;
    var year, dayOfYear := FindYear(time);
    var month, dayOfMonth := FindMonth(year, dayOfYear);
    tm := TimeElements(second, minute, hour, wday, dayOfMonth + 1, month + 1, year);
  }

  /** The seconds of the years before, with a day more for each leap year. */
  method YearSeconds(year: uint8) returns (seconds: uint32)
    ensures seconds == Wrap32(DaysBeforeYear(year) * SECS_PER_DAY)
  {
    ghost var exact: int := year * (SECS_PER_DAY * 365);
    seconds := Wrap32(year * (SECS_PER_DAY * 365));
    for i := 0 to year
      invariant seconds == Wrap32(exact)
      invariant exact == (365 * year + DaysBeforeYear(i) - 365 * i) * SECS_PER_DAY
    {
      if LeapYear(i) {
        seconds := Accumulate(seconds, exact, SECS_PER_DAY);
        exact := exact + SECS_PER_DAY;
      }
    }
  }

  /** Adds the months before the given one, counted from 1. */
  method MonthSeconds(year: uint8, month: uint8, start: uint32, ghost startDays: int)
      returns (seconds: uint32)
    requires month <= 13 && start == Wrap32(startDays * SECS_PER_DAY)
    ensures seconds ==
            Wrap32((startDays + DaysBeforeMonth(year, if month == 0 then 0 else month - 1)) * SECS_PER_DAY)
  {
    seconds := start;
    var i := 1;
    while i < month
      invariant 1 <= i <= 13 && (i <= month || i == 1)
      invariant seconds == Wrap32((startDays + DaysBeforeMonth(year, i - 1)) * SECS_PER_DAY)
    {
      ghost var exact := (startDays + DaysBeforeMonth(year, i - 1)) * SECS_PER_DAY;
      if i == 2 && LeapYear(year) {
        seconds := Accumulate(seconds, exact, SECS_PER_DAY * 29);
      } else {
        seconds := Accumulate(seconds, exact, SECS_PER_DAY * MONTH_DAYS[i - 1]);
      }
      i := i + 1;
    }
  }

  /** Any elements whose month stays inside the month table give the second they count,
      modulo the 32-bit range. */
  method MakeTime(tm: TimeElements) returns (t: uint32)
    requires tm.month <= 13
    ensures t == Wrap32(SecondNumber(tm))
  {
    var seconds := YearSeconds(tm.year);
    seconds := MonthSeconds(tm.year, tm.month, seconds, DaysBeforeYear(tm.year));
    ghost var exact := (DayNumber(tm) - (tm.day - 1)) * SECS_PER_DAY;
    seconds := Accumulate(seconds, exact, (tm.day - 1) * SECS_PER_DAY);
    exact := DayNumber(tm) * SECS_PER_DAY;
    seconds := Accumulate(seconds, exact, tm.hour * SECS_PER_HOUR);
    exact := exact + tm.hour * SECS_PER_HOUR;
    seconds := Accumulate(seconds, exact, tm.minute * SECS_PER_MIN);
    exact := exact + tm.minute * SECS_PER_MIN;
    seconds := Accumulate(seconds, exact, tm.second);
    t := seconds;
  }

  /** seconds += x on the 32-bit accumulator, whose exact value is tracked beside it. */
  function Accumulate(seconds: uint32, ghost exact: int, x: int): (r: uint32)
    requires seconds == Wrap32(exact)
    ensures r == Wrap32(exact + x)
  {
    WrapSum(exact, x);
    Wrap32(seconds + x)
  }

  lemma DayOfSecond(e: TimeElements)
    requires ValidElements(e)
    ensures 0 <= DayNumber(e) == SecondNumber(e) / SECS_PER_DAY
  {
    DayInYear(e);
    var rest := e.hour * SECS_PER_HOUR + e.minute * SECS_PER_MIN + e.second;
    assert 0 <= rest < SECS_PER_DAY;
    assert SecondNumber(e) == DayNumber(e) * SECS_PER_DAY + rest;
  }

  lemma InRange(e: TimeElements)
    requires ValidElements(e) && SecondNumber(e) < B32
    ensures Wrap32(SecondNumber(e)) == SecondNumber(e)
  {
    DayOfSecond(e);
  }

  lemma SameSecond(e: TimeElements, back: TimeElements)
    requires ValidElements(e) && ValidElements(back) && SecondNumber(e) == SecondNumber(back)
    requires back.wday == WeekdayOf(SecondNumber(e) / SECS_PER_DAY)
    ensures back == e.(wday := WeekdayOf(DayNumber(e)))
  {
    DayOfSecond(e);
    SecondsInjective(e, back);
  }

  /** makeTime undoes breakTime on every 32-bit time. */
  method BreakThenMake(t: uint32) returns (back: uint32)
    ensures back == t
  {
    var tm := BreakTime(t);
    back := MakeTime(tm);
  }

  /** breakTime undoes makeTime on every valid date up to the end of the 32-bit range,
      and fills in the weekday. */
  method MakeThenBreak(e: TimeElements) returns (back: TimeElements)
    requires ValidElements(e) && SecondNumber(e) < B32
    ensures back == e.(wday := WeekdayOf(DayNumber(e)))
  {
    var t := MakeTime(e);
    InRange(e);
    back := BreakTime(t);
    SameSecond(e, back);
  }

  /** All of 1970 to 2105 is in range. */
  lemma RangeReaches2105(e: TimeElements)
    requires ValidElements(e) && e.year <= 135
    ensures 0 <= SecondNumber(e) < B32
  {
    DayInYear(e);
    if e.year < 136 {
      YearsAdd(e.year, 136);
    }
    DaysBeforeYearClosed(136);
  }
}
