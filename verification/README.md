# Waterbox verification

A Dafny model of the parts of waterbox where correctness is decided by code: the water
meter firmware and the libraries it is built on, and the least-squares fingerprint of the
cloud service. Check it with `dafny verify dfyconfig.toml`.

| files | what they model |
|---|---|
| `Vectors`, `Elimination`, `Fingerprint` | the Gauss-Jordan elimination and the least-squares fit of the consumption fingerprint, over exact reals and for every size |
| `RegexSyntax`, `RegexMatcher` | the simple regular expressions of Google Test: grammar, validator, backtracking matcher |
| `TimeLib`, `Calendar`, `Clock` | calendar conversion over the whole 32-bit range, and the clock that catches up with a wrapping millisecond counter |
| `Schedule`, `AlarmHistory`, `TimeAlarms` | the alarm scheduler, with a ghost history of everything that fired |
| `MqttWire`, `MqttStream`, `MqttClient` | MQTT 3.1.1 packets (sections 1.5.3, 2.2.3, 3.3 and 3.4), what the reader makes of any stream of bytes, and the client that writes and reads packets in one 256-byte buffer |
| `Crc8`, `CrcCode`, `ByteBits`, `MeterStore` | the CRC, what code it is and which errors it detects, and the two EEPROM images |
| `FlowMeter`, `Meter`, `Radio`, `WaterboxFsm` | the firmware: pulse interrupt, service, power cut, modem flags, and the seven-state radio cycle |
| `JsonBuffers`, `JsonObject` | the bump allocators of ArduinoJson and the linked list that serves as a dictionary |
| `Words`, `Wrappers` | fixed-width integers; Option and Result |

Code that updates state is modelled by classes and loops, each proved against a
specification function whose own properties are lemmas. Ghost fields (a count of counter
wraps, a log of firings, of publishes, of regions handed out) state what holds over whole
runs; every method keeps them.

## How the outside world appears

- Clock and counter readings are parameters. True milliseconds are unbounded numbers, and
  `millis()` is what a 32-bit counter shows of them.
- Replies of the modem and the broker are nondeterministic. What `malloc` and the buffer of
  a JSON object grant are parameters; `malloc` never grants more than `PTRDIFF_MAX` bytes.
- Interrupts come as bursts of pulses between the steps of an update.
- The EEPROM is an array of 2048 bytes; one `put` is atomic. Floats in it are bit patterns.
- The TCP stream is a sequence of bytes in each direction.

## Where the code and its promise part

- A full match (`RE::FullMatch`) adds the final anchor unless the pattern ends in a dollar
  sign, even if that dollar is escaped. It decides the language if and only if the pattern
  does not end in an escaped dollar (`FullMatchExact`, with a failing text for every
  pattern of that kind in `EscapedDollarFails`).
- `readPacket` returns the right count and leaves the right rest exactly for bodies of at
  most 65532 bytes, and for publishes of at least two (`ReadRightExactly`). For 65533 to
  65535 bytes the 16-bit count wraps: the last one to three bytes of the body come to lie
  over the start of the buffer, and `loop` handles them as a packet (`PhantomPacket`,
  `PhantomPing`).
- `readPacket` puts length bytes and topic length into the buffer without a check of its
  size. `ReadPacket` says exactly which streams stay inside; where the code would not, the
  model stops with `sound` false (`OverrunByLength` is such a stream). It does the same
  where `loop` would compute a payload length below zero (`PublishInside`).
- `loop` strips the packet id at QoS 1 only. At QoS 2 the callback gets the id in front of
  the payload (`PublishDelivered`).
- `now()`, reading the counter once a call, counts every second if and only if each call
  comes within 2^32 ms of the second last counted (`Poll`). Calls less than 2^32 ms apart
  are not enough (`DriftUnderOneTurn`), and what is lost is never made up for
  (`PollReading`).
- `totalMilliLitres()` is exact if and only if the total times 1000 is below 2^32
  (`WrongMilliLitres`).
- The CRC misses two wrong bits if and only if they are a multiple of 127 bits apart
  (`TwoBitErrors`). That cannot happen in the 48 checked bits of the meter image, and can in
  the 232 of the fingerprint image.
- A due alarm gets its next instant if and only if that fits 32 bits; otherwise it gets one
  that is not in the future (`NextFits`, `NoNextMidnight`). A timer gets its instant if and
  only if now plus its delay fits 32 bits; otherwise it is due at once (`TimerIsExact`) and
  fires early (`EarlyTimer`), a repeating one at every pass (`StillDue`). Over any run, a
  timer fires early if and only if its sum did not fit when it was set
  (`Run`, `TimerEarlyExactly`).
- A `set` for a new key that gets its node but not the copy of its key reports failure and
  leaves a node with a NULL key in the object; it is the only failure that changes anything
  (`JsonObject.Set`, `KeylessNode`).
- `StaticJsonBuffer::alloc` and `BlockJsonBuffer::alloc` compare a sum that can wrap. The
  region is inside its memory if and only if the request is at most `PTRDIFF_MAX`; larger
  ones that are granted are shown in `StaticOverrun` and `BlockOverrun`.

## Model

| member | source | states |
|---|---|---|
| `Elimination.Solve` | software/waterbox_cloud/fingerprint.py:29-46 | the in-place elimination: when it returns x, the solutions of the original system are exactly {x}; when it raises, the rows have become, by steps that keep the solutions, a matrix whose pivot column is below the threshold from the diagonal down |
| `Elimination.Step` | software/waterbox_cloud/fingerprint.py:33-45 | one round: raises where the specification fails, else leaves a matrix with one more identity column and the same rest of the elimination |
| `Elimination.Reduce` | software/waterbox_cloud/fingerprint.py:38-45 | the two inner loops leave the pivot row divided by the pivot and every other row with its multiple of it subtracted, whole rows and not only columns from i on |
| `Elimination.NormaliseRow` | software/waterbox_cloud/fingerprint.py:38-39 | dividing from column i on divides the whole row, because the columns before are zero already |
| `Elimination.ClearEntry` | software/waterbox_cloud/fingerprint.py:43-45 | subtracting from column i on subtracts the whole row |
| `Elimination.Pivot` | software/waterbox_cloud/fingerprint.py:33 | the first row, from i on, whose entry in column i is largest in absolute value |
| `Elimination.ReducedColumns` | software/waterbox_cloud/fingerprint.py:34-45 | a round makes column i a column of the identity and keeps the columns before it so, swap included |
| `Elimination.ReducedSolutions` | software/waterbox_cloud/fingerprint.py:38-45 | a reduction keeps the solution set, both ways |
| `Elimination.SwappedSolutions` | software/waterbox_cloud/fingerprint.py:34 | a row swap keeps the solution set, both ways |
| `Elimination.EliminatedMeaning` | software/waterbox_cloud/fingerprint.py:32-46 | a finished elimination has the identity on the left and the solutions of the start |
| `Elimination.EliminatedFails` | software/waterbox_cloud/fingerprint.py:36-37 | a failed elimination reached, with the same solutions, a column whose entries from the diagonal down are all below the threshold |
| `Elimination.UnitColumnsSolved` | software/waterbox_cloud/fingerprint.py:46 | with the identity on the left, the last column is the one solution |
| `Elimination.SolutionIsUnique` | software/waterbox_cloud/fingerprint.py:29-46 | for every size: what is returned solves the original system and nothing else does |
| `Elimination.SolvedIsNonsingular` | tools/fit_signature.py:48-65 | whenever the elimination returns, only the zero vector is mapped to zero: a singular matrix never returns |
| `Fingerprint.Fit` | software/waterbox_cloud/fingerprint.py:49-54 | fewer than five samples raise; coefficients that are returned have a strictly smaller error than any other five, as a sum of squares over the samples, each hour with its own reading; readings that lie on a curve give that curve back; the only other failure is that of the elimination |
| `Fingerprint.ErrorOfSamples` | software/waterbox_cloud/fingerprint.py:52-54 | the error in matrix form is the sum over the samples of the squared distance of each reading from w + b1 sin + c1 cos + b2 sin + c2 cos at its hour, a missing reading counting as zero |
| `Fingerprint.FitOfSamples` | software/waterbox_cloud/fingerprint.py:49-54 | what the elimination returns for five or more samples is the only minimum of that sum |
| `Fingerprint.CurveRecovered` | software/waterbox_cloud/fingerprint.py:49-54 | if every reading lies on a curve, the fit is that curve |
| `Fingerprint.FitMinimises` | software/waterbox_cloud/fingerprint.py:49-54 | for every design matrix and data, the solution of the normal equations minimises the squared error, with equality only at itself |
| `Fingerprint.ResidualOrthogonal` | software/waterbox_cloud/fingerprint.py:53-54 | the residual of a solution is orthogonal to everything the design matrix can produce |
| `Fingerprint.ErrorSplits` | software/waterbox_cloud/fingerprint.py:53-54 | the error of any other coefficients is that of the solution plus the squared distance of the two predictions |
| `Fingerprint.DotAligned` | software/waterbox_cloud/fingerprint.py:25-26 | a zip that cuts the longer list is a product with the data cut or padded with zeros |
| `Vectors.Adjoint` | software/waterbox_cloud/fingerprint.py:17-26 | the product with the transpose is the adjoint |
| `Vectors.GramApplies` | software/waterbox_cloud/fingerprint.py:53-54 | multiplying by the matrix product is multiplying twice |
| `RegexMatcher.ValidateRegex` | libraries/ArduinoJson/third-party/gtest-1.7.0/src/gtest-port.cc:257-310 | accepts exactly the printed forms of patterns, that is, the documented grammar; rejects NULL |
| `RegexMatcher.ScanRegex` | libraries/ArduinoJson/third-party/gtest-1.7.0/src/gtest-port.cc:266-310 | the scan agrees with the recursive parser on every text |
| `RegexMatcher.CheckPlain` | libraries/ArduinoJson/third-party/gtest-1.7.0/src/gtest-port.cc:286-304 | the chain of checks accepts exactly the characters allowed at that place |
| `RegexSyntax.ParsesIffGrammatical` | libraries/ArduinoJson/third-party/gtest-1.7.0/include/gtest/gtest-death-test.h:116-139 | a text parses if and only if it prints some well-formed pattern |
| `RegexSyntax.ShowParses` | libraries/ArduinoJson/third-party/gtest-1.7.0/include/gtest/gtest-death-test.h:116-139 | printing a pattern and parsing it gives it back |
| `RegexSyntax.ParseShows` | libraries/ArduinoJson/third-party/gtest-1.7.0/include/gtest/gtest-death-test.h:116-139 | parsing a text and printing the pattern gives the text back |
| `RegexSyntax.EscapesDocumented` | libraries/ArduinoJson/third-party/gtest-1.7.0/include/gtest/gtest-death-test.h:121-132 | the escapes that are allowed are the documented ones: the class and control letters, and all ASCII punctuation |
| `RegexSyntax.OrdinaryDocumented` | libraries/ArduinoJson/third-party/gtest-1.7.0/src/gtest-port.cc:286-304 | the characters that stand for themselves are all but fourteen |
| `RegexMatcher.AtomMatchesChar` | libraries/ArduinoJson/third-party/gtest-1.7.0/src/gtest-port.cc:228-247 | matches exactly the characters the documentation lists for the atom |
| `RegexMatcher.MatchRepetitionAndRegexAtHead` | libraries/ArduinoJson/third-party/gtest-1.7.0/src/gtest-port.cc:320-342 | true exactly when some allowed number of repetitions can be followed by a match of the rest |
| `RegexMatcher.MatchRegexAtHead` | libraries/ArduinoJson/third-party/gtest-1.7.0/src/gtest-port.cc:347-374 | the mutual recursion ends and is true exactly when a prefix is in the language of the items, all of the text under a final dollar |
| `RegexMatcher.MatchRegexAnywhere` | libraries/ArduinoJson/third-party/gtest-1.7.0/src/gtest-port.cc:383-396 | true exactly when some substring is in the language, subject to both anchors; false for NULL |
| `RegexMatcher.PrefixSplits` | libraries/ArduinoJson/third-party/gtest-1.7.0/src/gtest-port.cc:320-342 | a prefix match of a first item and a rest splits into a run and a prefix match |
| `RegexMatcher.OnceMeaning` | libraries/ArduinoJson/third-party/gtest-1.7.0/include/gtest/gtest-death-test.h:116-139 | an item that is not repeated takes one character that its atom stands for, before the rest |
| `RegexMatcher.AtLeastOnceMeaning` | libraries/ArduinoJson/third-party/gtest-1.7.0/include/gtest/gtest-death-test.h:136 | x+ is xx* |
| `RegexMatcher.RepeatMeaning` | libraries/ArduinoJson/third-party/gtest-1.7.0/include/gtest/gtest-death-test.h:134-135 | x? is nothing or x, and x* is nothing or xx* |
| `RegexMatcher.RE.constructor` | libraries/ArduinoJson/third-party/gtest-1.7.0/src/gtest-port.cc:417-448 | keeps the pattern, whether it is valid, and the anchored form |
| `RegexMatcher.RE.FullMatch` | libraries/ArduinoJson/third-party/gtest-1.7.0/src/gtest-port.cc:406-409 | decided for every valid pattern: membership of the whole text, except that a pattern that ends in an escaped dollar is left unanchored at the end |
| `RegexMatcher.RE.PartialMatch` | libraries/ArduinoJson/third-party/gtest-1.7.0/src/gtest-port.cc:412-415 | true exactly when the pattern is valid and matches some substring |
| `RegexMatcher.FullPatternParses` | libraries/ArduinoJson/third-party/gtest-1.7.0/src/gtest-port.cc:427-447 | the anchored form is valid and parses to the pattern with both anchors, but for the escaped dollar |
| `RegexMatcher.FullPatternMeaning` | libraries/ArduinoJson/third-party/gtest-1.7.0/src/gtest-port.cc:427-447 | what the anchored form matches, in terms of the language |
| `RegexMatcher.EscapedDollarFails` | libraries/ArduinoJson/third-party/gtest-1.7.0/src/gtest-port.cc:444-445 | for every pattern that ends in an escaped dollar there is a text that matches although it is not in the language |
| `RegexMatcher.FullMatchExact` | libraries/ArduinoJson/third-party/gtest-1.7.0/src/gtest-port.cc:406-448 | a full match decides the language if and only if the pattern does not end in an escaped dollar |
| `TimeLib.WeekIsPeriodic` | libraries/Time/TimeLib.h:86 | the seconds of the week are the time shifted by four days modulo a week |
| `TimeLib.SameTimeOfDay` | libraries/Time/TimeLib.h:81 | instants at the same time of day are at least a day apart |
| `TimeLib.SameTimeOfWeek` | libraries/Time/TimeLib.h:86 | instants at the same time of the week are at least a week apart |
| `TimeLib.WeekFromSunday` | libraries/Time/TimeLib.h:86-88 | an offset from the last Sunday has that offset in the week; the time lies between the two Sundays |
| `TimeLib.KnownSunday` | libraries/Time/TimeLib.h:81-88 | 10^9 seconds lie on a Sunday, at 01:46:40 |
| `Calendar.BreakTime` | libraries/Time/Time.cpp:151-202 | for all 32-bit times: valid elements whose second number is the time, with the weekday of its day |
| `Calendar.FindYear` | libraries/Time/Time.cpp:170-178 | the year loop finds the year that holds the day, without wrapping its narrow fields |
| `Calendar.FindMonth` | libraries/Time/Time.cpp:180-201 | the month loop finds the month that holds the day of the year |
| `Calendar.MakeTime` | libraries/Time/Time.cpp:204-233 | the sum is the second number of the elements, modulo 2^32 |
| `Calendar.YearSeconds` | libraries/Time/Time.cpp:213-218 | the year part is that of the calendar, modulo 2^32 |
| `Calendar.MonthSeconds` | libraries/Time/Time.cpp:221-227 | the month part is that of the calendar, modulo 2^32 |
| `Calendar.BreakThenMake` | libraries/Time/Time.cpp:151-233 | makeTime undoes breakTime for every 32-bit time |
| `Calendar.MakeThenBreak` | libraries/Time/Time.cpp:151-233 | breakTime undoes makeTime for every valid date in range, with the weekday filled in |
| `Calendar.DaysBeforeYearClosed` | libraries/Time/Time.cpp:147 | the day count built from the leap year test is the Gregorian closed form |
| `Calendar.DaysBeforeMonthClosed` | libraries/Time/Time.cpp:149 | the month table is the Gregorian one: in closed form, five months from March on have 153 days, whatever the year |
| `Calendar.DayNumberClosed` | libraries/Time/Time.cpp:204-233 | the day number of any date in closed form, without a loop or a table |
| `Calendar.LeapDayOf2000` | libraries/Time/Time.cpp:147 | 29 February 2000 is day 11016, a Tuesday |
| `Calendar.BillionthSecond` | libraries/Time/Time.cpp:151-202 | 9 September 2001 is day 11574, a Sunday |
| `Calendar.MidYear2023` | libraries/Time/Time.cpp:149 | 1 July 2023 is day 19539, a Saturday |
| `Calendar.NoLeapDayIn2100` | libraries/Time/Time.cpp:147 | 1 March 2100 is day 47541, a Monday |
| `Calendar.LastDay` | libraries/Time/Time.cpp:204-233 | 7 February 2106, the last day of the 32-bit range, is day 49710, a Sunday |
| `Calendar.SecondsIncrease` | libraries/Time/Time.cpp:204-233 | the second number grows strictly with the lexicographic order of dates |
| `Calendar.SecondsInjective` | libraries/Time/Time.cpp:204-233 | dates with the same second number differ at most in the weekday field |
| `Calendar.NextDateIsNextDay` | libraries/Time/Time.cpp:168 | the next date is a day later and its weekday the next one modulo seven |
| `Calendar.RangeReaches2105` | libraries/Time/Time.cpp:204-233 | every valid date from 1970 to 2105 fits 32 bits |
| `Clock.SystemClock.SetTime` | libraries/Time/Time.cpp:274-284 | sets the time and restarts counting from the reading |
| `Clock.SystemClock.CountSecond` | libraries/Time/Time.cpp:254-255 | one turn of the loop counts one second and takes 1000 ms off the gap |
| `Clock.SystemClock.CatchUp` | libraries/Time/Time.cpp:252-259 | the loop, with a reading per test: from one reading it counts the seconds the wrapped counters show; for gaps below 2^32 ms it is in step with true time |
| `Clock.SystemClock.CountUp` | libraries/Time/Time.cpp:252-259 | the loop of a call in terms of the time since the clock was set: in step when in time, and with one reading exact if and only if in time |
| `Clock.SystemClock.Sync` | libraries/Time/Time.cpp:260-270 | the three cases of the provider: not due or none, no time, a time |
| `Clock.SystemClock.Now` | libraries/Time/Time.cpp:250-272 | for every provider: what is shown is the time counted, unless a provider with a time is asked, which is exactly when the time counted has reached nextSyncTime; within 2^32 ms of prevMillis the clock is in step afterwards; with one reading, from a clock in step, every second is counted if and only if less than 2^32 ms have passed since the last reading, its uncounted part of a second included; status and nextSyncTime are stated in each case |
| `Clock.GapCountedExactly` | libraries/Time/Time.cpp:252 | the seconds since prevMillis are counted exactly if and only if less than 2^32 ms have passed since it |
| `Clock.Poll` | libraries/Time/Time.cpp:250-284 | any number of calls across any number of counter wraps: all elapsed seconds are counted at the end if and only if every call came within 2^32 ms of the second last counted before it |
| `Clock.PollReading` | libraries/Time/Time.cpp:250-272 | one call keeps the clock in step exactly when it comes in time; a lost turn stays lost |
| `Clock.PollRereading` | libraries/Time/Time.cpp:250-284 | calls that read the counter several times leave no drift either, while they come in time |
| `Clock.DriftUnderOneTurn` | libraries/Time/Time.cpp:250-272 | two calls less than 2^32 ms apart of which the second counts nothing of 4294968 seconds |
| `Schedule.DailyIsLeast` | libraries/TimeAlarms/TimeAlarms.cpp:51-59 | a due daily alarm moves to the least instant after now at its time of day, if and only if that instant fits 32 bits |
| `Schedule.WeeklyIsLeast` | libraries/TimeAlarms/TimeAlarms.cpp:60-68 | a due weekly alarm moves to the least instant after now at its time of the week, if and only if that instant fits 32 bits |
| `Schedule.TimerIsExact` | libraries/TimeAlarms/TimeAlarms.cpp:74-77 | a timer is set to its delay after now if and only if that fits 32 bits, and to an instant in the past otherwise |
| `Schedule.NoNextMidnight` | libraries/TimeAlarms/TimeAlarms.cpp:51-59 | a midnight alarm in the last second of the 32-bit range misses its next instant |
| `Schedule.NextFits` | libraries/TimeAlarms/TimeAlarms.cpp:53-68 | the choice between this period and the next is exact where the sums fit 32 bits, and gives an instant that is not in the future where they do not |
| `AlarmHistory.UpdatedOnSchedule` | libraries/TimeAlarms/TimeAlarms.cpp:42-79 | an update whose sums fit leaves the trigger on the schedule of the alarm, and in the future for all types that repeat |
| `AlarmHistory.UpdatedOk` | libraries/TimeAlarms/TimeAlarms.cpp:42-79 | any update keeps the slot in order: its trigger time is what the scheduler sets at the recorded instant, and on schedule if the sums fitted then |
| `AlarmHistory.UpdatedArmed` | libraries/TimeAlarms/TimeAlarms.cpp:42-79 | a trigger time that is set depends on type, value and clock alone, not on the one before |
| `AlarmHistory.Replaced` | libraries/TimeAlarms/TimeAlarms.cpp:92-122 | a slot that is reprogrammed or freed keeps the history of the table consistent |
| `AlarmHistory.Allocated` | libraries/TimeAlarms/TimeAlarms.cpp:269-286 | so does a slot that is taken into use |
| `AlarmHistory.Fires` | libraries/TimeAlarms/TimeAlarms.cpp:236-247 | so does a firing: never before its trigger time, one-shots at most once, and an alarm whose sums fitted at a later trigger time than all its firings before |
| `TimeAlarms.TimeAlarmsClass.constructor` | libraries/TimeAlarms/TimeAlarms.cpp:84-90 | an empty, consistent table |
| `TimeAlarms.TimeAlarmsClass.UpdateNextTrigger` | libraries/TimeAlarms/TimeAlarms.cpp:42-79 | moves the trigger of the one slot as the alarm type says |
| `TimeAlarms.TimeAlarmsClass.EnableSlot` | libraries/TimeAlarms/TimeAlarms.cpp:95-103 | enables the one slot or disables it, and updates its trigger |
| `TimeAlarms.TimeAlarmsClass.ClearSlot` | libraries/TimeAlarms/TimeAlarms.cpp:146-152 | clears the one slot if it is allocated |
| `TimeAlarms.TimeAlarmsClass.Enable` | libraries/TimeAlarms/TimeAlarms.cpp:92-105 | enables an allocated slot that has a handler and, where it needs one, a value, and no other; keeps the table consistent; records when its trigger time was set and nothing else |
| `TimeAlarms.TimeAlarmsClass.Disable` | libraries/TimeAlarms/TimeAlarms.cpp:107-112 | disables an allocated slot and touches nothing else |
| `TimeAlarms.TimeAlarmsClass.Write` | libraries/TimeAlarms/TimeAlarms.cpp:115-122 | sets the value, forgets the old trigger and enables anew; all other slots and traces stay |
| `TimeAlarms.TimeAlarmsClass.Free` | libraries/TimeAlarms/TimeAlarms.cpp:144-153 | clears the slot and touches nothing else |
| `TimeAlarms.TimeAlarmsClass.Create` | libraries/TimeAlarms/TimeAlarms.cpp:269-286 | for any value: takes the first free slot as a new allocation, or fails exactly when the clock is before 31449600 for anything but a timer, the value is zero for a timer or an explicit alarm, or the table is full; failure changes nothing; all other slots and traces stay |
| `TimeAlarms.TimeAlarmsClass.FillSlot` | libraries/TimeAlarms/TimeAlarms.cpp:275-283 | fills the free slot, enables it and keeps the table consistent, as a new allocation in the history and the only change of it |
| `TimeAlarms.EnabledExactly` | libraries/TimeAlarms/TimeAlarms.cpp:95-103 | an allocated alarm with a handler is enabled unless it is a timer or explicit alarm of value zero; daily and weekly ones of value zero are |
| `TimeAlarms.FiredExactly` | libraries/TimeAlarms/TimeAlarms.cpp:232-251 | what fires in a pass is every enabled slot whose trigger time has come, and no other, in slot order |
| `TimeAlarms.TimeAlarmsClass.ServiceSlot` | libraries/TimeAlarms/TimeAlarms.cpp:236-247 | fires the slot if and only if it is due, then frees or reschedules it, so that it is no longer due if its sums fit; says what the history then is |
| `TimeAlarms.TimeAlarmsClass.ServiceAlarms` | libraries/TimeAlarms/TimeAlarms.cpp:232-251 | for any table: one pass fires exactly the due slots, once each and in slot order, and leaves nothing due whose sums fit; slots, traces, log and clock afterwards are all stated; a nested call does nothing |
| `TimeAlarms.ServicedOk` | libraries/TimeAlarms/TimeAlarms.cpp:236-247 | a serviced slot is consistent with its history, and not due if its sums fit |
| `TimeAlarms.StillDue` | libraries/TimeAlarms/TimeAlarms.cpp:236-247 | a repeating alarm of a value that the public calls let through is due again at once if and only if its sums do not fit |
| `TimeAlarms.Run` | libraries/TimeAlarms/TimeAlarms.cpp:84-286 | over any run of creates, writes, enables, disables, frees and passes with a clock that does not go back, for all values: each step changes the table and the log as the operation says; every handler call comes no earlier than a trigger time that the scheduler set, one-shots fire at most once, and each firing whose sums fitted is on schedule and at a later instant than all before it of the same alarm |
| `TimeAlarms.TakeStep` | libraries/TimeAlarms/TimeAlarms.cpp:84-286 | a step of such a run keeps the table in order, advances the clock and changes just the slot it names, or the first free one; only a pass adds to the log, by exactly its due slots |
| `TimeAlarms.TimerEarlyExactly` | libraries/TimeAlarms/TimeAlarms.cpp:74-77 | a timer that has fired was early if and only if its sum did not fit 32 bits when it was set |
| `TimeAlarms.TwoNights` | libraries/TimeAlarms/TimeAlarms.cpp:232-251 | a daily alarm fires on two nights, a day apart, as one allocation with sums that fit |
| `TimeAlarms.EarlyTimer` | libraries/TimeAlarms/TimeAlarms.cpp:269-286 | a one-shot timer of 2^32 - 1 seconds fires in the second in which it is set |
| `TimeAlarms.EnabledOk` | libraries/TimeAlarms/TimeAlarms.cpp:92-105 | an enabled slot is consistent with its history |
| `MqttWire.LengthRoundTrip` | libraries/GSMPubSubClient/GSMPubSubClient.cpp:430-441 | the length bytes decode to the length, and only the last has its top bit clear |
| `MqttWire.LengthSize` | libraries/GSMPubSubClient/GSMPubSubClient.cpp:430-441 | lengths below 2^28 take one to four bytes |
| `MqttWire.KnownLengths` | libraries/GSMPubSubClient/GSMPubSubClient.cpp:430-441 | the examples of section 2.2.3 of MQTT 3.1.1: the smallest and largest length of each size, byte for byte |
| `MqttWire.HeaderBits` | libraries/GSMPubSubClient/GSMPubSubClient.cpp:369-376 | RETAIN is bit 0 of a publish header, the quality of service bits 1 and 2, DUP bit 3 |
| `MqttWire.KnownPackets` | libraries/GSMPubSubClient/GSMPubSubClient.cpp:284-340 | the example of section 3.3 of MQTT 3.1.1, its acknowledgement, a ping and its answer, byte for byte |
| `MqttWire.PublishDelivered` | libraries/GSMPubSubClient/GSMPubSubClient.cpp:304-332 | the callback is handed the sent topic and payload if and only if the quality of service is 0 or 1; at 1 the packet id is the sent one; at 2 the payload has the id in front |
| `MqttWire.InStepExactly` | libraries/GSMPubSubClient/GSMPubSubClient.cpp:242-273 | readPacket takes exactly the body if and only if its length is below 2^16 and a publish has at least its two topic length bytes |
| `MqttWire.AppendDigit` | libraries/GSMPubSubClient/GSMPubSubClient.cpp:242-247 | adding a length byte with its wrapped 32-bit weight to the 16-bit length is right modulo 2^16, for any number of length bytes |
| `MqttWire.AddDigit` | libraries/GSMPubSubClient/GSMPubSubClient.cpp:245-246 | one turn of the length loop keeps the value and the weight of any run of length bytes |
| `MqttStream.FrontIs` | libraries/GSMPubSubClient/GSMPubSubClient.cpp:242-247 | the front of a stream is the header and the length bytes up to the last, whatever the bytes are |
| `MqttStream.OverrunByLength` | libraries/GSMPubSubClient/GSMPubSubClient.cpp:242-247 | a header and 256 length bytes that all continue leave the buffer |
| `MqttStream.PacketFront` | libraries/GSMPubSubClient/GSMPubSubClient.cpp:232-248 | the front of a packet below 2^28 bytes is its header and length bytes, within five bytes |
| `MqttStream.ReadRightExactly` | libraries/GSMPubSubClient/GSMPubSubClient.cpp:232-280 | for every packet below 2^28 bytes and whatever follows: readPacket returns its size, or 0 over 256 bytes, and leaves what follows, if and only if the body has at most 65532 bytes and a publish at least two |
| `MqttStream.PacketSeen` | libraries/GSMPubSubClient/GSMPubSubClient.cpp:232-280 | a readable packet that fits the buffer is seen as it is |
| `MqttStream.PacketHandled` | libraries/GSMPubSubClient/GSMPubSubClient.cpp:299-340 | on a readable packet loop is sound if and only if a publish that it handles has its topic length inside, and then delivers and answers by the packet |
| `MqttStream.Answered` | libraries/GSMPubSubClient/GSMPubSubClient.cpp:312-336 | a publish that fits the buffer is acknowledged exactly at quality of service 1, with its own id, high byte first; a ping is answered by a ping response |
| `MqttStream.PublishInside` | libraries/GSMPubSubClient/GSMPubSubClient.cpp:309-330 | the payload length that is computed is not below zero if and only if the publish has its topic and id inside; topic, payload and id are then those of the body |
| `MqttStream.PhantomPacket` | libraries/GSMPubSubClient/GSMPubSubClient.cpp:232-280 | bodies of 65533 to 65535 bytes stay in step, but the count wraps to 1, 2 or 3 and loop takes the last bytes of the body for a packet of its own |
| `MqttStream.PhantomPing` | libraries/GSMPubSubClient/GSMPubSubClient.cpp:299-336 | the smallest such packet is answered with a ping response when its last byte looks like a ping |
| `MqttClient.LengthBytes` | libraries/GSMPubSubClient/GSMPubSubClient.cpp:430-441 | the do-while loop computes the length encoding |
| `MqttClient.PubSubClient.Write` | libraries/GSMPubSubClient/GSMPubSubClient.cpp:426-466 | sends the packet of the header and the body in the buffer, from the reserved gap, as much of it as the socket takes, and says whether all went |
| `MqttClient.PubSubClient.PutHeader` | libraries/GSMPubSubClient/GSMPubSubClient.cpp:443-447 | the header and the length end up right before the body |
| `MqttClient.PubSubClient.WriteString` | libraries/GSMPubSubClient/GSMPubSubClient.cpp:524-535 | the length-prefixed string, and nothing else in the buffer |
| `MqttClient.PubSubClient.PutPayload` | libraries/GSMPubSubClient/GSMPubSubClient.cpp:368-371 | the payload follows and what is before it stays |
| `MqttClient.PubSubClient.Publish` | libraries/GSMPubSubClient/GSMPubSubClient.cpp:359-379 | sends the publish packet of topic and payload, or nothing when the link is down or the guard refuses the size; true exactly when all of it went; state and time of the last output afterwards |
| `MqttClient.PubSubClient.ReadLength` | libraries/GSMPubSubClient/GSMPubSubClient.cpp:242-248 | for any bytes: takes the length bytes up to the last or the end of the stream and decodes them modulo 2^16; leaves the buffer exactly when there are more than 255 |
| `MqttClient.PubSubClient.ReadTopicLength` | libraries/GSMPubSubClient/GSMPubSubClient.cpp:250-254 | takes two more bytes, or as many as come; leaves the buffer exactly when they do not fit |
| `MqttClient.PubSubClient.ReadFront` | libraries/GSMPubSubClient/GSMPubSubClient.cpp:234-261 | header, length bytes and topic length of any stream: what is written, and exactly when it does not fit the buffer |
| `MqttClient.PubSubClient.ReadBody` | libraries/GSMPubSubClient/GSMPubSubClient.cpp:262-273 | takes the rest of the body, counting in 16 bits and writing where that count lies in the buffer, wrapped or not |
| `MqttClient.PubSubClient.ReadPacket` | libraries/GSMPubSubClient/GSMPubSubClient.cpp:232-280 | for every stream of bytes, well formed or not and ended anywhere: exactly when all writes stay in the buffer, and then what is returned, taken and kept |
| `MqttClient.PubSubClient.ReadAll` | libraries/GSMPubSubClient/GSMPubSubClient.cpp:232-280 | any concatenation of readable packets is taken one packet a call, in step to the end |
| `MqttClient.PubSubClient.KeepAlive` | libraries/GSMPubSubClient/GSMPubSubClient.cpp:284-298 | after a quiet spell a ping is sent, or the link is dropped when one is outstanding |
| `MqttClient.PubSubClient.HandlePublish` | libraries/GSMPubSubClient/GSMPubSubClient.cpp:307-332 | for any packet: exactly when the payload length is not below zero, and then hands the callback topic and payload and answers QoS 1 with the PUBACK of its id |
| `MqttClient.PubSubClient.Acknowledge` | libraries/GSMPubSubClient/GSMPubSubClient.cpp:321-326 | sends exactly the PUBACK packet of the id |
| `MqttClient.PubSubClient.HandlePacket` | libraries/GSMPubSubClient/GSMPubSubClient.cpp:299-340 | for any stream: exactly when it is handled soundly, and then what is taken, delivered and answered |
| `MqttClient.PubSubClient.React` | libraries/GSMPubSubClient/GSMPubSubClient.cpp:304-339 | what is delivered, answered and cleared for a packet in the buffer, by its first byte |
| `MqttClient.PubSubClient.HandleAll` | libraries/GSMPubSubClient/GSMPubSubClient.cpp:299-340 | any concatenation of readable, well-formed packets: exactly their messages and exactly the replies they call for, in order |
| `MqttClient.FirstHandled` | libraries/GSMPubSubClient/GSMPubSubClient.cpp:299-340 | the first packet of such a stream is handled soundly and by itself |
| `MqttClient.PubSubClient.Loop` | libraries/GSMPubSubClient/GSMPubSubClient.cpp:282-345 | keep-alive and one packet together, for any stream: exactly when it is sound, and then which bytes are taken and sent, which messages are delivered, whether a ping is outstanding, and the link, state and activity times afterwards; no ping while both directions have been active within 60 s |
| `MqttClient.LoopAll` | libraries/GSMPubSubClient/GSMPubSubClient.cpp:282-345 | a run of calls, one readable, well-formed packet each: exactly the messages of the packets handled, in order; the session ends only by an unanswered ping |
| `MqttClient.SilentPeer` | libraries/GSMPubSubClient/GSMPubSubClient.cpp:284-298 | 60 s without input, or without output, and another 60 s without an answer: one ping, then the end of the session |
| `MqttClient.PublishAcross` | libraries/GSMPubSubClient/GSMPubSubClient.cpp:282-379 | what one client publishes, another hands to its callback, topic and payload unchanged |
| `Crc8.ComputeCrc` | firmware/waterbox/MeterStore.cpp:20-29 | the loop over bytes computes the CRC |
| `Crc8.NextCrc` | firmware/waterbox/MeterStore.cpp:23-26 | the loop over bits computes eight shifts |
| `Crc8.ChecksIsZero` | firmware/waterbox/MeterStore.cpp:39-41 | a word with its CRC appended checks if and only if the CRC of all of it is zero |
| `Crc8.CrcInjective` | firmware/waterbox/MeterStore.cpp:20-29 | different states stay different whatever bytes follow |
| `Crc8.ShiftsLinear` | firmware/waterbox/MeterStore.cpp:24-26 | the shifts are linear over exclusive or |
| `Crc8.BurstDetected` | firmware/waterbox/MeterStore.cpp:20-29 | of two words of any length that differ only within eight consecutive bits, low bit first, at most one checks |
| `Crc8.ByteChangeDetected` | firmware/waterbox/MeterStore.cpp:20-29 | of two words that differ in one byte at most one checks |
| `CrcCode.ChecksIffMultiple` | firmware/waterbox/MeterStore.cpp:20-29 | a word checks if and only if its bits, low bit of each byte first, are a multiple without carries of x^8 + x^5 + x^4 + 1 |
| `CrcCode.TwoBitErrors` | firmware/waterbox/MeterStore.cpp:20-29 | two wrong bits in a checked word, of any length, go undetected if and only if they are a multiple of 127 bits apart |
| `CrcCode.StateIsCrc` | firmware/waterbox/MeterStore.cpp:20-29 | taking in the message bit by bit leads through the states of taking it in byte by byte |
| `CrcCode.SingleBitBack` | firmware/waterbox/MeterStore.cpp:24-26 | a single bit comes back after exactly the multiples of 127 turns |
| `Store.ImageRoundTrip` | firmware/waterbox/MeterStore.cpp:31-57 | an image reads back as what it was made from |
| `Store.FingerprintImageRoundTrip` | firmware/waterbox/MeterStore.cpp:73-100 | so does a fingerprint image |
| `Store.ParamsRoundTrip` | firmware/waterbox/MeterStore.cpp:73-78 | the parameter fields survive their layout as bytes |
| `Store.ImageLayout` | firmware/waterbox/MeterStore.cpp:12-18 | the eight bytes of an image: 0xA5, 1, the total with its low byte first, the valve as 1 or 0, and the CRC of the five bytes before |
| `Store.FingerprintLayout` | firmware/waterbox/MeterStore.cpp:73-78 | the 31 bytes of a fingerprint image: 0x5A, 1, seven floats in field order with the low byte first, and the CRC of the 28 bytes before |
| `Store.ImageErrorDetected` | firmware/waterbox/MeterStore.cpp:39-41 | two images that both load and differ in payload or CRC only within eight bits do not differ there at all |
| `Store.SavedThenStored` | firmware/waterbox/MeterStore.cpp:47-57 | saving leaves exactly the saved values stored and the fingerprint image as it was |
| `Store.SavedFingerprintThenStored` | firmware/waterbox/MeterStore.cpp:93-100 | saving a fingerprint stores it and leaves the meter image as it was |
| `Store.MeterStore.Load` | firmware/waterbox/MeterStore.cpp:31-45 | returns what is stored, cleans the dirty flag and restarts the save interval |
| `Store.MeterStore.Save` | firmware/waterbox/MeterStore.cpp:47-57 | stores the values as the first eight bytes, keeps all others and cleans the dirty flag |
| `Store.MeterStore.SaveIfDue` | firmware/waterbox/MeterStore.cpp:63-71 | saves if and only if dirty and the interval has passed, in wrapping time; else changes nothing |
| `Store.MeterStore.LoadFingerprint` | firmware/waterbox/MeterStore.cpp:80-91 | returns what is stored |
| `Store.MeterStore.SaveFingerprint` | firmware/waterbox/MeterStore.cpp:93-100 | stores the parameters as bytes 32 to 62 and keeps all others |
| `Flow.FlowMeter.OnPulse` | firmware/waterbox/FlowMeter.cpp:21-23 | counts one pulse, with wrap-around, and keeps the account of pulses at any point of an update |
| `Flow.FlowMeter.Interrupts` | firmware/waterbox/FlowMeter.cpp:21-23 | a burst of any size does the same |
| `Flow.CountOnWraps` | firmware/waterbox/FlowMeter.cpp:21-23 | counting on n times is adding n modulo 2^32 |
| `Flow.FlowMeter.constructor` | firmware/waterbox/FlowMeter.cpp:25-48 | starts with nothing counted, the sample timer at the reading and the accounts in balance |
| `Flow.FlowMeter.SetTotalPulses` | firmware/waterbox/FlowMeter.cpp:50-52 | restarts the accounts from the restored total |
| `Flow.FlowMeter.TotalMilliLitres` | firmware/waterbox/FlowMeter.cpp:62-67 | the millilitres of the exact total if and only if its product by 1000 fits 32 bits |
| `Flow.WrongMilliLitres` | firmware/waterbox/FlowMeter.cpp:62-67 | at 245 pulses a litre, 4294968 pulses are shown wrong |
| `Flow.WordMilliLitres` | firmware/waterbox/FlowMeter.cpp:66 | the 32-bit quotient is exact if and only if the product by 1000 fits 32 bits |
| `Flow.FlowMeter.MovePulses` | firmware/waterbox/FlowMeter.cpp:99-102 | the pulses in flight are in the total, the exact counts agree, and the flag is raised exactly when there were any |
| `Flow.FlowMeter.TakeSample` | firmware/waterbox/FlowMeter.cpp:97-102 | taking and moving the pulses, with interrupts in between, loses and doubles none |
| `Flow.FlowMeter.MeasureInterval` | firmware/waterbox/FlowMeter.cpp:103-108 | the interval is that of the pulses if and only if their product by 1000 fits 32 bits; adding it to the sum never takes the sum above the growth of the exact total, at any total, and keeps it within one a sample as long as the product of each sample fits |
| `Flow.FlowMeter.Sample` | firmware/waterbox/FlowMeter.cpp:97-108 | the whole sample: all pulses moved, the accounts in balance |
| `Flow.FlowMeter.Update` | firmware/waterbox/FlowMeter.cpp:91-114 | for bursts of interrupts before and between its steps and after them: no pulse is lost or counted twice; a sample adds its interval millilitres to their sum, which never exceeds the growth of the exact total and is within one millilitre a sample while the product of each sample fits; without a sample the interval stays; dirty exactly when pulses moved |
| `Flow.SampleAccounts` | firmware/waterbox/FlowMeter.cpp:108 | the millilitres of a sample fall short of the growth of the total by at most one |
| `MeterCore.Restore` | firmware/waterbox/WaterboxFsm.cpp:121-137 | boots from whatever the memory holds |
| `MeterCore.Meter.constructor` | firmware/waterbox/WaterboxFsm.cpp:119-143 | a boot ends in a valid state that is what the memory holds |
| `MeterCore.Meter.Pulses` | firmware/waterbox/FlowMeter.cpp:15-23 | any number of pulses between two steps are counted and leave what a reboot restores as it is |
| `MeterCore.Meter.Service` | firmware/waterbox/WaterboxFsm.cpp:54-71 | keeps the memory consistent with the live state, with interrupts anywhere in the update; with a second since the last sample the pulses so far go to the total; something new is saved if and only if 60 s have passed since the last save, and otherwise no byte of the memory changes |
| `MeterCore.Meter.PersistNow` | firmware/waterbox/WaterboxFsm.cpp:73-75 | afterwards a reboot restores everything live; writes the first eight bytes and no others |
| `MeterCore.Meter.OnCommand` | firmware/waterbox/WaterboxFsm.cpp:81-89 | moves the valve as commanded and persists it at once |
| `MeterCore.Meter.OnFingerprint` | firmware/waterbox/WaterboxFsm.cpp:91-96 | uses and persists the fingerprint so that a reboot restores it exactly, normalised |
| `MeterCore.NormalisedFields` | firmware/waterbox/ConsumptionSignature.cpp:24-33 | exactly the periods that are not positive are replaced, by 24 and 12 hours; all other fields stay, and doing it twice changes nothing |
| `MeterCore.PowerCut` | firmware/waterbox/WaterboxFsm.cpp:98-155 | a reboot in any reachable state restores valve and fingerprint exactly and the total if the store is clean; never more than was counted before a wrap |
| `Radio.Sim800.Init` | libraries/sim800/sim800.cpp:273-400 | leaves registration and connection clear, and initialised as reported |
| `Radio.Sim800.TcpStart` | libraries/sim800/sim800.cpp:857-915 | success implies registered; failure changes no flag; initialised stays either way |
| `Radio.Sim800.TcpStop` | libraries/sim800/sim800.cpp:917-932 | clears registration and connection however the modem replies |
| `Radio.Sim800.TcpConnect` | libraries/sim800/sim800.cpp:966-983 | success implies connected and registered before; failure changes no flag |
| `Radio.Sim800.Stop` | libraries/sim800/sim800.cpp:1095-1103 | clears the connection only |
| `Radio.Extended` | firmware/waterbox/GsmMqttClient.cpp:267-321 | appending an event keeps publishes inside sessions |
| `Radio.GsmMqttClient.Begin` | firmware/waterbox/GsmMqttClient.cpp:227-265 | leaves the modem detached however it ends; gives up on starting it only after ten tries |
| `Radio.GsmMqttClient.Wait` | firmware/waterbox/GsmMqttClient.cpp:39-46 | however often the yield hook serves the meter meanwhile, the meter keeps its promises |
| `Radio.GsmMqttClient.MqttConnect` | firmware/waterbox/GsmMqttClient.cpp:214-225 | success implies that the connection is up |
| `Radio.GsmMqttClient.Loop` | firmware/waterbox/GsmMqttClient.cpp:323-325 | commands and fingerprints that come in leave the meter consistent with its memory |
| `Radio.GsmMqttClient.Connect` | firmware/waterbox/GsmMqttClient.cpp:267-312 | one to three attempts, all three before it fails, and none without credentials; success opens a session, failure leaves the modem detached |
| `Radio.GsmMqttClient.Disconnect` | firmware/waterbox/GsmMqttClient.cpp:314-321 | ends the session and leaves the modem detached |
| `Radio.GsmMqttClient.Publish` | firmware/waterbox/GsmMqttClient.cpp:327-365 | a publish is made only inside a session and gets through only over a link |
| `Fsm.WaterboxFsm.constructor` | firmware/waterbox/WaterboxFsm.cpp:98-155 | starts in WaitModem, or in HaltAuth without credentials |
| `Fsm.WaterboxFsm.Tick` | firmware/waterbox/WaterboxFsm.cpp:157-223 | every tick keeps what holds between ticks and counts and stores as service does; it takes one edge of the cycle and does exactly the connects, publishes and disconnects of its state; the four timers afterwards are stated in every state, a heartbeat's by whether it got through; telemetry that got through is saved |
| `Fsm.WaterboxFsm.Act` | firmware/waterbox/WaterboxFsm.cpp:161-222 | the same for the switch alone, which leaves the meter as it is in Idle, HaltAuth and Disconnect |
| `Fsm.IdleTicks` | firmware/waterbox/WaterboxFsm.cpp:177-181 | of ticks in Idle, the first one 60 s or more after Idle was entered goes on to Connect, and none before it |
| `Fsm.ListenTicks` | firmware/waterbox/WaterboxFsm.cpp:210-215 | of ticks in Listen, the first one 8 s or more after the publishes goes on to Disconnect, and none before it |
| `Fsm.WaterboxFsm.TryModem` | firmware/waterbox/WaterboxFsm.cpp:165-174 | a started modem makes a publish and a heartbeat due at once; the modem is tried no more often than every 30 s |
| `Fsm.WaterboxFsm.TryConnect` | firmware/waterbox/WaterboxFsm.cpp:182-190 | one to three tries, all three before it goes back to Idle; opens a session or restarts the publish timer |
| `Fsm.WaterboxFsm.PublishAll` | firmware/waterbox/WaterboxFsm.cpp:192-208 | two publishes, three when a heartbeat is due, all inside the session, and on to Listen; the heartbeat timer restarts exactly when one got through |
| `Fsm.WaterboxFsm.PublishReadings` | firmware/waterbox/WaterboxFsm.cpp:193-199 | info and telemetry, and a save when telemetry got through |
| `Fsm.Run` | firmware/waterbox/WaterboxFsm.cpp:98-223 | over any run of pulses, ticks and power cuts in any order: publishes only between a connect and the next disconnect, registration and connection clear in Idle and Connect, the memory restores the live valve and fingerprint, the total if the store is clean and never more than was counted before a wrap, every pulse since the last boot is in the total or still to be taken, and without credentials HaltAuth is never left |
| `JsonBuffers.MaskClears` | libraries/ArduinoJson/include/ArduinoJson/JsonBuffer.hpp:128-135 | masking with w ones that end in k zeros gives the largest multiple of 2^k not above |
| `JsonBuffers.RoundSizeUpMeaning` | libraries/ArduinoJson/include/ArduinoJson/JsonBuffer.hpp:128-135 | the mask rounds up to the least multiple of the pointer size, or to zero when adding the slack wraps |
| `JsonBuffers.Bump` | libraries/ArduinoJson/include/ArduinoJson/Internals/BlockJsonBuffer.hpp:77-81 | a request that fits keeps all regions in bounds, apart and aligned, although the mark may pass the capacity |
| `JsonBuffers.NoByteTwice` | libraries/ArduinoJson/include/ArduinoJson/Internals/BlockJsonBuffer.hpp:77-81 | no byte of a block belongs to two regions, and all starts are multiples of the pointer size |
| `JsonBuffers.StaticJsonBuffer.constructor` | libraries/ArduinoJson/include/ArduinoJson/StaticJsonBuffer.hpp:30 | an empty buffer |
| `JsonBuffers.StaticJsonBuffer.Alloc` | libraries/ArduinoJson/include/ArduinoJson/StaticJsonBuffer.hpp:39-44 | exactly when a region is granted, in wrapping arithmetic; it is in the array if and only if the request is no larger than an object can be, and then apart from all before |
| `JsonBuffers.StaticOverrun` | libraries/ArduinoJson/include/ArduinoJson/StaticJsonBuffer.hpp:39-44 | with 16-bit words: after 8 bytes, a request for 65528 is granted from an array of 16 |
| `JsonBuffers.BlockJsonBuffer.constructor` | libraries/ArduinoJson/include/ArduinoJson/Internals/BlockJsonBuffer.hpp:49-50 | no block yet; fit for use exactly if the header does not wrap the size of the first block |
| `JsonBuffers.BlockJsonBuffer.Size` | libraries/ArduinoJson/include/ArduinoJson/Internals/BlockJsonBuffer.hpp:62-66 | the sum of all requests, each rounded up, modulo the word size |
| `JsonBuffers.BlockJsonBuffer.Alloc` | libraries/ArduinoJson/include/ArduinoJson/Internals/BlockJsonBuffer.hpp:68-71 | exactly when a region is granted, in wrapping arithmetic and given whether malloc has the memory; it is inside its block if and only if the request is no larger than an object can be, and then apart from all before; a new block doubles the next size; NULL changes nothing |
| `JsonBuffers.BlockOverrun` | libraries/ArduinoJson/include/ArduinoJson/Internals/BlockJsonBuffer.hpp:73-81 | with 16-bit words: after 8 bytes, a request for 65528 is granted from a block of 256 |
| `JsonBuffers.BlockJsonBuffer.AllocInHead` | libraries/ArduinoJson/include/ArduinoJson/Internals/BlockJsonBuffer.hpp:77-81 | the region at the mark of the head |
| `JsonBuffers.BlockJsonBuffer.AllocInNewBlock` | libraries/ArduinoJson/include/ArduinoJson/Internals/BlockJsonBuffer.hpp:83-89 | a new head block large enough, and the next size doubled, or no change; which of them, exactly |
| `JsonBuffers.BlockJsonBuffer.AddNewBlock` | libraries/ArduinoJson/include/ArduinoJson/Internals/BlockJsonBuffer.hpp:91-100 | pushes a block when malloc grants it; its room is its capacity unless the header wraps the size |
| `JsonBuffers.Block.Take` | libraries/ArduinoJson/include/ArduinoJson/Internals/BlockJsonBuffer.hpp:77-81 | a region that fits the block keeps the block a valid bump allocator |
| `JsonBuffers.BlockJsonBuffer.Run` | libraries/ArduinoJson/include/ArduinoJson/Internals/BlockJsonBuffer.hpp:62-100 | over any run of requests the regions lie in their blocks, are pairwise disjoint and start at multiples of the pointer size; none fails that malloc has a block for, while request and next block are within what an object can be |
| `JsonBuffers.SizesAreTaken` | libraries/ArduinoJson/include/ArduinoJson/Internals/BlockJsonBuffer.hpp:62-66 | the marks add up to the rounded requests |
| `JsonObjects.JsonObject.constructor` | libraries/ArduinoJson/include/ArduinoJson/Internals/List.hpp:33 | an empty list, with a buffer or without |
| `JsonObjects.JsonObject.Size` | libraries/ArduinoJson/include/ArduinoJson/Internals/List.hpp:45-49 | the size of the map |
| `JsonObjects.JsonObject.AddNewNode` | libraries/ArduinoJson/include/ArduinoJson/Internals/List.hpp:66-78 | a fresh node at the end of the list, or NULL and no change |
| `JsonObjects.JsonObject.LastNode` | libraries/ArduinoJson/include/ArduinoJson/Internals/List.hpp:70-71 | the loop ends at the last node |
| `JsonObjects.JsonObject.NewNode` | libraries/ArduinoJson/include/ArduinoJson/Internals/JsonBufferAllocated.hpp:17-20 | a fresh unlinked node exactly when there is a buffer that grants it |
| `JsonObjects.JsonObject.RemoveNode` | libraries/ArduinoJson/include/ArduinoJson/Internals/List.hpp:80-88 | unlinks exactly the node; the list stays acyclic and the others keep their order and content |
| `JsonObjects.JsonObject.RemoveNamed` | libraries/ArduinoJson/include/ArduinoJson/Internals/List.hpp:80-88 | the entries lose exactly the one at the place of the node |
| `JsonObjects.JsonObject.SkipNode` | libraries/ArduinoJson/include/ArduinoJson/Internals/List.hpp:85-86 | the loop makes the predecessor link past the node and changes no other link |
| `JsonObjects.JsonObject.GetNodeAt` | libraries/ArduinoJson/include/ArduinoJson/JsonObject.hpp:168-173 | the first node with the key, or NULL when none has it |
| `JsonObjects.JsonObject.Get` | libraries/ArduinoJson/include/ArduinoJson/JsonObject.hpp:102-105 | the value the map has for the key, or the undefined variant |
| `JsonObjects.JsonObject.ContainsKey` | libraries/ArduinoJson/include/ArduinoJson/JsonObject.hpp:130-132 | membership in the map |
| `JsonObjects.JsonObject.Set` | libraries/ArduinoJson/include/ArduinoJson/JsonObject.hpp:176-183 | succeeds exactly for a key that is there or when the buffer grants a node and, where needed, a copy; success is the map update in insertion order; failure changes nothing, except exactly when the node is granted and the copy is not: then a last node without a key stays |
| `JsonObjects.JsonObject.AddKeyedNode` | libraries/ArduinoJson/include/ArduinoJson/JsonObject.hpp:178-181 | a last node with the key, or one of the two failures, by the answers of the buffer |
| `JsonObjects.KeylessNode` | libraries/ArduinoJson/include/ArduinoJson/JsonObject.hpp:176-193 | a first set that fails and leaves one node without a key |
| `JsonObjects.JsonObject.SetNodeKey` | libraries/ArduinoJson/include/ArduinoJson/JsonObject.hpp:185-193 | the key or its copy, or NULL when the copy fails; all other entries stay |
| `JsonObjects.JsonObject.Remove` | libraries/ArduinoJson/include/ArduinoJson/JsonObject.hpp:135-137 | the map removal; nothing when the key is missing |
| `JsonObjects.PutRefines` | libraries/ArduinoJson/include/ArduinoJson/JsonObject.hpp:176-199 | an update of the entries is an update of the map; a key keeps its place and a new one goes last |
| `JsonObjects.WithoutRefines` | libraries/ArduinoJson/include/ArduinoJson/JsonObject.hpp:135-137 | a removal from the entries is a removal from the map |
| `JsonObjects.WithoutKeys` | libraries/ArduinoJson/include/ArduinoJson/Internals/List.hpp:80-88 | a removal keeps the order of the other keys |
| `JsonObjects.SizeIsMap` | libraries/ArduinoJson/include/ArduinoJson/Internals/List.hpp:45-49 | with unique keys the list is as long as the map is large |
| `JsonObjects.RunRefines` | libraries/ArduinoJson/include/ArduinoJson/JsonObject.hpp:102-183 | any run of sets, failed sets and removals keeps keys unique and acts as the same run on the map |

## Left out

- Rounding: the fit is over exact reals, and the rows of sines and cosines are a parameter.
  Amplitudes and phases, `predict` and `classify` follow from the coefficients.
- The cached accessors (`hour(t)`, `day(t)`) and the six-argument `setTime`, which shares
  their cache.
- Calendar.MakeTime: months above 13 are excluded; there the code reads past its table.
- TimeAlarms.TimeAlarmsClass.ServiceAlarms: handlers leave the table alone, and the clock
  is one value while a slot is examined, although the code reads it more than once.
- TimeAlarms.TimeAlarmsClass.Create: takes the one-shot flag and the type as the public
  wrappers pass them; the wrappers themselves only forward, after bounding the value.
- TimeAlarms.TimeAlarmsClass.UpdateNextTrigger: daily and weekly alarms in the first week of
  1970, which `create` refuses.
- `getTriggeredAlarmId`, `delay` and `waitForDigits`, which only query or wait.
- MqttClient.PubSubClient.Loop: the callback is set and does not call back into the client;
  the socket takes pings and answers whole; nothing is said of a run after it was unsound.
- `connect`, `subscribe`, `unsubscribe`, `publish_P`, and the optional stream sink.
- Read timeouts, AT text, UART, pins, LEDs, watchdog, serial output and coil pulses.
- RegexMatcher.MatchRegexAnywhere: texts are shorter than the 64-bit limit of the
  repetition counter.
- Store.MeterStore.Save: a power cut inside one `put` is not modelled.
- Radio.GsmMqttClient.Begin: the tries over baud rates count as one attempt at the modem.
- Radio.GsmMqttClient.Loop: commands and fingerprints arrive parsed; the JSON search and
  the number parsing are library calls.
- The flow rate in litres per minute and the leak evaluation: floating point for display.
- JsonBuffers.BlockJsonBuffer.Alloc: tells where memory lies, not what is in it, nor when
  blocks are freed.
- JsonObjects.JsonObject.GetNodeAt: not for an object that holds a NULL key after a failed
  copy; comparing with it is undefined.
- The JSON parser, arrays and printing; the cloud service beyond the fit; the web portal.
