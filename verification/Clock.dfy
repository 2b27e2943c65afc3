/** now() and setTime(time_t) of Time.cpp: a seconds clock that catches up with a 32-bit
    millisecond counter that wraps. */
module Clock {
  import opened Words
  import opened Wrappers

  datatype TimeStatus = TimeNotSet | TimeNeedsSync | TimeSet

  /** The whole seconds that a call sees of a gap: the counter shows it modulo its range. */
  function SecondsSeen(gap: nat): nat {
    gap % B32 / 1000
  }

  /** A call counts every second of the gap since prevMillis exactly when that gap is under
      2^32 ms. */
  lemma GapCountedExactly(gap: nat)
    ensures SecondsSeen(gap) == gap / 1000 <==> gap < B32
  {
    if gap >= B32 {
      assert gap - gap % B32 >= B32;
    }
  }

  lemma SecondsLost(gap: nat)
    ensures gap >= B32 ==> gap - 1000 * SecondsSeen(gap) >= B32
  {
    var turned := gap % B32;
    assert 1000 * (turned / 1000) <= turned;
  }

  /** n seconds counted, when less than one is left of what the counter shows of a gap. */
  lemma AllSeen(lag: nat, gap: nat, n: nat)
    requires lag / 1000 == SecondsSeen(gap) && 0 <= lag - 1000 * n < 1000
    ensures n == SecondsSeen(gap) && (gap >= B32 ==> gap - 1000 * n >= B32)
  {
    WholeSeconds(0, n, lag);
    SecondsLost(gap);
  }

  ghost predicate Nondecreasing(s: seq<nat>) {
    forall i, j | 0 <= i <= j < |s| :: s[i] <= s[j]
  }

  class SystemClock {
    var sysTime: uint32
    var prevMillis: uint32
    var nextSyncTime: uint32
    var syncInterval: uint32
    var status: TimeStatus

    ghost var setTrue: nat     // true milliseconds when the clock was last set
    ghost var setValue: uint32 // the seconds it was set to
    ghost var counted: nat     // the seconds counted since then
    ghost var prevTrue: nat    // the true milliseconds that prevMillis stands for
    ghost var seen: nat        // the true milliseconds of the last reading
    ghost var sysTurns: nat    // how often sysTime has wrapped since it was set
    ghost var prevTurns: nat   // how often the millisecond counter had wrapped at prevTrue

    /** sysTime is what the clock was set to plus the seconds counted, up to prevTrue. */
    ghost predicate Valid()
      reads this
    {
      && prevTrue == setTrue + 1000 * counted <= seen
      && prevTrue == prevMillis + 0x1_0000_0000 * prevTurns
      && setValue + counted == sysTime + 0x1_0000_0000 * sysTurns
    }

    /** Everything up to the last reading is counted, down to less than a second. */
    ghost predicate InStep()
      reads this
    {
      0 <= seen - prevTrue < 1000 && seen >= setTrue && counted == (seen - setTrue) / 1000
    }

    /** The seconds counted are the whole seconds since the clock was set. */
    ghost predicate Exact()
      reads this
    {
      counted == (seen - setTrue) / 1000
    }

    /** A whole turn of the counter or more is not counted, and never will be. */
    ghost predicate Lost()
      reads this
    {
      seen - prevTrue >= B32
    }

    /** The clock as started at true time zero. */
    constructor ()
      ensures Valid() && setTrue == 0 && setValue == 0 && seen == 0 && status == TimeNotSet
      ensures nextSyncTime == 0 && syncInterval == 300
    {
      sysTime, prevMillis, nextSyncTime, syncInterval := 0, 0, 0, 300;
      status := TimeNotSet;
      setTrue, setValue, counted, prevTrue, seen, sysTurns, prevTurns := 0, 0, 0, 0, 0, 0, 0;
    }

    method SetTime(t: uint32, reading: nat)
      requires Valid() && seen <= reading
      modifies this
      ensures Valid() && sysTime == t && setValue == t && setTrue == prevTrue == seen == reading
      ensures status == TimeSet && nextSyncTime == Add32(t, syncInterval)
      ensures syncInterval == old(syncInterval)
    {
      sysTime := t;
      nextSyncTime := Add32(t, syncInterval);
      status := TimeSet;
      prevMillis, prevTurns := Millis(reading);
      setTrue, setValue, counted, prevTrue, seen := reading, t, 0, reading, reading;
      sysTurns := 0;
    }

    /** The counter as read at the last reading, compared with prevMillis. */
    ghost predicate Shows(counter: uint32)
      reads this
    {
      && counter == Wrap32(seen) && prevTrue <= seen
      && Sub32(counter, prevMillis) <= seen - prevTrue
      && (seen - prevTrue < B32 ==> Sub32(counter, prevMillis) == seen - prevTrue)
    }

    /** millis() in the loop guard. */
    method ReadCounter(reading: nat) returns (counter: uint32)
      requires Valid() && prevTrue <= reading
      modifies `seen
      ensures Valid() && seen == reading && Shows(counter)
      ensures Sub32(counter, prevMillis) / 1000 == SecondsSeen(seen - prevTrue)
    {
      ghost var turns;
      counter, turns := Millis(reading);
      seen := reading;
      ghost var gap := GapShown(counter, turns, prevMillis, prevTurns);
    }

    /** The body of the catch-up loop. */
    method CountSecond(ghost counter: uint32)
      requires Valid() && prevTrue + 1000 <= seen && Sub32(counter, prevMillis) >= 1000
      modifies `sysTime, `prevMillis, `prevTrue, `counted, `sysTurns, `prevTurns
      ensures Valid() && prevTrue == old(prevTrue) + 1000 && counted == old(counted) + 1
      ensures Sub32(counter, prevMillis) == old(Sub32(counter, prevMillis)) - 1000
    {
      sysTurns := if sysTime + 1 < 0x1_0000_0000 then sysTurns else sysTurns + 1;
      prevTurns := if prevMillis + 1000 < 0x1_0000_0000 then prevTurns else prevTurns + 1;
      sysTime := Add32(sysTime, 1);
      prevMillis := Add32(prevMillis, 1000);
      prevTrue, counted := prevTrue + 1000, counted + 1;
    }

    /** The catch-up loop. Its guard reads the counter anew each time round, and so sees
        `readings` in turn and then the last of them for good. */
    method CatchUp(readings: seq<nat>) returns (ghost gap: nat)
      requires Valid() && readings != [] && Nondecreasing(readings) && seen <= readings[0]
      modifies `sysTime, `prevMillis, `prevTrue, `counted, `seen, `sysTurns, `prevTurns
      ensures Valid() && old(seen) <= seen && seen in readings
      ensures |readings| == 1 ==>
                seen == readings[0] && gap == seen - old(prevTrue) && counted == old(counted) + SecondsSeen(gap)
      ensures readings[|readings| - 1] - old(prevTrue) < B32 ==> InStep()
      ensures |readings| == 1 && readings[0] - old(prevTrue) >= B32 ==> Lost()
    {
      var k := 0;
      var counter := ReadCounter(readings[0]);
      ghost var lag := Sub32(counter, prevMillis);
      gap := seen - prevTrue;
      assert lag / 1000 == SecondsSeen(gap);
      while Sub32(counter, prevMillis) >= 1000
        invariant k < |readings| && seen == readings[k] && Valid()
        invariant Shows(counter) && prevTrue >= old(prevTrue) && counted >= old(counted)
        invariant |readings| == 1 ==> Sub32(counter, prevMillis) + 1000 * (counted - old(counted)) == lag
        decreases |readings| - k, readings[|readings| - 1] - prevTrue
      {
        CountSecond(counter);
        if k + 1 < |readings| {
          k := k + 1;
        }
        counter := ReadCounter(readings[k]);
      }
      if readings[|readings| - 1] - old(prevTrue) < B32 {
        WholeSeconds(setTrue, counted, seen);
      }
      if |readings| == 1 {
        AllSeen(lag, gap, counted - old(counted));
      }
    }

    /** The catch-up loop of a call, with what it makes of the time since the clock was set: a
        call with one reading counts it exactly if and only if it comes in time. */
    method CountUp(readings: seq<nat>)
      requires Valid() && readings != [] && Nondecreasing(readings) && seen <= readings[0]
      modifies `sysTime, `prevMillis, `prevTrue, `counted, `seen, `sysTurns, `prevTurns
      ensures Valid() && seen in readings && sysTime == Wrap32(setValue + counted)
      ensures readings[|readings| - 1] - old(prevTrue) < B32 ==>
                InStep() && sysTime == Wrap32(setValue + (seen - setTrue) / 1000)
      ensures |readings| == 1 ==>
                seen == readings[0] && sysTime == Wrap32(setValue + old(counted) + SecondsSeen(seen - old(prevTrue)))
      ensures |readings| == 1 ==> (old(InStep()) ==> (Exact() <==> Under(setTrue, old(seen), seen)))
      ensures |readings| == 1 ==> (seen - old(prevTrue) >= B32 ==> Lost())
    {
      if InStep() {
        Uncounted(setTrue, counted, seen);
      }
      ghost var gap := CatchUp(readings);
      if Lost() && seen >= setTrue {
        WholeSecondsOnly(setTrue, counted, seen);
      }
      WrapIs(setValue + counted, sysTime, sysTurns);
    }

    /** The part of now() that asks the sync provider, if there is one and it is due. An
        answer of zero means that the provider failed. */
    method Sync(provider: Option<uint32>, setReading: nat)
      requires Valid() && seen <= setReading
      modifies this
      ensures Valid() && syncInterval == old(syncInterval)
      ensures sysTime == TimeShown(old(sysTime), old(nextSyncTime), provider)
      ensures old(InStep() && sysTime == Wrap32(setValue + (seen - setTrue) / 1000)) ==>
                InStep() && sysTime == Wrap32(setValue + (seen - setTrue) / 1000)
      ensures provider == None || old(nextSyncTime > sysTime) ==> unchanged(this)
      ensures provider == Some(0) && old(nextSyncTime <= sysTime) ==>
                && unchanged(`sysTime, `prevMillis, `setTrue, `setValue, `counted, `prevTrue, `seen)
                && unchanged(`sysTurns, `prevTurns)
                && nextSyncTime == Add32(sysTime, syncInterval)
                && status == (if old(status) == TimeNotSet then TimeNotSet else TimeNeedsSync)
      ensures provider.Some? && provider.value != 0 && old(nextSyncTime <= sysTime) ==>
                && sysTime == setValue == provider.value && setTrue == seen == setReading
                && status == TimeSet && nextSyncTime == Add32(sysTime, syncInterval)
    {
      if nextSyncTime <= sysTime {
        if provider.Some? {
          if provider.value != 0 {
            SetTime(provider.value, setReading);
          } else {
            nextSyncTime := Add32(sysTime, syncInterval);
            status := if status == TimeNotSet then TimeNotSet else TimeNeedsSync;
          }
        }
      }
    }

    /** now(); its loop ends with the reading `last`. With less than 2^32 ms since prevMillis,
        the time counted is what the clock was set to plus the whole seconds up to there. The
        result is that time, whether there is no provider, none due or one without an answer;
        a provider with an answer is taken instead exactly when the time counted has reached
        nextSyncTime. */
    method Now(readings: seq<nat>, provider: Option<uint32>, setReading: nat)
        returns (t: uint32, ghost last: nat)
      requires Valid() && readings != [] && Nondecreasing(readings)
      requires seen <= readings[0] && readings[|readings| - 1] <= setReading
      modifies this
      ensures Valid() && t == sysTime && syncInterval == old(syncInterval) && last in readings
      ensures readings[|readings| - 1] - old(prevTrue) < B32 ==>
                t == TimeShown(Wrap32(old(setValue) + (last - old(setTrue)) / 1000), old(nextSyncTime), provider)
      ensures |readings| == 1 ==>
                var seconds := SecondsSeen(last - old(prevTrue));
                t == TimeShown(Wrap32(old(setValue) + old(counted) + seconds), old(nextSyncTime), provider)
      ensures readings[|readings| - 1] - old(prevTrue) < B32 ==>
                InStep() && t == Wrap32(setValue + (seen - setTrue) / 1000)
      ensures || (&& provider.Some? && provider.value != 0
                  && t == provider.value == setValue && setTrue == seen == setReading
                  && status == TimeSet && nextSyncTime == Add32(t, syncInterval))
              || (&& (provider.Some? && provider.value != 0 ==>
                        old(nextSyncTime) > t && unchanged(`status, `nextSyncTime))
                  && seen == last && unchanged(`setTrue, `setValue)
                  && (|readings| == 1 && old(InStep()) ==> (Exact() <==> Under(setTrue, old(seen), seen)))
                  && (|readings| == 1 && seen - old(prevTrue) >= B32 ==> Lost()))
      ensures provider == None || (provider == Some(0) && old(nextSyncTime) > t) ==>
                unchanged(`setTrue, `setValue, `status, `nextSyncTime)
      ensures provider == Some(0) && old(nextSyncTime) <= t ==>
                && unchanged(`setTrue, `setValue) && nextSyncTime == Add32(t, syncInterval)
                && status == (if old(status) == TimeNotSet then TimeNotSet else TimeNeedsSync)
    {
      CountUp(readings);
      last := seen;
      Sync(provider, setReading);
      t := sysTime;
    }
  }

  /** The time that a call shows when it has counted up to `counted`. */
  function TimeShown(counted: uint32, nextSyncTime: uint32, provider: Option<uint32>): uint32 {
    if provider.Some? && provider.value != 0 && nextSyncTime <= counted then provider.value else counted
  }

  /** millis() at a true time. */
  method Millis(reading: nat) returns (counter: uint32, ghost turns: nat)
    ensures reading == counter + 0x1_0000_0000 * turns && counter == Wrap32(reading)
  {
    counter := Wrap32(reading);
    turns := reading / 0x1_0000_0000;
  }

  /** Subtracting the counters gives the gap between the true times less whole turns. */
  lemma GapShown(counter: uint32, turns: int, prev: uint32, prevTurns: int) returns (gap: nat)
    requires prev + 0x1_0000_0000 * prevTurns <= counter + 0x1_0000_0000 * turns
    ensures gap == counter + 0x1_0000_0000 * turns - (prev + 0x1_0000_0000 * prevTurns)
    ensures Sub32(counter, prev) <= gap && (gap < 0x1_0000_0000 ==> gap == Sub32(counter, prev))
    ensures Sub32(counter, prev) / 1000 == SecondsSeen(gap)
  {
    gap := counter + 0x1_0000_0000 * turns - (prev + 0x1_0000_0000 * prevTurns);
    var d := turns - prevTurns - if counter < prev then 1 else 0;
    assert gap == Sub32(counter, prev) + d * 0x1_0000_0000;
    WrapIs(gap, Sub32(counter, prev), d);
    assert d <= -1 ==> d * 0x1_0000_0000 <= -0x1_0000_0000;
    assert d >= 1 ==> d * 0x1_0000_0000 >= 0x1_0000_0000;
  }

  lemma WholeSeconds(start: nat, counted: nat, seen: nat)
    requires 0 <= seen - (start + 1000 * counted) < 1000
    ensures counted == (seen - start) / 1000
  {}

  lemma WholeSecondsOnly(start: nat, counted: nat, seen: nat)
    requires seen - (start + 1000 * counted) >= 1000
    ensures counted != (seen - start) / 1000
  {}

  /** The part of a second that is not counted yet, when the clock is in step. */
  lemma Uncounted(start: nat, counted: nat, seen: nat)
    requires 0 <= seen - (start + 1000 * counted) < 1000
    ensures seen - (start + 1000 * counted) == (seen - start) % 1000
  {
    WholeSeconds(start, counted, seen);
  }

  /** Between a reading at `from` and one at `to` pass less than 2^32 ms, the part of a
      second that `from` left uncounted included. */
  ghost predicate Under(setTrue: nat, from: nat, to: nat) {
    to - from + (from - setTrue) % 1000 < B32
  }

  /** The reading that the i-th of the calls follows. */
  ghost function Before(start: nat, times: seq<nat>, i: nat): nat
    requires i <= |times|
  {
    if i == 0 then start else times[i - 1]
  }

  ghost predicate Ascending(start: nat, times: seq<nat>) {
    forall i | 0 <= i < |times| :: Before(start, times, i) <= times[i]
  }

  /** Any number of calls with one reading each, across any number of counter wraps: the
      clock ends up at what it was set to plus the whole seconds since, without drift,
      exactly when each call comes within 2^32 ms of the second last counted. */
  method Poll(clock: SystemClock, times: seq<nat>) returns (t: uint32)
    requires clock.Valid() && clock.InStep()
    requires times != [] && Ascending(clock.seen, times)
    modifies clock
    ensures clock.Valid() && clock.setTrue == old(clock.setTrue) && clock.setValue == old(clock.setValue)
    ensures clock.seen == times[|times| - 1] && t == clock.sysTime == Wrap32(clock.setValue + clock.counted)
    ensures clock.counted == (clock.seen - clock.setTrue) / 1000 <==>
            forall i | 0 <= i < |times| :: Under(clock.setTrue, Before(old(clock.seen), times, i), times[i])
  {
    t := clock.sysTime;
    ghost var start, setTrue := clock.seen, clock.setTrue;
    ghost var ok := true;
    for i := 0 to |times|
      invariant clock.Valid() && clock.setTrue == setTrue && clock.setValue == old(clock.setValue)
      invariant clock.seen == Before(start, times, i) >= setTrue
      invariant if ok then clock.InStep() else clock.Lost()
      invariant ok <==> forall j | 0 <= j < i :: Under(setTrue, Before(start, times, j), times[j])
      invariant t == clock.sysTime
    {
      ok := ok && Under(setTrue, clock.seen, times[i]);
      t := PollReading(clock, times[i]);
    }
    WrapIs(clock.setValue + clock.counted, clock.sysTime, clock.sysTurns);
    if !ok {
      WholeSecondsOnly(setTrue, clock.counted, clock.seen);
    }
  }

  /** A call with one reading keeps the clock in step exactly when it comes in time; what is
      lost stays lost. */
  method PollReading(clock: SystemClock, reading: nat) returns (t: uint32)
    requires clock.Valid() && (clock.InStep() || clock.Lost())
    requires clock.setTrue <= clock.seen <= reading
    modifies clock
    ensures clock.Valid() && clock.setTrue == old(clock.setTrue) && clock.setValue == old(clock.setValue)
    ensures clock.seen == reading && t == clock.sysTime == Wrap32(clock.setValue + clock.counted)
    ensures if old(clock.InStep()) && Under(clock.setTrue, old(clock.seen), reading)
            then clock.InStep() else clock.Lost()
  {
    if clock.InStep() {
      Uncounted(clock.setTrue, clock.counted, clock.seen);
    }
    ghost var last;
    t, last := clock.Now([reading], None, reading);
    WrapIs(clock.setValue + clock.counted, clock.sysTime, clock.sysTurns);
  }

  /** The same for calls that may read the counter several times: it is enough that the
      last reading of each comes within 2^32 ms of the second last counted at the first
      reading of the call before. */
  method PollRereading(clock: SystemClock, calls: seq<seq<nat>>) returns (t: uint32)
    requires clock.Valid() && clock.InStep()
    requires calls != [] && forall i | 0 <= i < |calls| :: calls[i] != [] && Nondecreasing(calls[i])
    requires clock.seen <= calls[0][0]
    requires forall i | 0 < i < |calls| :: calls[i - 1][|calls[i - 1]| - 1] <= calls[i][0]
    requires forall i | 0 <= i < |calls| ::
               var from := if i == 0 then clock.seen else calls[i - 1][0];
               Under(clock.setTrue, from, calls[i][|calls[i]| - 1])
    modifies clock
    ensures clock.setTrue == old(clock.setTrue) && clock.setValue == old(clock.setValue)
    ensures clock.InStep() && clock.seen in calls[|calls| - 1]
    ensures t == Wrap32(clock.setValue + (clock.seen - clock.setTrue) / 1000)
  {
    t := clock.sysTime;
    for i := 0 to |calls|
      invariant clock.Valid() && clock.InStep()
      invariant i > 0 ==> old(clock.setTrue) <= calls[i - 1][0]
      invariant if i == 0 then clock.seen == old(clock.seen) else clock.seen in calls[i - 1]
      invariant clock.setTrue == old(clock.setTrue) && clock.setValue == old(clock.setValue)
      invariant i > 0 ==> t == Wrap32(clock.setValue + (clock.seen - clock.setTrue) / 1000)
    {
      ghost var from := if i == 0 then clock.seen else calls[i - 1][0];
      if i > 0 {
        FirstIsLeast(calls[i - 1], clock.seen);
      }
      t := PollOnce(clock, calls[i], from);
    }
  }

  method PollOnce(clock: SystemClock, readings: seq<nat>, ghost from: nat) returns (t: uint32)
    requires clock.Valid() && clock.InStep()
    requires readings != [] && Nondecreasing(readings) && clock.seen <= readings[0]
    requires clock.setTrue <= from <= clock.seen && Under(clock.setTrue, from, readings[|readings| - 1])
    modifies clock
    ensures clock.Valid() && clock.InStep() && clock.seen in readings
    ensures clock.setTrue == old(clock.setTrue) && clock.setValue == old(clock.setValue)
    ensures t == Wrap32(clock.setValue + (clock.seen - clock.setTrue) / 1000)
  {
    Uncounted(clock.setTrue, clock.counted, clock.seen);
    FloorsOrdered(clock.setTrue, from, clock.seen);
    ghost var last;
    t, last := clock.Now(readings, None, readings[|readings| - 1]);
  }

  lemma FirstIsLeast(readings: seq<nat>, x: nat)
    requires Nondecreasing(readings) && x in readings
    ensures readings[0] <= x <= readings[|readings| - 1]
  {}

  lemma FloorsOrdered(start: nat, a: nat, b: nat)
    requires start <= a <= b
    ensures a - (a - start) % 1000 <= b - (b - start) % 1000
  {}

  /** Calls less than 2^32 ms apart are not enough: here 4294968 s pass and none is counted,
      because 999 ms were left uncounted by the call before. */
  method DriftUnderOneTurn() returns (clock: SystemClock)
    ensures clock.setTrue == 0 && clock.seen == 999 + (B32 - 1) && clock.counted == 0
    ensures (clock.seen - clock.setTrue) / 1000 == 4294968
  {
    clock := new SystemClock();
    clock.SetTime(0, 0);
    var t, last := clock.Now([999], None, 999);
    t, last := clock.Now([999 + (B32 - 1)], None, 999 + (B32 - 1));
  }
}
