/** tick() and begin() of WaterboxFsm.cpp: the seven-state radio cycle around the meter. */
module Fsm {
  import opened MeterCore
  import opened Radio
  import opened Store
  import opened Words

  const PUBLISH_INTERVAL_MS: uint32 := 60000
  const HEARTBEAT_INTERVAL_MS: uint32 := 3600000
  const CMD_LISTEN_MS: uint32 := 8000
  const SIM_RETRY_MS: uint32 := 30000

  datatype State = HaltAuth | WaitModem | Idle | Connect | Publish | Listen | Disconnect

  /** The states of an open session. */
  predicate InSession(s: State) {
    s == Publish || s == Listen || s == Disconnect
  }

  /** The edges of the cycle. */
  predicate Edge(a: State, b: State) {
    match a
    case HaltAuth => b == HaltAuth
    case WaitModem => b == WaitModem || b == Idle
    case Idle => b == Idle || b == Connect
    case Connect => b == Publish || b == Idle
    case Publish => b == Listen
    case Listen => b == Listen || b == Disconnect
    case Disconnect => b == Idle
  }

  /** After `before`, n publishes follow in the log. */
  ghost predicate Publishes(before: seq<Event>, log: seq<Event>, n: nat) {
    && |log| == |before| + n && log[..|before|] == before
    && forall k | |before| <= k < |log| :: log[k].Published?
  }

  lemma PublishesOn(before: seq<Event>, log: seq<Event>, n: nat, ok: bool)
    requires Publishes(before, log, n)
    ensures var more := log + [Published(ok)];
            && Publishes(before, more, n + 1) && more[|log|] == Published(ok)
            && forall k | 0 <= k < |log| :: more[k] == log[k]
  {}

  /** The state and the timers, with the log and the flags of the modem. */
  datatype Moment = Moment(
    state: State, lastPublishMs: uint32, lastHeartbeatMs: uint32, listenStartMs: uint32, lastModemTryMs: uint32,
    log: seq<Event>, modem: bv8)

  class WaterboxFsm {
    const meter: Meter
    const radio: GsmMqttClient
    var state: State
    var lastPublishMs: uint32
    var lastHeartbeatMs: uint32
    var listenStartMs: uint32
    var lastModemTryMs: uint32

    /** Between ticks: the meter's promises, publishes only inside sessions, a session open
        exactly in its three states, and a detached modem in all others. */
    ghost predicate Valid()
      reads this, radio, radio.modem, meter, meter.flow, meter.store, meter.store.eeprom
    {
      && radio.meter == meter && radio.Valid()
      && (InSession(state) <==> SessionOpen(radio.log))
      && (!InSession(state) ==> radio.modem.Detached())
      && (!radio.authConfigured ==> state == HaltAuth)
    }

    /** begin() */
    constructor (eeprom: array<uint8>, pulsesPerLiter: uint16, authConfigured: bool, now: uint32)
      requires eeprom.Length == EEPROM_SIZE
      ensures Valid() && meter.store.eeprom == eeprom && meter.flow.seen == 0
      ensures state == (if authConfigured then WaitModem else HaltAuth) && radio.log == []
      ensures radio.authConfigured == authConfigured
      ensures fresh(meter) && fresh(meter.flow) && fresh(meter.store) && fresh(radio) && fresh(radio.modem)
    {
      var core := new Meter(eeprom, pulsesPerLiter, now);
      meter := core;
      radio := new GsmMqttClient(core, authConfigured);
      lastPublishMs, lastHeartbeatMs, listenStartMs := 0, 0, 0;
      lastModemTryMs := if authConfigured then Sub32(now, SIM_RETRY_MS) else 0;
      state := if authConfigured then WaitModem else HaltAuth;
    }

    ghost function Now(): Moment
      reads this, radio, radio.modem
    {
      Moment(state, lastPublishMs, lastHeartbeatMs, listenStartMs, lastModemTryMs, radio.log, radio.modem.state)
    }

    /** What the switch of tick() does, apart from the meter: one edge of the cycle, with what
        it sends and the tries of a Connect tick, all three before it fails; the timers, which
        change nowhere but where they are named; and the save after telemetry. */
    ghost predicate Acted(was: Moment, now: uint32, later: uint32, attempts: nat)
      reads this, radio, radio.modem, meter.store
    {
      var started := was.state == WaitModem && state == Idle;
      var tried := was.state == WaitModem && Sub32(now, was.lastModemTryMs) >= SIM_RETRY_MS;
      var heartbeat := was.state == Publish && Sub32(now, was.lastHeartbeatMs) >= HEARTBEAT_INTERVAL_MS;
      && Edge(was.state, state) && (started ==> tried)
      && (was.state == Idle ==> (state == Connect <==> Sub32(now, was.lastPublishMs) >= PUBLISH_INTERVAL_MS))
      && (was.state == Listen ==> (state == Disconnect <==> Sub32(now, was.listenStartMs) >= CMD_LISTEN_MS))
      && (attempts == 0 || (was.state == Connect && 1 <= attempts <= 3 && (state == Idle ==> attempts == 3)))
      && (was.state == HaltAuth ==> radio.modem.state == was.modem)
      && (match was.state
          case Connect => radio.log == was.log + if state == Publish then [Connected] else []
          case Publish => Publishes(was.log, radio.log, if heartbeat then 3 else 2)
          case Disconnect => radio.log == was.log + [Disconnected]
          case _ => radio.log == was.log)
      && lastPublishMs == (if started then Sub32(now, PUBLISH_INTERVAL_MS)
                           else if was.state == Connect && state == Idle then now
                           else if was.state == Disconnect then later
                           else was.lastPublishMs)
      && lastHeartbeatMs == (if started then Sub32(now, HEARTBEAT_INTERVAL_MS)
                             else if heartbeat && radio.log[|radio.log| - 1].ok then now
                             else was.lastHeartbeatMs)
      && listenStartMs == (if was.state == Publish then later else was.listenStartMs)
      && lastModemTryMs == (if tried then now else was.lastModemTryMs)
      && (was.state == Publish && radio.log[|was.log| + 1].ok ==>
            !meter.store.dirty && meter.store.lastSaveMs == later)
    }

    /** The switch of tick(). */
    method Act(now: uint32, later: uint32) returns (attempts: nat)
      requires Valid()
      modifies this, radio, radio.modem, meter, meter.flow, meter.store, meter.store.eeprom
      ensures Valid()
      ensures old(state) == Idle || old(state) == HaltAuth || old(state) == Disconnect ==>
                unchanged(meter, meter.flow, meter.store, meter.store.eeprom)
      ensures old(state) == Publish || old(state) == Listen ==>
                unchanged(meter.flow) && (!old(meter.store.dirty) ==> !meter.store.dirty)
      ensures Acted(old(Now()), now, later, attempts) && meter.flow.seen >= old(meter.flow.seen)
    {
      attempts := 0;
      match state {
        case HaltAuth =>
        case WaitModem =>
          TryModem(now, later);
        case Idle =>
          if Sub32(now, lastPublishMs) >= PUBLISH_INTERVAL_MS {
            state := Connect;
          }
        case Connect =>
          attempts := TryConnect(now, later);
        case Publish =>
          PublishAll(now, later);
        case Listen =>
          ListenOn(now, later);
        case Disconnect =>
          EndSession(now, later);
      }
    }

    /** tick(), with the readings of its service() and its own. Where the radio does not wait,
        pulses are counted and stored just as service() says, but that a publish or a command
        may save more. */
    method Tick(service: ServiceCall, now: uint32, later: uint32) returns (attempts: nat)
      requires Valid()
      modifies this, radio, radio.modem, meter, meter.flow, meter.store, meter.store.eeprom
      ensures Valid()
      ensures old(state) == Idle || old(state) == HaltAuth || old(state) == Disconnect ==> meter.Serviced(service)
      ensures old(state) == Publish || old(state) == Listen ==>
                && meter.flow.seen == old(meter.flow.seen) + service.bursts.Sum()
                && (Sub32(service.askedAt, old(meter.store.lastSaveMs)) >= 60000 ==> !meter.store.dirty)
      ensures Acted(old(Now()), now, later, attempts) && meter.flow.seen >= old(meter.flow.seen) + service.bursts.Sum()
    {
      meter.Service(service);
      attempts := Act(now, later);
    }

    /** A WaitModem tick: when the modem starts, a publish and a heartbeat are due at once. */
    method TryModem(now: uint32, ghost later: uint32)
      requires Valid() && state == WaitModem
      modifies `state, `lastPublishMs, `lastHeartbeatMs, `lastModemTryMs
      modifies radio.modem, meter, meter.flow, meter.store, meter.store.eeprom
      ensures Valid() && Acted(old(Now()), now, later, 0) && meter.flow.seen >= old(meter.flow.seen)
      ensures state == Idle ==>
                && lastPublishMs == Sub32(now, PUBLISH_INTERVAL_MS)
                && lastHeartbeatMs == Sub32(now, HEARTBEAT_INTERVAL_MS)
                && Sub32(now, old(lastModemTryMs)) >= SIM_RETRY_MS
      ensures state == WaitModem ==> unchanged(`lastPublishMs, `lastHeartbeatMs)
      ensures lastModemTryMs == if Sub32(now, old(lastModemTryMs)) >= SIM_RETRY_MS then now else old(lastModemTryMs)
    {
      if Sub32(now, lastModemTryMs) >= SIM_RETRY_MS {
        lastModemTryMs := now;
        var ok, tries := radio.Begin();
        if ok {
          lastPublishMs := Sub32(now, PUBLISH_INTERVAL_MS);
          lastHeartbeatMs := Sub32(now, HEARTBEAT_INTERVAL_MS);
          state := Idle;
        }
      }
    }

    /** A Connect tick. */
    method TryConnect(now: uint32, ghost later: uint32) returns (attempts: nat)
      requires Valid() && state == Connect
      modifies `state, `lastPublishMs
      modifies radio`log, radio.modem, meter, meter.flow, meter.store, meter.store.eeprom
      ensures Valid() && Acted(old(Now()), now, later, attempts) && meter.flow.seen >= old(meter.flow.seen)
      ensures 1 <= attempts <= 3 && (state == Idle ==> attempts == 3)
      ensures radio.log == old(radio.log) + if state == Publish then [Connected] else []
      ensures lastPublishMs == if state == Idle then now else old(lastPublishMs)
    {
      var ok;
      ok, attempts := radio.Connect();
      if ok {
        state := Publish;
      } else {
        lastPublishMs := now;
        state := Idle;
      }
    }

    /** The publishes of a Publish tick: info, telemetry with a save when it got through, and
        a heartbeat when one is due, which is put off until one gets through. */
    method PublishAll(now: uint32, later: uint32)
      requires Valid() && state == Publish
      modifies `state, `listenStartMs, `lastHeartbeatMs, radio`log, meter.store, meter.store.eeprom
      ensures Valid() && state == Listen && listenStartMs == later
      ensures var due := Sub32(now, old(lastHeartbeatMs)) >= HEARTBEAT_INTERVAL_MS;
              && Publishes(old(radio.log), radio.log, if due then 3 else 2)
              && lastHeartbeatMs == if due && radio.log[|radio.log| - 1].ok then now else old(lastHeartbeatMs)
      ensures radio.log[|old(radio.log)| + 1].ok ==> !meter.store.dirty && meter.store.lastSaveMs == later
      ensures !old(meter.store.dirty) ==> !meter.store.dirty
    {
      ghost var before := radio.log;
      var telemetry := PublishReadings(later);
      var due, heartbeat := PublishHeartbeat(now, before);
      listenStartMs := later;
      state := Listen;
    }

    method PublishHeartbeat(now: uint32, ghost before: seq<Event>) returns (due: bool, heartbeat: bool)
      requires Valid() && state == Publish && Publishes(before, radio.log, 2)
      modifies `lastHeartbeatMs, radio`log
      ensures Valid() && due == (Sub32(now, old(lastHeartbeatMs)) >= HEARTBEAT_INTERVAL_MS)
      ensures Publishes(before, radio.log, if due then 3 else 2)
      ensures radio.log[|before| + 1] == old(radio.log)[|before| + 1]
      ensures lastHeartbeatMs == if due && radio.log[|radio.log| - 1].ok then now else old(lastHeartbeatMs)
    {
      due, heartbeat := Sub32(now, lastHeartbeatMs) >= HEARTBEAT_INTERVAL_MS, false;
      if due {
        ghost var log := radio.log;
        heartbeat := radio.Publish();
        PublishesOn(before, log, 2, heartbeat);
        if heartbeat {
          lastHeartbeatMs := now;
        }
      }
    }

    method PublishReadings(later: uint32) returns (telemetry: bool)
      requires Valid() && state == Publish
      modifies radio`log, meter.store, meter.store.eeprom
      ensures Valid() && Publishes(old(radio.log), radio.log, 2) && radio.log[|old(radio.log)| + 1].ok == telemetry
      ensures if telemetry then !meter.store.dirty && meter.store.lastSaveMs == later
              else unchanged(meter.store, meter.store.eeprom)
    {
      ghost var before := radio.log;
      var info := radio.Publish();
      PublishesOn(before, before, 0, info);
      ghost var log := radio.log;
      telemetry := radio.Publish();
      PublishesOn(before, log, 1, telemetry);
      if telemetry {
        meter.PersistNow(later);
      }
    }

    /** A Listen tick. */
    method ListenOn(now: uint32, ghost later: uint32)
      requires Valid() && state == Listen
      modifies this`state, radio.modem, meter, meter.store, meter.store.eeprom
      ensures Valid() && Acted(old(Now()), now, later, 0) && (!old(meter.store.dirty) ==> !meter.store.dirty)
      ensures state == if Sub32(now, listenStartMs) >= CMD_LISTEN_MS then Disconnect else Listen
    {
      radio.Loop();
      if Sub32(now, listenStartMs) >= CMD_LISTEN_MS {
        state := Disconnect;
      }
    }

    /** A Disconnect tick. */
    method EndSession(ghost now: uint32, later: uint32)
      requires Valid() && state == Disconnect
      modifies `state, `lastPublishMs, radio`log, radio.modem
      ensures Valid() && Acted(old(Now()), now, later, 0) && state == Idle && lastPublishMs == later
      ensures radio.log == old(radio.log) + [Disconnected]
    {
      radio.Disconnect();
      lastPublishMs := later;
      state := Idle;
    }
  }

  /** The first of the times that is a given time or more after `from` on the wrapping
      counter; their number, if none is. */
  function FirstAfter(from: uint32, wait: uint32, times: seq<uint32>): (k: nat)
    ensures k <= |times|
  {
    if times == [] || Sub32(times[0], from) >= wait then 0 else 1 + FirstAfter(from, wait, times[1..])
  }

  lemma {:induction false} FirstAfterIs(from: uint32, wait: uint32, times: seq<uint32>, k: nat)
    requires k <= |times| && forall i | 0 <= i < k :: Sub32(times[i], from) < wait
    requires k < |times| ==> Sub32(times[k], from) >= wait
    ensures FirstAfter(from, wait, times) == k
  {
    if k > 0 {
      FirstAfterIs(from, wait, times[1..], k - 1);
    }
  }

  method TickIdle(fsm: WaterboxFsm, now: uint32)
    requires fsm.Valid() && fsm.state == Idle
    modifies fsm, fsm.radio, fsm.radio.modem, fsm.meter, fsm.meter.flow, fsm.meter.store, fsm.meter.store.eeprom
    ensures fsm.Valid() && fsm.radio.log == old(fsm.radio.log) && fsm.lastPublishMs == old(fsm.lastPublishMs)
    ensures fsm.state == if Sub32(now, fsm.lastPublishMs) >= 60000 then Connect else Idle
  {
    var service: ServiceCall := *;
    var attempts := fsm.Tick(service, now, now);
  }

  method TickListen(fsm: WaterboxFsm, now: uint32)
    requires fsm.Valid() && fsm.state == Listen
    modifies fsm, fsm.radio, fsm.radio.modem, fsm.meter, fsm.meter.flow, fsm.meter.store, fsm.meter.store.eeprom
    ensures fsm.Valid() && fsm.radio.log == old(fsm.radio.log) && fsm.listenStartMs == old(fsm.listenStartMs)
    ensures fsm.state == if Sub32(now, fsm.listenStartMs) >= 8000 then Disconnect else Listen
  {
    var service: ServiceCall := *;
    var attempts := fsm.Tick(service, now, now);
  }

  /** Ticks until Idle is left: that is at the first of them 60 s or more after Idle was
      entered, and at none before. */
  method IdleTicks(fsm: WaterboxFsm, times: seq<uint32>) returns (ticks: nat)
    requires fsm.Valid() && fsm.state == Idle
    modifies fsm, fsm.radio, fsm.radio.modem, fsm.meter, fsm.meter.flow, fsm.meter.store, fsm.meter.store.eeprom
    ensures fsm.Valid() && fsm.radio.log == old(fsm.radio.log)
    ensures var due := FirstAfter(old(fsm.lastPublishMs), 60000, times);
            if due < |times| then fsm.state == Connect && ticks == due + 1
            else fsm.state == Idle && ticks == |times|
  {
    ticks := 0;
    ghost var from := fsm.lastPublishMs;
    while fsm.state == Idle && ticks < |times|
      invariant fsm.Valid() && fsm.radio.log == old(fsm.radio.log) && ticks <= |times|
      invariant fsm.state == Idle || (fsm.state == Connect && ticks > 0)
      invariant fsm.lastPublishMs == from
      invariant var quiet := if fsm.state == Idle then ticks else ticks - 1;
                && (forall i | 0 <= i < quiet :: Sub32(times[i], from) < PUBLISH_INTERVAL_MS)
                && (fsm.state == Connect ==> Sub32(times[quiet], from) >= PUBLISH_INTERVAL_MS)
      decreases |times| - ticks
    {
      TickIdle(fsm, times[ticks]);
      ticks := ticks + 1;
    }
    FirstAfterIs(from, 60000, times, if fsm.state == Idle then ticks else ticks - 1);
  }

  /** Ticks until Listen is left: that is at the first of them 8 s or more after the
      publishes, and at none before. */
  method ListenTicks(fsm: WaterboxFsm, times: seq<uint32>) returns (ticks: nat)
    requires fsm.Valid() && fsm.state == Listen
    modifies fsm, fsm.radio, fsm.radio.modem, fsm.meter, fsm.meter.flow, fsm.meter.store, fsm.meter.store.eeprom
    ensures fsm.Valid() && fsm.radio.log == old(fsm.radio.log)
    ensures var due := FirstAfter(old(fsm.listenStartMs), 8000, times);
            if due < |times| then fsm.state == Disconnect && ticks == due + 1
            else fsm.state == Listen && ticks == |times|
  {
    ticks := 0;
    ghost var from := fsm.listenStartMs;
    while fsm.state == Listen && ticks < |times|
      invariant fsm.Valid() && fsm.radio.log == old(fsm.radio.log) && ticks <= |times|
      invariant fsm.state == Listen || (fsm.state == Disconnect && ticks > 0)
      invariant fsm.listenStartMs == from
      invariant var quiet := if fsm.state == Listen then ticks else ticks - 1;
                && (forall i | 0 <= i < quiet :: Sub32(times[i], from) < CMD_LISTEN_MS)
                && (fsm.state == Disconnect ==> Sub32(times[quiet], from) >= CMD_LISTEN_MS)
      decreases |times| - ticks
    {
      TickListen(fsm, times[ticks]);
      ticks := ticks + 1;
    }
    FirstAfterIs(from, 8000, times, if fsm.state == Listen then ticks else ticks - 1);
  }

  /** A step of a run: pulses between ticks, a tick, or a power cut and the boot after it. */
  datatype Step =
    | Pulses(n: nat)
    | OneTick(service: ServiceCall, now: uint32, later: uint32)
    | Cut(pulsesPerLiter: uint16, now: uint32)

  /** The pulses of the steps since the last boot, apart from those while the radio waits. */
  function PulsesSinceBoot(steps: seq<Step>): nat {
    if steps == [] then 0
    else
      var n := |steps| - 1;
      match steps[n]
      case Pulses(m) => PulsesSinceBoot(steps[..n]) + m
      case OneTick(service, _, _) => PulsesSinceBoot(steps[..n]) + service.bursts.Sum()
      case Cut(_, _) => 0
  }

  /** Any run from a boot, of steps in any order, whatever the modem and the broker do and
      however many pulses come within the ticks. At its end publishes have happened only
      inside sessions, the modem is detached in Idle and Connect, and a reboot would restore
      the valve and the signature exactly, the total exactly if the store is clean, and
      never more than was counted before a wrap. Without credentials the machine never
      leaves HaltAuth. Every pulse since the last boot is in the total or still waits to be
      taken. */
  method Run(eeprom: array<uint8>, pulsesPerLiter: uint16, authConfigured: bool, start: uint32, steps: seq<Step>)
      returns (fsm: WaterboxFsm)
    requires eeprom.Length == EEPROM_SIZE
    modifies eeprom
    ensures fsm.Valid() && fsm.meter.store.eeprom == eeprom
    ensures !authConfigured ==> fsm.state == HaltAuth && fsm.radio.log == []
    ensures Disciplined(fsm.radio.log)
    ensures fsm.state == Idle || fsm.state == Connect ==>
              !fsm.radio.modem.IsRegistered() && !fsm.radio.modem.IsTcpConnected()
    ensures var r := RestoredFrom(eeprom[..]);
            && r.valveOpen == fsm.meter.valveOpen && r.signature == fsm.meter.signature
            && (!fsm.meter.store.dirty ==> r.pulses == fsm.meter.flow.totalPulses)
            && (fsm.meter.flow.totalTurns == 0 ==> r.pulses <= fsm.meter.flow.totalPulses)
    ensures var flow := fsm.meter.flow;
            && flow.seen >= PulsesSinceBoot(steps)
            && flow.base + flow.seen == flow.totalPulses + flow.pulseCount + 0x1_0000_0000 * flow.turns
  {
    fsm := new WaterboxFsm(eeprom, pulsesPerLiter, authConfigured, start);
    for i := 0 to |steps|
      invariant fsm.Valid() && fsm.meter.store.eeprom == eeprom && fsm.radio.authConfigured == authConfigured
      invariant fresh(fsm) && fresh(fsm.meter) && fresh(fsm.meter.flow) && fresh(fsm.meter.store)
      invariant fresh(fsm.radio) && fresh(fsm.radio.modem)
      invariant !authConfigured ==> fsm.state == HaltAuth && fsm.radio.log == []
      invariant fsm.meter.flow.seen >= PulsesSinceBoot(steps[..i])
    {
      assert steps[..i + 1][..i] == steps[..i];
      match steps[i]
      case Pulses(n) =>
        fsm.meter.Pulses(n);
      case OneTick(service, now, later) =>
        var attempts := fsm.Tick(service, now, later);
      case Cut(ppl, now) =>
        fsm := new WaterboxFsm(eeprom, ppl, authConfigured, now);
    }
    assert steps[..|steps|] == steps;
  }
}
