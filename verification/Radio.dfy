/** The radio side of the firmware: the state flags of sim800.cpp and the connection
    handling of GsmMqttClient.cpp. Replies of the modem and of the broker are
    nondeterministic; the wire format is in MqttClient. */
module Radio {
  import opened Flow
  import opened MeterCore
  import opened Store
  import opened Words

  const STATE_NONE: bv8 := 0
  const STATE_INITIALIZED: bv8 := 2
  const STATE_REGISTERED: bv8 := 4
  const STATE_TCPCONNECTED: bv8 := 16

  const SIM_INIT_TRIES: nat := 10
  const RADIO_RETRY_MAX: nat := 3

  /** The reply to an AT command: as expected or not. */
  method Reply() returns (ok: bool) {
    ok := *;
  }

  class Sim800 {
    var state: bv8

    predicate IsInitialized()
      reads this
    {
      state & STATE_INITIALIZED != 0
    }

    predicate IsRegistered()
      reads this
    {
      state & STATE_REGISTERED != 0
    }

    predicate IsTcpConnected()
      reads this
    {
      state & STATE_TCPCONNECTED != 0
    }

    /** Neither attached to the network nor connected. */
    predicate Detached()
      reads this
    {
      !IsRegistered() && !IsTcpConnected()
    }

    /** As a global object, the modem starts with every flag clear. */
    constructor ()
      ensures Detached() && !IsInitialized()
    {
      state := STATE_NONE;
    }

    /** init(): all flags are dropped first; the baud rate is then found or not. */
    method Init() returns (ok: bool)
      modifies this
      ensures Detached() && ok == IsInitialized()
    {
      state := STATE_NONE;
      ok := Reply();
      if !ok {
        ok := Reply();
      }
      if ok {
        state := state | STATE_INITIALIZED;
      } else {
        state := state & !STATE_INITIALIZED;
      }
    }

    method TcpStart() returns (ok: bool)
      modifies this
      ensures IsTcpConnected() == old(IsTcpConnected()) && IsInitialized() == old(IsInitialized())
      ensures ok ==> IsRegistered()
      ensures !ok ==> state == old(state)
    {
      var attached := Reply();
      if !attached {
        attached := Reply();
        if !attached {
          return false;
        }
      }
      var configured := Reply();
      if !configured {
        return false;
      }
      var address := Reply();
      if address {
        state := state | STATE_REGISTERED;
        return true;
      }
      return false;
    }

    /** TCPstop(): the flags go first, whatever the modem then replies. */
    method TcpStop() returns (ok: bool)
      modifies this
      ensures Detached() && IsInitialized() == old(IsInitialized())
    {
      state := state & !STATE_REGISTERED;
      state := state & !STATE_TCPCONNECTED;
      ok := Reply();
    }

    method TcpConnect() returns (ok: bool)
      modifies this
      ensures ok ==> IsTcpConnected() && IsRegistered() && old(IsRegistered())
      ensures IsInitialized() == old(IsInitialized())
      ensures !ok ==> state == old(state)
    {
      if IsRegistered() {
        var accepted := Reply();
        if !accepted {
          return false;
        }
        var connected := Reply();
        if connected {
          state := state | STATE_TCPCONNECTED;
          return true;
        }
      }
      return false;
    }

    method Stop()
      modifies this
      ensures !IsTcpConnected() && IsRegistered() == old(IsRegistered())
      ensures IsInitialized() == old(IsInitialized())
    {
      state := state & !STATE_TCPCONNECTED;
    }
  }

  // ----- what the radio does, in order -----

  datatype Event = Connected | Published(ok: bool) | Disconnected

  /** The last connect has not been followed by a disconnect. */
  ghost predicate SessionOpen(log: seq<Event>) {
    log != [] && match log[|log| - 1] {
      case Connected => true
      case Disconnected => false
      case Published(_) => SessionOpen(log[..|log| - 1])
    }
  }

  /** Every publish happens inside a session. */
  ghost predicate Disciplined(log: seq<Event>) {
    forall k | 0 <= k < |log| && log[k].Published? :: SessionOpen(log[..k])
  }

  lemma Extended(log: seq<Event>, e: Event)
    requires Disciplined(log) && (e.Published? ==> SessionOpen(log))
    ensures Disciplined(log + [e])
    ensures SessionOpen(log + [e]) <==> e != Disconnected
  {
    var next := log + [e];
    assert next[..|log|] == log;
    forall k | 0 <= k < |next| && next[k].Published?
      ensures SessionOpen(next[..k])
    {
      if k < |log| {
        assert next[..k] == log[..k];
      }
    }
  }

  class GsmMqttClient {
    const modem: Sim800
    const meter: Meter
    const authConfigured: bool
    ghost var log: seq<Event>

    ghost predicate Valid()
      reads this, meter, meter.flow, meter.store, meter.store.eeprom
    {
      meter.Valid() && Disciplined(log)
    }

    constructor (meter: Meter, authConfigured: bool)
      requires meter.Valid()
      ensures Valid() && this.meter == meter && this.authConfigured == authConfigured
      ensures fresh(modem) && modem.Detached() && log == []
    {
      this.meter, this.authConfigured, log := meter, authConfigured, [];
      modem := new Sim800();
    }

    /** The yield hook: service() at whatever time, with whatever pulses. */
    method Yield()
      requires Valid()
      modifies meter, meter.flow, meter.store, meter.store.eeprom
      ensures Valid() && meter.flow.seen >= old(meter.flow.seen)
    {
      var call: ServiceCall := *;
      meter.Service(call);
    }

    /** wait(): yields any number of times. */
    method Wait()
      requires Valid()
      modifies meter, meter.flow, meter.store, meter.store.eeprom
      ensures Valid() && meter.flow.seen >= old(meter.flow.seen)
    {
      var n: nat :| 0 <= n;
      for i := 0 to n
        invariant Valid() && meter.flow.seen >= old(meter.flow.seen)
      {
        Yield();
      }
    }

    /** begin(): however it ends, the modem is left detached. It is given up only after ten
        tries. */
    method Begin() returns (ok: bool, ghost tries: nat)
      requires Valid() && modem.Detached()
      modifies modem, meter, meter.flow, meter.store, meter.store.eeprom
      ensures Valid() && modem.Detached() && (ok ==> modem.IsInitialized())
      ensures meter.flow.seen >= old(meter.flow.seen)
      ensures 1 <= tries <= 10 && (!modem.IsInitialized() ==> tries == 10)
    {
      tries := 0;
      for i := 0 to SIM_INIT_TRIES
        invariant Valid() && modem.Detached() && tries == i && (i > 0 ==> !modem.IsInitialized())
        invariant meter.flow.seen >= old(meter.flow.seen)
      {
        Yield();
        tries := tries + 1;
        var found := modem.Init();
        if found {
          break;
        }
        Wait();
      }
      if !modem.IsInitialized() {
        return false, tries;
      }
      modem.Stop();
      var stopped := modem.TcpStop();
      ok := Reply();
    }

    /** PubSubClient::connect(), as far as the flags go: the broker accepts, or the
        connection is stopped again. */
    method MqttConnect() returns (ok: bool)
      modifies modem
      ensures ok ==> modem.IsTcpConnected() && authConfigured
      ensures modem.IsInitialized() == old(modem.IsInitialized())
    {
      if !authConfigured {
        return false;
      }
      if !modem.IsTcpConnected() {
        var reached := modem.TcpConnect();
        if reached {
          var accepted := Reply();
          if accepted {
            return true;
          }
          modem.Stop();
        }
        return false;
      }
      return true;
    }

    /** connect(): up to three tries, all of them before it fails; success opens a session, failure leaves the modem
        detached. */
    method Connect() returns (ok: bool, attempt: nat)
      requires Valid() && modem.Detached()
      modifies modem, `log, meter, meter.flow, meter.store, meter.store.eeprom
      ensures Valid() && modem.IsInitialized() == old(modem.IsInitialized())
      ensures meter.flow.seen >= old(meter.flow.seen)
      ensures authConfigured ==> 1 <= attempt <= 3 && (!ok ==> attempt == 3)
      ensures ok ==> modem.IsTcpConnected() && log == old(log) + [Connected] && SessionOpen(log)
      ensures !ok ==> modem.Detached() && log == old(log)
      ensures !authConfigured ==> !ok && attempt == 0
    {
      attempt := 0;
      if !authConfigured {
        return false, 0;
      }
      while attempt < RADIO_RETRY_MAX
        invariant Valid() && modem.Detached() && log == old(log) && attempt <= RADIO_RETRY_MAX
        invariant modem.IsInitialized() == old(modem.IsInitialized()) && meter.flow.seen >= old(meter.flow.seen)
      {
        attempt := attempt + 1;
        Yield();
        var started := modem.TcpStart();
        var up := false;
        if started {
          Yield();
          up := MqttConnect();
          if up {
            Extended(log, Connected);
            log := log + [Connected];
            return true, attempt;
          }
          modem.Stop();
        }
        var stopped := modem.TcpStop();
        Wait();
      }
      ok := false;
    }

    /** disconnect(): ends the session and leaves the modem detached. */
    method Disconnect()
      requires Valid()
      modifies modem, `log
      ensures Valid() && modem.Detached() && log == old(log) + [Disconnected] && !SessionOpen(log)
      ensures modem.IsInitialized() == old(modem.IsInitialized())
    {
      if modem.IsTcpConnected() {
        modem.Stop();
      }
      modem.Stop();
      var stopped := modem.TcpStop();
      Extended(log, Disconnected);
      log := log + [Disconnected];
    }

    /** Any of the three publishes; none gets through without the link. */
    method Publish() returns (ok: bool)
      requires Valid() && SessionOpen(log)
      modifies `log
      ensures Valid() && log == old(log) + [Published(ok)] && SessionOpen(log)
      ensures ok ==> modem.IsTcpConnected()
    {
      ok := false;
      if modem.IsTcpConnected() {
        ok := Reply();
      }
      Extended(log, Published(ok));
      log := log + [Published(ok)];
    }

    /** loop(): the link may be lost, and a command or a fingerprint may come in. */
    method Loop()
      requires Valid()
      modifies modem, meter, meter.store, meter.store.eeprom
      ensures Valid() && (!old(meter.store.dirty) ==> !meter.store.dirty)
    {
      var lost := Reply();
      if lost {
        modem.Stop();
      } else {
        var cmd: Command := *;
        var now: uint32 := *;
        meter.OnCommand(cmd, now);
        var fingerprint := Reply();
        if fingerprint {
          var params: Params := *;
          meter.OnFingerprint(params);
        }
      }
    }
  }
}
