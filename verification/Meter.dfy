/** The part of WaterboxFsm.cpp that counts, persists and obeys: service(), persistNow(),
    onCommand(), onFingerprint() and the restoring half of begin(). */
module MeterCore {
  import opened Flow
  import opened Store
  import opened Words
  import opened Wrappers

  const EEPROM_SAVE_MS: uint32 := 60000
  const FLOW_SAMPLE_MS: uint32 := 1000

  /** The bit patterns of 24.0f and 12.0f. */
  const SIG_T1_H: Float := 0x41C0_0000
  const SIG_T2_H: Float := 0x4140_0000

  datatype Command = CmdNone | CmdOn | CmdOff

  /** f <= 0.0f: a zero of either sign, a negative number or minus infinity, but no NaN. */
  predicate NotPositive(f: Float) {
    f == 0 || 0x8000_0000 <= f <= 0xFF80_0000
  }

  /** setParams(): periods that are not positive are replaced. */
  function Normalised(p: Params): Params {
    p.(t1 := if NotPositive(p.t1) then SIG_T1_H else p.t1,
       t2 := if NotPositive(p.t2) then SIG_T2_H else p.t2)
  }

  /** Exactly the periods that are not positive change, to 24 and 12 hours. */
  lemma NormalisedFields(p: Params)
    ensures var n := Normalised(p);
            && n.mean == p.mean && n.a1 == p.a1 && n.phi1 == p.phi1 && n.a2 == p.a2 && n.phi2 == p.phi2
            && n.t1 == (if p.t1 == 0 || 0x8000_0000 <= p.t1 <= 0xFF80_0000 then 0x41C0_0000 else p.t1)
            && n.t2 == (if p.t2 == 0 || 0x8000_0000 <= p.t2 <= 0xFF80_0000 then 0x4140_0000 else p.t2)
            && !NotPositive(n.t1) && !NotPositive(n.t2) && Normalised(n) == n
  {}

  /** What a boot finds in the memory. */
  datatype Restored = Restored(pulses: uint32, valveOpen: bool, signature: Option<Params>)

  function RestoredFrom(cells: Bytes): Restored
    requires |cells| == EEPROM_SIZE
  {
    var signature := match StoredFingerprint(cells)
      case None => None
      case Some(p) => Some(Normalised(p));
    match Stored(cells)
    case None => Restored(0, false, signature)
    case Some((pulses, valveOpen)) => Restored(pulses, valveOpen, signature)
  }

  /** The two loads of begin(). */
  method Restore(store: MeterStore, now: uint32) returns (restored: bool, r: Restored)
    requires store.Valid()
    modifies store
    ensures store.Valid() && r == RestoredFrom(store.eeprom[..]) && !store.dirty
    ensures !restored ==> r.pulses == 0 && !r.valveOpen
  {
    var image := store.Load(now);
    var fp := store.LoadFingerprint();
    restored := image.Some?;
    r := Restored(if restored then image.value.0 else 0, if restored then image.value.1 else false,
                  if fp.Some? then Some(Normalised(fp.value)) else None);
  }

  /** The clock readings of one service(): those of update(), of saveIfDue() and of save(); and
      the interrupts between the steps of update(). */
  datatype ServiceCall = ServiceCall(sampledAt: uint32, bursts: Bursts, askedAt: uint32, savedAt: uint32)

  class Meter {
    const flow: FlowMeter
    const store: MeterStore
    var valveOpen: bool
    var signature: Option<Params>

    /** Between steps, a boot from the memory as it is restores the valve and the signature
        exactly, and the total unless the store is dirty; as long as the total has not
        wrapped it never restores more than was counted. */
    ghost predicate Valid()
      reads this, flow, store, store.eeprom
    {
      && flow.Valid() && store.Valid() && !flow.dirty && flow.sampleMs == 1000
      && var r := RestoredFrom(store.eeprom[..]);
         && r.valveOpen == valveOpen && r.signature == signature
         && (!store.dirty ==> r.pulses == flow.totalPulses)
         && (flow.totalTurns == 0 ==> r.pulses <= flow.totalPulses)
    }

    /** begin(), up to the radio: whatever bytes the memory holds, a valid state. */
    constructor (eeprom: array<uint8>, pulsesPerLiter: uint16, now: uint32)
      requires eeprom.Length == EEPROM_SIZE
      ensures Valid() && fresh(flow) && fresh(store) && store.eeprom == eeprom && !store.dirty
      ensures RestoredFrom(eeprom[..]) == Restored(flow.totalPulses, valveOpen, signature)
      ensures eeprom[..] == old(eeprom[..]) && flow.seen == 0
    {
      valveOpen := false;
      signature := None;
      store := new MeterStore(eeprom, now);
      flow := new FlowMeter(pulsesPerLiter, FLOW_SAMPLE_MS, now);
      new;
      var restored, r := Restore(store, now);
      if restored {
        valveOpen := r.valveOpen;
        flow.SetTotalPulses(r.pulses);
      }
      signature := r.signature;
    }

    /** Any number of pulse interrupts, between steps. */
    method Pulses(n: nat)
      requires Valid()
      modifies flow
      ensures Valid() && flow.seen == old(flow.seen) + n && flow.taken == old(flow.taken)
      ensures flow.totalPulses == old(flow.totalPulses)
    {
      flow.Interrupts(n);
    }

    /** What one service() does to count and store, from its clock readings and interrupts:
        with a second since the last sample the pulses counted so far go to the total, and
        with a minute since the last save what is new is saved, and only then. */
    twostate predicate Serviced(call: ServiceCall)
      reads this, flow, store, store.eeprom
    {
      && flow.seen == old(flow.seen) + call.bursts.Sum() && flow.base == old(flow.base)
      && flow.taken == old(flow.taken) +
           (if Sub32(call.sampledAt, old(flow.oldTime)) >= 1000
            then CountOn(old(flow.pulseCount), call.bursts.early) else 0)
      && var unsaved := old(store.dirty) || flow.taken != old(flow.taken);
         if unsaved && Sub32(call.askedAt, old(store.lastSaveMs)) >= 60000
         then !store.dirty && store.lastSaveMs == call.savedAt
         else
           && store.dirty == unsaved && store.lastSaveMs == old(store.lastSaveMs)
           && store.eeprom[..] == old(store.eeprom[..])
    }

    /** service() */
    method Service(call: ServiceCall)
      requires Valid()
      modifies this, flow, store, store.eeprom
      ensures Valid() && valveOpen == old(valveOpen) && signature == old(signature)
      ensures Serviced(call)
    {
      flow.Update(call.sampledAt, call.bursts);
      var dirty := flow.ConsumeDirty();
      if dirty {
        store.MarkDirty();
      }
      var total := flow.totalPulses;
      store.SaveIfDue(total, valveOpen, EEPROM_SAVE_MS, call.askedAt, call.savedAt);
    }

    method PersistNow(now: uint32)
      requires flow.Valid() && store.Valid() && !flow.dirty && flow.sampleMs == 1000
      requires RestoredFrom(store.eeprom[..]).signature == signature
      modifies store, store.eeprom
      ensures Valid() && !store.dirty && store.lastSaveMs == now
      ensures store.eeprom[..8] == Image(flow.totalPulses, valveOpen)
      ensures store.eeprom[8..] == old(store.eeprom[8..])
    {
      store.Save(flow.totalPulses, valveOpen, now);
    }

    /** onCommand(): moves the valve and saves at once. */
    method OnCommand(cmd: Command, now: uint32)
      requires Valid()
      modifies this, store, store.eeprom
      ensures Valid() && signature == old(signature)
      ensures valveOpen == (if cmd == CmdNone then old(valveOpen) else cmd == CmdOn)
      ensures cmd != CmdNone ==> !store.dirty && store.lastSaveMs == now
      ensures cmd == CmdNone ==>
                store.dirty == old(store.dirty) && store.lastSaveMs == old(store.lastSaveMs) &&
                store.eeprom[..] == old(store.eeprom[..])
    {
      if cmd == CmdOn {
        valveOpen := true;
        PersistNow(now);
      } else if cmd == CmdOff {
        valveOpen := false;
        PersistNow(now);
      }
    }

    /** onFingerprint(): the parameters are saved as they came and used normalised. */
    method OnFingerprint(params: Params)
      requires Valid()
      modifies this, store.eeprom
      ensures Valid() && valveOpen == old(valveOpen) && signature == Some(Normalised(params))
    {
      signature := Some(Normalised(params));
      store.SaveFingerprint(params);
    }
  }

  /** Power is cut between two steps and comes back: the new meter, built from the memory
      alone, has the valve and the signature of the old one and, unless the old store was
      dirty, its total; it never has more than the old one counted before wrapping. */
  method PowerCut(meter: Meter, pulsesPerLiter: uint16, now: uint32) returns (booted: Meter)
    requires meter.Valid()
    ensures booted.Valid() && booted.store.eeprom == meter.store.eeprom
    ensures booted.valveOpen == meter.valveOpen && booted.signature == meter.signature
    ensures !meter.store.dirty ==> booted.flow.totalPulses == meter.flow.totalPulses
    ensures meter.flow.totalTurns == 0 ==> booted.flow.totalPulses <= meter.flow.totalPulses
  {
    booted := new Meter(meter.store.eeprom, pulsesPerLiter, now);
  }
}
