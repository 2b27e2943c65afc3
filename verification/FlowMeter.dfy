/** FlowMeter.cpp: an interrupt counts pulses, and a sampled update moves them to the
    total. Interrupts come in bursts between the steps of the update that touch what they
    or the total count. */
module Flow {
  import opened Words

  /** Millilitres of an exact number of pulses. */
  function MilliLitres(pulses: nat, pulsesPerLiter: uint16): nat
    requires pulsesPerLiter != 0
  {
    pulses * 1000 / pulsesPerLiter
  }

  /** The millilitres of some pulses in 32-bit arithmetic: exact for a number of pulses that
      has this word exactly when its product fits 32 bits. */
  method WordMilliLitres(pulses: uint32, pulsesPerLiter: uint16, ghost exact: nat, ghost turns: nat)
      returns (ml: uint32)
    requires pulsesPerLiter != 0 && exact == pulses + 0x1_0000_0000 * turns
    ensures ml == MilliLitres(exact, pulsesPerLiter) <==> exact * 1000 < 0x1_0000_0000
    ensures ml <= MilliLitres(exact, pulsesPerLiter)
  {
    var product := Wrap32(pulses * 1000);
    ghost var over := ProductTurns(pulses, exact, turns, product);
    ml := DivideWord(product, pulsesPerLiter, exact * 1000, over);
  }

  /** Dividing the word of a total. */
  method DivideWord(product: uint32, q: uint16, ghost total: nat, ghost over: nat) returns (quotient: uint32)
    requires q != 0 && total == product + 0x1_0000_0000 * over
    ensures quotient <= total / q && (quotient == total / q <==> total < 0x1_0000_0000)
  {
    ghost var k, r := DividedBy(product, q);
    QuotientsAgree(product, total, over, q);
    NotAbove(k, q);
    quotient := product / q;
  }

  lemma NotAbove(k: nat, q: nat)
    requires q > 0
    ensures k <= k * q
  {}

  /** How many whole turns the exact product is above its word. */
  lemma ProductTurns(pulses: uint32, exact: nat, turns: nat, product: uint32) returns (over: nat)
    requires exact == pulses + 0x1_0000_0000 * turns && product == Wrap32(pulses * 1000)
    ensures exact * 1000 == product + 0x1_0000_0000 * over
  {
    over := pulses * 1000 / 0x1_0000_0000 + 1000 * turns;
  }

  /** A quotient tells a number from one that is whole turns above it. */
  lemma TurnsShow(a: uint32, over: nat, q: uint16)
    requires q != 0 && over > 0
    ensures (a + 0x1_0000_0000 * over) / q > a / q
  {
    DivideSum(a, 0x1_0000_0000 * over, q);
    AtLeastOne(0x1_0000_0000 * over, q);
  }

  lemma QuotientsAgree(product: uint32, total: nat, over: nat, q: uint16)
    requires q != 0 && total == product + 0x1_0000_0000 * over
    ensures product / q <= total / q && (product / q == total / q <==> total < 0x1_0000_0000)
  {
    if over > 0 {
      TurnsShow(product, over, q);
    }
  }

  lemma AtLeastOne(n: nat, q: nat)
    requires 0 < q <= n
    ensures n / q >= 1
  {}

  /** A wrapping counter after n more steps. */
  function CountOn(start: uint32, n: nat): uint32 {
    if n == 0 then start else Add32(CountOn(start, n - 1), 1)
  }

  lemma {:induction false} CountOnWraps(start: uint32, n: nat)
    ensures CountOn(start, n) == Wrap32(start + n)
  {
    if n > 0 {
      CountOnWraps(start, n - 1);
      WrapSum(start + n - 1, 1);
      WordOperations(CountOn(start, n - 1), 1);
    }
  }

  lemma {:induction false} CountOnAdd(start: uint32, m: nat, n: nat)
    ensures CountOn(CountOn(start, m), n) == CountOn(start, m + n)
  {
    if n > 0 {
      CountOnAdd(start, m, n - 1);
    }
  }

  /** Bursts of interrupts: before the pulses are taken, before they are in the total, before
      the sample is measured, and after it. */
  datatype Bursts = Bursts(early: nat, taken: nat, moved: nat, late: nat) {
    function AfterTaking(): nat {
      taken + moved + late
    }

    function Sum(): nat {
      early + AfterTaking()
    }
  }

  class FlowMeter {
    var pulsesPerLiter: uint16
    var sampleMs: uint32
    var pulseCount: uint32
    var totalPulses: uint32
    var intervalMilliLitres: uint32
    var oldTime: uint32
    var dirty: bool

    ghost var base: nat        // the total that the count was restored to
    ghost var seen: nat        // pulses since then
    ghost var taken: nat       // pulses that updates have moved to the total since then
    ghost var inFlight: nat    // pulses that are taken but not yet in the total
    ghost var turns: nat       // how often total and pulse count together have wrapped
    ghost var totalTurns: nat  // how often the total has wrapped
    ghost var samples: nat     // samples taken since then
    ghost var intervalSum: nat // the sum of the interval millilitres of those samples
    ghost var allFit: bool     // whether the product of each of those samples fitted 32 bits

    /** The exact total, before any wrapping. */
    ghost function ExactTotal(): nat
      reads this
    {
      base + taken
    }

    /** No pulse is lost or counted twice. */
    ghost predicate Counted()
      reads this
    {
      && base + seen == totalPulses + inFlight + pulseCount + 0x1_0000_0000 * turns
      && ExactTotal() == totalPulses + 0x1_0000_0000 * totalTurns
    }

    /** Besides, between updates, nothing is in flight and the intervals account for the
        total. */
    ghost predicate Valid()
      reads this
    {
      Counted() && inFlight == 0 && IntervalsAccount(taken)
    }

    /** With t pulses moved, the interval millilitres never add up to more than the growth of
        the exact total, and are short of it by at most one millilitre a sample as long as
        the product of each sample, not of the total, fits 32 bits. */
    ghost predicate IntervalsAccount(t: nat)
      reads `pulsesPerLiter, `base, `intervalSum, `samples, `allFit
    {
      pulsesPerLiter != 0 ==>
        var growth := MilliLitres(base + t, pulsesPerLiter) - MilliLitres(base, pulsesPerLiter);
        intervalSum <= growth && (allFit ==> growth <= intervalSum + samples)
    }

    constructor (pulsesPerLiter: uint16, sampleMs: uint32, now: uint32)
      ensures Valid() && totalPulses == 0 && pulseCount == 0 && !dirty && taken == 0 && totalTurns == 0
      ensures this.pulsesPerLiter == pulsesPerLiter && this.sampleMs == sampleMs && oldTime == now
      ensures base == seen == samples == intervalSum == intervalMilliLitres == 0 && allFit
    {
      this.pulsesPerLiter, this.sampleMs := pulsesPerLiter, sampleMs;
      pulseCount, totalPulses, intervalMilliLitres, dirty, oldTime := 0, 0, 0, false, now;
      base, seen, taken, inFlight, turns, totalTurns, samples, intervalSum := 0, 0, 0, 0, 0, 0, 0, 0;
      allFit := true;
    }

    /** The interrupt, at any time. */
    method OnPulse()
      requires Counted()
      modifies `pulseCount, `seen, `turns
      ensures Counted() && seen == old(seen) + 1 && pulseCount == Add32(old(pulseCount), 1)
    {
      turns := if pulseCount + 1 < 0x1_0000_0000 then turns else turns + 1;
      pulseCount := Add32(pulseCount, 1);
      seen := seen + 1;
    }

    /** A burst of n interrupts. */
    method Interrupts(n: nat)
      requires Counted()
      modifies `pulseCount, `seen, `turns
      ensures Counted() && seen == old(seen) + n && pulseCount == CountOn(old(pulseCount), n)
    {
      for i := 0 to n
        invariant Counted() && seen == old(seen) + i && pulseCount == CountOn(old(pulseCount), i)
      {
        OnPulse();
      }
    }

    method SetTotalPulses(pulses: uint32)
      requires Valid()
      modifies `totalPulses, `base, `seen, `taken, `turns, `totalTurns, `samples, `intervalSum, `allFit
      ensures Valid() && totalPulses == pulses && base == pulses && taken == 0 && totalTurns == 0 && allFit
      ensures seen == pulseCount && samples == intervalSum == 0
    {
      totalPulses := pulses;
      base, seen, taken, turns, totalTurns, samples, intervalSum := pulses, pulseCount, 0, 0, 0, 0, 0;
      allFit := true;
    }

    /** totalMilliLitres(): exact exactly while the product of the exact total fits 32 bits. */
    method TotalMilliLitres() returns (ml: uint32)
      requires Valid()
      ensures pulsesPerLiter == 0 ==> ml == 0
      ensures pulsesPerLiter != 0 ==>
                (ml == MilliLitres(ExactTotal(), pulsesPerLiter) <==> ExactTotal() * 1000 < B32)
    {
      if pulsesPerLiter == 0 {
        return 0;
      }
      ml := WordMilliLitres(totalPulses, pulsesPerLiter, ExactTotal(), totalTurns);
    }

    method ConsumeDirty() returns (d: bool)
      requires Valid()
      modifies `dirty
      ensures Valid() && d == old(dirty) && !dirty
    {
      d := dirty;
      dirty := false;
    }

    /** takePulses(), with interrupts off: all pulses counted so far are in flight. */
    method TakePulses() returns (n: uint32)
      requires Counted() && inFlight == 0
      modifies `pulseCount, `inFlight
      ensures Counted() && n == inFlight == old(pulseCount) && pulseCount == 0
    {
      n := pulseCount;
      pulseCount := 0;
      inFlight := n;
    }

    /** The pulses in flight go to the total. */
    method MovePulses(pulses: uint32)
      requires Counted() && pulses == inFlight
      modifies `inFlight, `totalPulses, `dirty, `taken, `turns, `totalTurns
      ensures Counted() && inFlight == 0 && taken == old(taken) + pulses
      ensures dirty == (old(dirty) || pulses != 0)
      ensures pulses == 0 ==> totalPulses == old(totalPulses) && totalTurns == old(totalTurns)
      ensures totalTurns == 0 ==> old(totalTurns) == 0 && old(totalPulses) <= totalPulses
    {
      if pulses != 0 {
        ghost var wraps := if totalPulses + pulses < 0x1_0000_0000 then 0 else 1;
        turns, totalTurns := turns + wraps, totalTurns + wraps;
        totalPulses := Add32(totalPulses, pulses);
        dirty := true;
      }
      taken, inFlight := taken + pulses, 0;
    }

    /** The millilitres of a sample whose pulses are in the total already. */
    method MeasureInterval(pulses: uint32)
      requires Counted() && inFlight == 0 && taken >= pulses && IntervalsAccount(taken - pulses)
      modifies `intervalMilliLitres, `intervalSum, `samples, `allFit
      ensures Valid() && samples == old(samples) + 1 && allFit == (old(allFit) && pulses * 1000 < 0x1_0000_0000)
      ensures intervalSum == old(intervalSum) + intervalMilliLitres
      ensures if pulsesPerLiter == 0 then intervalMilliLitres == 0
              else intervalMilliLitres == MilliLitres(pulses, pulsesPerLiter) <==> pulses * 1000 < 0x1_0000_0000
    {
      if pulsesPerLiter == 0 {
        intervalMilliLitres := 0;
      } else {
        intervalMilliLitres := WordMilliLitres(pulses, pulsesPerLiter, pulses, 0);
        SampleAccounts(ExactTotal() - pulses, pulses, pulsesPerLiter);
      }
      samples, intervalSum := samples + 1, intervalSum + intervalMilliLitres;
      allFit := allFit && pulses * 1000 < 0x1_0000_0000;
    }

    /** The first half of a sample: the pulses go to the total. */
    method TakeSample(now: uint32, bursts: Bursts) returns (pulses: uint32)
      requires Counted() && inFlight == 0
      modifies `pulseCount, `totalPulses, `dirty, `taken, `inFlight, `turns, `totalTurns, `oldTime, `seen
      ensures Counted() && inFlight == 0 && oldTime == now && pulses == old(pulseCount)
      ensures taken == old(taken) + pulses && seen == old(seen) + bursts.taken + bursts.moved
      ensures pulseCount == CountOn(0, bursts.taken + bursts.moved) && dirty == (old(dirty) || pulses != 0)
      ensures pulses == 0 ==> totalPulses == old(totalPulses) && totalTurns == old(totalTurns)
      ensures totalTurns == 0 ==> old(totalTurns) == 0 && old(totalPulses) <= totalPulses
    {
      pulses := TakePulses();
      Interrupts(bursts.taken);
      oldTime := now;
      MovePulses(pulses);
      Interrupts(bursts.moved);
      CountOnAdd(0, bursts.taken, bursts.moved);
    }

    /** The sampling part of update(). */
    method Sample(now: uint32, bursts: Bursts)
      requires Valid()
      modifies `pulseCount, `totalPulses, `dirty, `taken, `inFlight, `turns, `totalTurns, `oldTime, `seen,
               `intervalMilliLitres, `intervalSum, `samples, `allFit
      ensures Valid() && oldTime == now && samples == old(samples) + 1
      ensures intervalSum == old(intervalSum) + intervalMilliLitres
      ensures allFit == (old(allFit) && old(pulseCount) * 1000 < 0x1_0000_0000)
      ensures taken == old(taken) + old(pulseCount) && seen == old(seen) + bursts.AfterTaking()
      ensures pulseCount == CountOn(0, bursts.AfterTaking()) && dirty == (old(dirty) || old(pulseCount) != 0)
      ensures old(pulseCount) == 0 ==> totalPulses == old(totalPulses) && totalTurns == old(totalTurns)
      ensures totalTurns == 0 ==> old(totalTurns) == 0 && old(totalPulses) <= totalPulses
    {
      var pulses := TakeSample(now, bursts);
      MeasureInterval(pulses);
      Interrupts(bursts.late);
      CountOnAdd(0, bursts.taken + bursts.moved, bursts.late);
    }

    /** update(), with interrupts. Without a sample they just come. */
    method Update(now: uint32, bursts: Bursts)
      requires Valid()
      modifies this
      ensures Valid() && base == old(base) && seen == old(seen) + bursts.Sum()
      ensures pulsesPerLiter == old(pulsesPerLiter) && sampleMs == old(sampleMs)
      ensures var sampled := Sub32(now, old(oldTime)) >= sampleMs;
              oldTime == (if sampled then now else old(oldTime)) && samples == old(samples) + (if sampled then 1 else 0)
      ensures var sampled := Sub32(now, old(oldTime)) >= sampleMs;
              var early := CountOn(old(pulseCount), bursts.early);
              && pulseCount == (if sampled then CountOn(0, bursts.AfterTaking())
                                else CountOn(old(pulseCount), bursts.Sum()))
              && taken == old(taken) + (if sampled then early else 0)
              && allFit == (old(allFit) && (sampled ==> early * 1000 < 0x1_0000_0000))
      ensures if Sub32(now, old(oldTime)) >= sampleMs then intervalSum == old(intervalSum) + intervalMilliLitres
              else intervalSum == old(intervalSum) && intervalMilliLitres == old(intervalMilliLitres)
      ensures dirty <==> old(dirty) || taken != old(taken)
      ensures taken == old(taken) ==> totalPulses == old(totalPulses) && totalTurns == old(totalTurns)
      ensures totalTurns == 0 ==> old(totalTurns) == 0 && old(totalPulses) <= totalPulses
    {
      Interrupts(bursts.early);
      var elapsed := Sub32(now, oldTime);
      if elapsed >= sampleMs {
        Sample(now, bursts);
      } else {
        Interrupts(bursts.AfterTaking());
        CountOnAdd(old(pulseCount), bursts.early, bursts.AfterTaking());
      }
    }
  }

  /** The least total whose millilitres are wrong, at 245 pulses a litre: 17530481 ml. */
  method WrongMilliLitres() returns (meter: FlowMeter, ml: uint32)
    ensures meter.totalPulses == meter.ExactTotal() == 4294968 && meter.pulsesPerLiter == 245
    ensures MilliLitres(4294968, 245) == 17530481 != ml
  {
    meter := new FlowMeter(245, 1000, 0);
    meter.SetTotalPulses(4294968);
    ml := meter.TotalMilliLitres();
  }

  /** One sample's millilitres are the growth of the total, rounded down at both ends. */
  lemma SampleAccounts(before: nat, pulses: nat, pulsesPerLiter: uint16)
    requires pulsesPerLiter != 0
    ensures var growth := MilliLitres(before + pulses, pulsesPerLiter) - MilliLitres(before, pulsesPerLiter);
            MilliLitres(pulses, pulsesPerLiter) <= growth <= MilliLitres(pulses, pulsesPerLiter) + 1
  {
    DivideSum(before * 1000, pulses * 1000, pulsesPerLiter);
  }

  lemma DivideSum(a: nat, b: nat, q: nat)
    requires q > 0
    ensures a / q + b / q <= (a + b) / q <= a / q + b / q + 1
  {
    var x, s := DividedBy(a, q);
    var y, t := DividedBy(b, q);
    SumOfProducts(x, y, q);
    if s + t < q {
      QuotientIs(a + b, q, x + y, s + t);
    } else {
      SumOfProducts(x + y, 1, q);
      QuotientIs(a + b, q, x + y + 1, s + t - q);
    }
  }

  lemma DividedBy(n: nat, q: nat) returns (k: nat, r: nat)
    requires q > 0
    ensures k == n / q && r < q && n == k * q + r
  {
    k, r := n / q, n % q;
  }

  lemma SumOfProducts(x: nat, y: nat, q: nat)
    ensures (x + y) * q == x * q + y * q
  {}

  lemma QuotientIs(n: nat, q: nat, k: nat, r: nat)
    requires n == k * q + r && r < q
    ensures n / q == k
  {
    var m, s := DividedBy(n, q);
    if m > k {
      ProductsApart(m, k, q);
    } else if m < k {
      ProductsApart(k, m, q);
    }
  }

  lemma ProductsApart(x: nat, y: nat, q: nat)
    requires x > y
    ensures x * q >= y * q + q
  {
    SumOfProducts(y, x - y, q);
    assert (x - y) * q >= q;
  }
}
