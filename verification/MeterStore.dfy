/** MeterStore.cpp: two checked images at fixed places in the EEPROM, one with the pulse
    total and the valve and one with the fingerprint, and a dirty flag that limits writes. */
module Store {
  import opened ByteBits
  import opened Words
  import opened Wrappers
  import Crc8

  type Bytes = seq<uint8>

  const MAGIC: uint8 := 0xA5
  const VERSION: uint8 := 1
  const BASE: nat := 0
  const IMAGE_SIZE: nat := 8
  const FP_MAGIC: uint8 := 0x5A
  const FP_VERSION: uint8 := 1
  const FP_BASE: nat := 32
  const PARAMS_SIZE: nat := 28
  const FP_SIZE: nat := 31
  const EEPROM_SIZE: nat := 2048

  /** A 32-bit float as the number that its bit pattern is. */
  type Float = uint32

  datatype Params = Params(
    mean: Float, a1: Float, phi1: Float, t1: Float, a2: Float, phi2: Float, t2: Float)

  // ----- bytes of the images -----

  /** A 32-bit word in memory, low byte first. */
  function WordBytes(w: uint32): (b: Bytes)
    ensures |b| == 4
  {
    [w % 0x100, w / 0x100 % 0x100, w / 0x100 / 0x100 % 0x100, w / 0x100 / 0x100 / 0x100]
  }

  function WordFrom(b: Bytes): uint32
    requires |b| == 4
  {
    (b[0] as int) + 0x100 * (b[1] as int) + 0x1_0000 * (b[2] as int) + 0x100_0000 * (b[3] as int)
  }

  lemma WordRoundTrip(w: uint32)
    ensures WordFrom(WordBytes(w)) == w
  {}

  function FloatsBytes(fs: seq<Float>): (b: Bytes)
    ensures |b| == 4 * |fs|
  {
    if fs == [] then [] else WordBytes(fs[0]) + FloatsBytes(fs[1..])
  }

  function FloatsFrom(b: Bytes, n: nat): (fs: seq<Float>)
    requires |b| == 4 * n
    ensures |fs| == n
  {
    if n == 0 then [] else [WordFrom(b[..4])] + FloatsFrom(b[4..], n - 1)
  }

  lemma {:induction false} FloatsRoundTrip(fs: seq<Float>)
    ensures FloatsFrom(FloatsBytes(fs), |fs|) == fs
  {
    if fs != [] {
      var b := FloatsBytes(fs);
      assert b[..4] == WordBytes(fs[0]) && b[4..] == FloatsBytes(fs[1..]);
      WordRoundTrip(fs[0]);
      FloatsRoundTrip(fs[1..]);
    }
  }

  /** The fields of Params in the order they lie in memory. */
  function Fields(p: Params): seq<Float> {
    [p.mean, p.a1, p.phi1, p.t1, p.a2, p.phi2, p.t2]
  }

  function ParamBytes(p: Params): (b: Bytes)
    ensures |b| == PARAMS_SIZE
  {
    FloatsBytes(Fields(p))
  }

  function ParamsFrom(b: Bytes): Params
    requires |b| == PARAMS_SIZE
  {
    var f := FloatsFrom(b, 7);
    Params(f[0], f[1], f[2], f[3], f[4], f[5], f[6])
  }

  lemma ParamsRoundTrip(p: Params)
    ensures ParamsFrom(ParamBytes(p)) == p
  {
    FloatsRoundTrip(Fields(p));
  }

  // ----- the images in the memory -----

  /** The CRC byte of a payload. */
  function CrcByte(payload: Bytes): uint8 {
    ValueOf(Crc8.CrcOf(BitsOfAll(payload)))
  }

  /** What load() makes of an image: the last byte must be the CRC of those after magic and
      version. */
  function FromImage(img: Bytes): Option<(uint32, bool)>
    requires |img| == IMAGE_SIZE
  {
    if img[0] != MAGIC || img[1] != VERSION then None
    else if CrcByte(img[2..7]) != img[7] then None
    else Some((WordFrom(img[2..6]), img[6] != 0))
  }

  function FromFingerprintImage(img: Bytes): Option<Params>
    requires |img| == FP_SIZE
  {
    if img[0] != FP_MAGIC || img[1] != FP_VERSION then None
    else if CrcByte(img[2..30]) != img[30] then None
    else Some(ParamsFrom(img[2..30]))
  }

  function Stored(cells: Bytes): Option<(uint32, bool)>
    requires |cells| == EEPROM_SIZE
  {
    FromImage(cells[BASE..BASE + IMAGE_SIZE])
  }

  function StoredFingerprint(cells: Bytes): Option<Params>
    requires |cells| == EEPROM_SIZE
  {
    FromFingerprintImage(cells[FP_BASE..FP_BASE + FP_SIZE])
  }

  function Payload(pulses: uint32, valveOpen: bool): (b: Bytes)
    ensures |b| == 5
  {
    WordBytes(pulses) + [if valveOpen then 1 else 0]
  }

  function Image(pulses: uint32, valveOpen: bool): (b: Bytes)
    ensures |b| == IMAGE_SIZE
  {
    [MAGIC, VERSION] + Payload(pulses, valveOpen) + [CrcByte(Payload(pulses, valveOpen))]
  }

  function FingerprintImage(p: Params): (b: Bytes)
    ensures |b| == FP_SIZE
  {
    [FP_MAGIC, FP_VERSION] + ParamBytes(p) + [CrcByte(ParamBytes(p))]
  }

  lemma ImageRoundTrip(pulses: uint32, valveOpen: bool)
    ensures FromImage(Image(pulses, valveOpen)) == Some((pulses, valveOpen))
  {
    var img, payload := Image(pulses, valveOpen), Payload(pulses, valveOpen);
    assert img[2..7] == payload;
    assert img[2..6] == WordBytes(pulses);
    WordRoundTrip(pulses);
  }

  lemma FingerprintImageRoundTrip(p: Params)
    ensures FromFingerprintImage(FingerprintImage(p)) == Some(p)
  {
    var img, payload := FingerprintImage(p), ParamBytes(p);
    assert img[2..30] == payload;
    ParamsRoundTrip(p);
  }

  /** A word as four bytes, low byte first. */
  predicate LowFirst(w: uint32, b: Bytes) {
    |b| == 4 && w == (b[0] as int) + 256 * (b[1] as int) + 65536 * (b[2] as int) + 16777216 * (b[3] as int)
  }

  /** The eight bytes of an image: magic, version, the total, the valve and the CRC of the
      five bytes before it. */
  lemma ImageLayout(pulses: uint32, valveOpen: bool)
    ensures var img := Image(pulses, valveOpen);
            && |img| == 8 && img[0] == 0xA5 && img[1] == 1 && LowFirst(pulses, img[2..6])
            && img[6] == (if valveOpen then 1 else 0) && img[7] == CrcByte(img[2..7])
  {
    var img := Image(pulses, valveOpen);
    assert img[2..7] == Payload(pulses, valveOpen);
    assert img[2..6] == WordBytes(pulses);
  }

  /** The 31 bytes of a fingerprint image: magic, version, the seven floats and the CRC of
      the 28 bytes before it. */
  lemma FingerprintLayout(p: Params)
    ensures var img := FingerprintImage(p);
            && |img| == 31 && img[0] == 0x5A && img[1] == 1 && img[30] == CrcByte(img[2..30])
            && LowFirst(p.mean, img[2..6]) && LowFirst(p.a1, img[6..10]) && LowFirst(p.phi1, img[10..14])
            && LowFirst(p.t1, img[14..18]) && LowFirst(p.a2, img[18..22]) && LowFirst(p.phi2, img[22..26])
            && LowFirst(p.t2, img[26..30])
  {
    var img, f := FingerprintImage(p), Fields(p);
    assert img[2..30] == ParamBytes(p);
    assert img[2..6] == ParamBytes(p)[0..4];
    assert img[6..10] == ParamBytes(p)[4..8];
    assert img[10..14] == ParamBytes(p)[8..12];
    assert img[14..18] == ParamBytes(p)[12..16];
    assert img[18..22] == ParamBytes(p)[16..20];
    assert img[22..26] == ParamBytes(p)[20..24];
    assert img[26..30] == ParamBytes(p)[24..28];
    FloatAt(f, 0);
    FloatAt(f, 1);
    FloatAt(f, 2);
    FloatAt(f, 3);
    FloatAt(f, 4);
    FloatAt(f, 5);
    FloatAt(f, 6);
  }

  lemma {:induction false} FloatAt(fs: seq<Float>, i: nat)
    requires i < |fs|
    ensures FloatsBytes(fs)[4 * i..4 * i + 4] == WordBytes(fs[i]) && LowFirst(fs[i], WordBytes(fs[i]))
  {
    if i > 0 {
      FloatAt(fs[1..], i - 1);
      var b := FloatsBytes(fs);
      assert b[4..] == FloatsBytes(fs[1..]);
      assert b[4 * i..4 * i + 4] == b[4..][4 * (i - 1)..4 * (i - 1) + 4];
    }
  }

  /** The bits that the CRC of an image covers, itself included. */
  function CheckedBits(img: Bytes): seq<bv8>
    requires |img| > 2
  {
    BitsOfAll(img[2..])
  }

  /** An image whose CRC is right is a checked word. */
  lemma RightCrcChecks(img: Bytes)
    requires |img| > 2 && CrcByte(img[2..|img| - 1]) == img[|img| - 1]
    ensures Crc8.Checks(CheckedBits(img))
  {
    var bits := CheckedBits(img);
    var n := |bits| - 1;
    assert bits[..n] == BitsOfAll(img[2..|img| - 1]);
    ValueRoundTrip(Crc8.CrcOf(bits[..n]));
  }

  /** Two images of either kind that load, and that differ only within eight consecutive
      bits after magic and version, do not differ there at all. */
  lemma ImageErrorDetected(u: Bytes, v: Bytes, p: nat)
    requires |u| == |v| > 2 && Crc8.DifferWithin(CheckedBits(u), CheckedBits(v), p)
    requires || (|u| == IMAGE_SIZE && FromImage(u).Some? && FromImage(v).Some?)
             || (|u| == FP_SIZE && FromFingerprintImage(u).Some? && FromFingerprintImage(v).Some?)
    ensures CheckedBits(u) == CheckedBits(v)
  {
    RightCrcChecks(u);
    RightCrcChecks(v);
    Crc8.BurstDetected(CheckedBits(u), CheckedBits(v), p);
  }

  /** Writing `image` at `base` of the memory. */
  function Written(cells: Bytes, base: nat, image: Bytes): (c: Bytes)
    requires base + |image| <= |cells|
    ensures |c| == |cells|
  {
    cells[..base] + image + cells[base + |image|..]
  }

  /** A saved total and valve come back, and the fingerprint stays as it was. */
  lemma SavedThenStored(cells: Bytes, pulses: uint32, valveOpen: bool)
    requires |cells| == EEPROM_SIZE
    ensures var c := Written(cells, BASE, Image(pulses, valveOpen));
            Stored(c) == Some((pulses, valveOpen)) && StoredFingerprint(c) == StoredFingerprint(cells)
  {
    var c := Written(cells, BASE, Image(pulses, valveOpen));
    assert c[BASE..BASE + IMAGE_SIZE] == Image(pulses, valveOpen);
    assert c[FP_BASE..FP_BASE + FP_SIZE] == cells[FP_BASE..FP_BASE + FP_SIZE];
    ImageRoundTrip(pulses, valveOpen);
  }

  /** A saved fingerprint comes back, and the total and valve stay as they were. */
  lemma SavedFingerprintThenStored(cells: Bytes, p: Params)
    requires |cells| == EEPROM_SIZE
    ensures var c := Written(cells, FP_BASE, FingerprintImage(p));
            StoredFingerprint(c) == Some(p) && Stored(c) == Stored(cells)
  {
    var c := Written(cells, FP_BASE, FingerprintImage(p));
    assert c[FP_BASE..FP_BASE + FP_SIZE] == FingerprintImage(p);
    assert c[BASE..BASE + IMAGE_SIZE] == cells[BASE..BASE + IMAGE_SIZE];
    FingerprintImageRoundTrip(p);
  }

  // ----- the code -----

  method ComputeCrcByte(payload: Bytes) returns (crc: uint8)
    ensures crc == CrcByte(payload)
  {
    var bits := Crc8.ComputeCrc(BitsOfAll(payload));
    crc := ValueOf(bits);
  }

  class MeterStore {
    const eeprom: array<uint8>
    var dirty: bool
    var lastSaveMs: uint32

    ghost predicate Valid()
      reads this
    {
      eeprom.Length == EEPROM_SIZE
    }

    constructor (eeprom: array<uint8>, now: uint32)
      requires eeprom.Length == EEPROM_SIZE
      ensures Valid() && this.eeprom == eeprom && !dirty && lastSaveMs == now
    {
      this.eeprom, dirty, lastSaveMs := eeprom, false, now;
    }

    /** EEPROM.put, byte by byte; power does not fail in the middle of it. */
    method Put(base: nat, image: Bytes)
      requires Valid() && base + |image| <= EEPROM_SIZE
      modifies eeprom
      ensures eeprom[..] == Written(old(eeprom[..]), base, image)
    {
      for i := 0 to |image|
        invariant eeprom[..base] == old(eeprom[..base])
        invariant forall k | 0 <= k < i :: eeprom[base + k] == image[k]
        invariant eeprom[base + i..] == old(eeprom[base + i..])
      {
        ghost var rest := eeprom[base + i..];
        eeprom[base + i] := image[i];
        assert eeprom[base + i + 1..] == rest[1..];
      }
      assert eeprom[base..base + |image|] == image;
      assert eeprom[..] == eeprom[..base] + eeprom[base..base + |image|] + eeprom[base + |image|..];
    }

    method Load(now: uint32) returns (r: Option<(uint32, bool)>)
      requires Valid()
      modifies this
      ensures r == Stored(eeprom[..]) && !dirty && lastSaveMs == now
    {
      dirty := false;
      lastSaveMs := now;
      var img := eeprom[BASE..BASE + IMAGE_SIZE];
      assert img == eeprom[..][BASE..BASE + IMAGE_SIZE];
      if img[0] != MAGIC || img[1] != VERSION {
        return None;
      }
      var crc := ComputeCrcByte(img[2..7]);
      if crc != img[7] {
        return None;
      }
      return Some((WordFrom(img[2..6]), img[6] != 0));
    }

    /** After a save the store is clean and holds what was saved. */
    method Save(pulses: uint32, valveOpen: bool, now: uint32)
      requires Valid()
      modifies this, eeprom
      ensures Stored(eeprom[..]) == Some((pulses, valveOpen)) && !dirty && lastSaveMs == now
      ensures StoredFingerprint(eeprom[..]) == old(StoredFingerprint(eeprom[..]))
      ensures eeprom[..8] == Image(pulses, valveOpen) && eeprom[8..] == old(eeprom[8..])
    {
      SavedThenStored(eeprom[..], pulses, valveOpen);
      var payload := WordBytes(pulses) + [if valveOpen then 1 else 0];
      var crc := ComputeCrcByte(payload);
      Put(BASE, [MAGIC, VERSION] + payload + [crc]);
      dirty := false;
      lastSaveMs := now;
    }

    method MarkDirty()
      modifies `dirty
      ensures dirty
    {
      dirty := true;
    }

    /** Saves when dirty and the last save is long enough ago: a dirty store never outlives
        a call made minIntervalMs or more after the last save. */
    method SaveIfDue(pulses: uint32, valveOpen: bool, minIntervalMs: uint32, asked: uint32, now: uint32)
      requires Valid()
      modifies this, eeprom
      ensures var due := old(dirty) && Sub32(asked, old(lastSaveMs)) >= minIntervalMs;
              && dirty == (old(dirty) && !due)
              && (due ==> Stored(eeprom[..]) == Some((pulses, valveOpen)) && lastSaveMs == now)
              && (!due ==> eeprom[..] == old(eeprom[..]) && lastSaveMs == old(lastSaveMs))
      ensures StoredFingerprint(eeprom[..]) == old(StoredFingerprint(eeprom[..]))
    {
      if !dirty {
        return;
      }
      if Sub32(asked, lastSaveMs) < minIntervalMs {
        return;
      }
      Save(pulses, valveOpen, now);
    }

    method LoadFingerprint() returns (r: Option<Params>)
      requires Valid()
      ensures r == StoredFingerprint(eeprom[..])
    {
      var img := eeprom[FP_BASE..FP_BASE + FP_SIZE];
      assert img == eeprom[..][FP_BASE..FP_BASE + FP_SIZE];
      if img[0] != FP_MAGIC || img[1] != FP_VERSION {
        return None;
      }
      var crc := ComputeCrcByte(img[2..30]);
      if crc != img[30] {
        return None;
      }
      return Some(ParamsFrom(img[2..30]));
    }

    method SaveFingerprint(params: Params)
      requires Valid()
      modifies eeprom
      ensures StoredFingerprint(eeprom[..]) == Some(params)
      ensures Stored(eeprom[..]) == old(Stored(eeprom[..]))
      ensures eeprom[32..63] == FingerprintImage(params)
      ensures eeprom[..32] == old(eeprom[..32]) && eeprom[63..] == old(eeprom[63..])
    {
      SavedFingerprintThenStored(eeprom[..], params);
      var crc := ComputeCrcByte(ParamBytes(params));
      Put(FP_BASE, [FP_MAGIC, FP_VERSION] + ParamBytes(params) + [crc]);
    }
  }
}
