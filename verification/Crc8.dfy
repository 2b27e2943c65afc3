/** crc8 of MeterStore.cpp (reflected polynomial 0x8C, initial value 0), and the errors
    that a byte of it detects. */
module Crc8 {
  type Bytes = seq<bv8>

  /** One turn of the inner loop. */
  function ShiftBit(c: bv8): bv8 {
    if c & 1 == 1 then (c >> 1) ^ 0x8C else c >> 1
  }

  function Shifts(c: bv8, k: nat): bv8
    decreases k
  {
    if k == 0 then c else Shifts(ShiftBit(c), k - 1)
  }

  /** The accumulator after one byte, with `turns` turns of the inner loop. */
  function Next(crc: bv8, byte: bv8, turns: nat): bv8 {
    Shifts(crc ^ byte, turns)
  }

  /** The accumulator after more bytes. */
  function Crc(crc: bv8, data: Bytes, turns: nat): bv8
    decreases |data|
  {
    if data == [] then crc else Crc(Next(crc, data[0], turns), data[1..], turns)
  }

  function CrcOf(data: Bytes): bv8 {
    Crc(0, data, 8)
  }

  /** crc8(), with its loops. */
  method ComputeCrc(data: Bytes) returns (crc: bv8)
    ensures crc == CrcOf(data)
  {
    crc := 0;
    var k := 0;
    while k < |data|
      invariant k <= |data| && Crc(crc, data[k..], 8) == CrcOf(data)
    {
      assert data[k..][1..] == data[k + 1..];
      crc := NextCrc(crc, data[k]);
      k := k + 1;
    }
  }

  method NextCrc(start: bv8, byte: bv8) returns (crc: bv8)
    ensures crc == Next(start, byte, 8)
  {
    crc := start ^ byte;
    for i := 0 to 8
      invariant Shifts(crc, 8 - i) == Next(start, byte, 8)
    {
      crc := if crc & 1 == 1 then (crc >> 1) ^ 0x8C else crc >> 1;
    }
  }

  /** The check of load(): the last byte is the CRC of those before it. */
  predicate Checks(word: Bytes)
    requires word != []
  {
    CrcOf(word[..|word| - 1]) == word[|word| - 1]
  }

  // ----- algebra of the accumulator -----

  lemma ShiftBitLinear(a: bv8, b: bv8)
    ensures ShiftBit(a ^ b) == ShiftBit(a) ^ ShiftBit(b)
  {}

  lemma ShiftBitInjective(a: bv8, b: bv8)
    requires ShiftBit(a) == ShiftBit(b)
    ensures a == b
  {}

  /** Any number of turns, with the states they lead to. */
  lemma {:induction false} ShiftedStates(a: bv8, b: bv8, c: bv8, k: nat) returns (x: bv8, y: bv8, z: bv8)
    requires a ^ b == c
    ensures x == Shifts(a, k) && y == Shifts(b, k) && z == Shifts(c, k) && x ^ y == z
    decreases k
  {
    if k == 0 {
      x, y, z := a, b, c;
    } else {
      ShiftBitLinear(a, b);
      x, y, z := ShiftedStates(ShiftBit(a), ShiftBit(b), ShiftBit(c), k - 1);
    }
  }

  lemma ShiftsLinear(a: bv8, b: bv8, c: bv8, k: nat)
    requires a ^ b == c
    ensures Shifts(a, k) ^ Shifts(b, k) == Shifts(c, k)
  {
    var x, y, z := ShiftedStates(a, b, c, k);
  }

  lemma {:induction false} ShiftsInjective(a: bv8, b: bv8, k: nat)
    requires Shifts(a, k) == Shifts(b, k)
    ensures a == b
    decreases k
  {
    if k > 0 {
      ShiftsInjective(ShiftBit(a), ShiftBit(b), k - 1);
      ShiftBitInjective(a, b);
    }
  }

  lemma XorCancels(a: bv8, b: bv8, d: bv8)
    requires a ^ d == b ^ d
    ensures a == b
  {}

  lemma NextInjective(a: bv8, b: bv8, byte: bv8, turns: nat)
    requires Next(a, byte, turns) == Next(b, byte, turns)
    ensures a == b
  {
    ShiftsInjective(a ^ byte, b ^ byte, turns);
    XorCancels(a, b, byte);
  }

  /** Different accumulators stay different, whatever bytes follow. */
  lemma {:induction false} CrcInjective(a: bv8, b: bv8, data: Bytes, turns: nat)
    requires Crc(a, data, turns) == Crc(b, data, turns)
    ensures a == b
    decreases |data|
  {
    if data != [] {
      CrcInjective(Next(a, data[0], turns), Next(b, data[0], turns), data[1..], turns);
      NextInjective(a, b, data[0], turns);
    }
  }

  lemma {:induction false} CrcConcat(crc: bv8, u: Bytes, v: Bytes, turns: nat)
    ensures Crc(crc, u + v, turns) == Crc(Crc(crc, u, turns), v, turns)
    decreases |u|
  {
    if u == [] {
      assert u + v == v;
    } else {
      assert (u + v)[1..] == u[1..] + v;
      CrcConcat(Next(crc, u[0], turns), u[1..], v, turns);
    }
  }

  /** The accumulator comes to zero exactly on the byte that it equals. */
  lemma NextIsZero(c: bv8, byte: bv8, turns: nat)
    ensures Next(c, byte, turns) == 0 <==> c == byte
  {
    ShiftsOfZero(turns);
    if Next(c, byte, turns) == 0 {
      ShiftsInjective(c ^ byte, 0, turns);
    }
    XorZero(c, byte);
  }

  lemma CrcAtEnd(word: Bytes, turns: nat)
    requires word != []
    ensures Crc(0, word, turns) == Next(Crc(0, word[..|word| - 1], turns), word[|word| - 1], turns)
  {
    var n := |word| - 1;
    CrcConcat(0, word[..n], word[n..], turns);
    assert word == word[..n] + word[n..] && word[n..][1..] == [];
  }

  /** Running the CRC over a checked word leaves nothing, and only over a checked one. */
  lemma ChecksIsZero(word: Bytes)
    requires word != []
    ensures Checks(word) <==> CrcOf(word) == 0
  {
    CrcAtEnd(word, 8);
    NextIsZero(CrcOf(word[..|word| - 1]), word[|word| - 1], 8);
  }

  lemma {:induction false} ShiftsOfZero(k: nat)
    ensures Shifts(0, k) == 0
    decreases k
  {
    if k > 0 {
      ShiftsOfZero(k - 1);
    }
  }

  lemma XorZero(a: bv8, b: bv8)
    ensures a ^ b == 0 <==> a == b
  {}

  // ----- errors -----

  const MASKS: Bytes := [1, 2, 4, 8, 16, 32, 64, 128]

  /** Bit i of a byte, low bit first. */
  predicate BitOf(b: bv8, i: nat)
    requires i < 8
  {
    b & MASKS[i] != 0
  }

  /** Bit p of a word, taking the bytes in order and the bits of each low bit first. */
  predicate WordBit(w: Bytes, p: nat)
    requires p < 8 * |w|
  {
    BitOf(w[p / 8], p % 8)
  }

  /** u and v have the same length and agree outside the eight bits from p on. */
  ghost predicate DifferWithin(u: Bytes, v: Bytes, p: nat) {
    |u| == |v| && forall q: nat | q < 8 * |u| && !(p <= q < p + 8) :: WordBit(u, q) == WordBit(v, q)
  }

  /** The mask of the low j bits. */
  function Low(j: nat): bv8
    requires j <= 8
  {
    if j == 0 then 0 else Low(j - 1) | MASKS[j - 1]
  }

  lemma LowValues(j: nat)
    requires j <= 8
    ensures Low(j) == [0x00, 0x01, 0x03, 0x07, 0x0F, 0x1F, 0x3F, 0x7F, 0xFF][j]
  {
    if j > 0 {
      LowValues(j - 1);
    }
  }

  lemma ShiftsUnrolled(d: bv8, turns: nat) returns (a: seq<bv8>)
    ensures |a| == turns + 1 && a[0] == d && a[turns] == Shifts(d, turns)
    ensures forall i | 0 <= i < turns :: a[i + 1] == ShiftBit(a[i])
  {
    a := [d];
    for k := 0 to turns
      invariant |a| == k + 1 && a[0] == d && Shifts(a[k], turns - k) == Shifts(d, turns)
      invariant forall i | 0 <= i < k :: a[i + 1] == ShiftBit(a[i])
    {
      a := a + [ShiftBit(a[k])];
    }
  }

  /** A byte whose low bits are clear never shifts through to one whose high bits are. */
  lemma EightShifts(a0: bv8, a1: bv8, a2: bv8, a3: bv8, a4: bv8, a5: bv8, a6: bv8, a7: bv8, a8: bv8, low: bv8)
    requires a1 == ShiftBit(a0) && a2 == ShiftBit(a1) && a3 == ShiftBit(a2) && a4 == ShiftBit(a3)
    requires a5 == ShiftBit(a4) && a6 == ShiftBit(a5) && a7 == ShiftBit(a6) && a8 == ShiftBit(a7)
    requires low == 0 || low == 1 || low == 3 || low == 7 || low == 15 || low == 31 || low == 63 || low == 127
          || low == 255
    requires a0 & low == 0 && a8 | low == low
    ensures a0 == 0
  {}

  lemma XorMasked(a: bv8, b: bv8, m: bv8)
    requires a & m == b & m
    ensures (a ^ b) & m == 0
  {}

  /** A single bit is either set or clear. */
  lemma OneBit(a: bv8, b: bv8, i: nat)
    requires i < 8 && BitOf(a, i) == BitOf(b, i)
    ensures a & MASKS[i] == b & MASKS[i]
  {
    assert a & MASKS[i] == 0 || a & MASKS[i] == MASKS[i];
    assert b & MASKS[i] == 0 || b & MASKS[i] == MASKS[i];
  }

  lemma MaskJoins(d: bv8, low: bv8, m: bv8)
    requires d & m == 0
    ensures d & low == 0 ==> d & (low | m) == 0
    ensures d | (low | m) == low | m ==> d | low == low
  {}

  /** Bits that are clear one by one are clear under the mask of all of them. */
  lemma {:induction false} LowBitsClear(d: bv8, j: nat)
    requires j <= 8 && forall i | 0 <= i < j :: d & MASKS[i] == 0
    ensures d & Low(j) == 0
    decreases j
  {
    if j > 0 {
      LowBitsClear(d, j - 1);
      MaskJoins(d, Low(j - 1), MASKS[j - 1]);
    }
  }

  lemma {:induction false} HighBitsClear(d: bv8, j: nat)
    requires j <= 8 && forall i | j <= i < 8 :: d & MASKS[i] == 0
    ensures d | Low(j) == Low(j)
    decreases 8 - j
  {
    if j == 8 {
      LowValues(8);
    } else {
      HighBitsClear(d, j + 1);
      MaskJoins(d, Low(j), MASKS[j]);
    }
  }

  lemma BitAgrees(a: bv8, b: bv8, d: bv8, i: nat)
    requires i < 8 && d == a ^ b && BitOf(a, i) == BitOf(b, i)
    ensures d & MASKS[i] == 0
  {
    var m := MASKS[i];
    OneBit(a, b, i);
    XorMasked(a, b, m);
  }

  /** Agreement on the low bits clears them in the difference of two bytes. */
  lemma LowBitsAgree(a: bv8, b: bv8, d: bv8, j: nat)
    requires j <= 8 && d == a ^ b && forall i | 0 <= i < j :: BitOf(a, i) == BitOf(b, i)
    ensures d & Low(j) == 0
  {
    forall i | 0 <= i < j
      ensures d & MASKS[i] == 0
    {
      BitAgrees(a, b, d, i);
    }
    LowBitsClear(d, j);
  }

  /** Agreement on the high bits leaves only low ones. */
  lemma HighBitsAgree(a: bv8, b: bv8, d: bv8, j: nat)
    requires j <= 8 && d == a ^ b && forall i | j <= i < 8 :: BitOf(a, i) == BitOf(b, i)
    ensures d | Low(j) == Low(j)
  {
    forall i | j <= i < 8
      ensures d & MASKS[i] == 0
    {
      BitAgrees(a, b, d, i);
    }
    HighBitsClear(d, j);
  }

  lemma SameBits(a: bv8, b: bv8)
    requires forall i | 0 <= i < 8 :: BitOf(a, i) == BitOf(b, i)
    ensures a == b
  {
    LowBitsAgree(a, b, a ^ b, 8);
    LowValues(8);
    XorZero(a, b);
  }

  lemma BitsOutside(u: Bytes, v: Bytes, p: nat)
    requires DifferWithin(u, v, p)
    ensures forall i, k | 0 <= i < |u| && 0 <= k < 8 && !(p <= 8 * i + k < p + 8) :: BitOf(u[i], k) == BitOf(v[i], k)
  {
    forall i, k | 0 <= i < |u| && 0 <= k < 8 && !(p <= 8 * i + k < p + 8)
      ensures BitOf(u[i], k) == BitOf(v[i], k)
    {
      assert WordBit(u, 8 * i + k) == WordBit(v, 8 * i + k);
    }
  }

  lemma SameOutside(u: Bytes, v: Bytes, p: nat)
    requires DifferWithin(u, v, p)
    ensures forall i | 0 <= i < |u| && i != p / 8 && i != p / 8 + 1 :: u[i] == v[i]
  {
    BitsOutside(u, v, p);
    forall i | 0 <= i < |u| && i != p / 8 && i != p / 8 + 1
      ensures u[i] == v[i]
    {
      SameBits(u[i], v[i]);
    }
  }

  lemma BytesOutside(u: Bytes, v: Bytes, p: nat)
    requires DifferWithin(u, v, p)
    ensures forall i | 0 <= i < |u| && i != p / 8 && i != p / 8 + 1 :: u[i] == v[i]
    ensures p / 8 < |u| ==> (u[p / 8] ^ v[p / 8]) & Low(p % 8) == 0
    ensures p / 8 + 1 < |u| ==> (u[p / 8 + 1] ^ v[p / 8 + 1]) | Low(p % 8) == Low(p % 8)
  {
    BitsOutside(u, v, p);
    SameOutside(u, v, p);
    if p / 8 < |u| {
      LowBitsAgree(u[p / 8], v[p / 8], u[p / 8] ^ v[p / 8], p % 8);
    }
    if p / 8 + 1 < |u| {
      HighBitsAgree(u[p / 8 + 1], v[p / 8 + 1], u[p / 8 + 1] ^ v[p / 8 + 1], p % 8);
    }
  }

  lemma XorSwap(a: bv8, b: bv8, c: bv8, d: bv8)
    requires a ^ b == c ^ d
    ensures a ^ c == b ^ d
  {}

  lemma XorShared(s: bv8, a: bv8, b: bv8)
    ensures (s ^ a) ^ (s ^ b) == a ^ b
  {}

  lemma NextEqual(a: bv8, x: bv8, b: bv8, y: bv8, turns: nat)
    requires Next(a, x, turns) == Next(b, y, turns)
    ensures a ^ x == b ^ y
  {
    ShiftsInjective(a ^ x, b ^ y, turns);
  }

  lemma NextDifference(s: bv8, x: bv8, y: bv8, turns: nat)
    ensures Next(s, x, turns) ^ Next(s, y, turns) == Shifts(x ^ y, turns)
  {
    XorShared(s, x, y);
    ShiftsLinear(s ^ x, s ^ y, x ^ y, turns);
  }

  /** When two neighbouring bytes lead from one accumulator to one accumulator, the
      difference of the first shifts through to the difference of the second. */
  lemma PairDifference(s: bv8, u1: bv8, u2: bv8, v1: bv8, v2: bv8, a: bv8, b: bv8, turns: nat)
    requires a == Next(s, u1, turns) && b == Next(s, v1, turns)
    requires Next(a, u2, turns) == Next(b, v2, turns)
    ensures Shifts(u1 ^ v1, turns) == u2 ^ v2
  {
    assert a ^ b == Shifts(u1 ^ v1, turns) by {
      NextDifference(s, u1, v1, turns);
    }
    assert a ^ u2 == b ^ v2 by {
      NextEqual(a, u2, b, v2, turns);
    }
    XorSwap(a, u2, b, v2);
  }

  /** Differences that lie in a window of eight bits and shift into one another vanish. */
  lemma WindowVanishes(d: bv8, e: bv8, j: nat, turns: nat)
    requires turns == 8 && j <= 8 && d & Low(j) == 0 && e | Low(j) == Low(j) && Shifts(d, turns) == e
    ensures d == 0 && e == 0
  {
    var a := ShiftsUnrolled(d, turns);
    LowValues(j);
    EightShifts(a[0], a[1], a[2], a[3], a[4], a[5], a[6], a[7], a[8], Low(j));
    ShiftsOfZero(turns);
  }

  /** The accumulator over a word, split at two neighbouring bytes. */
  lemma CrcAtPair(w: Bytes, k: nat, turns: nat) returns (s: bv8, a: bv8, b: bv8)
    requires k + 1 < |w|
    ensures s == Crc(0, w[..k], turns) && a == Next(s, w[k], turns) && b == Next(a, w[k + 1], turns)
    ensures Crc(0, w, turns) == Crc(b, w[k + 2..], turns)
  {
    CrcConcat(0, w[..k], w[k..], turns);
    assert w == w[..k] + w[k..];
    assert w[k..][1..] == w[k + 1..];
    assert w[k + 1..][1..] == w[k + 2..];
    s := Crc(0, w[..k], turns);
    a := Next(s, w[k], turns);
    b := Next(a, w[k + 1], turns);
  }

  /** Words with one CRC and the same bytes around a pair come to the same accumulator
      after the pair. */
  lemma SamePair(u: Bytes, v: Bytes, k: nat, turns: nat) returns (s: bv8)
    requires |u| == |v| && k + 1 < |u| && u[..k] == v[..k] && u[k + 2..] == v[k + 2..]
    requires Crc(0, u, turns) == Crc(0, v, turns)
    ensures Next(Next(s, u[k], turns), u[k + 1], turns) == Next(Next(s, v[k], turns), v[k + 1], turns)
  {
    var a, c, b, d;
    s, a, c := CrcAtPair(u, k, turns);
    s, b, d := CrcAtPair(v, k, turns);
    CrcInjective(c, d, u[k + 2..], turns);
  }

  lemma PairsEqual(s: bv8, u1: bv8, u2: bv8, v1: bv8, v2: bv8, j: nat, turns: nat)
    requires turns == 8 && j <= 8
    requires (u1 ^ v1) & Low(j) == 0 && (u2 ^ v2) | Low(j) == Low(j)
    requires Next(Next(s, u1, turns), u2, turns) == Next(Next(s, v1, turns), v2, turns)
    ensures u1 == v1 && u2 == v2
  {
    PairDifference(s, u1, u2, v1, v2, Next(s, u1, turns), Next(s, v1, turns), turns);
    WindowVanishes(u1 ^ v1, u2 ^ v2, j, turns);
    XorZero(u1, v1);
    XorZero(u2, v2);
  }

  lemma PairCase(u: Bytes, v: Bytes, k: nat, j: nat)
    requires |u| == |v| && k + 1 < |u| && j <= 8 && CrcOf(u) == CrcOf(v)
    requires forall i | 0 <= i < |u| && i != k && i != k + 1 :: u[i] == v[i]
    requires (u[k] ^ v[k]) & Low(j) == 0 && (u[k + 1] ^ v[k + 1]) | Low(j) == Low(j)
    ensures u == v
  {
    assert u[..k] == v[..k] && u[k + 2..] == v[k + 2..];
    var s := SamePair(u, v, k, 8);
    PairsEqual(s, u[k], u[k + 1], v[k], v[k + 1], j, 8);
    assert forall i | 0 <= i < |u| :: u[i] == v[i];
  }

  /** Of the words that check, no two differ only within eight consecutive bits. So changing
      any of those bits, of payload or CRC, in a message of any length, is detected. */
  lemma BurstDetected(u: Bytes, v: Bytes, p: nat)
    requires u != [] && DifferWithin(u, v, p) && Checks(u) && Checks(v)
    ensures u == v
  {
    var k := p / 8;
    BytesOutside(u, v, p);
    if k + 1 < |u| {
      ChecksIsZero(u);
      ChecksIsZero(v);
      PairCase(u, v, k, p % 8);
    } else {
      assert u[..|u| - 1] == v[..|v| - 1];
    }
  }

  /** In particular a change of one byte alone is detected. */
  lemma ByteChangeDetected(u: Bytes, v: Bytes, k: nat)
    requires u != [] && |u| == |v| && k < |u| && Checks(u) && Checks(v)
    requires forall i | 0 <= i < |u| && i != k :: u[i] == v[i]
    ensures u == v
  {
    forall q: nat | q < 8 * |u| && !(8 * k <= q < 8 * k + 8)
      ensures WordBit(u, q) == WordBit(v, q)
    {
      assert q / 8 != k;
    }
    BurstDetected(u, v, 8 * k);
  }
}
