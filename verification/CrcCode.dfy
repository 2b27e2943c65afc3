/** Which code crc8 is: the words that check are the multiples of x^8 + x^5 + x^4 + 1, so two
    wrong bits go undetected only at multiples of 127 bits. */
module CrcCode {
  import opened Crc8

  // ----- one bit at a time -----

  function BitWord(b: bool): bv8 {
    if b then 1 else 0
  }

  /** Exclusive or of two accumulators or bytes. */
  function Xor(a: bv8, b: bv8): bv8 {
    a ^ b
  }

  /** A turn of the accumulator on one bit of the message. */
  function Turn(a: bv8, bit: bool): bv8 {
    ShiftBit(Xor(a, BitWord(bit)))
  }

  /** The bits of a word, low bit of each byte first. */
  function Bits(w: Bytes): (bits: seq<bool>)
    ensures |bits| == 8 * |w|
  {
    seq(8 * |w|, p requires 0 <= p < 8 * |w| => WordBit(w, p))
  }

  lemma BitAt(w: Bytes, i: nat, j: nat)
    requires i < |w| && j < 8
    ensures Bits(w)[8 * i + j] == BitOf(w[i], j)
  {
    assert (8 * i + j) / 8 == i && (8 * i + j) % 8 == j;
  }

  /** The accumulator before each bit and after the last. */
  ghost predicate Accumulates(bits: seq<bool>, t: seq<bv8>) {
    && |t| == |bits| + 1 && t[0] == 0
    && forall n | 0 <= n < |bits| :: t[n + 1] == Turn(t[n], bits[n])
  }

  lemma {:induction false} Accumulation(bits: seq<bool>) returns (t: seq<bv8>)
    ensures Accumulates(bits, t)
  {
    if bits == [] {
      t := [0];
    } else {
      var n := |bits| - 1;
      t := Accumulation(bits[..n]);
      t := t + [Turn(t[n], bits[n])];
    }
  }

  lemma TurnAt(bits: seq<bool>, t: seq<bv8>, n: nat) returns (before: bv8, bit: bool, after: bv8)
    requires Accumulates(bits, t) && n < |bits|
    ensures before == t[n] && bit == bits[n] && after == t[n + 1] == Turn(before, bit)
  {
    before, bit, after := t[n], bits[n], t[n + 1];
  }

  function Half(byte: bv8): bv8 {
    byte >> 1
  }

  predicate Odd(byte: bv8) {
    byte & 1 == 1
  }

  /** What is left of a byte after j bits. */
  function Remainder(byte: bv8, j: nat): bv8 {
    if j == 0 then byte else Half(Remainder(byte, j - 1))
  }

  lemma HalfBit(byte: bv8, i: nat)
    requires i < 8
    ensures BitOf(Half(byte), i) <==> i < 7 && BitOf(byte, i + 1)
  {}

  lemma {:induction false} RemainderBit(byte: bv8, j: nat, i: nat)
    requires i < 8
    ensures BitOf(Remainder(byte, j), i) <==> i + j < 8 && BitOf(byte, i + j)
    decreases j
  {
    if j > 0 {
      HalfBit(Remainder(byte, j - 1), i);
      if i < 7 {
        RemainderBit(byte, j - 1, i + 1);
      }
    }
  }

  lemma LowBit(byte: bv8)
    ensures BitOf(byte, 0) <==> Odd(byte)
  {}

  lemma NoBits(i: nat)
    requires i < 8
    ensures !BitOf(0, i)
  {}

  lemma NothingRemains(byte: bv8)
    ensures Remainder(byte, 8) == 0
  {
    forall i | 0 <= i < 8
      ensures BitOf(Remainder(byte, 8), i) == BitOf(0, i)
    {
      RemainderBit(byte, 8, i);
      NoBits(i);
    }
    SameBits(Remainder(byte, 8), 0);
  }

  lemma NextRemainder(byte: bv8, j: nat) returns (r: bv8, next: bv8, bit: bool)
    requires j < 8
    ensures r == Remainder(byte, j) && next == Remainder(byte, j + 1) == Half(r)
    ensures bit == BitOf(byte, j) == Odd(r)
  {
    r, next, bit := Remainder(byte, j), Remainder(byte, j + 1), BitOf(byte, j);
    RemainderBit(byte, j, 0);
    LowBit(r);
  }

  /** A turn on a whole byte is a turn on its low bit. */
  lemma OneTurn(s: bv8, r: bv8)
    ensures ShiftBit(Xor(s, r)) == Xor(Turn(s, Odd(r)), Half(r))
  {}

  lemma {:induction false} ShiftsAdd(c: bv8, m: nat, n: nat)
    ensures Shifts(c, m + n) == Shifts(Shifts(c, m), n)
    decreases m
  {
    if m > 0 {
      ShiftsAdd(ShiftBit(c), m - 1, n);
    }
  }

  lemma LastTurn(c: bv8, j: nat) returns (before: bv8, after: bv8)
    ensures before == Shifts(c, j) && after == Shifts(c, j + 1) == ShiftBit(before)
  {
    before, after := Shifts(c, j), Shifts(c, j + 1);
    ShiftsAdd(c, j, 1);
  }

  lemma ByteTurn(w: Bytes, t: seq<bv8>, i: nat, j: nat) returns (before: bv8, bit: bool, after: bv8)
    requires i < |w| && j < 8 && Accumulates(Bits(w), t)
    ensures before == t[8 * i + j] && after == t[8 * i + j + 1] == Turn(before, bit) && bit == BitOf(w[i], j)
  {
    BitAt(w, i, j);
    before, bit, after := TurnAt(Bits(w), t, 8 * i + j);
  }

  /** j turns on a byte leave the accumulator of j bits and the rest of the byte. */
  lemma {:induction false} TurnsOnByte(w: Bytes, t: seq<bv8>, i: nat, j: nat, start: bv8)
      returns (c: bv8, a: bv8, r: bv8)
    requires i < |w| && j <= 8 && Accumulates(Bits(w), t) && start == Xor(t[8 * i], w[i])
    ensures c == Shifts(start, j) && a == t[8 * i + j] && r == Remainder(w[i], j) && c == Xor(a, r)
    decreases j
  {
    if j == 0 {
      c, a, r := start, t[8 * i], w[i];
    } else {
      var c0, a0, r0 := TurnsOnByte(w, t, i, j - 1, start);
      var bit, same;
      c0, c := LastTurn(start, j - 1);
      r0, r, bit := NextRemainder(w[i], j - 1);
      a0, same, a := ByteTurn(w, t, i, j - 1);
      OneTurn(a0, r0);
    }
  }

  lemma ByteState(w: Bytes, t: seq<bv8>, i: nat, turns: nat)
    requires i < |w| && turns == 8 && Accumulates(Bits(w), t)
    ensures t[8 * i + 8] == Next(t[8 * i], w[i], turns)
  {
    var c, a, r := TurnsOnByte(w, t, i, turns, Xor(t[8 * i], w[i]));
    NothingRemains(w[i]);
    XorNothing(a);
  }

  lemma XorNothing(a: bv8)
    ensures Xor(a, 0) == a
  {}

  /** The accumulator after whole bytes is that of the bytes. */
  lemma {:induction false} StateIsCrc(w: Bytes, t: seq<bv8>, i: nat, turns: nat)
    requires i <= |w| && turns == 8 && Accumulates(Bits(w), t)
    ensures t[8 * i] == Crc(0, w[..i], turns)
  {
    if i > 0 {
      StateIsCrc(w, t, i - 1, turns);
      assert w[..i][..i - 1] == w[..i - 1] && w[..i][i - 1] == w[i - 1];
      CrcAtEnd(w[..i], turns);
      ByteState(w, t, i - 1, turns);
    }
  }

  /** A word checks if and only if its bits leave the accumulator at zero. */
  lemma ChecksIsLast(w: Bytes, t: seq<bv8>)
    requires w != [] && Accumulates(Bits(w), t)
    ensures Checks(w) <==> t[8 * |w|] == 0
  {
    ChecksIsZero(w);
    StateIsCrc(w, t, |w|, 8);
    assert w[..|w|] == w;
  }

  // ----- multiples of the generator -----

  function Tap(q: seq<bool>, k: int): bool {
    0 <= k < |q| && q[k]
  }

  /** The bit at k of the product, without carries, of q and the generator: with the highest
      power first, the generator has ones at 0, 3, 4 and 8. */
  function ProductBit(q: seq<bool>, k: int): bool {
    (Tap(q, k) != Tap(q, k - 3)) != (Tap(q, k - 4) != Tap(q, k - 8))
  }

  ghost predicate IsProduct(bits: seq<bool>, q: seq<bool>) {
    |q| == |bits| - 8 && forall k | 0 <= k < |bits| :: bits[k] == ProductBit(q, k)
  }

  /** The bits of the word, low bit of each byte first, are a multiple of the generator. */
  ghost predicate IsMultiple(w: Bytes) {
    exists q: seq<bool> :: IsProduct(Bits(w), q)
  }

  /** The last eight bits of a quotient, the latest at the top. */
  function Push(h: bv8, b: bool): bv8 {
    (h >> 1) | (if b then 0x80 else 0)
  }

  function Latest(q: seq<bool>, n: nat): bv8
    requires n <= |q|
  {
    if n == 0 then 0 else Push(Latest(q, n - 1), q[n - 1])
  }

  /** The accumulator that they leave. */
  function Register(h: bv8): bv8 {
    h ^ (h >> 4) ^ (h >> 5)
  }

  lemma PushBit(h: bv8, b: bool, i: nat)
    requires i < 8
    ensures BitOf(Push(h, b), i) == if i == 7 then b else BitOf(h, i + 1)
  {}

  lemma {:induction false} LatestBit(q: seq<bool>, n: nat, d: nat)
    requires n <= |q| && 1 <= d <= 8
    ensures BitOf(Latest(q, n), 8 - d) == Tap(q, n - d)
    decreases n
  {
    if n == 0 {
      NoBits(8 - d);
    } else {
      PushBit(Latest(q, n - 1), q[n - 1], 8 - d);
      if d > 1 {
        LatestBit(q, n - 1, d - 1);
      }
    }
  }

  lemma RegisterLow(h: bv8)
    ensures Odd(Register(h)) <==> (BitOf(h, 0) != BitOf(h, 4)) != BitOf(h, 5)
  {}

  /** A turn feeds the new bit of the quotient back. */
  lemma RegisterTurn(h: bv8, bit: bool, b: bool)
    requires b <==> Odd(Register(h)) != bit
    ensures Turn(Register(h), bit) == Register(Push(h, b))
  {}

  lemma RegisterZero(h: bv8)
    ensures Register(h) == 0 <==> h == 0
  {}

  /** While the bits are those of a product, the accumulator is what the quotient leaves. */
  lemma {:induction false} ProductTracks(bits: seq<bool>, t: seq<bv8>, q: seq<bool>, n: nat)
    requires Accumulates(bits, t) && n <= |q| == |bits|
    requires forall k | 0 <= k < n :: bits[k] == ProductBit(q, k)
    ensures t[n] == Register(Latest(q, n))
    decreases n
  {
    if n > 0 {
      ProductTracks(bits, t, q, n - 1);
      var h := Latest(q, n - 1);
      RegisterLow(h);
      LatestBit(q, n - 1, 8);
      LatestBit(q, n - 1, 4);
      LatestBit(q, n - 1, 3);
      assert bits[n - 1] == ProductBit(q, n - 1);
      RegisterTurn(h, bits[n - 1], q[n - 1]);
    }
  }

  /** Dividing: each bit of the quotient is what makes the product's bit right. */
  function Quotient(bits: seq<bool>): (q: seq<bool>)
    ensures |q| == |bits|
  {
    if bits == [] then [] else
      var n := |bits| - 1;
      var q := Quotient(bits[..n]);
      q + [(bits[n] != Tap(q, n - 3)) != (Tap(q, n - 4) != Tap(q, n - 8))]
  }

  lemma {:induction false} QuotientDivides(bits: seq<bool>)
    ensures forall k | 0 <= k < |bits| :: bits[k] == ProductBit(Quotient(bits), k)
    decreases |bits|
  {
    if bits != [] {
      var n := |bits| - 1;
      var q, front := Quotient(bits), Quotient(bits[..n]);
      QuotientDivides(bits[..n]);
      assert forall k | k < n :: Tap(q, k) == Tap(front, k);
      forall k | 0 <= k < n
        ensures bits[k] == ProductBit(q, k)
      {
        assert ProductBit(q, k) == ProductBit(front, k);
        assert bits[..n][k] == bits[k];
      }
    }
  }

  lemma LastEight(q: seq<bool>, n: nat)
    requires n == |q|
    ensures Latest(q, n) == 0 <==> forall k | n - 8 <= k < n :: !Tap(q, k)
  {
    forall k | n - 8 <= k < n
      ensures BitOf(Latest(q, n), 8 - (n - k)) == Tap(q, k)
    {
      LatestBit(q, n, n - k);
    }
    if Latest(q, n) == 0 {
      forall k | n - 8 <= k < n
        ensures !Tap(q, k)
      {
        NoBits(8 - (n - k));
      }
    }
    if forall k | n - 8 <= k < n :: !Tap(q, k) {
      forall i | 0 <= i < 8
        ensures BitOf(Latest(q, n), i) == BitOf(0, i)
      {
        NoBits(i);
        assert !Tap(q, n - 8 + i);
      }
      SameBits(Latest(q, n), 0);
    }
  }

  /** The words that check are exactly the multiples of x^8 + x^5 + x^4 + 1. */
  lemma ChecksIffMultiple(w: Bytes)
    requires w != []
    ensures Checks(w) <==> IsMultiple(w)
  {
    var t := Accumulation(Bits(w));
    ChecksIsLast(w, t);
    if Checks(w) {
      MultipleOf(Bits(w), t);
    }
    forall q: seq<bool> | IsProduct(Bits(w), q)
      ensures Checks(w)
    {
      ProductEndsAtZero(Bits(w), t, q);
    }
  }

  lemma MultipleOf(bits: seq<bool>, t: seq<bv8>)
    requires Accumulates(bits, t) && |bits| >= 8 && t[|bits|] == 0
    ensures exists q :: IsProduct(bits, q)
  {
    var n, whole := |bits|, Quotient(bits);
    QuotientDivides(bits);
    ProductTracks(bits, t, whole, n);
    RegisterZero(Latest(whole, n));
    LastEight(whole, n);
    SameProduct(whole[..n - 8], whole);
    assert IsProduct(bits, whole[..n - 8]);
  }

  lemma ProductEndsAtZero(bits: seq<bool>, t: seq<bv8>, q: seq<bool>)
    requires Accumulates(bits, t) && |bits| >= 8 && IsProduct(bits, q)
    ensures t[|bits|] == 0
  {
    var n, whole := |bits|, q + seq(8, _ => false);
    SameProduct(q, whole);
    ProductTracks(bits, t, whole, n);
    LastEight(whole, n);
    RegisterZero(0);
  }

  /** Zeros at the end change no product. */
  lemma SameProduct(q: seq<bool>, whole: seq<bool>)
    requires q <= whole && forall k | |q| <= k < |whole| :: !Tap(whole, k)
    ensures forall k: int :: ProductBit(q, k) == ProductBit(whole, k)
  {
    assert forall k: int :: Tap(q, k) == Tap(whole, k);
  }

  // ----- two bits in error -----

  function EightTurns(c: bv8): bv8 {
    ShiftBit(ShiftBit(ShiftBit(ShiftBit(ShiftBit(ShiftBit(ShiftBit(ShiftBit(c))))))))
  }

  lemma EightAre(c: bv8, n: nat)
    ensures Shifts(c, n + 8) == Shifts(EightTurns(c), n)
  {
    var c1 := ShiftBit(c);
    var c2 := ShiftBit(c1);
    var c3 := ShiftBit(c2);
    var c4 := ShiftBit(c3);
    assert Shifts(c, n + 8) == Shifts(c1, n + 7) == Shifts(c2, n + 6) == Shifts(c3, n + 5) == Shifts(c4, n + 4);
    var c5 := ShiftBit(c4);
    var c6 := ShiftBit(c5);
    var c7 := ShiftBit(c6);
    assert Shifts(c4, n + 4) == Shifts(c5, n + 3) == Shifts(c6, n + 2) == Shifts(c7, n + 1);
  }

  /** Where a single bit is after each eight turns. */
  const ORBIT: Bytes := [0x01, 0x5E, 0xC4, 0xAB, 0x8F, 0xCD, 0x37, 0x3D, 0x43, 0xA4, 0xCE, 0xD5, 0x68, 0xA7, 0x2C, 0x80]

  function Orbit(i: nat): bv8 {
    if i == 0 then 1 else EightTurns(Orbit(i - 1))
  }

  lemma OrbitTurns(i: nat, b: bv8) returns (c: bv8)
    requires i < 15 && b == ORBIT[i]
    ensures c == EightTurns(b) && c == ORBIT[i + 1]
  {
    c := EightTurns(b);
  }

  lemma NextOrbit(i: nat, b: bv8) returns (c: bv8)
    requires b == Orbit(i)
    ensures c == Orbit(i + 1) && c == EightTurns(b)
  {
    c := Orbit(i + 1);
  }

  lemma {:induction false} OrbitValues(i: nat) returns (c: bv8)
    requires i < 16
    ensures c == Orbit(i) && c == ORBIT[i]
  {
    c := 1;
    if i > 0 {
      var b := OrbitValues(i - 1);
      c := OrbitTurns(i - 1, b);
      b := NextOrbit(i - 1, b);
    }
  }

  lemma {:induction false} AlongOrbit(i: nat, n: nat, total: nat)
    requires total == n + 8 * i
    ensures Shifts(1, total) == Shifts(Orbit(i), n)
    decreases i
  {
    if i > 0 {
      AlongOrbit(i - 1, n + 8, total);
      EightAre(Orbit(i - 1), n);
    }
  }

  lemma SevenMore(n: nat)
    ensures Shifts(0x80, n + 7) == Shifts(1, n)
  {
    assert Shifts(0x80, n + 7) == Shifts(0x40, n + 6) == Shifts(0x20, n + 5) == Shifts(0x10, n + 4);
    assert Shifts(0x10, n + 4) == Shifts(0x08, n + 3) == Shifts(0x04, n + 2) == Shifts(0x02, n + 1);
  }

  /** 127 turns bring a single bit back. */
  lemma Turns127(n: nat)
    ensures Shifts(1, n + 127) == Shifts(1, n)
  {
    AlongOrbit(15, n + 7, n + 127);
    var c := OrbitValues(15);
    SevenMore(n);
  }

  /** Fewer do not, because 127 is prime. */
  lemma {:induction false} NoShorterPeriod(d: nat)
    requires 0 < d < 127
    ensures Shifts(1, d) != 1
    decreases d
  {
    if Shifts(1, d) == 1 {
      Turns127(0);
      Periods(d, 127 / d, 127 % d);
      Prime127(d);
      if 127 % d > 0 {
        NoShorterPeriod(127 % d);
      }
    }
  }

  /** Whole periods change nothing. */
  lemma {:induction false} Periods(d: nat, times: nat, rest: nat)
    requires Shifts(1, d) == 1
    ensures Shifts(1, d * times + rest) == Shifts(1, rest)
  {
    if times > 0 {
      Periods(d, times - 1, rest);
      assert d * times + rest == d + (d * (times - 1) + rest);
      ShiftsAdd(1, d, d * (times - 1) + rest);
    }
  }

  lemma Prime127(d: nat)
    requires 0 < d < 127
    ensures 127 % d == 0 ==> d == 1
  {
    var q := 127 / d;
    assert 127 == d * q + 127 % d;
    if 127 % d == 0 {
      if d <= 11 {
        SmallDivisor(d, q);
      } else {
        SmallQuotient(d, q);
        SmallDivisor(q, d);
      }
    }
  }

  lemma SmallQuotient(d: nat, q: nat)
    requires d >= 12 && d * q == 127
    ensures q <= 11
  {
    assert d * q >= 12 * q;
  }

  lemma SmallDivisor(a: nat, b: nat)
    requires a * b == 127 && a <= 11
    ensures a == 1
  {
    assert a == 0 || a == 1 || a == 2 || a == 3 || a == 4 || a == 5;
    assert a > 5 ==> a == 6 || a == 7 || a == 8 || a == 9 || a == 10 || a == 11;
  }

  /** A single bit is back after exactly the multiples of 127 turns. */
  lemma SingleBitBack(d: nat)
    ensures Shifts(1, d) == 1 <==> d % 127 == 0
  {
    Turns127(0);
    Periods(127, d / 127, d % 127);
    if d % 127 > 0 {
      NoShorterPeriod(d % 127);
    }
  }

  /** The words differ in the bits p and p2, and nowhere else. */
  ghost predicate DifferAtTwo(u: Bytes, v: Bytes, p: nat, p2: nat) {
    && |u| == |v| && p < p2 < 8 * |u|
    && forall k | 0 <= k < 8 * |u| :: WordBit(u, k) == WordBit(v, k) <==> k != p && k != p2
  }

  lemma DifferenceTurn(a: bv8, b: bv8, x: bool, y: bool)
    ensures Xor(Turn(a, x), Turn(b, y)) == Turn(Xor(a, b), x != y)
  {}

  lemma DifferenceAt(bits: seq<bool>, t: seq<bv8>, bits2: seq<bool>, t2: seq<bv8>, n: nat)
    requires Accumulates(bits, t) && Accumulates(bits2, t2) && n < |bits| == |bits2|
    ensures Xor(t[n + 1], t2[n + 1]) == Turn(Xor(t[n], t2[n]), bits[n] != bits2[n])
  {
    var a, x, a2 := TurnAt(bits, t, n);
    var b, y, b2 := TurnAt(bits2, t2, n);
    DifferenceTurn(a, b, x, y);
  }

  /** The differences of two accumulators are the accumulator of the different bits. */
  lemma Differences(bits: seq<bool>, t: seq<bv8>, bits2: seq<bool>, t2: seq<bv8>, diff: seq<bool>)
      returns (d: seq<bv8>)
    requires Accumulates(bits, t) && Accumulates(bits2, t2) && |bits| == |bits2| == |diff|
    requires forall k | 0 <= k < |bits| :: diff[k] == (bits[k] != bits2[k])
    ensures Accumulates(diff, d) && forall k | 0 <= k <= |bits| :: d[k] == Xor(t[k], t2[k])
  {
    d := seq(|t|, k requires 0 <= k < |t| => Xor(t[k], t2[k]));
    forall n | 0 <= n < |bits|
      ensures d[n + 1] == Turn(d[n], diff[n])
    {
      DifferenceAt(bits, t, bits2, t2, n);
    }
    XorNothing(0);
  }

  /** Over zeros the accumulator only turns. */
  lemma {:induction false} ZerosTurn(bits: seq<bool>, t: seq<bv8>, m: nat, n: nat)
    requires Accumulates(bits, t) && m <= n <= |bits| && forall k | m <= k < n :: !bits[k]
    ensures t[n] == Shifts(t[m], n - m)
    decreases n
  {
    if n > m {
      ZerosTurn(bits, t, m, n - 1);
      XorNothing(t[n - 1]);
      var before, after := LastTurn(t[m], n - 1 - m);
    }
  }

  /** Two ones leave the accumulator at zero if and only if they are a multiple of 127 bits
      apart. */
  lemma TwoOnes(bits: seq<bool>, t: seq<bv8>, p: nat, p2: nat)
    requires Accumulates(bits, t) && p < p2 < |bits|
    requires forall k | 0 <= k < |bits| :: bits[k] <==> k == p || k == p2
    ensures t[|bits|] == 0 <==> (p2 - p) % 127 == 0
  {
    ZerosTurn(bits, t, 0, p);
    ShiftsOfZero(p);
    OneFromZero(t[p]);
    ZerosTurn(bits, t, p + 1, p2);
    FirstOne(p2 - p);
    BackToZero(t[p2], |bits| - p2 - 1);
    ZerosTurn(bits, t, p2 + 1, |bits|);
    SingleBitBack(p2 - p);
  }

  lemma OneFromZero(a: bv8)
    ensures a == 0 ==> Turn(a, true) == ShiftBit(1)
  {}

  lemma FirstOne(n: nat)
    requires n > 0
    ensures Shifts(ShiftBit(1), n - 1) == Shifts(1, n)
  {}

  /** Two wrong bits go undetected if and only if they are a multiple of 127 bits apart. */
  lemma TwoBitErrors(u: Bytes, v: Bytes, p: nat, p2: nat)
    requires DifferAtTwo(u, v, p, p2) && Checks(u)
    ensures Checks(v) <==> (p2 - p) % 127 == 0
  {
    var n := 8 * |u|;
    var t := Accumulation(Bits(u));
    var t2 := Accumulation(Bits(v));
    ChecksIsLast(u, t);
    ChecksIsLast(v, t2);
    var diff := seq(n, k => k == p || k == p2);
    var d := Differences(Bits(u), t, Bits(v), t2, diff);
    TwoOnes(diff, d, p, p2);
    XorZero(t[n], t2[n]);
  }

  /** A difference that meets a wrong bit vanishes exactly if it is that bit. */
  lemma BackToZero(d: bv8, n: nat)
    ensures Shifts(Turn(d, true), n) == 0 <==> d == 1
  {
    ShiftsOfZero(n);
    if Shifts(Turn(d, true), n) == 0 {
      ShiftsInjective(Turn(d, true), 0, n);
    }
    OnlyOneVanishes(d);
  }

  lemma OnlyOneVanishes(d: bv8)
    ensures Turn(d, true) == 0 <==> d == 1
  {}
}
