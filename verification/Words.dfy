/** Machine words of the firmware: 8-, 16- and 32-bit unsigned integers. */
module Words {
  const B16: nat := 0x1_0000
  const B32: nat := 0x1_0000_0000

  type uint8 = x: int | 0 <= x < 0x100
  type uint16 = x: int | 0 <= x < 0x1_0000
  type uint32 = x: int | 0 <= x < 0x1_0000_0000

  /** Truncation to 32 bits. */
  function Wrap32(x: int): uint32 {
    x % 0x1_0000_0000
  }

  /** Unsigned 32-bit addition. */
  function Add32(a: uint32, b: uint32): uint32 {
    if a + b < 0x1_0000_0000 then a + b else a + b - 0x1_0000_0000
  }

  /** Unsigned 32-bit subtraction: the distance from b up to a on the wrapping counter. */
  function Sub32(a: uint32, b: uint32): uint32 {
    if b <= a then a - b else a - b + 0x1_0000_0000
  }

  lemma WordOperations(a: uint32, b: uint32)
    ensures Add32(a, b) == Wrap32(a + b)
    ensures Sub32(a, b) == Wrap32(a - b)
  {}

  /** Shifting by whole turns of the counter does not show. */
  lemma {:induction false} WrapTurns(x: int, k: int)
    ensures (x + k * 0x1_0000_0000) % 0x1_0000_0000 == x % 0x1_0000_0000
    decreases if k < 0 then -k else k
  {
    if k > 0 {
      WrapTurns(x, k - 1);
      assert (x + k * 0x1_0000_0000) == (x + (k - 1) * 0x1_0000_0000) + 0x1_0000_0000;
    } else if k < 0 {
      WrapTurns(x, k + 1);
      assert (x + k * 0x1_0000_0000) == (x + (k + 1) * 0x1_0000_0000) - 0x1_0000_0000;
    }
  }

  /** Reducing the parts of a sum does not change its remainder. */
  lemma WrapSum(a: int, b: int)
    ensures Wrap32(Wrap32(a) + b) == Wrap32(a + b)
  {
    WrapTurns(Wrap32(a) + b, a / 0x1_0000_0000);
  }

  /** The remainder is the only word that is a whole number of turns away. */
  lemma WrapIs(x: int, word: uint32, turns: int)
    requires x == word + turns * 0x1_0000_0000
    ensures Wrap32(x) == word
  {
    WrapTurns(word, turns);
  }
}
