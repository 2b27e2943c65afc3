/** Bytes as numbers and as patterns of bits. */
module ByteBits {
  import opened Words

  function BitsOf(x: uint8): bv8 {
    x as bv8
  }

  function ValueOf(b: bv8): uint8 {
    b as int
  }

  lemma ValueRoundTrip(b: bv8)
    ensures BitsOf(ValueOf(b)) == b
  {}

  function BitsOfAll(s: seq<uint8>): (b: seq<bv8>)
    ensures |b| == |s|
  {
    seq(|s|, i requires 0 <= i < |s| => BitsOf(s[i]))
  }
}
