/** Numbers and their binary digits, most significant first. */
module Bits {
  import opened Bytes

  /** The low `count` bits of a number, most significant first. */
  function BitsOf(value: nat, count: nat): (bits: seq<bool>)
    ensures |bits| == count
  {
    if count == 0 then [] else BitsOf(value / 2, count - 1) + [value % 2 == 1]
  }

  function ValueOf(bits: seq<bool>): nat {
    if bits == [] then 0
    else 2 * ValueOf(bits[..|bits| - 1]) + (if bits[|bits| - 1] then 1 else 0)
  }

  lemma {:induction false} BitsOfValue(bits: seq<bool>)
    ensures BitsOf(ValueOf(bits), |bits|) == bits
  {
    if bits != [] {
      BitsOfValue(bits[..|bits| - 1]);
      var v, last := ValueOf(bits[..|bits| - 1]), if bits[|bits| - 1] then 1 else 0;
      assert (2 * v + last) / 2 == v && (2 * v + last) % 2 == last;
    }
  }

  function Pow2(n: nat): nat {
    if n == 0 then 1 else 2 * Pow2(n - 1)
  }

  lemma {:induction false} ValueOfBits(value: nat, count: nat)
    requires value < Pow2(count)
    ensures ValueOf(BitsOf(value, count)) == value
  {
    if count != 0 {
      ValueOfBits(value / 2, count - 1);
      assert BitsOf(value, count)[..count - 1] == BitsOf(value / 2, count - 1);
    }
  }

  lemma {:induction false} ValueFits(bits: seq<bool>)
    ensures ValueOf(bits) < Pow2(|bits|)
  {
    if bits != [] {
      ValueFits(bits[..|bits| - 1]);
    }
  }

  lemma EightBits()
    ensures Pow2(8) == 256
  {
    assert Pow2(4) == 16;
    assert Pow2(6) == 64;
  }

  lemma EightBitsFit(bits: seq<bool>)
    requires |bits| == 8
    ensures ValueOf(bits) < 256
  {
    EightBits();
    ValueFits(bits);
  }

  lemma ByteBits(b: Byte)
    ensures ValueOf(BitsOf(b, 8)) == b
  {
    EightBits();
    ValueOfBits(b, 8);
  }
}
