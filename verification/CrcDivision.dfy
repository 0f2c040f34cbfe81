/** What the cassette CRC is: the remainder of the message, moved up sixteen places, on division by
    x^16 + x^12 + x^5 + 1 over the integers modulo two. The division is written out as it is done
    by hand, without the shift register. */
module CrcDivision {
  import opened Bytes
  import opened Bits
  import opened TapeCrc

  /** The coefficients of x^16 + x^12 + x^5 + 1, highest first. */
  const DIVISOR: seq<bool> :=
    [true, false, false, false, true, false, false, false, false, false, false, true, false, false, false, false, true]

  function Clear(n: nat): (r: seq<bool>)
    ensures |r| == n && forall i | 0 <= i < n :: !r[i]
  {
    seq(n, _ => false)
  }

  /** The dividend less the divisor under its first seventeen places. */
  function Subtracted(bits: seq<bool>): (r: seq<bool>)
    requires |bits| >= 17
    ensures |r| == |bits|
  {
    seq(|bits|, i requires 0 <= i < |bits| => if i < 17 then bits[i] != DIVISOR[i] else bits[i])
  }

  /** Long division: while more than sixteen places are left, subtract the divisor if it goes in,
      and drop the leading place, which is then clear. */
  function Remainder(bits: seq<bool>): (r: seq<bool>)
    requires |bits| >= 16
    ensures |r| == 16
    decreases |bits|
  {
    if |bits| == 16 then bits
    else if bits[0] then Remainder(Subtracted(bits)[1..])
    else Remainder(bits[1..])
  }

  /** The bits of a message, each byte's highest first. */
  function MessageBits(data: seq<Byte>): seq<bool> {
    if data == [] then [] else MessageBits(data[..|data| - 1]) + BitsOf(data[|data| - 1], 8)
  }

  // ----- the register in the middle of a division

  /** What is left to divide when the register holds w and the bits m are still to come. */
  function Loaded(w: Word, m: seq<bool>): (r: seq<bool>)
    ensures |r| == |m| + 16
  {
    seq(|m| + 16, i requires 0 <= i < |m| + 16 =>
      (if i < |m| then m[i] else false) != (if i < 16 then w[i] else false))
  }

  /** The dividend after one place, as the register holds it. */
  lemma ShiftPlaces(w: Word, m: seq<bool>)
    ensures var bits := Loaded(w, [false] + m);
            && bits[0] == w[0]
            && (if w[0] then Subtracted(bits)[1..] else bits[1..]) == Loaded(ShiftBit(w), m)
  {
    var bits, next := Loaded(w, [false] + m), Loaded(ShiftBit(w), m);
    var left := if w[0] then Subtracted(bits)[1..] else bits[1..];
    forall i | 0 <= i < |next|
      ensures left[i] == next[i]
    {
      assert bits[i + 1] == ((if i < |m| then m[i] else false) != (if i + 1 < 16 then w[i + 1] else false));
      if i < 16 {
        ShiftedAt(w, i);
      }
    }
  }

  lemma ShiftedAt(w: Word, i: nat)
    requires i < 16
    ensures ShiftBit(w)[i] == ((if i < 15 then w[i + 1] else false) != (w[0] && DIVISOR[i + 1]))
  {
  }

  /** One shift of the register is one place of the division. */
  lemma ShiftDivides(w: Word, m: seq<bool>)
    ensures Remainder(Loaded(w, [false] + m)) == Remainder(Loaded(ShiftBit(w), m))
  {
    hide Loaded, Subtracted, ShiftBit;
    ShiftPlaces(w, m);
  }

  lemma {:induction false} ShiftsDivide(w: Word, count: nat, m: seq<bool>)
    ensures Remainder(Loaded(w, Clear(count) + m)) == Remainder(Loaded(ShiftBits(w, count), m))
    decreases count
  {
    hide Remainder, Loaded, ShiftBit;
    if count == 0 {
      assert Clear(0) + m == m;
    } else {
      assert Clear(count) + m == Clear(count - 1) + ([false] + m);
      ShiftsDivide(w, count - 1, [false] + m);
      ShiftDivides(ShiftBits(w, count - 1), m);
    }
  }

  /** Mixing a byte in takes its bits from the message. */
  lemma MixLoads(w: Word, b: Byte, m: seq<bool>)
    ensures Loaded(w, BitsOf(b, 8) + m) == Loaded(Mix(w, b), Clear(8) + m)
  {
    hide BitsOf;
    var x, y := Loaded(w, BitsOf(b, 8) + m), Loaded(Mix(w, b), Clear(8) + m);
    forall i | 0 <= i < |x|
      ensures x[i] == y[i]
    {
      if i < 8 {
        assert Mix(w, b)[i] == (w[i] != BitsOf(b, 8)[i]);
      } else if i < 16 {
        assert Mix(w, b)[i] == w[i];
      }
    }
  }

  lemma {:induction false} CrcDivides(data: seq<Byte>, m: seq<bool>)
    ensures Remainder(Loaded(ZERO, MessageBits(data) + m)) == Remainder(Loaded(Crc(data), m))
    decreases |data|
  {
    hide Remainder, Loaded, BitsOf, Mix, ShiftBits;
    if data == [] {
      assert MessageBits(data) + m == m;
    } else {
      var n := |data| - 1;
      var front, last := data[..n], BitsOf(data[n], 8);
      assert MessageBits(data) + m == MessageBits(front) + (last + m);
      CrcDivides(front, last + m);
      MixLoads(Crc(front), data[n], m);
      ShiftsDivide(Mix(Crc(front), data[n]), 8, m);
    }
  }

  /** The cassette CRC is the remainder of the message times x^16 by x^16 + x^12 + x^5 + 1. */
  lemma CrcIsRemainder(data: seq<Byte>)
    ensures Crc(data) == Remainder(MessageBits(data) + Clear(16))
  {
    CrcDivides(data, []);
    assert MessageBits(data) + [] == MessageBits(data);
    assert Loaded(ZERO, MessageBits(data)) == MessageBits(data) + Clear(16);
    assert Loaded(Crc(data), []) == Crc(data);
  }

  // ----- one value

  lemma {:induction false} LeadingClear(count: nat, m: seq<bool>)
    requires |m| >= 16
    ensures Remainder(Clear(count) + m) == Remainder(m)
    decreases count
  {
    if count == 0 {
      assert Clear(0) + m == m;
    } else {
      LeadingClear(count - 1, m);
      assert (Clear(count) + m)[1..] == Clear(count - 1) + m;
    }
  }

  /** The CRC of the one byte 1 is stored as &10 &21. */
  lemma CrcOfOne()
    ensures Stored(Crc([1])) == [0x10, 0x21]
  {
    CrcIsRemainder([1]);
    assert [1][..0] == [];
    OneBits();
    var one := [true] + Clear(16);
    assert MessageBits([1]) == [] + BitsOf(1, 8) == BitsOf(1, 8);
    assert BitsOf(1, 8) + Clear(16) == Clear(7) + one;
    LeadingClear(7, one);
    var left := Subtracted(one)[1..];
    assert left == DIVISOR[1..];
    assert Remainder(left) == left;
    HalvesOfDivisor(left);
  }

  lemma OneBits()
    ensures BitsOf(1, 8) == Clear(7) + [true]
  {
    assert BitsOf(0, 3) == Clear(3);
    assert BitsOf(0, 5) == Clear(5);
    assert BitsOf(0, 7) == Clear(7);
  }

  lemma ValueGrows(bits: seq<bool>, last: bool)
    ensures ValueOf(bits + [last]) == 2 * ValueOf(bits) + (if last then 1 else 0)
  {
    assert (bits + [last])[..|bits|] == bits;
  }

  /** The value of a nibble, and of the byte it begins. */
  lemma ValueOfFour(bits: seq<bool>, a: bool, b: bool, c: bool, d: bool)
    ensures ValueOf(bits + [a, b, c, d])
         == 16 * ValueOf(bits) + (if a then 8 else 0) + (if b then 4 else 0) + (if c then 2 else 0) + (if d then 1 else 0)
  {
    hide ValueOf;
    ValueGrows(bits, a);
    ValueGrows(bits + [a], b);
    ValueGrows(bits + [a] + [b], c);
    ValueGrows(bits + [a] + [b] + [c], d);
    assert bits + [a, b, c, d] == bits + [a] + [b] + [c] + [d];
  }

  lemma HalvesOfDivisor(w: Word)
    requires w == DIVISOR[1..]
    ensures Stored(w) == [0x10, 0x21]
  {
    hide ValueOf;
    var high: seq<bool> := [] + [false, false, false, true];
    var low: seq<bool> := [] + [false, false, true, false];
    assert ValueOf([]) == 0 by { NoBits(); }
    ValueOfFour([], false, false, false, true);
    ValueOfFour(high, false, false, false, false);
    ValueOfFour([], false, false, true, false);
    ValueOfFour(low, false, false, false, true);
    assert w[..8] == high + [false, false, false, false];
    assert w[8..] == low + [false, false, false, true];
  }

  lemma NoBits()
    ensures ValueOf([]) == 0
  {
  }
}
