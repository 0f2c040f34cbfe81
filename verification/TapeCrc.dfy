/** The Acorn cassette CRC: CCITT polynomial &1021, high bit first, initial value zero.
    The 16-bit register is its sequence of bits, most significant first, so that a shift drops
    the head and exclusive or is bit by bit. */
module TapeCrc {
  import opened Bytes
  import opened Bits

  type Word = w: seq<bool> | |w| == 16 witness [false, false, false, false, false, false, false, false,
                                                 false, false, false, false, false, false, false, false]

  const ZERO: Word :=
    [false, false, false, false, false, false, false, false, false, false, false, false, false, false, false, false]

  /** &1021: bits 12, 5 and 0. */
  const POLYNOMIAL: Word :=
    [false, false, false, true, false, false, false, false, false, false, true, false, false, false, false, true]

  function Xor(a: seq<bool>, b: seq<bool>): (r: seq<bool>)
    requires |a| == |b|
    ensures |r| == |a|
  {
    seq(|a|, i requires 0 <= i < |a| => a[i] != b[i])
  }

  /** One step of the shift register. */
  function ShiftBit(crc: Word): Word {
    if crc[0] then Xor(crc[1..] + [false], POLYNOMIAL) else crc[1..] + [false]
  }

  function ShiftBits(crc: Word, count: nat): Word {
    if count == 0 then crc else ShiftBit(ShiftBits(crc, count - 1))
  }

  /** A byte is mixed into the high half of the register. */
  function Mix(crc: Word, b: Byte): Word {
    Xor(crc[..8], BitsOf(b, 8)) + crc[8..]
  }

  /** The register after one more byte has gone in. */
  function AddByte(crc: Word, b: Byte): Word {
    ShiftBits(Mix(crc, b), 8)
  }

  function Crc(data: seq<Byte>): Word {
    if data == [] then ZERO else AddByte(Crc(data[..|data| - 1]), data[|data| - 1])
  }

  /** A CRC as the tape stores it: high byte, then low byte. */
  function Stored(crc: Word): (bytes: seq<Byte>)
    ensures |bytes| == 2
  {
    EightBitsFit(crc[..8]);
    EightBitsFit(crc[8..]);
    [ValueOf(crc[..8]), ValueOf(crc[8..])]
  }

  /** The two nested loops of the source compute Crc of the bytes they are given. */
  method Compute(data: array<Byte>, from: nat, length: nat) returns (crc: Word)
    requires from + length <= data.Length
    ensures crc == Crc(data[from..from + length])
  {
    crc := ZERO;
    for i := 0 to length
      invariant crc == Crc(data[from..from + i])
    {
      assert data[from..from + i + 1][..i] == data[from..from + i];
      crc := Mix(crc, data[from + i]);
      ghost var mixed := crc;
      for bit := 0 to 8
        invariant crc == ShiftBits(mixed, bit)
      {
        if crc[0] {
          crc := Xor(crc[1..] + [false], POLYNOMIAL);
        } else {
          crc := crc[1..] + [false];
        }
      }
    }
  }

  // ----- the register

  lemma XorCancels(a: seq<bool>, b: seq<bool>, mask: seq<bool>)
    requires |a| == |b| == |mask|
    requires Xor(a, mask) == Xor(b, mask)
    ensures a == b
  {
    forall i | 0 <= i < |a|
      ensures a[i] == b[i]
    {
      assert Xor(a, mask)[i] == Xor(b, mask)[i];
    }
  }

  lemma XorZeroIffEqual(a: seq<bool>, b: seq<bool>)
    requires |a| == |b|
    ensures (forall i | 0 <= i < |a| :: !Xor(a, b)[i]) <==> a == b
  {
    if forall i | 0 <= i < |a| :: !Xor(a, b)[i] {
      forall i | 0 <= i < |a|
        ensures a[i] == b[i]
      {
        assert !Xor(a, b)[i];
      }
    }
  }

  /** The feedback sets the low bit, so no step confuses two registers. */
  lemma ShiftBitInjective(a: Word, b: Word)
    requires ShiftBit(a) == ShiftBit(b)
    ensures a == b
  {
    var sa, sb := a[1..] + [false], b[1..] + [false];
    assert Xor(sa, POLYNOMIAL)[15] && Xor(sb, POLYNOMIAL)[15];
    assert !sa[15] && !sb[15];
    assert a[0] == b[0];
    if a[0] {
      XorCancels(sa, sb, POLYNOMIAL);
    }
    assert a == [a[0]] + sa[..15];
    assert b == [b[0]] + sb[..15];
  }

  lemma {:induction false} ShiftBitsInjective(a: Word, b: Word, count: nat)
    requires ShiftBits(a, count) == ShiftBits(b, count)
    ensures a == b
  {
    if count != 0 {
      ShiftBitInjective(ShiftBits(a, count - 1), ShiftBits(b, count - 1));
      ShiftBitsInjective(a, b, count - 1);
    }
  }

  lemma MixSeparatesBytes(crc: Word, x: Byte, y: Byte)
    requires Mix(crc, x) == Mix(crc, y)
    ensures x == y
  {
    var xs, ys := BitsOf(x, 8), BitsOf(y, 8);
    forall i | 0 <= i < 8
      ensures xs[i] == ys[i]
    {
      assert Mix(crc, x)[i] == (crc[i] != xs[i]);
      assert Mix(crc, y)[i] == (crc[i] != ys[i]);
    }
    assert xs == ys;
    ByteBits(x);
    ByteBits(y);
  }

  lemma MixSeparatesRegisters(a: Word, b: Word, x: Byte)
    requires Mix(a, x) == Mix(b, x)
    ensures a == b
  {
    var mask := BitsOf(x, 8);
    forall i | 0 <= i < 16
      ensures a[i] == b[i]
    {
      assert Mix(a, x)[i] == if i < 8 then a[i] != mask[i] else a[i];
      assert Mix(b, x)[i] == if i < 8 then b[i] != mask[i] else b[i];
    }
  }

  /** Replacing any one byte of any payload changes its CRC. */
  lemma {:induction false} DetectsOneByte(data: seq<Byte>, at: nat, b: Byte)
    requires at < |data| && data[at] != b
    ensures Crc(data[at := b]) != Crc(data)
    decreases |data|
  {
    var n := |data| - 1;
    var changed := data[at := b];
    var before, after := Mix(Crc(data[..n]), data[n]), Mix(Crc(changed[..n]), changed[n]);
    if at == n {
      assert changed[..n] == data[..n];
      if before == after {
        MixSeparatesBytes(Crc(data[..n]), data[n], b);
      }
    } else {
      assert changed[..n] == data[..n][at := b];
      DetectsOneByte(data[..n], at, b);
      if before == after {
        MixSeparatesRegisters(Crc(data[..n]), Crc(changed[..n]), data[n]);
      }
    }
    if Crc(changed) == Crc(data) {
      ShiftBitsInjective(before, after, 8);
    }
  }

  /** While the bits shifted out are clear there is no feedback. */
  lemma {:induction false} QuietShift(crc: Word, count: nat)
    requires count <= 16 && forall i | 0 <= i < count :: !crc[i]
    ensures ShiftBits(crc, count) == crc[count..] + seq(count, _ => false)
  {
    if count != 0 {
      QuietShift(crc, count - 1);
    }
  }

  /** A byte alone in the low half moves to the high half, where mixing it in clears it. */
  lemma LowByteMovesUp(lo: Byte, low: Word)
    requires low == seq(8, _ => false) + BitsOf(lo, 8)
    ensures Mix(ShiftBits(low, 8), lo) == ZERO
  {
    QuietShift(low, 8);
    assert ShiftBits(low, 8) == BitsOf(lo, 8) + seq(8, _ => false);
  }

  lemma ZeroStaysZero()
    ensures ShiftBits(ZERO, 8) == ZERO
  {
    QuietShift(ZERO, 8);
  }

  /** Two bytes bring a register to zero exactly when they are its own two halves. */
  lemma TwoBytesToZero(crc: Word, hi: Byte, lo: Byte)
    ensures AddByte(AddByte(crc, hi), lo) == ZERO <==> [hi, lo] == Stored(crc)
  {
    var low: Word := seq(8, _ => false) + BitsOf(lo, 8);
    LowByteMovesUp(lo, low);
    ZeroStaysZero();
    MixIsLow(crc, hi, lo);
    if AddByte(AddByte(crc, hi), lo) == ZERO {
      ShiftBitsInjective(Mix(AddByte(crc, hi), lo), ZERO, 8);
      MixSeparatesRegisters(AddByte(crc, hi), ShiftBits(low, 8), lo);
      ShiftBitsInjective(Mix(crc, hi), low, 8);
    }
  }

  /** Mixing in a byte leaves just the low half exactly when the byte is the high half. */
  lemma MixIsLow(crc: Word, hi: Byte, lo: Byte)
    ensures Mix(crc, hi) == seq(8, _ => false) + BitsOf(lo, 8) <==> [hi, lo] == Stored(crc)
  {
    var bh, bl := BitsOf(hi, 8), BitsOf(lo, 8);
    var mixed := Mix(crc, hi);
    ByteBits(hi);
    ByteBits(lo);
    BitsOfValue(crc[..8]);
    BitsOfValue(crc[8..]);
    XorZeroIffEqual(crc[..8], bh);
    assert mixed[..8] == Xor(crc[..8], bh) && mixed[8..] == crc[8..];
    if mixed == seq(8, _ => false) + bl {
      forall i | 0 <= i < 8
        ensures !Xor(crc[..8], bh)[i]
      {
        assert Xor(crc[..8], bh)[i] == mixed[i];
      }
      assert crc[8..] == bl;
    }
    if [hi, lo] == Stored(crc) {
      assert hi == Stored(crc)[0] && lo == Stored(crc)[1];
      assert crc[..8] == bh && crc[8..] == bl;
      assert mixed == seq(8, _ => false) + bl;
    }
  }

  /** A reader that runs on over two stored bytes ends at zero exactly when they are the
      payload's CRC, high byte first. */
  lemma ResidueIffStored(data: seq<Byte>, hi: Byte, lo: Byte)
    ensures Crc(data + [hi, lo]) == ZERO <==> [hi, lo] == Stored(Crc(data))
  {
    assert (data + [hi, lo])[..|data| + 1] == data + [hi];
    assert (data + [hi])[..|data|] == data;
    assert Crc(data + [hi]) == AddByte(Crc(data), hi);
    TwoBytesToZero(Crc(data), hi, lo);
  }
}
