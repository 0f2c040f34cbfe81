/** Bytes, little-endian fields and the small result types every other module uses. */
module Bytes {

  type Byte = b: int | 0 <= b < 256

  datatype Option<+T> = None | Some(value: T)

  /** A 16-bit little-endian field. */
  function Rd16(s: seq<Byte>, at: nat): (r: nat)
    requires at + 2 <= |s|
    ensures r < 0x1_0000
  {
    s[at] as int + 0x100 * s[at + 1] as int
  }

  /** A 32-bit little-endian field. */
  function Rd32(s: seq<Byte>, at: nat): (r: nat)
    requires at + 4 <= |s|
    ensures r < 0x1_0000_0000
  {
    s[at] as int + 0x100 * s[at + 1] as int + 0x1_0000 * s[at + 2] as int + 0x100_0000 * s[at + 3] as int
  }

  /** A number written as a little-endian field, its high bits lost. */
  function Le16(v: nat): (r: seq<Byte>)
    ensures |r| == 2
  {
    [v % 0x100, v / 0x100 % 0x100]
  }

  function Le32(v: nat): (r: seq<Byte>)
    ensures |r| == 4
  {
    [v % 0x100, v / 0x100 % 0x100, v / 0x1_0000 % 0x100, v / 0x100_0000 % 0x100]
  }

  lemma Le16ReadsBack(v: nat)
    requires v < 0x1_0000
    ensures Rd16(Le16(v), 0) == v
  {
  }

  lemma Le32ReadsBack(v: nat)
    requires v < 0x1_0000_0000
    ensures Rd32(Le32(v), 0) == v
  {
    var (x, y, z) := (v / 0x100, v / 0x1_0000, v / 0x100_0000);
    assert v == v % 0x100 + 0x100 * x;
    assert x / 0x100 == y && x == x % 0x100 + 0x100 * y;
    assert y / 0x100 == z && y == y % 0x100 + 0x100 * z;
    assert z % 0x100 == z;
  }

  lemma Rd16Inside(a: seq<Byte>, b: seq<Byte>, c: seq<Byte>)
    requires |b| == 2
    ensures Rd16(a + b + c, |a|) == Rd16(b, 0)
  {
  }

  lemma Rd32Inside(a: seq<Byte>, b: seq<Byte>, c: seq<Byte>)
    requires |b| == 4
    ensures Rd32(a + b + c, |a|) == Rd32(b, 0)
  {
  }

  /** The concatenation of a sequence of sequences, in order. */
  function Concat<T>(parts: seq<seq<T>>): seq<T> {
    if parts == [] then [] else parts[0] + Concat(parts[1..])
  }

  /** Appending one part at the end appends its elements at the end. */
  lemma {:induction false} ConcatAppend<T>(parts: seq<seq<T>>, last: seq<T>)
    ensures Concat(parts + [last]) == Concat(parts) + last
  {
    if parts == [] {
      assert parts + [last] == [last];
      assert Concat([last]) == last + Concat<T>([]);
    } else {
      assert (parts + [last])[1..] == parts[1..] + [last];
      ConcatAppend(parts[1..], last);
    }
  }

  lemma SliceOfSlice<T>(s: seq<T>, a: nat, b: nat, i: nat, j: nat)
    requires a <= b <= |s| && i <= j <= b - a
    ensures s[a..b][i..j] == s[a + i..a + j]
  {
    var x, y := s[a..b][i..j], s[a + i..a + j];
    forall k | 0 <= k < j - i
      ensures x[k] == y[k]
    {
      assert s[a..b][i + k] == s[a + i + k];
    }
    assert |x| == |y|;
  }
}
