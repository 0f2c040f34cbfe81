/** How a published window of the tape lies in JIM: from page 1, flat when there is no guard,
    in runs of &97 bytes under the guard when there is, with its length in the last two bytes
    of page 255. Page 0 belongs to the host's service replies. */
module UefWindow {
  import opened Bytes

  const JIM_WINDOW := 0x1_0000
  const FIRST_PAGE := 1
  const GUARD_OFFSET := 0x97
  const GUARD_LENGTH := 256 - GUARD_OFFSET
  const FLAT_WINDOW := (256 - FIRST_PAGE - 1) * 256
  const GUARD_WINDOW := (256 - FIRST_PAGE - 1) * GUARD_OFFSET
  const TRAILER := 0xFFFE

  type Guard = g: Option<seq<Byte>> | g.Some? ==> |g.value| == GUARD_LENGTH witness None

  /** How many bytes of the tape one window holds. */
  function Limit(guard: Guard): nat {
    if guard.Some? then GUARD_WINDOW else FLAT_WINDOW
  }

  // ----- where the host looks

  /** The JIM address of byte k of the window. */
  function Position(guard: Guard, k: nat): nat {
    if guard.Some? then (FIRST_PAGE + k / GUARD_OFFSET) * 256 + k % GUARD_OFFSET else FIRST_PAGE * 256 + k
  }

  /** The window as the host's page-and-offset walk reads it. */
  function Gather(jim: seq<Byte>, guard: Guard, n: nat): (r: seq<Byte>)
    requires |jim| >= JIM_WINDOW && n <= Limit(guard)
    ensures |r| == n
  {
    seq(n, k requires 0 <= k < n => jim[Position(guard, k)])
  }

  function TrailerLength(jim: seq<Byte>): nat
    requires |jim| >= JIM_WINDOW
  {
    Rd16(jim, TRAILER)
  }

  /** The guard stands in every page but page 0, except under the trailer. */
  predicate GuardStands(jim: seq<Byte>, image: seq<Byte>)
    requires |jim| >= JIM_WINDOW && |image| == GUARD_LENGTH
  {
    forall i | 0x100 <= i < TRAILER && i % 256 >= GUARD_OFFSET :: jim[i] == image[i % 256 - GUARD_OFFSET]
  }

  // ----- what publishing writes

  /** Which byte of the window a guarded page position holds. */
  function GuardedIndex(i: int): int {
    (i / 256 - FIRST_PAGE) * GUARD_OFFSET + i % 256
  }

  /** JIM byte i after the guard image has been stamped into every page from page 1. */
  function StampedByte(jim: seq<Byte>, image: seq<Byte>, i: int): Byte
    requires 0 <= i < |jim| && |image| == GUARD_LENGTH
  {
    if 0x100 <= i < JIM_WINDOW && i % 256 >= GUARD_OFFSET then image[i % 256 - GUARD_OFFSET] else jim[i]
  }

  /** JIM byte i after data has been laid in runs, one to a page. */
  function ScatteredByte(jim: seq<Byte>, data: seq<Byte>, i: int): Byte
    requires 0 <= i < |jim|
  {
    if 0x100 <= i && i % 256 < GUARD_OFFSET && GuardedIndex(i) < |data| then data[GuardedIndex(i)] else jim[i]
  }

  function FlatByte(jim: seq<Byte>, data: seq<Byte>, i: int): Byte
    requires 0 <= i < |jim|
  {
    if 0x100 <= i < 0x100 + |data| then data[i - 0x100] else jim[i]
  }

  function Stamped(jim: seq<Byte>, image: seq<Byte>): (r: seq<Byte>)
    requires |image| == GUARD_LENGTH
    ensures |r| == |jim|
  {
    seq(|jim|, i requires 0 <= i < |jim| => StampedByte(jim, image, i))
  }

  function Scattered(jim: seq<Byte>, data: seq<Byte>): (r: seq<Byte>)
    ensures |r| == |jim|
  {
    seq(|jim|, i requires 0 <= i < |jim| => ScatteredByte(jim, data, i))
  }

  function Flat(jim: seq<Byte>, data: seq<Byte>): (r: seq<Byte>)
    ensures |r| == |jim|
  {
    seq(|jim|, i requires 0 <= i < |jim| => FlatByte(jim, data, i))
  }

  function WithTrailer(jim: seq<Byte>, n: nat): (r: seq<Byte>)
    requires |jim| >= JIM_WINDOW && n < 0x1_0000
    ensures |r| == |jim|
  {
    jim[TRAILER := n % 256][TRAILER + 1 := n / 256]
  }

  /** The window's bytes laid down for the guard in force; an empty window writes nothing. */
  function LaidBytes(jim: seq<Byte>, guard: Guard, data: seq<Byte>): (r: seq<Byte>)
    ensures |r| == |jim|
  {
    if data == [] then jim
    else if guard.Some? then Stamped(Scattered(jim, data), guard.value)
    else Flat(jim, data)
  }

  /** A published window: its bytes and its length. */
  function Laid(jim: seq<Byte>, guard: Guard, data: seq<Byte>): (r: seq<Byte>)
    requires |jim| >= JIM_WINDOW && |data| <= Limit(guard)
    ensures |r| == |jim|
  {
    WithTrailer(LaidBytes(jim, guard, data), |data|)
  }

  // ----- the round trip

  lemma PositionIsInside(guard: Guard, k: nat)
    requires k < Limit(guard)
    ensures 0x100 <= Position(guard, k) < 0xFF00
    ensures guard.Some? ==> Position(guard, k) % 256 < GUARD_OFFSET && GuardedIndex(Position(guard, k)) == k
  {
    if guard.Some? {
      var q, r := k / GUARD_OFFSET, k % GUARD_OFFSET;
      assert k == q * GUARD_OFFSET + r && q < 254;
      var i := (FIRST_PAGE + q) * 256 + r;
      assert i / 256 == FIRST_PAGE + q && i % 256 == r;
    }
  }

  /** Publishing then walking gives the window back, with its length; page 0 and everything
      past the trailer are as they were. */
  lemma LaidRoundTrip(jim: seq<Byte>, guard: Guard, data: seq<Byte>)
    requires |jim| >= JIM_WINDOW && |data| <= Limit(guard)
    ensures Gather(Laid(jim, guard, data), guard, |data|) == data
    ensures TrailerLength(Laid(jim, guard, data)) == |data|
    ensures Laid(jim, guard, data)[..0x100] == jim[..0x100]
    ensures Laid(jim, guard, data)[JIM_WINDOW..] == jim[JIM_WINDOW..]
  {
    var after := Laid(jim, guard, data);
    forall k | 0 <= k < |data|
      ensures after[Position(guard, k)] == data[k]
    {
      PositionIsInside(guard, k);
    }
    forall i | 0 <= i < |jim| && (i < 0x100 || i >= JIM_WINDOW)
      ensures after[i] == jim[i]
    {
      if i >= JIM_WINDOW && guard.Some? {
        assert GuardedIndex(i) >= |data|;
      }
    }
  }

  /** Under a guard a nonempty window leaves the guard standing, and an empty one leaves it as
      it was. */
  lemma LaidKeepsGuard(jim: seq<Byte>, guard: Guard, data: seq<Byte>)
    requires |jim| >= JIM_WINDOW && |data| <= Limit(guard) && guard.Some?
    requires data == [] ==> GuardStands(jim, guard.value)
    ensures GuardStands(Laid(jim, guard, data), guard.value)
  {
  }

  lemma StampStands(jim: seq<Byte>, image: seq<Byte>)
    requires |jim| >= JIM_WINDOW && |image| == GUARD_LENGTH
    ensures GuardStands(Stamped(jim, image), image)
    ensures Stamped(jim, image)[..0x100] == jim[..0x100]
  {
  }

  /** Where each guarded byte goes, written out: byte k in page 1 + k/151 at offset k mod 151. */
  lemma GuardedLayout(jim: seq<Byte>, image: seq<Byte>, data: seq<Byte>, k: nat)
    requires |jim| >= JIM_WINDOW && |image| == GUARD_LENGTH && k < |data| <= GUARD_WINDOW
    ensures Laid(jim, Some(image), data)[(1 + k / 151) * 256 + k % 151] == data[k]
  {
    PositionIsInside(Some(image), k);
  }

  /** Without a guard the window runs on from page 1. */
  lemma FlatLayout(jim: seq<Byte>, data: seq<Byte>, k: nat)
    requires |jim| >= JIM_WINDOW && k < |data| <= 65024
    ensures |data| <= Limit(None) && Laid(jim, None, data)[256 + k] == data[k]
  {
  }

  /** The length of either kind of window is in the last two bytes of page 255, low byte first. */
  lemma LengthInTrailer(jim: seq<Byte>, guard: Guard, data: seq<Byte>)
    requires |jim| >= JIM_WINDOW && |data| <= (if guard.Some? then 254 * 151 else 254 * 256)
    ensures |data| <= Limit(guard)
    ensures var laid := Laid(jim, guard, data);
            laid[255 * 256 + 254] == |data| % 256 && laid[255 * 256 + 255] == |data| / 256
  {
  }

  // ----- the loops

  /** memcpy into JIM. */
  method CopyInto(jim: array<Byte>, at: nat, data: seq<Byte>)
    requires at + |data| <= jim.Length
    modifies jim
    ensures forall i | 0 <= i < jim.Length ::
              jim[i] == if at <= i < at + |data| then data[i - at] else old(jim[i])
  {
    for k := 0 to |data|
      invariant forall i | 0 <= i < jim.Length ::
                  jim[i] == if at <= i < at + k then data[i - at] else old(jim[i])
    {
      jim[at + k] := data[k];
    }
  }

  /** guard_stamp: one copy of the image per page from page 1. */
  method GuardStamp(jim: array<Byte>, image: seq<Byte>)
    requires jim.Length >= JIM_WINDOW && |image| == GUARD_LENGTH
    modifies jim
    ensures jim[..] == Stamped(old(jim[..]), image)
  {
    ghost var was := jim[..];
    var page := FIRST_PAGE;
    while page < 256
      invariant FIRST_PAGE <= page <= 256
      invariant forall i | 0 <= i < jim.Length :: jim[i] == if i < page * 256 then StampedByte(was, image, i) else was[i]
      decreases 256 - page
    {
      CopyInto(jim, page * 256 + GUARD_OFFSET, image);
      page := page + 1;
    }
  }

  /** uef_window_scatter: runs of &97 bytes, one per page, then the guard. */
  method Scatter(jim: array<Byte>, source: seq<Byte>, image: seq<Byte>)
    requires jim.Length >= JIM_WINDOW && |source| <= GUARD_WINDOW && |image| == GUARD_LENGTH
    modifies jim
    ensures jim[..] == Stamped(Scattered(old(jim[..]), source), image)
  {
    ghost var was := jim[..];
    var page, left := 0, source;
    while left != []
      invariant 0 <= page <= 254 && |left| <= |source| && left == source[|source| - |left|..]
      invariant left != [] ==> |source| - |left| == page * GUARD_OFFSET
      invariant forall i | 0 <= i < jim.Length :: jim[i] == ScatteredByte(was, source[..|source| - |left|], i)
      decreases |left|
    {
      var chunk := if |left| < GUARD_OFFSET then |left| else GUARD_OFFSET;
      ghost var done := |source| - |left|;
      CopyInto(jim, (page + FIRST_PAGE) * 256, left[..chunk]);
      forall i | 0 <= i < jim.Length
        ensures jim[i] == ScatteredByte(was, source[..done + chunk], i)
      {
        RunOnPage(page, chunk, i);
      }
      left := left[chunk..];
      page := page + 1;
    }
    assert source[..|source|] == source;
    assert jim[..] == Scattered(was, source);
    GuardStamp(jim, image);
  }

  /** The positions a run covers are those whose index falls in the run. */
  lemma RunOnPage(page: nat, chunk: nat, i: nat)
    requires chunk <= GUARD_OFFSET
    ensures 0x100 <= i && i % 256 < GUARD_OFFSET ==>
              (page * GUARD_OFFSET <= GuardedIndex(i) < page * GUARD_OFFSET + chunk <==>
               (page + 1) * 256 <= i < (page + 1) * 256 + chunk)
    ensures (page + 1) * 256 <= i < (page + 1) * 256 + chunk ==>
              i % 256 < GUARD_OFFSET && GuardedIndex(i) == page * GUARD_OFFSET + (i - (page + 1) * 256)
  {
    var q, r := i / 256, i % 256;
    assert i == q * 256 + r;
    if (page + 1) * 256 <= i < (page + 1) * 256 + chunk {
      assert q == page + 1;
    }
    if r < GUARD_OFFSET && page * GUARD_OFFSET <= GuardedIndex(i) < page * GUARD_OFFSET + chunk {
      assert q - 1 == page;
    }
  }

  /** The window's bytes as the source lays them, then the trailer. */
  method LayWindow(jim: array<Byte>, guard: Guard, data: seq<Byte>)
    requires jim.Length >= JIM_WINDOW && |data| <= Limit(guard)
    modifies jim
    ensures jim[..] == Laid(old(jim[..]), guard, data)
  {
    hide Stamped, Scattered;
    ghost var was := jim[..];
    if data != [] {
      if guard.Some? {
        Scatter(jim, data, guard.value);
      } else {
        CopyInto(jim, FIRST_PAGE * 256, data);
        assert jim[..] == Flat(was, data);
      }
    }
    assert jim[..] == LaidBytes(was, guard, data);
    jim[TRAILER], jim[TRAILER + 1] := |data| % 256, |data| / 256;
  }
}
