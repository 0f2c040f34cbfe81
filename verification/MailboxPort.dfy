/** What a host can rely on through the mailbox's two ports: bytes written through the service
    data register come back through it, and a page keeps what was written to it. */
module MailboxPort {
  import opened Bytes
  import opened MailboxCore
  import opened Mailbox

  const SPAN := 0x100_0000

  // ----- the service region as memory with a wrapping cursor

  /** JIM after storing data from the cursor on. */
  function Poke(jim: Jim, at: Addr24, data: seq<Byte>): Jim
    decreases |data|
  {
    if data == [] then jim else Poke(jim[SERVICES_BASE + at := data[0]], Next(at), data[1..])
  }

  /** The n bytes from the cursor on. */
  function Peek(jim: Jim, at: Addr24, n: nat): (r: seq<Byte>)
    ensures |r| == n
    decreases n
  {
    if n == 0 then [] else [jim[SERVICES_BASE + at]] + Peek(jim, Next(at), n - 1)
  }

  function Ahead(at: Addr24, k: nat): Addr24 { (at + k) % SPAN }

  lemma {:induction false} PeekAt(jim: Jim, at: Addr24, n: nat, k: nat)
    requires k < n
    ensures Peek(jim, at, n)[k] == jim[SERVICES_BASE + Ahead(at, k)]
    decreases n
  {
    hide Ahead, Next;
    AheadStarts(at);
    if k != 0 {
      PeekAt(jim, Next(at), n - 1, k - 1);
      AheadNext(at, k - 1);
    }
  }

  lemma AheadStarts(at: Addr24)
    ensures Ahead(at, 0) == at
  {
  }

  lemma AheadNext(at: Addr24, k: nat)
    ensures Ahead(Next(at), k) == Ahead(at, k + 1)
  {
  }

  /** Storing changes exactly the bytes under the data, each once. */
  lemma {:induction false} PokeAt(jim: Jim, at: Addr24, data: seq<Byte>, i: nat)
    requires |data| <= SPAN && i < JIM_SIZE
    ensures (forall k | 0 <= k < |data| :: i != SERVICES_BASE + Ahead(at, k)) ==> Poke(jim, at, data)[i] == jim[i]
    ensures forall k | 0 <= k < |data| && i == SERVICES_BASE + Ahead(at, k) :: Poke(jim, at, data)[i] == data[k]
    decreases |data|
  {
    if data != [] {
      var jim' := jim[SERVICES_BASE + at := data[0]];
      PokeAt(jim', Next(at), data[1..], i);
      assert Ahead(at, 0) == at;
      forall k | 0 <= k < |data| - 1
        ensures Ahead(Next(at), k) == Ahead(at, k + 1) && Ahead(at, k + 1) != at
      {
        StepAhead(at, k);
      }
      forall k | 0 <= k < |data| && i == SERVICES_BASE + Ahead(at, k)
        ensures Poke(jim, at, data)[i] == data[k]
      {
        if k > 0 {
          assert Ahead(Next(at), k - 1) == Ahead(at, k);
          assert data[1..][k - 1] == data[k];
        }
      }
    }
  }

  lemma StepAhead(at: Addr24, k: nat)
    requires k + 1 < SPAN
    ensures Ahead(Next(at), k) == Ahead(at, k + 1) && Ahead(at, k + 1) != at
  {
  }

  lemma PeekPoke(jim: Jim, at: Addr24, data: seq<Byte>)
    requires |data| <= SPAN
    ensures Peek(Poke(jim, at, data), at, |data|) == data
  {
    var after := Poke(jim, at, data);
    forall k | 0 <= k < |data|
      ensures Peek(after, at, |data|)[k] == data[k]
    {
      PeekAt(after, at, |data|, k);
      PokeAt(jim, at, data, SERVICES_BASE + Ahead(at, k));
    }
  }

  // ----- what the cycles do

  function SetCursor(a: Addr24): seq<Cycle> {
    [Cycle(0xFCA6, a % 0x100, true), Cycle(0xFCA7, a / 0x100 % 0x100, true), Cycle(0xFCA8, a / 0x1_0000, true)]
  }

  function WriteData(data: seq<Byte>): seq<Cycle> {
    if data == [] then [] else [Cycle(0xFCA9, data[0], true)] + WriteData(data[1..])
  }

  function ReadData(n: nat): seq<Cycle> {
    if n == 0 then [] else [Cycle(0xFCA9, 0xFF, false)] + ReadData(n - 1)
  }

  lemma {:induction false} RunAppend<B>(c: Core<B>, d: Dispatch<B>, m: Mirror, xs: seq<Cycle>, ys: seq<Cycle>, stamp: nat)
    ensures var first := AtomicRun(c, d, m, xs, stamp);
            var second := AtomicRun(first.0, d, m, ys, stamp + |xs|);
            AtomicRun(c, d, m, xs + ys, stamp) == (second.0, first.1 + second.1)
    decreases |xs|
  {
    hide Atomic, EventOf;
    if xs == [] {
      assert xs + ys == ys;
      var second := AtomicRun(c, d, m, ys, stamp);
      assert [] + second.1 == second.1;
    } else {
      assert (xs + ys)[1..] == xs[1..] + ys && (xs + ys)[0] == xs[0];
      var e := EventOf(c, m, xs[0], stamp);
      RunAppend(Atomic(c, d, e), d, m, xs[1..], ys, stamp + 1);
      var first := AtomicRun(Atomic(c, d, e), d, m, xs[1..], stamp + 1);
      var second := AtomicRun(first.0, d, m, ys, stamp + |xs|);
      assert ([e.value] + first.1) + second.1 == [e.value] + (first.1 + second.1);
    }
  }

  lemma RunStep<B>(c: Core<B>, d: Dispatch<B>, m: Mirror, y: Cycle, ys: seq<Cycle>, stamp: nat)
    ensures var (last, got) := AtomicRun(Atomic(c, d, EventOf(c, m, y, stamp)), d, m, ys, stamp + 1);
            AtomicRun(c, d, m, [y] + ys, stamp) == (last, [Returned(c, m, y)] + got)
  {
    hide Atomic, Returned;
    assert ([y] + ys)[1..] == ys;
  }

  lemma RunOfThree<B>(c: Core<B>, c1: Core<B>, c2: Core<B>, c3: Core<B>, d: Dispatch<B>, m: Mirror,
                      x: Cycle, y: Cycle, z: Cycle, stamp: nat)
    requires Atomic(c, d, EventOf(c, m, x, stamp)) == c1
    requires Atomic(c1, d, EventOf(c1, m, y, stamp + 1)) == c2
    requires Atomic(c2, d, EventOf(c2, m, z, stamp + 2)) == c3
    ensures AtomicRun(c, d, m, [x, y, z], stamp).0 == c3 && |AtomicRun(c, d, m, [x, y, z], stamp).1| == 3
  {
    hide Atomic, EventOf, Returned, AtomicRun;
    RunOfOne(c2, d, m, z, stamp + 2);
    RunStep(c1, d, m, y, [z], stamp + 1);
    RunStep(c, d, m, x, [y] + [z], stamp);
    assert [x] + ([y] + [z]) == [x, y, z];
  }

  lemma RunOfOne<B>(c: Core<B>, d: Dispatch<B>, m: Mirror, y: Cycle, stamp: nat)
    ensures AtomicRun(c, d, m, [y], stamp) == (Atomic(c, d, EventOf(c, m, y, stamp)), [Returned(c, m, y)])
  {
    hide Atomic, Returned;
    var next := Atomic(c, d, EventOf(c, m, y, stamp));
    assert [y][1..] == [];
    assert AtomicRun(next, d, m, [], stamp + 1) == (next, []);
    assert [Returned(c, m, y)] + [] == [Returned(c, m, y)];
  }

  lemma ThreePieces(x: Addr24, a: Addr24)
    ensures WithHigh(WithMid(WithLow(x, a % 0x100), a / 0x100 % 0x100), a / 0x1_0000) == a
  {
    var low := WithLow(x, a % 0x100);
    assert low % 0x100 == a % 0x100;
    var mid := WithMid(low, a / 0x100 % 0x100);
    assert mid % 0x1_0000 == 0x100 * (a / 0x100 % 0x100) + a % 0x100;
  }

  lemma MoveTwice<B>(c: Core<B>, x: Addr24, a: Addr24)
    ensures MoveCursor(MoveCursor(c, x), a) == MoveCursor(c, a)
  {
    assert c.driven + CURSOR_REGISTERS + CURSOR_REGISTERS == c.driven + CURSOR_REGISTERS;
  }

  lemma CursorWrite<B>(c: Core<B>, d: Dispatch<B>, m: Mirror, y: Cycle, stamp: nat)
    requires y.write
    ensures y.address == REG_ADDR_LO ==> Atomic(c, d, EventOf(c, m, y, stamp)) == MoveCursor(c, WithLow(c.cursor, y.value))
    ensures y.address == REG_ADDR_MID ==> Atomic(c, d, EventOf(c, m, y, stamp)) == MoveCursor(c, WithMid(c.cursor, y.value))
    ensures y.address == REG_ADDR_HI ==> Atomic(c, d, EventOf(c, m, y, stamp)) == MoveCursor(c, WithHigh(c.cursor, y.value))
  {
    hide MoveCursor, WithLow, WithMid, WithHigh, Serve;
  }

  lemma MovedCursor<B>(c: Core<B>, a: Addr24)
    ensures MoveCursor(c, a).cursor == a
  {
  }

  ghost predicate SetsCursor<B>(c: Core<B>, d: Dispatch<B>, m: Mirror, a: Addr24, cycles: seq<Cycle>, stamp: nat) {
    AtomicRun(c, d, m, cycles, stamp).0 == MoveCursor(c, a) && |AtomicRun(c, d, m, cycles, stamp).1| == |cycles| == 3
  }

  /** Three register writes put the cursor anywhere, whatever it was. */
  lemma SetCursorWorks<B>(c: Core<B>, d: Dispatch<B>, m: Mirror, a: Addr24)
    ensures forall stamp: nat :: SetsCursor(c, d, m, a, SetCursor(a), stamp)
  {
    hide Atomic, EventOf, AtomicRun, MoveCursor, WithLow, WithMid, WithHigh;
    var y := SetCursor(a);
    var x1 := WithLow(c.cursor, a % 0x100);
    var x2 := WithMid(x1, a / 0x100 % 0x100);
    var c1, c2 := MoveCursor(c, x1), MoveCursor(c, x2);
    MovedCursor(c, x1);
    MovedCursor(c, x2);
    ThreePieces(c.cursor, a);
    MoveTwice(c, x1, x2);
    MoveTwice(c, x2, a);
    forall stamp: nat
      ensures SetsCursor(c, d, m, a, y, stamp)
    {
      CursorWrite(c, d, m, y[0], stamp);
      CursorWrite(c1, d, m, y[1], stamp + 1);
      CursorWrite(c2, d, m, y[2], stamp + 2);
      RunOfThree(c, c1, c2, MoveCursor(c, a), d, m, y[0], y[1], y[2], stamp);
    }
  }

  /** Writes through the data register store where the cursor points and move it along. */
  lemma {:induction false} WriteDataWorks<B>(c: Core<B>, d: Dispatch<B>, m: Mirror, data: seq<Byte>, stamp: nat)
    ensures AtomicRun(c, d, m, WriteData(data), stamp).0.jim == Poke(c.jim, c.cursor, data)
    ensures |AtomicRun(c, d, m, WriteData(data), stamp).1| == |data| == |WriteData(data)|
    ensures AtomicRun(c, d, m, WriteData(data), stamp).0.backend == c.backend
    decreases |data|
  {
    if data != [] {
      var y := WriteData(data);
      var c1 := MoveCursor(c.(jim := c.jim[SERVICES_BASE + c.cursor := data[0]]), Next(c.cursor));
      assert y[0] == Cycle(REG_DATA, data[0], true) && y[1..] == WriteData(data[1..]);
      assert Atomic(c, d, EventOf(c, m, y[0], stamp)) == c1;
      WriteDataWorks(c1, d, m, data[1..], stamp + 1);
    }
  }

  /** Reads through the data register return JIM from the cursor on. */
  lemma {:induction false} ReadDataWorks<B>(c: Core<B>, d: Dispatch<B>, m: Mirror, n: nat, stamp: nat)
    requires c.regs.data == c.jim[SERVICES_BASE + c.cursor]
    ensures AtomicRun(c, d, m, ReadData(n), stamp).1 == Peek(c.jim, c.cursor, n)
    ensures AtomicRun(c, d, m, ReadData(n), stamp).0.jim == c.jim
    decreases n
  {
    if n != 0 {
      var y := ReadData(n);
      var c1 := MoveCursor(c, Next(c.cursor));
      assert y[0] == Cycle(REG_DATA, 0xFF, false) && y[1..] == ReadData(n - 1);
      assert EventOf(c, m, y[0], stamp).value == c.regs.data;
      assert Atomic(c, d, EventOf(c, m, y[0], stamp)) == c1;
      ReadDataWorks(c1, d, m, n - 1, stamp + 1);
    }
  }

  /** A host stores a block and reads it back. */
  function StoreAndLoad(a: Addr24, data: seq<Byte>): seq<Cycle> {
    (SetCursor(a) + WriteData(data)) + (SetCursor(a) + ReadData(|data|))
  }

  /** The cycles leave JIM with the block stored, and their last reads return it. */
  ghost predicate ReadsBack<B>(c: Core<B>, d: Dispatch<B>, m: Mirror, a: Addr24, data: seq<Byte>, cycles: seq<Cycle>, stamp: nat) {
    var (last, got) := AtomicRun(c, d, m, cycles, stamp);
    |got| == 6 + 2 * |data| && got[6 + |data|..] == data && last.jim == Poke(c.jim, a, data)
  }

  /** Any block that fits, at any cursor, wrapping or not, reads back as it was written, and
      JIM changes only under it, whatever cycles came before. */
  lemma PortRoundTrip<B>(c: Core<B>, d: Dispatch<B>, m: Mirror, a: Addr24, data: seq<Byte>)
    requires |data| <= SPAN
    ensures forall stamp: nat :: ReadsBack(c, d, m, a, data, StoreAndLoad(a, data), stamp)
  {
    hide AtomicRun, SetCursor, WriteData, ReadData, Poke, Peek;
    var n := |data|;
    SetCursorWorks(c, d, m, a);
    var c1 := MoveCursor(c, a);
    forall stamp: nat
      ensures ReadsBack(c, d, m, a, data, StoreAndLoad(a, data), stamp)
    {
      assert SetsCursor(c, d, m, a, SetCursor(a), stamp);
      WriteDataWorks(c1, d, m, data, stamp + 3);
      RunAppend(c, d, m, SetCursor(a), WriteData(data), stamp);
      var (c2, w) := AtomicRun(c1, d, m, WriteData(data), stamp + 3);
      SetCursorWorks(c2, d, m, a);
      assert SetsCursor(c2, d, m, a, SetCursor(a), stamp + 3 + n);
      var c3 := MoveCursor(c2, a);
      ReadDataWorks(c3, d, m, n, stamp + 6 + n);
      RunAppend(c2, d, m, SetCursor(a), ReadData(n), stamp + 3 + n);
      RunAppend(c, d, m, SetCursor(a) + WriteData(data), SetCursor(a) + ReadData(n), stamp);
      PeekPoke(c.jim, a, data);
    }
  }

  /** The same through any latencies, on a quiet bus. */
  lemma PortRoundTripDelayed<B>(device: Device<B>, core: Core<B>, a: Addr24, data: seq<Byte>, run: seq<Spaced>)
    requires |data| <= SPAN && Cycles(run) == StoreAndLoad(a, data)
    requires forall i | 0 <= i < |run| :: run[i].gap >= QuietTime(device.timing)
    ensures var (last, got) := SpacedRun(device, Fresh(core), run);
            && |got| == 6 + 2 * |data| && got[6 + |data|..] == data
            && last.core.jim == Poke(core.jim, a, data)
  {
    hide AtomicRun, SpacedRun, StoreAndLoad, Poke, Cycles;
    QuietBus(device, Fresh(core), run);
    PortRoundTrip(core, device.dispatch, device.mirror, a, data);
    assert ReadsBack(core, device.dispatch, device.mirror, a, data, StoreAndLoad(a, data), 0);
  }

  // ----- the page window

  function ChoosePage(p: Addr24): seq<Cycle> {
    [Cycle(0xFCFD, p / 0x1_0000, true), Cycle(0xFCFE, p / 0x100 % 0x100, true), Cycle(0xFCFF, p % 0x100, true)]
  }

  /** The page the selectors give: a set that is not installed becomes the last one. */
  function Chosen(p: Addr24): Addr24 {
    WithHigh(p, Clamp(p / 0x1_0000))
  }

  lemma PageWrite<B>(c: Core<B>, d: Dispatch<B>, m: Mirror, y: Cycle, stamp: nat)
    requires y.write
    ensures y.address == REG_PAGE_HI ==>
              Atomic(c, d, EventOf(c, m, y, stamp)) ==
              SelectPage(c.(regs := c.regs.(set_ := Clamp(y.value))), WithHigh(c.page, Clamp(y.value)), REG_PAGE_HI)
    ensures y.address == REG_PAGE_MID ==>
              Atomic(c, d, EventOf(c, m, y, stamp)) == SelectPage(c, WithMid(c.page, y.value), REG_PAGE_MID)
    ensures y.address == REG_PAGE_LO ==>
              Atomic(c, d, EventOf(c, m, y, stamp)) == SelectPage(c, WithLow(c.page, y.value), REG_PAGE_LO)
  {
    hide SelectPage, WithLow, WithMid, WithHigh, Serve, Clamp;
  }

  lemma Selected<B>(c: Core<B>, page: Addr24, register: nat)
    ensures var s := SelectPage(c, page, register);
            && s.jim == c.jim && s.cursor == c.cursor && s.page == page
            && s.window == c.jim[PageAddress(page)..PageAddress(page) + 256]
  {
  }

  /** An address by its three bytes. */
  function Address(h: Byte, m: Byte, l: Byte): Addr24 {
    0x1_0000 * h + 0x100 * m + l
  }

  lemma BytesOf(p: Addr24)
    ensures p == Address(p / 0x1_0000, p / 0x100 % 0x100, p % 0x100)
  {
    assert p / 0x100 / 0x100 == p / 0x1_0000;
  }

  lemma LowBytes(h: Byte, m: Byte, l: Byte)
    ensures Address(h, m, l) % 0x1_0000 == 0x100 * m + l && Address(h, m, l) % 0x100 == l
  {
  }

  lemma HighOf(h: Byte, m: Byte, l: Byte, v: Byte)
    ensures WithHigh(Address(h, m, l), v) == Address(v, m, l)
  {
    LowBytes(h, m, l);
  }

  lemma MidOf(h: Byte, m: Byte, l: Byte, v: Byte)
    ensures WithMid(Address(h, m, l), v) == Address(h, v, l)
  {
    LowBytes(h, m, l);
  }

  lemma LowOf(h: Byte, m: Byte, l: Byte, v: Byte)
    ensures WithLow(Address(h, m, l), v) == Address(h, m, v)
  {
    LowBytes(h, m, l);
  }

  lemma ChosenIs(h: Byte, m: Byte, l: Byte)
    ensures Address(h, m, l) / 0x1_0000 == h && Chosen(Address(h, m, l)) == Address(Clamp(h), m, l)
  {
    hide WithHigh, Clamp;
    LowBytes(h, m, l);
    HighOf(h, m, l, Clamp(h));
  }

  lemma ThreeSelectors(x: Addr24, p: Addr24)
    ensures WithLow(WithMid(WithHigh(x, Clamp(p / 0x1_0000)), p / 0x100 % 0x100), p % 0x100) == Chosen(p)
  {
    hide *;
    var (h, m, l) := (p / 0x1_0000, p / 0x100 % 0x100, p % 0x100);
    var (xh, xm, xl) := (x / 0x1_0000, x / 0x100 % 0x100, x % 0x100);
    BytesOf(p);
    BytesOf(x);
    HighOf(xh, xm, xl, Clamp(h));
    MidOf(Clamp(h), xm, xl, m);
    LowOf(Clamp(h), m, xl, l);
    ChosenIs(h, m, l);
  }

  lemma ChosenIsSame(p: Addr24)
    ensures PageAddress(Chosen(p)) == PageAddress(p)
  {
    var v := p / 0x1_0000;
    assert Chosen(p) / 0x1_0000 == Clamp(v) && Chosen(p) % 0x1_0000 == p % 0x1_0000;
  }

  /** Three selector writes show the page and nothing but the window and outputs changes. */
  lemma ChoosePageWorks<B>(c: Core<B>, d: Dispatch<B>, m: Mirror, p: Addr24, stamp: nat)
    ensures var last := AtomicRun(c, d, m, ChoosePage(p), stamp).0;
            && last.jim == c.jim && last.page == Chosen(p) && last.cursor == c.cursor
            && PageAddress(last.page) == PageAddress(p)
            && last.window == c.jim[PageAddress(p)..PageAddress(p) + 256]
    ensures |AtomicRun(c, d, m, ChoosePage(p), stamp).1| == 3
  {
    hide Atomic, EventOf, AtomicRun, SelectPage, PageAddress, Clamp, WithLow, WithMid, WithHigh, Chosen;
    var y := ChoosePage(p);
    var v := Clamp(p / 0x1_0000);
    var c0 := c.(regs := c.regs.(set_ := v));
    var c1 := SelectPage(c0, WithHigh(c.page, v), REG_PAGE_HI);
    var c2 := SelectPage(c1, WithMid(c1.page, p / 0x100 % 0x100), REG_PAGE_MID);
    var c3 := SelectPage(c2, WithLow(c2.page, p % 0x100), REG_PAGE_LO);
    PageWrite(c, d, m, y[0], stamp);
    PageWrite(c1, d, m, y[1], stamp + 1);
    PageWrite(c2, d, m, y[2], stamp + 2);
    RunOfThree(c, c1, c2, c3, d, m, y[0], y[1], y[2], stamp);
    Selected(c0, WithHigh(c.page, v), REG_PAGE_HI);
    Selected(c1, WithMid(c1.page, p / 0x100 % 0x100), REG_PAGE_MID);
    Selected(c2, WithLow(c2.page, p % 0x100), REG_PAGE_LO);
    ThreeSelectors(c.page, p);
    ChosenIsSame(p);
  }

  /** A byte written through the window is in JIM, and when the page is chosen again after any
      other it is what the bus reads there, except where the trampoline is mirrored over it. */
  lemma PageKeepsByte<B>(c: Core<B>, d: Dispatch<B>, m: Mirror, p: Addr24, q: Addr24, o: Byte, v: Byte, stamp: nat)
    ensures var there := [Cycle(0xFD00 + o, v, true)];
            var (last, got) := AtomicRun(c, d, m, ChoosePage(p) + (there + (ChoosePage(q) + ChoosePage(p))), stamp);
            && last.jim == c.jim[PageAddress(p) + o := v]
            && ReadValue(last, m, 0xFD00 + o, 0xFF)
            == if m.offset <= o < m.offset + |m.bytes| then m.bytes[o - m.offset] else v
  {
    hide AtomicRun, ChoosePage, PageAddress, Chosen, Atomic, EventOf, WritePage;
    var there := [Cycle(PAGE_BASE + o, v, true)];
    ChoosePageWorks(c, d, m, p, stamp);
    var c1 := AtomicRun(c, d, m, ChoosePage(p), stamp).0;
    assert |ChoosePage(p)| == 3 && |ChoosePage(q)| == 3 by { ChoosePageLength(p); ChoosePageLength(q); }
    RunAppend(c, d, m, ChoosePage(p), there + (ChoosePage(q) + ChoosePage(p)), stamp);
    RunOfOne(c1, d, m, there[0], stamp + 3);
    var c2 := WritePage(c1, o, v);
    PageByteWrite(c1, d, m, o, v, stamp + 3);
    RunAppend(c1, d, m, there, ChoosePage(q) + ChoosePage(p), stamp + 3);
    ChoosePageWorks(c2, d, m, q, stamp + 4);
    var c3 := AtomicRun(c2, d, m, ChoosePage(q), stamp + 4).0;
    ChoosePageWorks(c3, d, m, p, stamp + 7);
    RunAppend(c2, d, m, ChoosePage(q), ChoosePage(p), stamp + 4);
    assert (PAGE_BASE + o) % 0x100 == o;
  }

  /** Where a page lies: JIM is cut into pages of 256 bytes, and a set that is not installed shows
      the pages of the last one. */
  lemma PagesAreLaidOut(p: Addr24)
    ensures p < 0x3_0000 ==> PageAddress(p) == 0x100 * p
    ensures p >= 0x3_0000 ==> PageAddress(p) == 0x200_0000 + 0x100 * (p % 0x1_0000)
  {
  }

  lemma PageByteWrite<B>(c: Core<B>, d: Dispatch<B>, m: Mirror, o: Byte, v: Byte, stamp: nat)
    ensures Atomic(c, d, EventOf(c, m, Cycle(PAGE_BASE + o, v, true), stamp)) == WritePage(c, o, v)
    ensures WritePage(c, o, v).jim == c.jim[PageAddress(c.page) + o := v]
  {
    assert (PAGE_BASE + o) % 0x100 == o;
  }

  lemma ChoosePageLength(p: Addr24)
    ensures |ChoosePage(p)| == 3
  {
  }
}
