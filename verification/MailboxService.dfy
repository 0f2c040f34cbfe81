/** What a host gets that writes a command block through the data register and then a selector to
    the command register, and what it reads back of the registers it wrote. */
module MailboxService {
  import opened Bytes
  import opened MailboxCore
  import opened Mailbox
  import opened MailboxPort

  // ----- a service request

  type Selector = v: Byte | 0xF0 <= v witness 0xF0

  /** The cursor of a selector's command block, in the services region. */
  function BlockCursor(sel: Selector): Addr24 {
    0xFF_0000 + 0x100 * sel
  }

  function Request(sel: Selector, block: seq<Byte>): seq<Cycle> {
    (SetCursor(BlockCursor(sel)) + WriteData(block)) + [Cycle(0xFCAA, sel, true), Cycle(0xFCAA, 0xFF, false)]
  }

  /** JIM with a block laid over it. */
  function WithBlock(jim: Jim, at: nat, block: seq<Byte>): Jim
    requires at + |block| <= JIM_SIZE
  {
    jim[..at] + block + jim[at + |block|..]
  }

  /** The dispatcher ran once, on the selector, with a pointer to the block just written; its backend
      and JIM are the device's, and its result is what the last read returned. */
  ghost predicate Served<B>(c: Core<B>, d: Dispatch<B>, m: Mirror, sel: Selector, block: seq<Byte>, cycles: seq<Cycle>, stamp: nat)
    requires |block| <= 0x100
  {
    var (last, got) := AtomicRun(c, d, m, cycles, stamp);
    var p := 0x1FF_0000 + 0x100 * sel;
    && |got| == |block| + 5
    && (last.backend, got[|block| + 4], last.jim) == d(c.backend, sel, p, WithBlock(c.jim, p, block))
  }

  lemma StoredBlock(jim: Jim, sel: Selector, block: seq<Byte>)
    requires |block| <= 0x100
    ensures Poke(jim, BlockCursor(sel), block) == WithBlock(jim, 0x1FF_0000 + 0x100 * sel, block)
  {
    hide Poke;
    var a, p := BlockCursor(sel), 0x1FF_0000 + 0x100 * sel;
    var x, y := Poke(jim, a, block), WithBlock(jim, p, block);
    forall i | 0 <= i < JIM_SIZE
      ensures x[i] == y[i]
    {
      PokeAt(jim, a, block, i);
      forall k | 0 <= k < |block|
        ensures SERVICES_BASE + Ahead(a, k) == p + k
      {
      }
      if p <= i < p + |block| {
        assert i == SERVICES_BASE + Ahead(a, i - p);
      }
    }
  }

  /** The command register: a selector is served at once, and the next read returns the result. */
  lemma CommandServed<B>(c: Core<B>, d: Dispatch<B>, m: Mirror, sel: Selector, stamp: nat)
    ensures var (last, got) := AtomicRun(c, d, m, [Cycle(0xFCAA, sel, true), Cycle(0xFCAA, 0xFF, false)], stamp);
            |got| == 2 && (last.backend, got[1], last.jim) == d(c.backend, sel, 0x1FF_0000 + 0x100 * sel, c.jim)
  {
    hide AtomicRun;
    var y, z := Cycle(0xFCAA, sel, true), Cycle(0xFCAA, 0xFF, false);
    var c1 := Atomic(c, d, EventOf(c, m, y, stamp));
    assert (c1.backend, c1.result, c1.jim) == d(c.backend, sel, 0x1FF_0000 + 0x100 * sel, c.jim);
    assert Returned(c1, m, z) == c1.result;
    assert Atomic(c1, d, EventOf(c1, m, z, stamp + 1)) == c1;
    RunOfOne(c1, d, m, z, stamp + 1);
    RunStep(c, d, m, y, [z], stamp);
    assert [y] + [z] == [y, z];
  }

  /** A service request through the ports: whatever the dispatcher is and whatever went before, it is
      applied to the selector and a pointer at which JIM holds the block that was written, and its
      result comes back. */
  lemma RequestIsServed<B>(d: Dispatch<B>, m: Mirror, sel: Selector, block: seq<Byte>)
    requires |block| <= 0x100
    ensures forall c: Core<B>, stamp: nat :: Served(c, d, m, sel, block, Request(sel, block), stamp)
  {
    hide AtomicRun, SetCursor, WriteData, Poke, WithBlock, MoveCursor;
    var a, n := BlockCursor(sel), |block|;
    var command := [Cycle(0xFCAA, sel, true), Cycle(0xFCAA, 0xFF, false)];
    forall c: Core<B>, stamp: nat
      ensures Served(c, d, m, sel, block, Request(sel, block), stamp)
    {
      SetCursorWorks(c, d, m, a);
      MovedKeeps(c, a);
      var c1 := MoveCursor(c, a);
      assert SetsCursor(c, d, m, a, SetCursor(a), stamp);
      WriteDataWorks(c1, d, m, block, stamp + 3);
      RunAppend(c, d, m, SetCursor(a), WriteData(block), stamp);
      var c2 := AtomicRun(c1, d, m, WriteData(block), stamp + 3).0;
      StoredBlock(c.jim, sel, block);
      CommandServed(c2, d, m, sel, stamp + 3 + n);
      RunAppend(c, d, m, SetCursor(a) + WriteData(block), command, stamp);
    }
  }

  lemma MovedKeeps<B>(c: Core<B>, a: Addr24)
    ensures MoveCursor(c, a).cursor == a && MoveCursor(c, a).jim == c.jim && MoveCursor(c, a).backend == c.backend
  {
  }

  /** The same through any latencies, on a quiet bus. */
  lemma RequestIsServedDelayed<B>(device: Device<B>, core: Core<B>, sel: Selector, block: seq<Byte>, run: seq<Spaced>)
    requires |block| <= 0x100 && Cycles(run) == Request(sel, block)
    requires forall i | 0 <= i < |run| :: run[i].gap >= QuietTime(device.timing)
    ensures var (last, got) := SpacedRun(device, Fresh(core), run);
            var p := 0x1FF_0000 + 0x100 * sel;
            && |got| == |block| + 5
            && (last.core.backend, got[|block| + 4], last.core.jim)
            == device.dispatch(core.backend, sel, p, WithBlock(core.jim, p, block))
  {
    hide AtomicRun, SpacedRun, Request, Cycles, WithBlock;
    QuietBus(device, Fresh(core), run);
    RequestIsServed(device.dispatch, device.mirror, sel, block);
    assert Served(core, device.dispatch, device.mirror, sel, block, Request(sel, block), 0);
  }

  // ----- the registers read back

  /** The cursor registers return what was written to them, and the data register the byte there. */
  lemma CursorReadsBack<B>(c: Core<B>, d: Dispatch<B>, m: Mirror, a: Addr24, floating: Byte)
    ensures forall stamp: nat :: ReturnsCursor(AtomicRun(c, d, m, SetCursor(a), stamp).0, c.jim, m, a, floating)
  {
    hide AtomicRun, SetCursor;
    SetCursorWorks(c, d, m, a);
    forall stamp: nat
      ensures ReturnsCursor(AtomicRun(c, d, m, SetCursor(a), stamp).0, c.jim, m, a, floating)
    {
      assert SetsCursor(c, d, m, a, SetCursor(a), stamp);
    }
  }

  ghost predicate ReturnsCursor<B>(c: Core<B>, jim: Jim, m: Mirror, a: Addr24, floating: Byte) {
    && ReadValue(c, m, 0xFCA6, floating) as int + 0x100 * ReadValue(c, m, 0xFCA7, floating)
       + 0x1_0000 * ReadValue(c, m, 0xFCA8, floating) == a
    && ReadValue(c, m, 0xFCA9, floating) == jim[0x100_0000 + a]
  }

  /** The page selectors return what was written to them, but for a set that is not installed, which
      reads as the last one. */
  lemma PageReadsBack<B>(c: Core<B>, d: Dispatch<B>, m: Mirror, p: Addr24, stamp: nat, floating: Byte)
    ensures var last := AtomicRun(c, d, m, ChoosePage(p), stamp).0;
            && ReadValue(last, m, 0xFCFD, floating) == (if p >= 0x3_0000 then 2 else p / 0x1_0000)
            && ReadValue(last, m, 0xFCFE, floating) as int * 0x100 + ReadValue(last, m, 0xFCFF, floating) as int == p % 0x1_0000
  {
    hide AtomicRun, ChoosePage, PageAddress, ReadValue, Chosen;
    ChoosePageWorks(c, d, m, p, stamp);
    PageShown(AtomicRun(c, d, m, ChoosePage(p), stamp).0, m, floating);
    ChosenBytes(p);
  }

  lemma PageShown<B>(c: Core<B>, m: Mirror, floating: Byte)
    ensures ReadValue(c, m, 0xFCFD, floating) == c.page / 0x1_0000
    ensures ReadValue(c, m, 0xFCFE, floating) == c.page / 0x100 % 0x100
    ensures ReadValue(c, m, 0xFCFF, floating) == c.page % 0x100
  {
  }

  lemma ChosenBytes(p: Addr24)
    ensures Chosen(p) / 0x1_0000 == if p >= 0x3_0000 then 2 else p / 0x1_0000
    ensures Chosen(p) / 0x100 % 0x100 * 0x100 + Chosen(p) % 0x100 == p % 0x1_0000
  {
    hide Chosen;
    var (h, m, l) := (p / 0x1_0000, p / 0x100 % 0x100, p % 0x100);
    BytesOf(p);
    ChosenIs(h, m, l);
    AddressBytes(Clamp(h), m, l);
    LowBytes(h, m, l);
  }

  lemma AddressBytes(h: Byte, m: Byte, l: Byte)
    ensures Address(h, m, l) / 0x1_0000 == h && Address(h, m, l) / 0x100 % 0x100 == m && Address(h, m, l) % 0x100 == l
  {
    LowBytes(h, m, l);
    assert Address(h, m, l) / 0x100 == 0x100 * h + m;
  }

  /** A value below &F0 in the command register is no request: it reads back, and nothing is
      dispatched. */
  lemma OtherValueReadsBack<B>(c: Core<B>, d: Dispatch<B>, m: Mirror, v: Byte, stamp: nat)
    requires v < 0xF0
    ensures var (last, got) := AtomicRun(c, d, m, [Cycle(0xFCAA, v, true), Cycle(0xFCAA, 0xFF, false)], stamp);
            |got| == 2 && got[1] == v && last.backend == c.backend && last.jim == c.jim && last.cursor == c.cursor
  {
    hide AtomicRun;
    var y, z := Cycle(0xFCAA, v, true), Cycle(0xFCAA, 0xFF, false);
    var c1 := Atomic(c, d, EventOf(c, m, y, stamp));
    assert Returned(c1, m, z) == v;
    assert Atomic(c1, d, EventOf(c1, m, z, stamp + 1)) == c1;
    RunOfOne(c1, d, m, z, stamp + 1);
    RunStep(c, d, m, y, [z], stamp);
    assert [y] + [z] == [y, z];
  }

  /** In every state a run can reach, a service still to come reads as busy. */
  lemma BusyShows<B>(d: Device<B>, core: Core<B>, steps: seq<Step>, floating: Byte)
    ensures var s := Run(d, Fresh(core), steps); s.pending ==> ReadValue(s.core, d.mirror, 0xFCAA, floating) == 0x80
  {
    hide Run;
    RunSafety(d, core, steps);
  }

  // ----- when it happens

  /** The ticks an access takes on an idle device before it has its effect. */
  function Due(t: Timing, y: Cycle): nat {
    t.capture
    + (if !y.write && y.address != 0xFCA9 then t.readCallback
       else if y.write && y.address in {0xFCFD, 0xFCFE, 0xFCFF} then t.pageCallback
       else t.callback)
  }

  /** An event is on its way: waiting with `left` ticks to its capture, or active with `left` to its
      completion. */
  ghost predicate Waits<B>(s: State<B>, e: Event, left: nat, completed: seq<Event>) {
    s.posted == Some(e) && s.active.None? && !s.pending && s.captureTicks == left && s.completed == completed
  }

  ghost predicate Acts<B>(s: State<B>, e: Event, left: nat, completed: seq<Event>) {
    s.posted.None? && s.active == Some(e) && !s.pending && s.callbackTicks == left && s.completed == completed
  }

  ghost predicate Over<B>(s: State<B>, completed: seq<Event>) {
    s.posted.None? && s.active.None? && s.completed == completed
  }

  lemma {:induction false} DrainOver<B>(d: Device<B>, s: State<B>, completed: seq<Event>)
    requires Over(s, completed)
    ensures Over(Drain(d, s), completed)
    decreases Work(s)
  {
    hide Serve;
    if Moves(d, s) {
      PassShrinksWork(d, s);
      DrainOver(d, Pass(d, s), completed);
    }
  }

  lemma {:induction false} StaysOver<B>(d: Device<B>, s: State<B>, completed: seq<Event>, n: nat)
    requires Over(s, completed)
    ensures Over(Ticks(d, s, n), completed)
    decreases n
  {
    hide Serve, Drain;
    if n != 0 {
      DrainOver(d, CallbackTick(d, CaptureTick(ServiceTick(d, s))), completed);
      StaysOver(d, Tick(d, s), completed, n - 1);
    }
  }

  lemma DrainActs<B>(d: Device<B>, s: State<B>, e: Event, left: nat, completed: seq<Event>)
    requires Acts(s, e, left, completed)
    ensures if left == 0 then Over(Drain(d, s), completed + [e]) else Drain(d, s) == s
  {
    hide Apply, Serve;
    if left == 0 {
      assert Moves(d, s);
      PassShrinksWork(d, s);
      assert Over(Pass(d, s), completed + [e]);
      DrainOver(d, Pass(d, s), completed + [e]);
    }
  }

  lemma DrainWaits<B>(d: Device<B>, s: State<B>, e: Event, left: nat, completed: seq<Event>)
    requires Waits(s, e, left, completed)
    ensures if left != 0 then Drain(d, s) == s
            else if CallbackDelay(d.timing, e) == 0 then Over(Drain(d, s), completed + [e])
            else Acts(Drain(d, s), e, CallbackDelay(d.timing, e), completed)
  {
    hide Apply, Serve;
    if left == 0 {
      assert Moves(d, s);
      PassShrinksWork(d, s);
      if CallbackDelay(d.timing, e) == 0 {
        assert Over(Pass(d, s), completed + [e]);
        DrainOver(d, Pass(d, s), completed + [e]);
      } else {
        DrainActs(d, Pass(d, s), e, CallbackDelay(d.timing, e), completed);
      }
    }
  }

  lemma {:induction false} ActsUntil<B>(d: Device<B>, s: State<B>, e: Event, left: nat, completed: seq<Event>, n: nat)
    requires Acts(s, e, left, completed) && left > 0
    ensures if n >= left then Over(Ticks(d, s, n), completed + [e]) else Ticks(d, s, n).completed == completed
    decreases n
  {
    hide Apply, Serve, Drain;
    if n != 0 {
      var t := CallbackTick(d, CaptureTick(ServiceTick(d, s)));
      if left == 1 {
        DrainOver(d, t, completed + [e]);
        StaysOver(d, Tick(d, s), completed + [e], n - 1);
      } else {
        DrainActs(d, t, e, left - 1, completed);
        ActsUntil(d, Tick(d, s), e, left - 1, completed, n - 1);
      }
    }
  }

  lemma {:induction false} WaitsUntil<B>(d: Device<B>, s: State<B>, e: Event, left: nat, completed: seq<Event>, n: nat)
    requires Waits(s, e, left, completed) && left > 0
    ensures if n >= left + CallbackDelay(d.timing, e) then Over(Ticks(d, s, n), completed + [e])
            else Ticks(d, s, n).completed == completed
    decreases n
  {
    hide Apply, Serve, Drain, CallbackDelay;
    if n != 0 {
      var t := CallbackTick(d, CaptureTick(ServiceTick(d, s)));
      assert Waits(t, e, left - 1, completed);
      DrainWaits(d, t, e, left - 1, completed);
      if left > 1 {
        WaitsUntil(d, Tick(d, s), e, left - 1, completed, n - 1);
      } else if CallbackDelay(d.timing, e) == 0 {
        StaysOver(d, Tick(d, s), completed + [e], n - 1);
      } else {
        ActsUntil(d, Tick(d, s), e, CallbackDelay(d.timing, e), completed, n - 1);
      }
    }
  }

  /** The latency is exact: on an idle device an access has its effect after precisely its capture
      and callback ticks, not one earlier and not one later. */
  lemma LatencyIsExact<B>(d: Device<B>, s: State<B>, y: Cycle, n: nat)
    requires Idle(s)
    ensures var e := EventOf(s.core, d.mirror, y, |s.cycles|);
            Ticks(d, Access(d, s, y), n).completed == if n >= Due(d.timing, y) then s.completed + [e] else s.completed
  {
    hide Apply, Serve, Drain, Ticks, Returned, CallbackDelay;
    var e := EventOf(s.core, d.mirror, y, |s.cycles|);
    var posted := Enqueue(d, s, e);
    var k := CallbackDelay(d.timing, e);
    assert Due(d.timing, y) == d.timing.capture + k by { DelayOf(d.timing, e, y); }
    DrainWaits(d, posted, e, d.timing.capture, s.completed);
    if d.timing.capture > 0 {
      WaitsUntil(d, posted, e, d.timing.capture, s.completed, n);
    } else if k == 0 {
      StaysOver(d, Drain(d, posted), s.completed + [e], n);
    } else {
      ActsUntil(d, Drain(d, posted), e, k, s.completed, n);
    }
  }

  /** An access that overwrites one still waiting takes over its place in time: the capture is not
      put off, and the new access has its effect when the old one's capture was due, plus its own
      callback. */
  lemma OverwriteKeepsItsTurn<B>(d: Device<B>, s: State<B>, e: Event, left: nat, y: Cycle, n: nat)
    requires Waits(s, e, left, s.completed) && left > 0
    ensures var later := EventOf(s.core, d.mirror, y, |s.cycles|);
            Ticks(d, Access(d, s, y), n).completed ==
            if n >= left + (Due(d.timing, y) - d.timing.capture) then s.completed + [later] else s.completed
  {
    hide Apply, Serve, Drain, Ticks, Returned, CallbackDelay;
    var later := EventOf(s.core, d.mirror, y, |s.cycles|);
    var posted := Enqueue(d, s, later);
    DelayOf(d.timing, later, y);
    DrainWaits(d, posted, later, left, s.completed);
    WaitsUntil(d, posted, later, left, s.completed, n);
  }

  lemma DelayOf(t: Timing, e: Event, y: Cycle)
    requires e.address == y.address && e.write == y.write
    ensures Due(t, y) == t.capture + CallbackDelay(t, e)
  {
  }
}
