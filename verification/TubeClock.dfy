/** The 3 MHz parasite driven from a 2 MHz host whose cycle counter wraps at 128. */
module TubeClock {
  import opened Bytes

  const WRAP := 128

  /** The host clock, the half tick carried between calls, and the ticks given so far. */
  datatype Clock = Clock(last: Option<int>, half: nat, ticks: nat)

  /** pi1mhz_host_clock_sync: cycles since the last call, or none on the first. */
  function Elapsed(c: Clock, counter: int): int {
    match c.last
    case None => 0
    case Some(last) => if counter - last < 0 then counter - last + WRAP else counter - last
  }

  /** ap5_tube_sync_host_clock with the parasite running. */
  function Sync(c: Clock, counter: int): Clock {
    var h := Elapsed(c, counter);
    if h <= 0 then c.(last := Some(counter))
    else
      var half := c.half + h % 2;
      Clock(Some(counter), half % 2, c.ticks + h + h / 2 + half / 2)
  }

  function SyncAll(c: Clock, times: seq<nat>): Clock
    decreases |times|
  {
    if times == [] then c else SyncAll(Sync(c, times[0] % WRAP), times[1..])
  }

  /** True host times never run backwards. */
  predicate Ordered(times: seq<nat>) {
    forall i | 0 < i < |times| :: times[i - 1] <= times[i]
  }

  /** The host cycles the wrapping counter shows between consecutive syncs. */
  function Shown(from: nat, times: seq<nat>): nat
    decreases |times|
  {
    if times == [] then 0
    else (if times[0] >= from then (times[0] - from) % WRAP else 0) + Shown(times[0], times[1..])
  }

  lemma CounterShowsGap(from: nat, to: nat, half: nat, ticks: nat)
    requires from <= to
    ensures Elapsed(Clock(Some(from % WRAP), half, ticks), to % WRAP) == (to - from) % WRAP
  {
    var (a, b) := (from % 128, to % 128);
    assert to - from == 128 * (to / 128 - from / 128) + (b - a);
    if b >= a {
      assert (to - from) % 128 == b - a;
    } else {
      assert to - from == 128 * (to / 128 - from / 128 - 1) + (b - a + 128);
      assert (to - from) % 128 == b - a + 128;
    }
  }

  /** Ticks are three for every two cycles shown, with the odd half carried. */
  lemma {:induction false} TicksAreThreeHalves(c: Clock, from: nat, times: seq<nat>)
    requires c.last == Some(from % WRAP) && c.half < 2
    requires Ordered([from] + times)
    ensures var d := SyncAll(c, times);
            && d.half < 2
            && 2 * d.ticks + d.half == 2 * c.ticks + c.half + 3 * Shown(from, times)
    decreases |times|
  {
    hide Ordered;
    if times != [] {
      TailOrdered(from, times);
      CounterShowsGap(from, times[0], c.half, c.ticks);
      var h := (times[0] - from) % WRAP;
      var c2 := Sync(c, times[0] % WRAP);
      assert 2 * c2.ticks + c2.half == 2 * c.ticks + c.half + 3 * h by { HalvesAddUp(h, c.half); }
      TicksAreThreeHalves(c2, times[0], times[1..]);
    }
  }

  lemma HalvesAddUp(h: nat, half: nat)
    requires half < 2
    ensures 2 * (h + h / 2 + (half + h % 2) / 2) + (half + h % 2) % 2 == 3 * h + half
  {
  }

  /** The true time of the last sync. */
  function End(from: nat, times: seq<nat>): nat
    decreases |times|
  {
    if times == [] then from else End(times[0], times[1..])
  }

  predicate GapsShort(from: nat, times: seq<nat>)
    decreases |times|
  {
    times == [] || (times[0] - from < WRAP && GapsShort(times[0], times[1..]))
  }

  lemma GapShown(gap: nat)
    ensures gap < WRAP ==> gap % WRAP == gap
    ensures gap >= WRAP ==> gap % WRAP + WRAP <= gap
  {
  }

  lemma TailOrdered(from: nat, times: seq<nat>)
    requires Ordered([from] + times) && times != []
    ensures from <= times[0] && Ordered([times[0]] + times[1..])
  {
    var all := [from] + times;
    assert all[0] == from && all[1] == times[0];
    assert [times[0]] + times[1..] == all[1..];
  }

  /** The counter shows all the time that passed exactly when no gap reaches 128 cycles; otherwise
      it misses at least 128. */
  lemma {:induction false} ShownIsTrueTime(from: nat, times: seq<nat>)
    requires Ordered([from] + times)
    ensures GapsShort(from, times) ==> Shown(from, times) == End(from, times) - from
    ensures !GapsShort(from, times) ==> Shown(from, times) + WRAP <= End(from, times) - from
    decreases |times|
  {
    hide Ordered;
    if times != [] {
      TailOrdered(from, times);
      ShownIsTrueTime(times[0], times[1..]);
      GapShown(times[0] - from);
    }
  }

  /** Clock conservation: the parasite gets exactly floor(3H/2) ticks for the H host cycles since
      the first sync, however they are split, if and only if no gap between syncs reaches 128
      cycles. */
  lemma ClockIsConserved(first: nat, times: seq<nat>)
    requires Ordered([first] + times)
    ensures SyncAll(Clock(None, 0, 0), [first] + times).ticks == 3 * (End(first, times) - first) / 2 <==> GapsShort(first, times)
  {
    hide Ordered;
    var c := Sync(Clock(None, 0, 0), first % WRAP);
    assert ([first] + times)[1..] == times;
    TicksAreThreeHalves(c, first, times);
    ShownIsTrueTime(first, times);
  }

  // ----- the object

  class Ap5Clock {
    var valid: bool
    var lastCycle: int
    var halfCycle: nat
    /** The calls to the processor's tick. */
    var ticks: nat

    ghost function View(): Clock
      reads this
    {
      Clock(if valid then Some(lastCycle) else None, halfCycle, ticks)
    }

    constructor ()
      ensures View() == Clock(None, 0, 0)
    {
      valid, lastCycle, halfCycle, ticks := false, 0, 0, 0;
    }

    method HostClockSync(counter: int) returns (elapsed: nat)
      modifies this`valid, this`lastCycle
      ensures valid && lastCycle == counter
      ensures elapsed == if Elapsed(old(View()), counter) > 0 then Elapsed(old(View()), counter) else 0
    {
      if !valid {
        valid, lastCycle := true, counter;
        return 0;
      }
      var e := counter - lastCycle;
      if e < 0 {
        e := e + 128;
      }
      lastCycle := counter;
      return if e > 0 then e else 0;
    }

    method RunHostCycles(hostCycles: nat)
      requires halfCycle < 2
      modifies this`halfCycle, this`ticks
      ensures halfCycle == (old(halfCycle) + hostCycles % 2) % 2
      ensures ticks == old(ticks) + hostCycles + hostCycles / 2 + (old(halfCycle) + hostCycles % 2) / 2
    {
      var todo := hostCycles + hostCycles / 2;
      halfCycle := halfCycle + hostCycles % 2;
      if halfCycle >= 2 {
        todo := todo + 1;
        halfCycle := halfCycle - 2;
      }
      ghost var target := ticks + todo;
      while todo > 0
        invariant ticks + todo == target && todo >= 0
        modifies this`ticks
      {
        ticks := ticks + 1;
        todo := todo - 1;
      }
    }

    method SyncHostClock(counter: int)
      requires halfCycle < 2
      modifies this
      ensures View() == Sync(old(View()), counter) && halfCycle < 2
    {
      var elapsed := HostClockSync(counter);
      if elapsed > 0 {
        RunHostCycles(elapsed);
      }
    }
  }
}
