/** Register 1 of the Tube ULA: a 24-place queue from parasite to host, a one-byte latch from
    host to parasite, and the flow flags and control latch that both sides read. */
module TubeUla {
  import opened Bytes
  import opened Framing
  import Bits

  const FIFO_SIZE := 24

  /** What register 1 is: a queue and a latch. The flow flags are not state of their own. */
  datatype Port = Port(
    queue: seq<Byte>, latch: Byte, latched: bool, control: set<nat>,
    lastHostWrite: Byte, lastParasiteWrite: Byte, selected: bool)

  const RESET: Port := Port([], 0, false, {}, 0, 0, true)

  datatype Access =
    | ParasiteWrite(register: nat, value: Byte)
    | ParasiteRead(register: nat)
    | HostWrite(register: nat, value: Byte)
    | HostRead(register: nat)

  // ----- flags and control

  predicate HasBit(value: Byte, i: nat) {
    i < 6 && Bits.BitsOf(value, 6)[5 - i]
  }

  /** The six control bits a written value names; bit i of the latch is bit i of the value. */
  function Named(value: Byte): set<nat> {
    set i: nat | i < 6 && HasBit(value, i)
  }

  predicate Sets(value: Byte) { value >= 0x80 }

  predicate NamesReset(value: Byte) { value % 0x80 >= 0x40 }

  function ControlBits(control: set<nat>): (bits: seq<bool>)
    ensures |bits| == 6
  {
    seq(6, i requires 0 <= i < 6 => (5 - i) as nat in control)
  }

  function ControlByte(control: set<nat>): (r: nat)
    ensures r < 64
  {
    Bits.ValueFits(ControlBits(control));
    SixBits();
    Bits.ValueOf(ControlBits(control))
  }

  lemma SixBits()
    ensures Bits.Pow2(6) == 64
  {
    assert Bits.Pow2(4) == 16;
  }

  function Flags(data: bool, space: bool, control: set<nat>): Byte {
    (if data then 0x80 else 0) + (if space then 0x40 else 0) + ControlByte(control)
  }

  // ----- accesses

  /** Whether a parasite byte is taken into the queue. */
  predicate Accepts(p: Port, a: Access) {
    a.ParasiteWrite? && a.register == 1 && |p.queue| < FIFO_SIZE
  }

  /** Whether a host read takes a byte from the queue. */
  predicate Takes(p: Port, a: Access) {
    a.HostRead? && a.register == 1 && p.selected && p.queue != []
  }

  predicate Resets(p: Port, a: Access) {
    a.HostWrite? && (a.register == 6 || (a.register == 0 && p.selected && Sets(a.value) && NamesReset(a.value)))
  }

  function WriteControl(p: Port, value: Byte): Port {
    if Sets(value) then
      var q := if NamesReset(value) then RESET.(control := p.control) else p.(lastHostWrite := value);
      q.(control := q.control + Named(value))
    else p.(lastHostWrite := value, control := p.control - Named(value))
  }

  function Step(p: Port, a: Access): Port {
    match a
    case ParasiteWrite(r, v) =>
      var q := p.(lastParasiteWrite := v);
      if Accepts(p, a) then q.(queue := p.queue + [v]) else q
    case ParasiteRead(r) => if r == 1 then p.(latched := false) else p
    case HostWrite(r, v) =>
      if r == 6 then RESET.(selected := v == 0 || v == 1)
      else if !p.selected then p
      else if r == 0 then WriteControl(p, v)
      else if r == 1 then p.(lastHostWrite := v, latch := v, latched := true)
      else p.(lastHostWrite := v)
    case HostRead(r) => if Takes(p, a) then p.(queue := p.queue[1..]) else p
  }

  /** What a read of register 0 or 1 returns. */
  function Value(p: Port, a: Access): Byte
    requires (a.HostRead? || a.ParasiteRead?) && a.register < 2
  {
    match a
    case HostRead(r) =>
      if !p.selected then 0xFE
      else if r == 0 then Flags(p.queue != [], !p.latched, p.control)
      else if p.queue != [] then p.queue[0] else p.lastParasiteWrite
    case ParasiteRead(r) =>
      if r == 0 then Flags(p.latched, |p.queue| < FIFO_SIZE, p.control) else p.latch
  }

  // ----- the control latch as both sides read it

  lemma {:induction false} LowBits(k: nat, v: nat, n: nat)
    ensures Bits.BitsOf(Bits.Pow2(n) * k + v, n) == Bits.BitsOf(v, n)
    decreases n
  {
    if n != 0 {
      var half := Bits.Pow2(n - 1) * k;
      assert Bits.Pow2(n) * k == 2 * half;
      assert (2 * half + v) / 2 == half + v / 2 && (2 * half + v) % 2 == v % 2;
      LowBits(k, v / 2, n - 1);
    }
  }

  /** The low six bits of a status byte are the control latch, whatever the flags are. */
  lemma StatusShows(data: bool, space: bool, control: set<nat>, i: nat)
    requires i < 6
    ensures HasBit(Flags(data, space, control), i) <==> i in control
  {
    hide Bits.BitsOf, Bits.ValueOf, Bits.Pow2;
    var k := (if data then 2 else 0) + (if space then 1 else 0);
    var low := ControlByte(control);
    SixBits();
    assert Flags(data, space, control) == Bits.Pow2(6) * k + low;
    LowBits(k, low, 6);
    Bits.BitsOfValue(ControlBits(control));
    assert ControlBits(control)[5 - i] <==> i in control;
  }

  /** Control writes as both sides read them back: a write with bit 7 sets the bits it names, one
      without clears them, and every other control bit is as the status register showed it. */
  lemma ControlReadsBack(p: Port, v: Byte, i: nat)
    requires p.selected && i < 6
    ensures var q := Step(p, HostWrite(0, v));
            var was := HasBit(Value(p, HostRead(0)), i);
            && HasBit(Value(q, HostRead(0)), i) == (if Sets(v) then was || HasBit(v, i) else was && !HasBit(v, i))
            && HasBit(Value(q, ParasiteRead(0)), i) == HasBit(Value(q, HostRead(0)), i)
  {
    hide HasBit, Flags;
    var q := Step(p, HostWrite(0, v));
    StatusShows(p.queue != [], !p.latched, p.control, i);
    StatusShows(q.queue != [], !q.latched, q.control, i);
    StatusShows(q.latched, |q.queue| < FIFO_SIZE, q.control, i);
    assert i in Named(v) <==> HasBit(v, i);
  }

  /** Bit 7 of a status byte says that its reader has data to take, bit 6 that it has room to send:
      the queue and the latch as each side sees them. */
  lemma FlagsShow(p: Port)
    requires p.selected
    ensures Value(p, HostRead(0)) / 0x80 == 1 <==> p.queue != []
    ensures Value(p, HostRead(0)) / 0x40 % 2 == 1 <==> !p.latched
    ensures Value(p, ParasiteRead(0)) / 0x80 == 1 <==> p.latched
    ensures Value(p, ParasiteRead(0)) / 0x40 % 2 == 1 <==> |p.queue| < 24
  {
    hide ControlByte;
  }

  /** A byte from the host: the parasite is told of it and reads it, and only then has the host room
      for the next. */
  lemma HostByteArrives(p: Port, v: Byte)
    requires p.selected
    ensures var q := Step(p, HostWrite(1, v));
            var r := Step(q, ParasiteRead(1));
            && q.latched && Value(q, ParasiteRead(1)) == v && !r.latched && q.queue == p.queue == r.queue
  {
  }

  /** A reset of either kind empties the queue and the latch; the one by control write keeps the
      control bits, the one by selector does not and decides whether the ULA listens. */
  lemma ResetsEmpty(p: Port, v: Byte)
    requires p.selected
    ensures var q := Step(p, HostWrite(6, v));
            q.queue == [] && !q.latched && q.control == {} && (q.selected <==> v == 0 || v == 1)
    ensures var q := Step(p, HostWrite(0, v));
            if v >= 0xC0 then q.queue == [] && !q.latched && p.control <= q.control
            else q.queue == p.queue && q.latched == p.latched
  {
    hide Named;
  }

  /** A ULA that is not selected answers &FE and heeds nothing from the host but the selector. */
  lemma UnselectedIsDeaf(p: Port, r: nat, v: Byte)
    requires !p.selected
    ensures r != 6 ==> Step(p, HostWrite(r, v)) == p
    ensures Step(p, HostRead(r)) == p && (r < 2 ==> Value(p, HostRead(r)) == 0xFE)
  {
  }

  /** Reading the empty queue gives the parasite's last byte again and takes nothing. */
  lemma EmptyReadRepeats(p: Port, v: Byte)
    requires p.selected && p.queue == []
    ensures Step(p, HostRead(1)) == p && Value(p, HostRead(1)) == p.lastParasiteWrite
    ensures Value(Step(Step(p, ParasiteWrite(1, v)), HostRead(1)), HostRead(1)) == v
  {
    assert [v][0] == v;
  }

  // ----- runs

  function Run(p: Port, run: seq<Access>): Port
    decreases |run|
  {
    if run == [] then p else Run(Step(p, run[0]), run[1..])
  }

  /** The parasite bytes a run takes in. */
  function AcceptedBytes(p: Port, run: seq<Access>): seq<Byte>
    decreases |run|
  {
    if run == [] then []
    else AcceptedNow(p, run[0]) + AcceptedBytes(Step(p, run[0]), run[1..])
  }

  /** The bytes a run's host reads return out of the queue. */
  function TakenBytes(p: Port, run: seq<Access>): seq<Byte>
    decreases |run|
  {
    if run == [] then []
    else TakenNow(p, run[0]) + TakenBytes(Step(p, run[0]), run[1..])
  }

  ghost predicate NoReset(p: Port, run: seq<Access>)
    decreases |run|
  {
    run == [] || (!Resets(p, run[0]) && NoReset(Step(p, run[0]), run[1..]))
  }

  function AcceptedNow(p: Port, a: Access): seq<Byte> { if Accepts(p, a) then [a.value] else [] }

  function TakenNow(p: Port, a: Access): seq<Byte> { if Takes(p, a) then [Value(p, a)] else [] }

  /** One access takes from the front or adds at the back. */
  lemma StepInOrder(p: Port, a: Access)
    requires !Resets(p, a) && |p.queue| <= FIFO_SIZE
    ensures TakenNow(p, a) + Step(p, a).queue == p.queue + AcceptedNow(p, a)
    ensures |Step(p, a).queue| <= FIFO_SIZE
  {
    hide Named, Sets, NamesReset, Flags;
    if !Accepts(p, a) && !Takes(p, a) {
      ControlKeepsQueue(p, a);
      assert [] + p.queue == p.queue + [];
    }
  }

  /** Over all interleavings between resets: what the host has taken and what still waits are the
      accepted bytes, in order, none lost and none twice; never more than 24 wait. */
  lemma {:induction false} QueueInOrder(p: Port, run: seq<Access>)
    requires NoReset(p, run) && |p.queue| <= FIFO_SIZE
    ensures TakenBytes(p, run) + Run(p, run).queue == p.queue + AcceptedBytes(p, run)
    ensures |Run(p, run).queue| <= FIFO_SIZE
    decreases |run|
  {
    hide Step, Resets, Accepts, Takes, Value, TakenNow, AcceptedNow;
    if run != [] {
      var q := Step(p, run[0]);
      StepInOrder(p, run[0]);
      QueueInOrder(q, run[1..]);
      var t1, a1 := TakenNow(p, run[0]), AcceptedNow(p, run[0]);
      var t, a := TakenBytes(q, run[1..]), AcceptedBytes(q, run[1..]);
      Regroup(t1, t, Run(p, run).queue);
      Regroup(t1, q.queue, a);
      Regroup(p.queue, a1, a);
    }
  }

  lemma ControlKeepsQueue(p: Port, a: Access)
    requires !Resets(p, a) && !Accepts(p, a) && !Takes(p, a)
    ensures Step(p, a).queue == p.queue
  {
    hide Named, Sets, NamesReset;
  }

  /** A byte the host wrote waits for the parasite through any accesses but another such write. */
  lemma {:induction false} LatchHolds(p: Port, run: seq<Access>)
    requires NoReset(p, run)
    requires forall i | 0 <= i < |run| :: !(run[i].HostWrite? && run[i].register == 1)
    ensures Value(Run(p, run), ParasiteRead(1)) == Value(p, ParasiteRead(1))
    ensures (forall i | 0 <= i < |run| :: !(run[i].ParasiteRead? && run[i].register == 1)) ==> Run(p, run).latched == p.latched
    decreases |run|
  {
    hide Named, Sets, NamesReset, Flags;
    if run != [] {
      LatchHolds(Step(p, run[0]), run[1..]);
    }
  }

  // ----- the ring

  /** The count bytes from head on, round the ring. */
  function Unrolled(ring: seq<Byte>, head: nat, count: nat): (s: seq<Byte>)
    requires |ring| == FIFO_SIZE
    ensures |s| == count
  {
    seq(count, k requires 0 <= k < count => ring[(head + k) % FIFO_SIZE])
  }

  lemma UnrolledAt(ring: seq<Byte>, head: nat, count: nat, k: nat)
    requires |ring| == FIFO_SIZE && k < count
    ensures Unrolled(ring, head, count)[k] == ring[(head + k) % FIFO_SIZE]
  {
  }

  lemma OtherPlace(head: nat, k: nat, count: nat)
    requires head < FIFO_SIZE && k < count < FIFO_SIZE
    ensures (head + k) % FIFO_SIZE != (head + count) % FIFO_SIZE
  {
  }

  lemma PushUnrolls(ring: seq<Byte>, head: nat, count: nat, value: Byte)
    requires |ring| == FIFO_SIZE && head < FIFO_SIZE && count < FIFO_SIZE
    ensures Unrolled(ring[(head + count) % FIFO_SIZE := value], head, count + 1) == Unrolled(ring, head, count) + [value]
  {
    hide Unrolled;
    var after := ring[(head + count) % FIFO_SIZE := value];
    var a, b := Unrolled(after, head, count + 1), Unrolled(ring, head, count) + [value];
    forall k | 0 <= k <= count
      ensures a[k] == b[k]
    {
      UnrolledAt(after, head, count + 1, k);
      if k < count {
        UnrolledAt(ring, head, count, k);
        OtherPlace(head, k, count);
      }
    }
  }

  lemma PopUnrolls(ring: seq<Byte>, head: nat, count: nat)
    requires |ring| == FIFO_SIZE && head < FIFO_SIZE && 0 < count
    ensures Unrolled(ring, head, count)[0] == ring[head]
    ensures Unrolled(ring, (head + 1) % FIFO_SIZE, count - 1) == Unrolled(ring, head, count)[1..]
  {
    hide Unrolled;
    UnrolledAt(ring, head, count, 0);
    var a, b := Unrolled(ring, (head + 1) % FIFO_SIZE, count - 1), Unrolled(ring, head, count)[1..];
    forall k | 0 <= k < count - 1
      ensures a[k] == b[k]
    {
      UnrolledAt(ring, (head + 1) % FIFO_SIZE, count - 1, k);
      UnrolledAt(ring, head, count, k + 1);
      NextPlace(head, k);
    }
  }

  lemma NextPlace(head: nat, k: nat)
    ensures ((head + 1) % FIFO_SIZE + k) % FIFO_SIZE == (head + (k + 1)) % FIFO_SIZE
  {
  }

  /** The queue as the ULA keeps it: a ring of 24 with two indices and a count. */
  class Fifo {
    const ring: array<Byte>
    var head: nat
    var tail: nat
    var count: nat

    ghost predicate Valid()
      reads this
    {
      && ring.Length == FIFO_SIZE && head < FIFO_SIZE && count <= FIFO_SIZE
      && tail == (head + count) % FIFO_SIZE
    }

    ghost function Contents(): (s: seq<Byte>)
      requires Valid()
      reads this, ring
      ensures |s| == count
    {
      Unrolled(ring[..], head, count)
    }

    constructor ()
      ensures Valid() && fresh(ring) && Contents() == []
    {
      ring := new Byte[FIFO_SIZE](_ => 0);
      head, tail, count := 0, 0, 0;
    }

    method Clear()
      requires Valid()
      modifies this, ring
      ensures Valid() && Contents() == []
    {
      forall i | 0 <= i < ring.Length {
        ring[i] := 0;
      }
      head, tail, count := 0, 0, 0;
    }

    method Push(value: Byte)
      requires Valid() && count < FIFO_SIZE
      modifies this, ring
      ensures Valid() && Contents() == old(Contents()) + [value]
    {
      hide Unrolled;
      PushUnrolls(ring[..], head, count, value);
      ghost var was := ring[..];
      ring[tail] := value;
      assert ring[..] == was[tail := value];
      tail := (tail + 1) % FIFO_SIZE;
      count := count + 1;
    }

    method Pop() returns (value: Byte)
      requires Valid() && count > 0
      modifies this
      ensures Valid() && value == old(Contents())[0] && Contents() == old(Contents())[1..]
    {
      hide Unrolled;
      PopUnrolls(ring[..], head, count);
      value := ring[head];
      head := (head + 1) % FIFO_SIZE;
      count := count - 1;
    }
  }

  class Ula {
    const fifo: Fifo
    var hostData: bool
    var hostSpace: bool
    var parasiteData: bool
    var parasiteSpace: bool
    var latch: Byte
    var control: set<nat>
    var lastHostWrite: Byte
    var lastParasiteWrite: Byte
    var selected: bool

    /** Every flow flag says what the queue and the latch say. */
    ghost predicate Valid()
      reads this, fifo
    {
      && fifo.Valid()
      && hostData == (fifo.count > 0) && parasiteSpace == (fifo.count < FIFO_SIZE)
      && hostSpace == !parasiteData
    }

    ghost function View(): Port
      requires Valid()
      reads this, fifo, fifo.ring
    {
      Port(fifo.Contents(), latch, parasiteData, control, lastHostWrite, lastParasiteWrite, selected)
    }

    constructor ()
      ensures Valid() && fresh(fifo) && fresh(fifo.ring) && View() == RESET
    {
      fifo := new Fifo();
      hostData, hostSpace, parasiteData, parasiteSpace := false, true, false, true;
      latch, control, lastHostWrite, lastParasiteWrite, selected := 0, {}, 0, 0, true;
    }

    /** reset_ula_channels: memory cleared, both sides told there is space. */
    method ResetChannels()
      requires Valid()
      modifies this, fifo, fifo.ring
      ensures Valid() && View() == RESET.(selected := old(selected))
    {
      fifo.Clear();
      hostData, hostSpace, parasiteData, parasiteSpace := false, true, false, true;
      latch, control, lastHostWrite, lastParasiteWrite := 0, {}, 0, 0;
    }

    method WriteFromParasite(register: nat, value: Byte)
      requires Valid()
      modifies this`lastParasiteWrite, this`hostData, this`parasiteSpace, fifo, fifo.ring
      ensures Valid() && View() == Step(old(View()), ParasiteWrite(register, value))
    {
      lastParasiteWrite := value;
      if register == 1 && fifo.count < FIFO_SIZE {
        fifo.Push(value);
        hostData := true;
        if fifo.count == FIFO_SIZE {
          parasiteSpace := false;
        }
      }
    }

    method ReadByHost(register: nat) returns (value: Byte)
      requires Valid() && register < 2
      modifies this`hostData, this`parasiteSpace, fifo
      ensures Valid() && View() == Step(old(View()), HostRead(register))
      ensures value == Value(old(View()), HostRead(register))
    {
      if !selected {
        return 0xFE;
      }
      if register == 0 {
        return Flags(hostData, hostSpace, control);
      }
      if fifo.count > 0 {
        value := fifo.Pop();
        if fifo.count == 0 {
          hostData := false;
        }
        parasiteSpace := true;
      } else {
        value := lastParasiteWrite;
      }
    }

    method ReadByParasite(register: nat) returns (value: Byte)
      requires Valid() && register < 2
      modifies this`parasiteData, this`hostSpace
      ensures Valid() && View() == Step(old(View()), ParasiteRead(register))
      ensures value == Value(old(View()), ParasiteRead(register))
    {
      if register == 0 {
        return Flags(parasiteData, parasiteSpace, control);
      }
      value := latch;
      parasiteData, hostSpace := false, true;
    }

    method WriteByHost(register: nat, value: Byte)
      requires Valid()
      modifies this, fifo, fifo.ring
      ensures Valid() && View() == Step(old(View()), HostWrite(register, value))
    {
      hide Named, Unrolled;
      if register == 6 {
        ResetChannels();
        selected := value == 0 || value == 1;
        return;
      }
      if !selected {
        return;
      }
      lastHostWrite := value;
      if register == 0 {
        if Sets(value) {
          if NamesReset(value) {
            var keep := control;
            ResetChannels();
            control := keep;
          }
          control := control + Named(value);
        } else {
          control := control - Named(value);
        }
      } else if register == 1 {
        latch, parasiteData, hostSpace := value, true, false;
      }
    }
  }
}
