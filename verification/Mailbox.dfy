/** The mailbox scheduler: one posted slot that a newer cycle overwrites, one private active
    callback, and one deferred service, all driven by ticks. */
module Mailbox {
  import opened Bytes
  import opened MailboxCore

  datatype Timing = Timing(capture: nat, callback: nat, pageCallback: nat, readCallback: nat, service: nat)

  datatype Device<!B> = Device(timing: Timing, dispatch: Dispatch<B>, mirror: Mirror)

  /** What became of the selectors written to the command register. */
  datatype Act = Accepted(selector: Byte) | Withdrawn | Dispatched(selector: Byte)

  /** The scheduler's state. The last four fields are histories: the cycles seen on the bus, the
      events captured and completed, and the command protocol. Nothing depends on them. */
  datatype State<B> = State(
    core: Core<B>,
    posted: Option<Event>, active: Option<Event>, pending: bool,
    captureTicks: nat, callbackTicks: nat, serviceTicks: nat,
    cycles: seq<Event>, captured: seq<Event>, completed: seq<Event>, acts: seq<Act>)

  function CallbackDelay(t: Timing, e: Event): nat {
    if !e.write && e.address != REG_DATA then t.readCallback
    else if e.write && REG_PAGE_HI <= e.address <= REG_PAGE_LO then t.pageCallback
    else t.callback
  }

  // ----- transitions

  function Capture<B>(d: Device<B>, s: State<B>): State<B>
    requires s.posted.Some?
  {
    var e := s.posted.value;
    s.(active := Some(e), posted := None, captureTicks := 0, callbackTicks := CallbackDelay(d.timing, e),
       captured := s.captured + [e])
  }

  function CompleteCallback<B>(d: Device<B>, s: State<B>): State<B>
    requires s.active.Some?
  {
    var e := s.active.value;
    var s1 := s.(core := Apply(s.core, e), active := None, callbackTicks := 0, completed := s.completed + [e]);
    if Accepts(e) then
      s1.(pending := true, serviceTicks := d.timing.service, acts := s.acts + [Accepted(e.value)])
    else if Cancels(e) then s1.(pending := false, acts := s.acts + [Withdrawn])
    else s1
  }

  function CompleteService<B>(d: Device<B>, s: State<B>): State<B> {
    s.(core := Serve(s.core, d.dispatch), pending := false, serviceTicks := 0,
       acts := s.acts + [Dispatched(s.core.selector)])
  }

  predicate CanCapture<B>(s: State<B>) { s.active.None? && s.posted.Some? && s.captureTicks == 0 }

  predicate CanComplete<B>(s: State<B>) { s.active.Some? && s.callbackTicks == 0 }

  predicate CanServe<B>(s: State<B>) { s.active.None? && s.pending && s.serviceTicks == 0 }

  function TryCapture<B>(d: Device<B>, s: State<B>): State<B> { if CanCapture(s) then Capture(d, s) else s }

  function TryComplete<B>(d: Device<B>, s: State<B>): State<B> { if CanComplete(s) then CompleteCallback(d, s) else s }

  function TryServe<B>(d: Device<B>, s: State<B>): State<B> { if CanServe(s) then CompleteService(d, s) else s }

  /** One turn of the drain loop. */
  function Pass<B>(d: Device<B>, s: State<B>): State<B> {
    TryServe(d, TryComplete(d, TryCapture(d, s)))
  }

  predicate Moves<B>(d: Device<B>, s: State<B>) {
    CanCapture(s) || CanComplete(TryCapture(d, s)) || CanServe(TryComplete(d, TryCapture(d, s)))
  }

  /** Why draining ends: a posted event counts three, an active one two, a service one. */
  function Work<B>(s: State<B>): nat {
    (if s.posted.Some? then 3 else 0) + (if s.active.Some? then 2 else 0) + (if s.pending then 1 else 0)
  }

  lemma PassShrinksWork<B>(d: Device<B>, s: State<B>)
    requires Moves(d, s)
    ensures Work(Pass(d, s)) < Work(s)
  {
  }

  /** Every transition that takes no time. */
  function Drain<B>(d: Device<B>, s: State<B>): State<B>
    decreases Work(s)
  {
    if Moves(d, s) then
      PassShrinksWork(d, s);
      Drain(d, Pass(d, s))
    else s
  }

  /** The part of a tick that comes before draining. */
  function ServiceTick<B>(d: Device<B>, s: State<B>): State<B> {
    if s.active.None? && s.pending && s.serviceTicks > 0 then
      var s1 := s.(serviceTicks := s.serviceTicks - 1);
      if s1.serviceTicks == 0 then CompleteService(d, s1) else s1
    else s
  }

  function CaptureTick<B>(s: State<B>): State<B> {
    if s.posted.Some? && s.captureTicks > 0 then s.(captureTicks := s.captureTicks - 1) else s
  }

  function CallbackTick<B>(d: Device<B>, s: State<B>): State<B> {
    if s.active.Some? && s.callbackTicks > 0 then
      var s1 := s.(callbackTicks := s.callbackTicks - 1);
      if s1.callbackTicks == 0 then CompleteCallback(d, s1) else s1
    else s
  }

  function Tick<B>(d: Device<B>, s: State<B>): State<B> {
    Drain(d, CallbackTick(d, CaptureTick(ServiceTick(d, s))))
  }

  function Ticks<B>(d: Device<B>, s: State<B>, n: nat): State<B>
    decreases n
  {
    if n == 0 then s else Ticks(d, Tick(d, s), n - 1)
  }

  /** Put an event in the shared slot, over any that is still there. */
  function Enqueue<B>(d: Device<B>, s: State<B>, e: Event): State<B> {
    s.(posted := Some(e), cycles := s.cycles + [e],
       captureTicks := if s.posted.Some? then s.captureTicks else d.timing.capture)
  }

  function Post<B>(d: Device<B>, s: State<B>, e: Event): State<B> {
    Drain(d, Enqueue(d, s, e))
  }

  function Access<B>(d: Device<B>, s: State<B>, y: Cycle): State<B> {
    Post(d, s, EventOf(s.core, d.mirror, y, |s.cycles|))
  }

  datatype Step = Bus(cycle: Cycle) | Elapse(ticks: nat)

  function Take<B>(d: Device<B>, s: State<B>, step: Step): State<B> {
    match step
    case Bus(y) => Access(d, s, y)
    case Elapse(n) => Ticks(d, s, n)
  }

  function Run<B>(d: Device<B>, s: State<B>, steps: seq<Step>): State<B>
    decreases |steps|
  {
    if steps == [] then s else Run(d, Take(d, s, steps[0]), steps[1..])
  }

  /** A device with no work in hand and no history. */
  function Fresh<B>(core: Core<B>): State<B> {
    State(core, None, None, false, 0, 0, 0, [], [], [], [])
  }

  predicate Idle<B>(s: State<B>) {
    s.posted.None? && s.active.None? && !s.pending
  }

  // ----- what every run keeps

  /** The command protocol: a selector is dispatched only as the very next act after its own
      acceptance, and a service is pending exactly while the last act is an acceptance. */
  ghost predicate ProtocolKept<B>(s: State<B>) {
    && (forall i | 0 <= i < |s.acts| && s.acts[i].Dispatched? ::
          i > 0 && s.acts[i - 1] == Accepted(s.acts[i].selector))
    && (s.pending <==> |s.acts| > 0 && s.acts[|s.acts| - 1].Accepted?)
    && (s.pending ==> s.acts[|s.acts| - 1] == Accepted(s.core.selector))
    && (s.pending ==> s.core.regs.command == BUSY && s.core.result == BUSY && s.core.selector >= 0xF0)
  }

  ghost predicate InOrder(events: seq<Event>, cycles: seq<Event>) {
    && (forall i | 0 <= i < |events| :: events[i].stamp < |cycles| && cycles[events[i].stamp] == events[i])
    && (forall i, j | 0 <= i < j < |events| :: events[i].stamp < events[j].stamp)
  }

  /** The stamp of the event the next capture must follow. */
  function LastStamp(events: seq<Event>): int {
    if events == [] then -1 else events[|events| - 1].stamp
  }

  /** Captured events are cycles of the bus in bus order; completed ones are the captured ones,
      unaltered, except the one still active; the newest cycle is never lost. */
  ghost predicate DeliveryKept<B>(s: State<B>) {
    && InOrder(s.captured, s.cycles)
    && s.captured == s.completed + (if s.active.Some? then [s.active.value] else [])
    && (s.posted.Some? ==> |s.cycles| > 0 && s.posted.value == s.cycles[|s.cycles| - 1])
    && (s.posted.Some? ==> s.posted.value.stamp == |s.cycles| - 1 && LastStamp(s.captured) < |s.cycles| - 1)
    && (s.posted.None? ==> LastStamp(s.captured) == |s.cycles| - 1)
  }

  function Max(a: nat, b: nat): nat { if a < b then b else a }

  /** The longest callback. */
  function Longest(t: Timing): nat { Max(t.callback, Max(t.pageCallback, t.readCallback)) }

  /** Counters never exceed the delays they were loaded with. */
  ghost predicate Bounded<B>(d: Device<B>, s: State<B>) {
    && s.captureTicks <= d.timing.capture
    && (s.active.Some? ==> s.callbackTicks <= Longest(d.timing))
    && (s.pending ==> s.serviceTicks <= d.timing.service)
  }

  /** Nothing that takes no time is left to do. */
  ghost predicate Settled<B>(s: State<B>) {
    && (s.active.Some? ==> s.callbackTicks > 0)
    && (s.posted.Some? && s.active.None? ==> s.captureTicks > 0)
    && (s.pending && s.active.None? ==> s.serviceTicks > 0)
  }

  ghost predicate Inv<B>(d: Device<B>, s: State<B>) {
    ProtocolKept(s) && DeliveryKept(s) && Bounded(d, s)
  }

  lemma ApplyKeepsCommand<B>(c: Core<B>, e: Event)
    ensures !Accepts(e) && !Cancels(e) ==>
              && Apply(c, e).regs.command == c.regs.command && Apply(c, e).result == c.result
              && Apply(c, e).selector == c.selector
    ensures Accepts(e) ==>
              && Apply(c, e).regs.command == BUSY && Apply(c, e).result == BUSY
              && Apply(c, e).selector == e.value
  {
  }

  lemma CaptureKeeps<B>(d: Device<B>, s: State<B>)
    requires Inv(d, s) && CanCapture(s)
    ensures Inv(d, Capture(d, s))
  {
    hide Apply;
  }

  lemma CompleteCallbackKeeps<B>(d: Device<B>, s: State<B>)
    requires Inv(d, s) && s.active.Some?
    ensures Inv(d, CompleteCallback(d, s))
  {
    hide Apply;
    ApplyKeepsCommand(s.core, s.active.value);
  }

  lemma CompleteServiceKeeps<B>(d: Device<B>, s: State<B>)
    requires Inv(d, s) && s.pending
    ensures Inv(d, CompleteService(d, s))
  {
  }

  lemma PassKeeps<B>(d: Device<B>, s: State<B>)
    requires Inv(d, s)
    ensures Inv(d, Pass(d, s))
  {
    hide Inv, Capture, CompleteCallback, CompleteService;
    var s1 := TryCapture(d, s);
    if CanCapture(s) { CaptureKeeps(d, s); }
    var s2 := TryComplete(d, s1);
    if CanComplete(s1) { CompleteCallbackKeeps(d, s1); }
    if CanServe(s2) { CompleteServiceKeeps(d, s2); }
  }

  lemma {:induction false} DrainKeeps<B>(d: Device<B>, s: State<B>)
    requires Inv(d, s)
    ensures Inv(d, Drain(d, s)) && Settled(Drain(d, s))
    decreases Work(s)
  {
    hide Inv, Pass;
    if Moves(d, s) {
      PassShrinksWork(d, s);
      PassKeeps(d, s);
      DrainKeeps(d, Pass(d, s));
    }
  }

  lemma CountDownKeeps<B>(d: Device<B>, s: State<B>, capture: nat, callback: nat, service: nat)
    requires Inv(d, s) && capture <= s.captureTicks && callback <= s.callbackTicks && service <= s.serviceTicks
    ensures Inv(d, s.(captureTicks := capture, callbackTicks := callback, serviceTicks := service))
  {
  }

  lemma ServiceTickKeeps<B>(d: Device<B>, s: State<B>)
    requires Inv(d, s)
    ensures Inv(d, ServiceTick(d, s))
  {
    hide Inv, CompleteService;
    if s.active.None? && s.pending && s.serviceTicks > 0 {
      CountDownKeeps(d, s, s.captureTicks, s.callbackTicks, s.serviceTicks - 1);
      if s.serviceTicks == 1 { CompleteServiceKeeps(d, s.(serviceTicks := 0)); }
    }
  }

  lemma BeforeDrainKeeps<B>(d: Device<B>, s: State<B>)
    requires Inv(d, s)
    ensures Inv(d, CallbackTick(d, CaptureTick(ServiceTick(d, s))))
  {
    hide Inv, ServiceTick, CompleteCallback;
    ServiceTickKeeps(d, s);
    var s1 := ServiceTick(d, s);
    if s1.captureTicks > 0 { CountDownKeeps(d, s1, s1.captureTicks - 1, s1.callbackTicks, s1.serviceTicks); }
    var s2 := CaptureTick(s1);
    if s2.active.Some? && s2.callbackTicks > 0 {
      CountDownKeeps(d, s2, s2.captureTicks, s2.callbackTicks - 1, s2.serviceTicks);
      if s2.callbackTicks == 1 { CompleteCallbackKeeps(d, s2.(callbackTicks := 0)); }
    }
  }

  lemma TickKeeps<B>(d: Device<B>, s: State<B>)
    requires Inv(d, s)
    ensures Inv(d, Tick(d, s)) && Settled(Tick(d, s))
  {
    hide Inv, Drain, CallbackTick, CaptureTick, ServiceTick, Settled;
    BeforeDrainKeeps(d, s);
    DrainKeeps(d, CallbackTick(d, CaptureTick(ServiceTick(d, s))));
  }

  lemma {:induction false} TicksKeep<B>(d: Device<B>, s: State<B>, n: nat)
    requires Inv(d, s) && Settled(s)
    ensures Inv(d, Ticks(d, s, n)) && Settled(Ticks(d, s, n))
    decreases n
  {
    hide Inv, Settled, Tick;
    if n != 0 {
      TickKeeps(d, s);
      TicksKeep(d, Tick(d, s), n - 1);
    }
  }

  lemma EnqueueKeeps<B>(d: Device<B>, s: State<B>, e: Event)
    requires Inv(d, s) && e.stamp == |s.cycles|
    ensures Inv(d, Enqueue(d, s, e))
  {
  }

  lemma AccessKeeps<B>(d: Device<B>, s: State<B>, y: Cycle)
    requires Inv(d, s)
    ensures Inv(d, Access(d, s, y)) && Settled(Access(d, s, y))
  {
    hide Inv, Settled, Drain, Enqueue, Returned;
    var e := EventOf(s.core, d.mirror, y, |s.cycles|);
    EnqueueKeeps(d, s, e);
    DrainKeeps(d, Enqueue(d, s, e));
  }

  lemma {:induction false} RunKeeps<B>(d: Device<B>, s: State<B>, steps: seq<Step>)
    requires Inv(d, s) && Settled(s)
    ensures Inv(d, Run(d, s, steps)) && Settled(Run(d, s, steps))
    decreases |steps|
  {
    hide Inv, Settled, Access, Ticks;
    if steps != [] {
      match steps[0] {
        case Bus(y) => AccessKeeps(d, s, y);
        case Elapse(n) => TicksKeep(d, s, n);
      }
      RunKeeps(d, Take(d, s, steps[0]), steps[1..]);
    }
  }

  /** Safety over every run: the command protocol and the delivery order hold in every state a
      device can reach, whatever the host does and whenever. */
  lemma RunSafety<B>(d: Device<B>, core: Core<B>, steps: seq<Step>)
    ensures ProtocolKept(Run(d, Fresh(core), steps))
    ensures DeliveryKept(Run(d, Fresh(core), steps))
    ensures Bounded(d, Run(d, Fresh(core), steps)) && Settled(Run(d, Fresh(core), steps))
  {
    hide Run;
    RunKeeps(d, Fresh(core), steps);
  }

  // ----- which cycles are lost

  /** Nothing arrived: the posted event, if any, has been captured or still waits. */
  ghost predicate MayCapture<B>(s: State<B>, t: State<B>) {
    && t.cycles == s.cycles
    && if t.posted == s.posted then t.captured == s.captured
       else s.posted.Some? && t.posted.None? && t.captured == s.captured + [s.posted.value]
  }

  lemma PassCaptures<B>(d: Device<B>, s: State<B>)
    ensures MayCapture(s, Pass(d, s))
  {
    hide Apply, Serve;
  }

  lemma {:induction false} DrainCaptures<B>(d: Device<B>, s: State<B>)
    ensures MayCapture(s, Drain(d, s))
    decreases Work(s)
  {
    hide Pass;
    if Moves(d, s) {
      PassShrinksWork(d, s);
      PassCaptures(d, s);
      DrainCaptures(d, Pass(d, s));
    }
  }

  lemma TickCaptures<B>(d: Device<B>, s: State<B>)
    ensures MayCapture(s, Tick(d, s))
  {
    hide Drain, Apply, Serve;
    DrainCaptures(d, CallbackTick(d, CaptureTick(ServiceTick(d, s))));
  }

  lemma {:induction false} TicksCapture<B>(d: Device<B>, s: State<B>, n: nat)
    ensures MayCapture(s, Ticks(d, s, n))
    decreases n
  {
    hide Tick;
    if n != 0 {
      TickCaptures(d, s);
      TicksCapture(d, Tick(d, s), n - 1);
    }
  }

  lemma AccessCaptures<B>(d: Device<B>, s: State<B>, y: Cycle)
    ensures MayCapture(Enqueue(d, s, EventOf(s.core, d.mirror, y, |s.cycles|)), Access(d, s, y))
  {
    hide Drain, EventOf;
    DrainCaptures(d, Enqueue(d, s, EventOf(s.core, d.mirror, y, |s.cycles|)));
  }

  /** A cycle that is neither captured nor waiting. */
  ghost predicate Gone<B>(s: State<B>, stamp: nat) {
    && stamp < |s.cycles| && (s.posted.Some? ==> s.posted.value.stamp != stamp)
    && forall i | 0 <= i < |s.captured| :: s.captured[i].stamp != stamp
  }

  /** What is captured stays captured, and what is gone stays gone. */
  lemma {:induction false} RunRemembers<B>(d: Device<B>, s: State<B>, steps: seq<Step>, stamp: nat)
    ensures s.captured <= Run(d, s, steps).captured
    ensures Gone(s, stamp) ==> Gone(Run(d, s, steps), stamp)
    decreases |steps|
  {
    hide Access, Ticks, EventOf;
    if steps != [] {
      match steps[0] {
        case Bus(y) =>
          AccessCaptures(d, s, y);
          StampOf(s.core, d.mirror, y, |s.cycles|);
        case Elapse(n) => TicksCapture(d, s, n);
      }
      RunRemembers(d, Take(d, s, steps[0]), steps[1..], stamp);
    }
  }

  lemma StampOf<B>(c: Core<B>, m: Mirror, y: Cycle, stamp: nat)
    ensures EventOf(c, m, y, stamp).stamp == stamp
  {
  }

  lemma {:induction false} RunJoins<B>(d: Device<B>, s: State<B>, a: seq<Step>, b: seq<Step>)
    ensures Run(d, s, a + b) == Run(d, Run(d, s, a), b)
    decreases |a|
  {
    hide Take;
    if a == [] {
      assert a + b == b;
    } else {
      assert (a + b)[1..] == a[1..] + b;
      RunJoins(d, Take(d, s, a[0]), a[1..], b);
    }
  }

  /** Exactly which cycles are lost. In any run, the cycle before any other is captured, sooner or
      later, if and only if it no longer waits in the shared slot when that other one arrives. */
  lemma LostIffOverwritten<B>(d: Device<B>, core: Core<B>, steps: seq<Step>, y: Cycle, later: seq<Step>)
    ensures var s, last := Run(d, Fresh(core), steps), Run(d, Fresh(core), steps + ([Bus(y)] + later));
            s.cycles != [] ==> (s.cycles[|s.cycles| - 1] in last.captured <==> s.posted.None?)
  {
    hide Run, Access, Ticks, EventOf;
    var s := Run(d, Fresh(core), steps);
    RunSafety(d, core, steps);
    RunJoins(d, Fresh(core), steps, [Bus(y)] + later);
    if s.cycles != [] {
      var stamp := |s.cycles| - 1;
      RunRemembers(d, s, [Bus(y)] + later, stamp);
      if s.posted.None? {
        var e := s.captured[|s.captured| - 1];
        assert e == s.cycles[stamp];
        assert s.captured <= Run(d, s, [Bus(y)] + later).captured;
      } else {
        OverwrittenIsGone(d, s, y, later, stamp);
      }
    }
  }

  lemma OverwrittenIsGone<B>(d: Device<B>, s: State<B>, y: Cycle, later: seq<Step>, stamp: nat)
    requires DeliveryKept(s) && s.posted.Some? && stamp == |s.cycles| - 1
    ensures Gone(Run(d, s, [Bus(y)] + later), stamp) && s.posted.value.stamp == stamp
  {
    hide Access, Ticks, EventOf;
    var t := Access(d, s, y);
    AccessCaptures(d, s, y);
    StampOf(s.core, d.mirror, y, |s.cycles|);
    forall i | 0 <= i < |s.captured| ensures s.captured[i].stamp < stamp {
      if i < |s.captured| - 1 {
        assert s.captured[i].stamp < s.captured[|s.captured| - 1].stamp;
      }
    }
    assert Gone(t, stamp);
    assert ([Bus(y)] + later)[1..] == later;
    RunRemembers(d, t, later, stamp);
  }

  // ----- settling

  /** How long the work in hand can still take. */
  function Rank<B>(d: Device<B>, s: State<B>): nat {
    if s.posted.Some? then
      Max(if s.active.Some? then s.callbackTicks else 0, s.captureTicks) + Longest(d.timing) + d.timing.service
    else if s.active.Some? then s.callbackTicks + d.timing.service
    else if s.pending then s.serviceTicks
    else 0
  }

  lemma PassRank<B>(d: Device<B>, s: State<B>)
    requires Bounded(d, s)
    ensures Rank(d, Pass(d, s)) <= Rank(d, s) && Bounded(d, Pass(d, s))
  {
    hide Apply, Serve;
  }

  lemma {:induction false} DrainRank<B>(d: Device<B>, s: State<B>)
    requires Bounded(d, s)
    ensures Rank(d, Drain(d, s)) <= Rank(d, s) && Bounded(d, Drain(d, s)) && Settled(Drain(d, s))
    decreases Work(s)
  {
    hide Bounded, Rank, Pass;
    if Moves(d, s) {
      PassShrinksWork(d, s);
      PassRank(d, s);
      DrainRank(d, Pass(d, s));
    }
  }

  lemma BeforeDrainRank<B>(d: Device<B>, s: State<B>)
    requires Bounded(d, s) && Settled(s)
    ensures var s1 := CallbackTick(d, CaptureTick(ServiceTick(d, s)));
            Bounded(d, s1) && (Rank(d, s1) < Rank(d, s) || Rank(d, s1) == 0)
  {
    hide Apply, Serve;
  }

  lemma TickRank<B>(d: Device<B>, s: State<B>)
    requires Bounded(d, s) && Settled(s)
    ensures Bounded(d, Tick(d, s)) && Settled(Tick(d, s))
    ensures Rank(d, Tick(d, s)) < Rank(d, s) || Rank(d, Tick(d, s)) == 0
  {
    hide Bounded, Rank, Drain, Settled, CallbackTick, CaptureTick, ServiceTick;
    BeforeDrainRank(d, s);
    DrainRank(d, CallbackTick(d, CaptureTick(ServiceTick(d, s))));
  }

  lemma {:induction false} RankSettles<B>(d: Device<B>, s: State<B>, n: nat)
    requires Bounded(d, s) && Settled(s) && n >= Rank(d, s)
    ensures Idle(Ticks(d, s, n))
    decreases n
  {
    hide Tick;
    if n != 0 {
      TickRank(d, s);
      RankSettles(d, Tick(d, s), n - 1);
    }
  }

  /** The bound on settling: the later of capture and callback, one more callback, one service. */
  function SettlingTime(t: Timing): nat {
    Max(t.capture, Longest(t)) + Longest(t) + t.service
  }

  /** Left alone, a device that has run in any way finishes all its work in bounded time, and
      then the newest bus cycle is the last one it completed. */
  lemma RunSettles<B>(d: Device<B>, core: Core<B>, steps: seq<Step>, n: nat)
    requires n >= SettlingTime(d.timing)
    ensures var s, before := Ticks(d, Run(d, Fresh(core), steps), n), Run(d, Fresh(core), steps);
            && Idle(s)
            && s.completed == s.captured && s.cycles == before.cycles
            && (s.cycles != [] ==> s.completed != [] && s.completed[|s.completed| - 1] == s.cycles[|s.cycles| - 1])
  {
    hide Run, Ticks;
    var s := Run(d, Fresh(core), steps);
    RunKeeps(d, Fresh(core), steps);
    assert Rank(d, s) <= SettlingTime(d.timing);
    RankSettles(d, s, n);
    TicksKeep(d, s, n);
    TicksKeepCycles(d, s, n);
  }

  lemma {:induction false} DrainKeepsCycles<B>(d: Device<B>, s: State<B>)
    ensures Drain(d, s).cycles == s.cycles
    decreases Work(s)
  {
    hide Apply, Serve;
    if Moves(d, s) {
      PassShrinksWork(d, s);
      DrainKeepsCycles(d, Pass(d, s));
    }
  }

  lemma {:induction false} TicksKeepCycles<B>(d: Device<B>, s: State<B>, n: nat)
    ensures Ticks(d, s, n).cycles == s.cycles
    decreases n
  {
    hide Drain, Apply, Serve;
    if n != 0 {
      DrainKeepsCycles(d, CallbackTick(d, CaptureTick(ServiceTick(d, s))));
      TicksKeepCycles(d, Tick(d, s), n - 1);
    }
  }

  // ----- a quiet bus

  /** At most one thing is in hand. */
  predicate Single<B>(s: State<B>) {
    && (s.posted.Some? ==> s.active.None? && !s.pending)
    && (s.active.Some? ==> !s.pending)
  }

  /** The device as it will be once that one thing is done. */
  function Final<B>(d: Device<B>, s: State<B>): Core<B> {
    if s.posted.Some? then Atomic(s.core, d.dispatch, s.posted.value)
    else if s.active.Some? then Atomic(s.core, d.dispatch, s.active.value)
    else if s.pending then Serve(s.core, d.dispatch)
    else s.core
  }

  lemma PassFinal<B>(d: Device<B>, s: State<B>)
    requires Single(s)
    ensures Single(Pass(d, s)) && Final(d, Pass(d, s)) == Final(d, s)
  {
    hide Apply, Serve;
  }

  lemma {:induction false} DrainFinal<B>(d: Device<B>, s: State<B>)
    requires Single(s)
    ensures Single(Drain(d, s)) && Final(d, Drain(d, s)) == Final(d, s)
    decreases Work(s)
  {
    hide Single, Final, Pass;
    if Moves(d, s) {
      PassShrinksWork(d, s);
      PassFinal(d, s);
      DrainFinal(d, Pass(d, s));
    }
  }

  lemma TickFinal<B>(d: Device<B>, s: State<B>)
    requires Single(s)
    ensures Single(Tick(d, s)) && Final(d, Tick(d, s)) == Final(d, s)
  {
    hide Apply, Serve, Drain;
    var s1 := CallbackTick(d, CaptureTick(ServiceTick(d, s)));
    assert Single(s1) && Final(d, s1) == Final(d, s);
    DrainFinal(d, s1);
  }

  lemma {:induction false} TicksFinal<B>(d: Device<B>, s: State<B>, n: nat)
    requires Single(s)
    ensures Single(Ticks(d, s, n)) && Final(d, Ticks(d, s, n)) == Final(d, s)
    decreases n
  {
    hide Single, Final, Tick;
    if n != 0 {
      TickFinal(d, s);
      TicksFinal(d, Tick(d, s), n - 1);
    }
  }

  /** A bus cycle and the quiet that follows it. */
  datatype Spaced = Spaced(cycle: Cycle, gap: nat)

  /** A quiet gap lets a capture, the longest callback and a service go by. */
  function QuietTime(t: Timing): nat { t.capture + Longest(t) + t.service }

  function SpacedStep<B>(d: Device<B>, s: State<B>, a: Spaced): State<B> {
    Ticks(d, Access(d, s, a.cycle), a.gap)
  }

  /** The run of a spaced sequence of cycles and what each cycle returned. */
  function SpacedRun<B>(d: Device<B>, s: State<B>, run: seq<Spaced>): (State<B>, seq<Byte>)
    decreases |run|
  {
    if run == [] then (s, [])
    else
      var (last, got) := SpacedRun(d, SpacedStep(d, s, run[0]), run[1..]);
      (last, [Returned(s.core, d.mirror, run[0].cycle)] + got)
  }

  function Cycles(run: seq<Spaced>): (r: seq<Cycle>)
    ensures |r| == |run|
  {
    seq(|run|, i requires 0 <= i < |run| => run[i].cycle)
  }

  /** One cycle on a quiet bus does exactly what it would do with no latency at all. */
  lemma QuietStep<B>(d: Device<B>, s: State<B>, a: Spaced)
    requires Idle(s) && s.captureTicks <= d.timing.capture && a.gap >= QuietTime(d.timing)
    ensures var t := SpacedStep(d, s, a);
            && Idle(t) && t.captureTicks <= d.timing.capture
            && t.core == Atomic(s.core, d.dispatch, EventOf(s.core, d.mirror, a.cycle, |s.cycles|))
            && |t.cycles| == |s.cycles| + 1
  {
    hide Drain, Ticks, Apply, Serve, EventOf, Atomic;
    var e := EventOf(s.core, d.mirror, a.cycle, |s.cycles|);
    var s1 := Enqueue(d, s, e);
    var s2 := Drain(d, s1);
    assert Bounded(d, s1) && Single(s1) && Rank(d, s1) == QuietTime(d.timing);
    DrainRank(d, s1);
    DrainFinal(d, s1);
    DrainKeepsCycles(d, s1);
    RankSettles(d, s2, a.gap);
    TicksFinal(d, s2, a.gap);
    TicksKeepCycles(d, s2, a.gap);
    TicksKeepBounds(d, s2, a.gap);
  }

  lemma {:induction false} TicksKeepBounds<B>(d: Device<B>, s: State<B>, n: nat)
    requires Bounded(d, s) && Settled(s)
    ensures Bounded(d, Ticks(d, s, n))
    decreases n
  {
    hide Bounded, Settled, Rank, Tick;
    if n != 0 {
      TickRank(d, s);
      TicksKeepBounds(d, Tick(d, s), n - 1);
    }
  }

  /** Quiet-bus refinement: for any delays, any dispatcher and any cycles, if every cycle is
      followed by a quiet gap then every read and the final device are those of the device
      that has no latency. */
  lemma {:induction false} QuietBus<B>(d: Device<B>, s: State<B>, run: seq<Spaced>)
    requires Idle(s) && s.captureTicks <= d.timing.capture
    requires forall i | 0 <= i < |run| :: run[i].gap >= QuietTime(d.timing)
    ensures var (last, got) := SpacedRun(d, s, run);
            && Idle(last)
            && (last.core, got) == AtomicRun(s.core, d.dispatch, d.mirror, Cycles(run), |s.cycles|)
    decreases |run|
  {
    hide SpacedStep, Atomic, Returned;
    if run != [] {
      QuietStep(d, s, run[0]);
      QuietBus(d, SpacedStep(d, s, run[0]), run[1..]);
      assert Cycles(run)[1..] == Cycles(run[1..]);
    }
  }

  /** The same, between two devices: delays are invisible on a quiet bus. */
  lemma DelaysAreInvisible<B>(slow: Device<B>, core: Core<B>, run: seq<Spaced>)
    requires forall i | 0 <= i < |run| :: run[i].gap >= QuietTime(slow.timing)
    ensures var instant := slow.(timing := Timing(0, 0, 0, 0, 0));
            var (a, readsA) := SpacedRun(slow, Fresh(core), run);
            var (b, readsB) := SpacedRun(instant, Fresh(core), run);
            readsA == readsB && a.core == b.core && Idle(a) && Idle(b)
  {
    hide SpacedRun, AtomicRun;
    QuietBus(slow, Fresh(core), run);
    QuietBus(slow.(timing := Timing(0, 0, 0, 0, 0)), Fresh(core), run);
  }
}
