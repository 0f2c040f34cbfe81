/** The Pi's own caller of the windowed repair. It holds an unframed remainder back only up to
    a bounded carry; a longer chunk is published as it is and stepped over. */
module UefPiWindow {
  import opened Bytes
  import opened UefFormat
  import opened Framing
  import opened UefRepair

  const CARRY := 1024

  /** What the repair remembers between windows. */
  datatype Walk = Walk(carry: seq<Byte>, skip: nat, framed: bool, first: bool)

  function Begin(enabled: bool): Walk {
    Walk([], 0, enabled, true)
  }

  /** Where the chunk walk of the next window starts. */
  function StartOf(k: Walk): nat {
    if k.skip != 0 then k.skip else if k.first then HEADER else 0
  }

  predicate Sound(k: Walk) {
    |k.carry| <= CARRY && (k.skip != 0 ==> !k.first) && (k.skip != 0 || k.first || !k.framed ==> k.carry == [])
  }

  /** repair_window: what is published of the window `w`, and what is remembered. */
  function RepairWindow(k: Walk, w: seq<Byte>, final: bool): (seq<Byte>, Walk) {
    var next := k.(carry := [], first := false);
    if !k.framed then (w, next)
    else if k.skip != 0 && k.skip >= |w| then (w, next.(skip := k.skip - |w|))
    else
      var start, walked := StartOf(k), next.(skip := 0);
      var repaired, end := SpanResult(w, start), SpanEnd(w, start);
      AfterSpan(walked, repaired, end, final)
  }

  /** What becomes of a window whose chunks before `end` have been repaired. */
  function AfterSpan(walked: Walk, repaired: seq<Byte>, end: nat, final: bool): (seq<Byte>, Walk)
    requires end <= |repaired|
  {
    if final || end >= |repaired| then (repaired, walked)
    else if |repaired| - end <= CARRY then (repaired[..end], walked.(carry := repaired[end..]))
    else
      var past := end + 6 + Rd32(repaired, end + 2);
      if past > |repaired| then (repaired, walked.(skip := past - |repaired|))
      else (repaired, walked.(framed := false))
  }

  /** How many bytes the stream gives a window with `limit` bytes of room. */
  function Got(k: Walk, rest: seq<Byte>, limit: nat): (n: nat)
    ensures n <= |rest|
  {
    if |k.carry| + |rest| <= limit then |rest| else if limit < |k.carry| then 0 else limit - |k.carry|
  }

  predicate Final(k: Walk, rest: seq<Byte>, limit: nat) {
    |k.carry| + Got(k, rest, limit) < limit
  }

  /** window_advance: the published window, and the walk and stream it leaves. */
  function Advance(k: Walk, rest: seq<Byte>, limit: nat): (seq<Byte>, Walk, seq<Byte>) {
    var got := Got(k, rest, limit);
    var (published, next) := RepairWindow(k, k.carry + rest[..got], Final(k, rest, limit));
    (published, next, rest[got..])
  }

  // ----- one window

  /** What the whole-image repair makes of everything not yet published. */
  function Due(k: Walk, rest: seq<Byte>): (r: seq<Byte>)
    ensures |r| == |k.carry| + |rest|
  {
    if k.framed then SpanResult(k.carry + rest, StartOf(k)) else k.carry + rest
  }

  /** The chunk this window steps over, if the stream holds all of it: its head is longer than
      the carry and its end lies in a later window. */
  function SteppedOver(k: Walk, rest: seq<Byte>, limit: nat): seq<seq<Byte>> {
    var got := Got(k, rest, limit);
    var (w, start) := (k.carry + rest[..got], StartOf(k));
    if !k.framed || |w| <= start || Final(k, rest, limit) then []
    else
      var open := Rest(ChunkSize, w[start..]) + rest[got..];
      if |Rest(ChunkSize, w[start..])| <= CARRY || !Complete(ChunkSize, open) then []
      else [open[..ChunkSize(open)]]
  }

  /** Below the start of the walk a window is published as it is. */
  lemma SpanShift(w: seq<Byte>, more: seq<Byte>, start: nat)
    requires |w| <= start
    ensures SpanResult(w + more, start) == w + SpanResult(more, start - |w|)
  {
    if |w + more| >= start {
      assert (w + more)[start..] == more[start - |w|..];
      assert (w + more)[..start] == w + more[..start - |w|];
      Regroup(w, more[..start - |w|], Repaired(more[start - |w|..]));
    }
  }

  lemma SpanFromZero(s: seq<Byte>)
    ensures SpanResult(s, 0) == Repaired(s)
  {
    assert s[0..] == s && s[..0] == [];
    assert [] + Repaired(s) == Repaired(s);
  }

  /** A longer stream: the chunks a window completes are repaired first. */
  lemma SpanGoesOn(w: seq<Byte>, more: seq<Byte>, start: nat)
    requires start <= |w|
    ensures SpanResult(w + more, start)
         == SpanResult(w, start)[..SpanEnd(w, start)] + Repaired(Rest(ChunkSize, w[start..]) + more)
  {
    hide *;
    SpanParts(w, start);
    SpanIs(w, more, start);
    RepairedGoesOn(w[start..], more);
    Regroup(w[..start], MapConcat(RepairedChunk, Split(ChunkSize, w[start..])),
            Repaired(Rest(ChunkSize, w[start..]) + more));
  }

  lemma SpanIs(w: seq<Byte>, more: seq<Byte>, start: nat)
    requires start <= |w|
    ensures SpanResult(w + more, start) == w[..start] + Repaired(w[start..] + more)
  {
    hide Repaired;
    assert (w + more)[start..] == w[start..] + more && (w + more)[..start] == w[..start];
  }

  lemma RepairedGoesOn(a: seq<Byte>, b: seq<Byte>)
    ensures Repaired(a + b) == MapConcat(RepairedChunk, Split(ChunkSize, a)) + Repaired(Rest(ChunkSize, a) + b)
  {
    hide *;
    ChunkSizeIsStable();
    RepairedIs(a + b);
    RepairedIs(Rest(ChunkSize, a) + b);
    RewrittenSplits(ChunkSize, RepairedChunk, ChunkHits, a, b);
  }

  lemma RepairedIs(s: seq<Byte>)
    ensures Repaired(s) == Rewritten(ChunkSize, RepairedChunk, s)
  {
  }

  /** A chunk that is still open: stepping over it leaves its bytes alone, repairing it does not. */
  lemma OpenChunk(open: seq<Byte>, more: seq<Byte>)
    requires |open| > 6 && !Complete(ChunkSize, open)
    ensures var size, whole := 6 + Rd32(open, 2), open + more;
            && size > |open|
            && (Complete(ChunkSize, whole) <==> size <= |whole|)
            && if size <= |whole|
               then ChunkSize(whole) == size
                 && Repaired(whole) == RepairedChunk(whole[..size]) + Repaired(whole[size..])
                 && open + SpanResult(more, size - |open|) == whole[..size] + Repaired(whole[size..])
               else open + SpanResult(more, size - |open|) == Repaired(whole)
  {
    hide RepairedChunk;
    var size, whole := 6 + Rd32(open, 2), open + more;
    assert Rd32(whole, 2) == Rd32(open, 2);
    if size <= |whole| {
      RewrittenStep(ChunkSize, RepairedChunk, ChunkHits, whole);
      var k := size - |open|;
      assert whole[size..] == more[k..] && whole[..size] == open + more[..k];
      Regroup(open, more[..k], Repaired(more[k..]));
    } else {
      assert Split(ChunkSize, whole) == [];
      assert [] + whole == whole;
    }
  }

  /** What follows the framed part of a window is the same before and after the repair. */
  lemma OpenHead(w: seq<Byte>, start: nat)
    requires start <= |w|
    ensures SpanResult(w, start)[..SpanEnd(w, start)] + Rest(ChunkSize, w[start..]) == SpanResult(w, start)
    ensures SpanResult(w, start)[SpanEnd(w, start)..] == Rest(ChunkSize, w[start..])
    ensures SpanEnd(w, start) + |Rest(ChunkSize, w[start..])| == |w|
    ensures !Complete(ChunkSize, Rest(ChunkSize, w[start..]))
  {
    hide Repaired;
    SpanParts(w, start);
    RestIsIncomplete(ChunkSize, w[start..]);
    assert SpanResult(w, start)[..SpanEnd(w, start)] + SpanResult(w, start)[SpanEnd(w, start)..] == SpanResult(w, start);
  }

  lemma Rd32After(a: seq<Byte>, b: seq<Byte>, at: nat)
    requires at + 4 <= |b|
    ensures Rd32(a + b, |a| + at) == Rd32(b, at)
  {
  }

  /** The window an advance works on. */
  function Loaded(k: Walk, rest: seq<Byte>, limit: nat): seq<Byte> {
    k.carry + rest[..Got(k, rest, limit)]
  }

  lemma LoadedThenMore(k: Walk, rest: seq<Byte>, limit: nat)
    requires Sound(k) && limit > CARRY
    ensures var w, more := Loaded(k, rest, limit), rest[Got(k, rest, limit)..];
            && k.carry + rest == w + more
            && (Final(k, rest, limit) ==> more == [])
            && (!Final(k, rest, limit) ==> |w| == limit && |more| < |rest|)
  {
    var got := Got(k, rest, limit);
    assert rest == rest[..got] + rest[got..];
    Regroup(k.carry, rest[..got], rest[got..]);
  }

  /** The parts of a window in which a chunk is stepped over: `p` is published, the whole-image
      repair would have made `head + RepairedChunk(c) + tail` of what was due. */
  ghost predicate Straddles(due: seq<Byte>, p: seq<Byte>, due2: seq<Byte>, c: seq<Byte>, head: seq<Byte>, t: nat, tail: seq<Byte>) {
    && CARRY < t < |c| && due == head + (RepairedChunk(c) + tail)
    && p == head + c[..t] && due2 == c[t..] + tail
  }

  /** An advance that still steps over a chunk. */
  lemma AdvanceSkips(k: Walk, rest: seq<Byte>, limit: nat)
    requires Sound(k) && k.framed && limit > CARRY && k.skip >= |Loaded(k, rest, limit)|
    requires k.skip != 0
    ensures var (p, k2, rest2) := Advance(k, rest, limit);
            && Sound(k2) && k2.framed && SteppedOver(k, rest, limit) == []
            && p == rest[..Got(k, rest, limit)]
            && p + Due(k2, rest2) == Due(k, rest)
  {
    hide SpanResult, SpanEnd, Complete, Rest;
    LoadedThenMore(k, rest, limit);
    var w, rest2 := Loaded(k, rest, limit), rest[Got(k, rest, limit)..];
    assert [] + rest2 == rest2 && [] + rest == rest && [] + rest[..Got(k, rest, limit)] == w;
    SpanShift(w, rest2, k.skip);
    if k.skip == |w| {
      SpanFromZero(rest2);
    }
  }

  /** The last window of a tape holds nothing back. */
  lemma AdvanceEnds(k: Walk, rest: seq<Byte>, limit: nat)
    requires Sound(k) && k.framed && limit > CARRY && (k.skip == 0 || k.skip < |Loaded(k, rest, limit)|)
    requires Final(k, rest, limit)
    ensures var (p, k2, rest2) := Advance(k, rest, limit);
            && Sound(k2) && k2.framed && SteppedOver(k, rest, limit) == []
            && p + Due(k2, rest2) == Due(k, rest)
  {
    hide SpanResult, SpanEnd, Complete, Rest;
    LoadedThenMore(k, rest, limit);
    var (p, k2, rest2) := Advance(k, rest, limit);
    var w := Loaded(k, rest, limit);
    assert w + [] == w;
    assert Due(k2, rest2) == [];
    assert p + [] == p;
  }

  /** A window whose unframed remainder fits in the carry. */
  lemma AdvanceCarries(k: Walk, rest: seq<Byte>, limit: nat)
    requires Sound(k) && k.framed && limit > CARRY && (k.skip == 0 || k.skip < |Loaded(k, rest, limit)|)
    requires !Final(k, rest, limit) && StartOf(k) <= |Loaded(k, rest, limit)|
    requires |Rest(ChunkSize, Loaded(k, rest, limit)[StartOf(k)..])| <= CARRY
    ensures var (p, k2, rest2) := Advance(k, rest, limit);
            && Sound(k2) && k2.framed && SteppedOver(k, rest, limit) == []
            && p + Due(k2, rest2) == Due(k, rest)
  {
    hide SpanResult, SpanEnd, Complete, Rest, Repaired;
    LoadedThenMore(k, rest, limit);
    var (p, k2, rest2) := Advance(k, rest, limit);
    var w, start := Loaded(k, rest, limit), StartOf(k);
    var open := Rest(ChunkSize, w[start..]);
    OpenHead(w, start);
    SpanGoesOn(w, rest2, start);
    SpanFromZero(open + rest2);
    assert k2.carry == open;
    if open == [] {
      assert p == SpanResult(w, start)[..SpanEnd(w, start)];
    }
  }

  /** What such a window publishes and remembers. */
  lemma StepsOut(k: Walk, rest: seq<Byte>, limit: nat)
    requires Sound(k) && k.framed && limit > CARRY && (k.skip == 0 || k.skip < |Loaded(k, rest, limit)|)
    requires !Final(k, rest, limit) && StartOf(k) <= |Loaded(k, rest, limit)|
    requires |Rest(ChunkSize, Loaded(k, rest, limit)[StartOf(k)..])| > CARRY
    ensures var (p, k2, rest2) := Advance(k, rest, limit);
            var w, start := Loaded(k, rest, limit), StartOf(k);
            var open := Rest(ChunkSize, w[start..]);
            && p == SpanResult(w, start)[..SpanEnd(w, start)] + open && rest2 == rest[Got(k, rest, limit)..]
            && !Complete(ChunkSize, open) && 6 + Rd32(open, 2) > |open|
            && k2 == Walk([], 6 + Rd32(open, 2) - |open|, true, false)
  {
    hide SpanResult, SpanEnd, Complete, Rest, Repaired, RepairedChunk;
    var w, start := Loaded(k, rest, limit), StartOf(k);
    var open := Rest(ChunkSize, w[start..]);
    OpenHead(w, start);
    OpenChunk(open, []);
    Rd32After(SpanResult(w, start)[..SpanEnd(w, start)], open, 2);
  }

  /** A window whose unframed remainder does not fit: its head goes out as it is. */
  lemma AdvanceSteps(k: Walk, rest: seq<Byte>, limit: nat) returns (head: seq<Byte>, tail: seq<Byte>)
    requires Sound(k) && k.framed && limit > CARRY && (k.skip == 0 || k.skip < |Loaded(k, rest, limit)|)
    requires !Final(k, rest, limit) && StartOf(k) <= |Loaded(k, rest, limit)|
    requires |Rest(ChunkSize, Loaded(k, rest, limit)[StartOf(k)..])| > CARRY
    ensures var (p, k2, rest2) := Advance(k, rest, limit);
            && Sound(k2) && k2.framed && Stepped(k, rest, limit, p, k2, rest2, head, tail)
  {
    hide SpanResult, SpanEnd, Complete, Rest, Repaired, RepairedChunk, Advance, ChunkSize, Straddles;
    StepsOut(k, rest, limit);
    LoadedThenMore(k, rest, limit);
    var (p, k2, rest2) := Advance(k, rest, limit);
    var w, start := Loaded(k, rest, limit), StartOf(k);
    var open := Rest(ChunkSize, w[start..]);
    head, tail := SpanResult(w, start)[..SpanEnd(w, start)], [];
    SpanGoesOn(w, rest2, start);
    OpenChunk(open, rest2);
    assert [] + rest2 == rest2;
    if Complete(ChunkSize, open + rest2) {
      var whole, size := open + rest2, 6 + Rd32(open, 2);
      tail := Repaired(whole[size..]);
      StraddlesAre(Due(k, rest), Due(k2, rest2), open, rest2, size, head, tail);
    } else {
      Regroup(head, open, Due(k2, rest2));
    }
  }

  lemma StraddlesAre(due: seq<Byte>, due2: seq<Byte>, open: seq<Byte>, more: seq<Byte>, size: nat, head: seq<Byte>, tail: seq<Byte>)
    requires CARRY < |open| < size <= |open + more|
    requires due == head + (RepairedChunk((open + more)[..size]) + tail)
    requires open + due2 == (open + more)[..size] + tail
    ensures Straddles(due, head + open, due2, (open + more)[..size], head, |open|, tail)
  {
    hide RepairedChunk;
    var c := (open + more)[..size];
    assert c[..|open|] == open;
    assert c == open + c[|open|..];
    Cancel(open, c[|open|..], tail, due2);
  }

  /** What the window after an open chunk leaves: the chunk stepped over, or nothing amiss. */
  ghost predicate Stepped(k: Walk, rest: seq<Byte>, limit: nat, p: seq<Byte>, k2: Walk, rest2: seq<Byte>,
                          head: seq<Byte>, tail: seq<Byte>) {
    var cs := SteppedOver(k, rest, limit);
    if cs == [] then p + Due(k2, rest2) == Due(k, rest)
    else
      && |cs| == 1 && k2.skip <= |rest2| && k2.skip < |cs[0]|
      && Straddles(Due(k, rest), p, Due(k2, rest2), cs[0], head, |cs[0]| - k2.skip, tail)
  }

  lemma Cancel(a: seq<Byte>, b: seq<Byte>, c: seq<Byte>, d: seq<Byte>)
    requires a + d == (a + b) + c
    ensures d == b + c
  {
    assert (a + d)[|a|..] == d;
    assert ((a + b) + c)[|a|..] == b + c;
  }

  /** One advance, whichever way it goes. */
  lemma AdvanceAny(k: Walk, rest: seq<Byte>, limit: nat) returns (head: seq<Byte>, tail: seq<Byte>)
    requires Sound(k) && k.framed && limit > CARRY
    ensures var (p, k2, rest2) := Advance(k, rest, limit);
            && Sound(k2) && k2.framed && Stepped(k, rest, limit, p, k2, rest2, head, tail)
  {
    hide Advance, SteppedOver, Due, Straddles, Rest;
    LoadedThenMore(k, rest, limit);
    head, tail := [], [];
    if k.skip != 0 && k.skip >= |Loaded(k, rest, limit)| {
      AdvanceSkips(k, rest, limit);
    } else if Final(k, rest, limit) {
      AdvanceEnds(k, rest, limit);
    } else if |Rest(ChunkSize, Loaded(k, rest, limit)[StartOf(k)..])| <= CARRY {
      AdvanceCarries(k, rest, limit);
    } else {
      head, tail := AdvanceSteps(k, rest, limit);
    }
  }

  // ----- a whole tape

  /** What a run of advances published, where it stands, and the chunks it stepped over. */
  datatype Run = Run(published: seq<Byte>, walk: Walk, rest: seq<Byte>, stepped: seq<seq<Byte>>)

  function Drive(k: Walk, rest: seq<Byte>, limits: seq<nat>): Run
    decreases |limits|
  {
    if limits == [] then Run([], k, rest, [])
    else
      var (p, k2, rest2) := Advance(k, rest, limits[0]);
      var later := Drive(k2, rest2, limits[1..]);
      later.(published := p + later.published, stepped := SteppedOver(k, rest, limits[0]) + later.stepped)
  }

  /** All of the tape: what was published, then what the whole-image repair still owes. */
  function Outcome(run: Run): seq<Byte> {
    run.published + Due(run.walk, run.rest)
  }

  predicate Roomy(limits: seq<nat>) {
    forall i | 0 <= i < |limits| :: limits[i] > CARRY
  }

  lemma DriveStep(k: Walk, rest: seq<Byte>, limits: seq<nat>)
    requires limits != []
    ensures var (p, k2, rest2) := Advance(k, rest, limits[0]);
            && Outcome(Drive(k, rest, limits)) == p + Outcome(Drive(k2, rest2, limits[1..]))
            && Drive(k, rest, limits).stepped == SteppedOver(k, rest, limits[0]) + Drive(k2, rest2, limits[1..]).stepped
  {
    hide Advance, Due, SteppedOver;
    var (p, k2, rest2) := Advance(k, rest, limits[0]);
    var later := Drive(k2, rest2, limits[1..]);
    Regroup(p, later.published, Due(later.walk, later.rest));
  }

  /** Bytes to be stepped over go out as they came. */
  lemma AdvanceIsRaw(k: Walk, rest: seq<Byte>, limit: nat)
    requires Sound(k) && k.framed && limit > CARRY && k.skip <= |rest|
    ensures var (p, k2, rest2) := Advance(k, rest, limit);
            if k.skip <= |p| then p[..k.skip] == rest[..k.skip]
            else p == rest[..|p|] && rest2 == rest[|p|..] && k2.skip == k.skip - |p|
  {
    hide Repaired, Complete, Rest, Due;
    LoadedThenMore(k, rest, limit);
    var w, got := Loaded(k, rest, limit), Got(k, rest, limit);
    if k.skip != 0 {
      assert w == rest[..got];
      if k.skip < |w| {
        assert SpanResult(w, k.skip)[..k.skip] == w[..k.skip] == rest[..k.skip];
        var (p, k2, rest2) := Advance(k, rest, limit);
        SpanEndPast(w, k.skip);
        assert p[..k.skip] == w[..k.skip];
      }
    }
  }

  lemma SpanEndPast(w: seq<Byte>, start: nat)
    requires start <= |w|
    ensures start <= SpanEnd(w, start)
  {
  }

  lemma {:induction false} DriveIsRaw(k: Walk, rest: seq<Byte>, limits: seq<nat>)
    requires Sound(k) && k.framed && Roomy(limits)
    ensures |Outcome(Drive(k, rest, limits))| == |k.carry| + |rest|
    ensures k.skip <= |rest| ==> Outcome(Drive(k, rest, limits))[..k.skip] == rest[..k.skip]
    decreases |limits|
  {
    hide Advance, SteppedOver, Due, RepairedChunk;
    if limits == [] {
      DueIsRaw(k, rest);
      assert [] + Due(k, rest) == Due(k, rest);
    } else {
      var (p, k2, rest2) := Advance(k, rest, limits[0]);
      var head, tail := AdvanceAny(k, rest, limits[0]);
      var later := Outcome(Drive(k2, rest2, limits[1..]));
      DriveStep(k, rest, limits);
      DriveIsRaw(k2, rest2, limits[1..]);
      if k.skip <= |rest| {
        AdvanceIsRaw(k, rest, limits[0]);
        RawJoin(p, later, rest, k.skip);
      }
    }
  }

  lemma RawJoin(p: seq<Byte>, later: seq<Byte>, rest: seq<Byte>, skip: nat)
    requires skip <= |rest| && |p| + |later| >= skip
    requires if skip <= |p| then p[..skip] == rest[..skip]
             else p == rest[..|p|] && later[..skip - |p|] == rest[|p|..][..skip - |p|]
    ensures (p + later)[..skip] == rest[..skip]
  {
    if skip > |p| {
      assert (p + later)[..skip] == p + later[..skip - |p|];
      assert rest[..skip] == rest[..|p|] + rest[|p|..][..skip - |p|];
    } else {
      assert (p + later)[..skip] == p[..skip];
    }
  }

  lemma DueIsRaw(k: Walk, rest: seq<Byte>)
    requires Sound(k) && k.framed
    ensures |Due(k, rest)| == |k.carry| + |rest|
    ensures k.skip <= |rest| ==> Due(k, rest)[..k.skip] == rest[..k.skip]
  {
    hide Repaired;
    if k.skip != 0 {
      assert [] + rest == rest;
    }
  }

  /** Whether a chunk is one the repair leaves alone. */
  predicate Untouched(c: seq<Byte>) {
    RepairedChunk(c) == c
  }

  predicate AllUntouched(cs: seq<seq<Byte>>) {
    forall c | c in cs :: Untouched(c)
  }

  /** One window more in front of an outcome. */
  lemma OutcomeStep(due: seq<Byte>, p: seq<Byte>, due2: seq<Byte>, later: seq<Byte>, c: seq<Byte>, head: seq<Byte>, t: nat, tail: seq<Byte>)
    requires Straddles(due, p, due2, c, head, t, tail)
    requires |later| >= |c| - t && later[..|c| - t] == due2[..|c| - t]
    ensures p + later == due <==> later == due2 && Untouched(c)
  {
    hide RepairedChunk;
    var fixed, x := RepairedChunk(c), later[|c| - t..];
    assert due2[..|c| - t] == c[t..] && later == c[t..] + x;
    Regroup4(head, c[..t], c[t..], x);
    Regroup(c[..t], c[t..], x);
    assert c == c[..t] + c[t..];
    Regroup(head, c[..t], later);
    assert p + later == head + (c + x);
    CancelIff(head, c + x, fixed + tail);
    EqualParts(c, x, fixed, tail);
    CancelIff(c[t..], x, tail);
  }

  lemma EqualParts(a: seq<Byte>, b: seq<Byte>, c: seq<Byte>, d: seq<Byte>)
    requires |a| == |c|
    ensures a + b == c + d <==> a == c && b == d
  {
    assert (a + b)[..|a|] == a && (a + b)[|a|..] == b;
    assert (c + d)[..|a|] == c && (c + d)[|a|..] == d;
  }

  /** The bounded carry, exactly: from any state the caller can be in and for any window sizes,
      the published bytes are those of the whole-image repair if and only if none of the chunks
      it stepped over is one that repair would have changed. */
  lemma {:induction false} DriveIsWholeIff(k: Walk, rest: seq<Byte>, limits: seq<nat>)
    requires Sound(k) && k.framed && Roomy(limits)
    ensures Outcome(Drive(k, rest, limits)) == Due(k, rest) <==> AllUntouched(Drive(k, rest, limits).stepped)
    decreases |limits|
  {
    hide Advance, SteppedOver, Due, Straddles, Untouched, Outcome;
    if limits == [] {
      DriveNothing(k, rest);
    } else {
      var (p, k2, rest2) := Advance(k, rest, limits[0]);
      var cs, later := SteppedOver(k, rest, limits[0]), Drive(k2, rest2, limits[1..]);
      var head, tail := AdvanceAny(k, rest, limits[0]);
      DriveStep(k, rest, limits);
      DriveIsWholeIff(k2, rest2, limits[1..]);
      if cs == [] {
        CancelIff(p, Outcome(later), Due(k2, rest2));
        assert cs + later.stepped == later.stepped;
      } else {
        DriveIsRaw(k2, rest2, limits[1..]);
        DueIsRaw(k2, rest2);
        OutcomeStep(Due(k, rest), p, Due(k2, rest2), Outcome(later), cs[0], head, |cs[0]| - k2.skip, tail);
        AllUntouchedJoin(cs[0], later.stepped);
        assert cs == [cs[0]];
      }
    }
  }

  lemma DriveNothing(k: Walk, rest: seq<Byte>)
    ensures Outcome(Drive(k, rest, [])) == Due(k, rest) && Drive(k, rest, []).stepped == []
  {
    hide Due;
    assert [] + Due(k, rest) == Due(k, rest);
  }

  lemma CancelIff(p: seq<Byte>, a: seq<Byte>, b: seq<Byte>)
    ensures p + a == p + b <==> a == b
  {
    assert (p + a)[|p|..] == a && (p + b)[|p|..] == b;
  }

  lemma AllUntouchedJoin(c: seq<Byte>, cs: seq<seq<Byte>>)
    ensures AllUntouched([c] + cs) <==> Untouched(c) && AllUntouched(cs)
  {
    hide Untouched;
    assert c in [c] + cs;
    assert forall x | x in cs :: x in [c] + cs;
  }

  // ----- which chunks can be stepped over

  /** The complete chunks that are still to come. */
  function Chunks(k: Walk, rest: seq<Byte>): seq<seq<Byte>> {
    var all := k.carry + rest;
    if |all| < StartOf(k) then [] else Split(ChunkSize, all[StartOf(k)..])
  }

  predicate Within(xs: seq<seq<Byte>>, ys: seq<seq<Byte>>) {
    forall c | c in xs :: c in ys
  }

  predicate AllLong(cs: seq<seq<Byte>>) {
    forall c | c in cs :: |c| > CARRY
  }

  lemma ChunksGoOn(w: seq<Byte>, more: seq<Byte>, start: nat)
    requires start <= |w|
    ensures Split(ChunkSize, (w + more)[start..])
         == Split(ChunkSize, w[start..]) + Split(ChunkSize, Rest(ChunkSize, w[start..]) + more)
  {
    hide Split, Rest;
    ChunkSizeIsStable();
    assert (w + more)[start..] == w[start..] + more;
    SplitAppend(ChunkSize, w[start..], more);
  }

  lemma ChunksSkip(w: seq<Byte>, more: seq<Byte>, skip: nat)
    requires |w| <= skip <= |w + more|
    ensures (w + more)[skip..] == more[skip - |w|..]
  {
  }

  lemma OpenChunks(open: seq<Byte>, more: seq<Byte>)
    requires |open| > 6 && !Complete(ChunkSize, open)
    ensures var skip := 6 + Rd32(open, 2) - |open|;
            && skip > 0
            && Split(ChunkSize, open + more)
            == if skip <= |more| then [(open + more)[..|open| + skip]] + Split(ChunkSize, more[skip..]) else []
  {
    hide *;
    OpenChunk(open, more);
    var size, whole := 6 + Rd32(open, 2), open + more;
    SplitIs(whole);
    if size <= |whole| {
      assert whole[size..] == more[size - |open|..];
    }
  }

  lemma SplitIs(s: seq<Byte>)
    ensures Split(ChunkSize, s)
         == if Complete(ChunkSize, s) then [s[..ChunkSize(s)]] + Split(ChunkSize, s[ChunkSize(s)..]) else []
  {
  }

  lemma EndHasNoChunks(k: Walk, rest: seq<Byte>, limit: nat)
    requires Sound(k) && k.framed && limit > CARRY && Final(k, rest, limit)
    ensures Chunks(Advance(k, rest, limit).1, Advance(k, rest, limit).2) == [] && SteppedOver(k, rest, limit) == []
  {
    hide SpanResult, SpanEnd;
    LoadedThenMore(k, rest, limit);
    assert Split(ChunkSize, []) == [];
  }

  lemma SkippingKeepsChunks(k: Walk, rest: seq<Byte>, limit: nat)
    requires Sound(k) && k.framed && limit > CARRY && k.skip != 0 && k.skip >= |Loaded(k, rest, limit)|
    ensures Chunks(Advance(k, rest, limit).1, Advance(k, rest, limit).2) == Chunks(k, rest)
    ensures SteppedOver(k, rest, limit) == []
  {
    hide Split, Rest, SpanResult, SpanEnd;
    LoadedThenMore(k, rest, limit);
    var w, more := Loaded(k, rest, limit), rest[Got(k, rest, limit)..];
    assert [] + more == more;
    if k.skip <= |w + more| {
      ChunksSkip(w, more, k.skip);
    }
  }

  lemma WalkingKeepsChunks(k: Walk, rest: seq<Byte>, limit: nat)
    requires Sound(k) && k.framed && limit > CARRY && (k.skip == 0 || k.skip < |Loaded(k, rest, limit)|)
    requires !Final(k, rest, limit) && StartOf(k) <= |Loaded(k, rest, limit)|
    requires |Rest(ChunkSize, Loaded(k, rest, limit)[StartOf(k)..])| > CARRY
    ensures Within(Chunks(Advance(k, rest, limit).1, Advance(k, rest, limit).2), Chunks(k, rest))
    ensures Within(SteppedOver(k, rest, limit), Chunks(k, rest)) && AllLong(SteppedOver(k, rest, limit))
  {
    hide Split, Rest, Complete, Advance, ChunkSize, SpanResult, SpanEnd;
    LoadedThenMore(k, rest, limit);
    var w, start, more := Loaded(k, rest, limit), StartOf(k), rest[Got(k, rest, limit)..];
    ChunksGoOn(w, more, start);
    StepsOut(k, rest, limit);
    var open := Rest(ChunkSize, w[start..]);
    OpenChunks(open, more);
    OpenChunk(open, more);
    assert [] + more == more;
  }

  lemma CarryingKeepsChunks(k: Walk, rest: seq<Byte>, limit: nat)
    requires Sound(k) && k.framed && limit > CARRY && (k.skip == 0 || k.skip < |Loaded(k, rest, limit)|)
    requires !Final(k, rest, limit) && StartOf(k) <= |Loaded(k, rest, limit)|
    requires |Rest(ChunkSize, Loaded(k, rest, limit)[StartOf(k)..])| <= CARRY
    ensures Within(Chunks(Advance(k, rest, limit).1, Advance(k, rest, limit).2), Chunks(k, rest))
    ensures SteppedOver(k, rest, limit) == []
  {
    hide Split, Rest, Complete, ChunkSize, SpanResult, SpanEnd;
    LoadedThenMore(k, rest, limit);
    var w, start, more := Loaded(k, rest, limit), StartOf(k), rest[Got(k, rest, limit)..];
    ChunksGoOn(w, more, start);
    OpenHead(w, start);
    var open := Rest(ChunkSize, w[start..]);
    assert (open + more)[0..] == open + more;
  }

  /** The chunks an advance leaves to come, and the one it steps over, were to come. */
  lemma AdvanceKeepsChunks(k: Walk, rest: seq<Byte>, limit: nat)
    requires Sound(k) && k.framed && limit > CARRY
    ensures var (p, k2, rest2) := Advance(k, rest, limit);
            && Within(Chunks(k2, rest2), Chunks(k, rest))
            && Within(SteppedOver(k, rest, limit), Chunks(k, rest)) && AllLong(SteppedOver(k, rest, limit))
  {
    hide Advance, Chunks, SteppedOver, Rest;
    LoadedThenMore(k, rest, limit);
    if k.skip != 0 && k.skip >= |Loaded(k, rest, limit)| {
      SkippingKeepsChunks(k, rest, limit);
    } else if Final(k, rest, limit) {
      EndHasNoChunks(k, rest, limit);
    } else if |Rest(ChunkSize, Loaded(k, rest, limit)[StartOf(k)..])| <= CARRY {
      CarryingKeepsChunks(k, rest, limit);
    } else {
      WalkingKeepsChunks(k, rest, limit);
    }
  }

  lemma {:induction false} SteppedAreLong(k: Walk, rest: seq<Byte>, limits: seq<nat>)
    requires Sound(k) && k.framed && Roomy(limits)
    ensures Within(Drive(k, rest, limits).stepped, Chunks(k, rest)) && AllLong(Drive(k, rest, limits).stepped)
    decreases |limits|
  {
    hide Advance, SteppedOver, Chunks;
    if limits != [] {
      var (p, k2, rest2) := Advance(k, rest, limits[0]);
      AdvanceKeepsChunks(k, rest, limits[0]);
      var head, tail := AdvanceAny(k, rest, limits[0]);
      SteppedAreLong(k2, rest2, limits[1..]);
    }
  }

  /** The chunks repair leaves alone are those without a token. */
  lemma UntouchedIffNoHits(c: seq<Byte>)
    ensures Untouched(c) <==> ChunkHits(c) == 0
  {
    if |c| >= 6 && Rd16(c, 0) == CASSETTE_DATA {
      var body := c[6..];
      assert (c[..6] + RepairedBody(body))[6..] == RepairedBody(body);
      assert c[..6] + body == c;
      BodyUntouched(body);
    }
  }

  lemma BodyUntouched(body: seq<Byte>)
    ensures RepairedBody(body) == body <==> |Tokens(PayloadBytes(body))| == 0
  {
    hide Payload, Tokens, Redirected, TapeCrc.Crc, TapeCrc.Stored;
    var found := Payload(body);
    if found.Some? {
      var p := found.value;
      var payload := PayloadBytes(body);
      ChangesIffTokens(payload);
      if Tokens(payload) != {} {
        assert RepairedBody(body)[p.at..p.at + p.length] == Redirected(payload);
      }
    } else {
      NothingBelowZero([]);
      TailHasNoToken([], 0);
    }
  }

  // ----- the tape comes to its end

  lemma {:induction false} DriveEnds(k: Walk, rest: seq<Byte>, limits: seq<nat>)
    requires Sound(k) && k.framed && Roomy(limits) && (|limits| > |rest| || k.carry + rest == [])
    ensures Outcome(Drive(k, rest, limits)) == Drive(k, rest, limits).published
    decreases |limits|
  {
    hide Advance, SteppedOver, Due;
    if limits == [] {
      DueIsRaw(k, rest);
      assert [] + Due(k, rest) == [];
    } else {
      var (p, k2, rest2) := Advance(k, rest, limits[0]);
      var head, tail := AdvanceAny(k, rest, limits[0]);
      AdvanceShrinks(k, rest, limits[0]);
      DriveEnds(k2, rest2, limits[1..]);
      DriveStep(k, rest, limits);
    }
  }

  /** The stream shrinks with every window but the last, which leaves nothing. */
  lemma AdvanceShrinks(k: Walk, rest: seq<Byte>, limit: nat)
    requires Sound(k) && k.framed && limit > CARRY
    ensures var (p, k2, rest2) := Advance(k, rest, limit);
            if Final(k, rest, limit) then k2.carry + rest2 == [] else |rest2| < |rest|
  {
    hide SpanResult, SpanEnd;
    LoadedThenMore(k, rest, limit);
  }

  /** A tape read to its end through windows of any size above the carry is the repaired image
      exactly when no chunk that was stepped over holds a token; so always, when every chunk
      longer than the carry holds none. */
  lemma TapeIsRepairedIff(image: seq<Byte>, limits: seq<nat>)
    requires Roomy(limits) && |limits| > |image|
    ensures var run := Drive(Begin(true), image, limits);
            && (run.published == RepairedImage(image) <==> forall c | c in run.stepped :: ChunkHits(c) == 0)
            && forall c | c in run.stepped :: |c| > CARRY && c in Chunks(Begin(true), image)
    ensures (forall c | c in Chunks(Begin(true), image) && |c| > CARRY :: ChunkHits(c) == 0)
            ==> Drive(Begin(true), image, limits).published == RepairedImage(image)
  {
    hide Drive, Due, Untouched, ChunkHits, Chunks, Outcome, RepairedImage;
    var k, run := Begin(true), Drive(Begin(true), image, limits);
    DriveEnds(k, image, limits);
    DriveIsWholeIff(k, image, limits);
    SteppedAreLong(k, image, limits);
    DueAtBegin(image);
    forall c
      ensures Untouched(c) <==> ChunkHits(c) == 0
    {
      UntouchedIffNoHits(c);
    }
  }

  lemma DueAtBegin(image: seq<Byte>)
    ensures Due(Begin(true), image) == RepairedImage(image)
  {
    hide SpanResult;
    assert [] + image == image;
  }

  /** A long block with a token whose head fills more than the carry at the end of the first
      window is published unrepaired, whatever the later windows are. */
  lemma LongBlockIsMissed(header: seq<Byte>, before: seq<Byte>, block: seq<Byte>, limits: seq<nat>)
    requires |header| == HEADER && Rest(ChunkSize, before) == []
    requires ChunkSize(block) == |block| && ChunkHits(block) > 0
    requires Roomy(limits) && |limits| > |header + before + block|
    requires |header + before| + CARRY < limits[0] < |header + before + block|
    ensures Drive(Begin(true), header + before + block, limits).published != RepairedImage(header + before + block)
  {
    hide ChunkHits, RepairedImage, Advance, Rest, ChunkSize;
    var image := header + before + block;
    FirstStepsOver(header, before, block, limits[0]);
    assert block in SteppedOver(Begin(true), image, limits[0]);
    DriveStep(Begin(true), image, limits);
    assert block in Drive(Begin(true), image, limits).stepped;
    TapeIsRepairedIff(image, limits);
  }

  lemma FirstStepsOver(header: seq<Byte>, before: seq<Byte>, block: seq<Byte>, limit: nat)
    requires |header| == HEADER && Rest(ChunkSize, before) == [] && ChunkSize(block) == |block|
    requires |header + before| + CARRY < limit < |header + before + block|
    ensures SteppedOver(Begin(true), header + before + block, limit) == [block]
  {
    hide Rest, ChunkSize;
    var image, t := header + before + block, limit - |header + before|;
    var w := [] + image[..limit];
    assert w[HEADER..] == before + block[..t];
    OpenPart(block, t);
    ChunkSizeIsStable();
    SplitAppend(ChunkSize, before, block[..t]);
    assert [] + block[..t] == block[..t];
    RestOfOpen(block[..t]);
    assert block[..t] + image[limit..] == block;
    assert block[..|block|] == block;
  }

  lemma OpenPart(block: seq<Byte>, t: nat)
    requires ChunkSize(block) == |block| && 6 < t < |block|
    ensures !Complete(ChunkSize, block[..t])
  {
    assert Rd32(block[..t], 2) == Rd32(block, 2);
  }

  lemma RestOfOpen(s: seq<Byte>)
    requires !Complete(ChunkSize, s)
    ensures Rest(ChunkSize, s) == s
  {
  }

  // ----- one such tape

  function Zeros(n: nat): (r: seq<Byte>)
    ensures |r| == n && forall i | 0 <= i < n :: r[i] == 0
  {
    seq(n, _ => 0)
  }

  /** A payload of 1200 bytes that begins with `?&212=`. */
  function LongPayload(): (r: seq<Byte>)
    ensures |r| == 1200
  {
    [QUERY, AMPERSAND, DIGIT2, DIGIT1, DIGIT2, '=' as int] + Zeros(1194)
  }

  /** A block "A" with that payload. */
  function LongBody(): (r: seq<Byte>)
    ensures |r| == 1224
  {
    [STAR, 65, 0, 0, 0, 0, 0, 0, 0, 0, 0, 0, 0, 0xB0, 0x04, 0, 0, 0, 0, 0, 0, 0] + LongPayload() + [0, 0]
  }

  function LongBlock(): (c: seq<Byte>)
    ensures |c| == 1230
  {
    [0x00, 0x01, 0xC8, 0x04, 0, 0] + LongBody()
  }

  lemma LongPayloadHits()
    ensures 1 in Tokens(LongPayload())
  {
    assert Redirects(LongPayload(), 1);
  }

  lemma LongBodyHits()
    ensures PayloadBytes(LongBody()) == LongPayload()
  {
    hide LongPayload;
    var body := LongBody();
    assert UefRepair.NameEnd(body, 2) == 2;
    assert UefRepair.NameEnd(body, 1) == 2;
    assert Rd16(body, 13) == 1200;
    assert Payload(body) == Some(Extent(22, 1200));
    assert body[22..1222] == LongPayload();
  }

  lemma LongBlockHits()
    ensures ChunkSize(LongBlock()) == |LongBlock()| && ChunkHits(LongBlock()) > 0
  {
    hide LongBody, LongPayload, Tokens, PayloadBytes;
    LongBodyHits();
    LongPayloadHits();
    var c := LongBlock();
    assert c[6..] == LongBody();
    assert Rd16(c, 0) == CASSETTE_DATA && Rd32(c, 2) == 1224;
    assert |Tokens(LongPayload())| > 0;
  }

  /** A tape with that one block, read through windows of 1100 bytes, goes out unrepaired. */
  lemma OneTapeIsMissed()
    ensures var image := Zeros(12) + [] + LongBlock();
            Drive(Begin(true), image, seq(1243, _ => 1100)).published != RepairedImage(image)
  {
    hide Drive, RepairedImage, ChunkHits, ChunkSize, LongBlock;
    LongBlockHits();
    assert Rest(ChunkSize, []) == [];
    LongBlockIsMissed(Zeros(12), [], LongBlock(), seq(1243, _ => 1100));
  }

  /** With the repair switched off, the tape goes out as it is. */
  lemma {:induction false} DisabledIsIdentity(k: Walk, rest: seq<Byte>, limits: seq<nat>)
    requires !k.framed && k.carry == []
    ensures var run := Drive(k, rest, limits); run.published + run.rest == rest && run.walk.carry == []
    decreases |limits|
  {
    hide SpanResult, SpanEnd;
    if limits != [] {
      var (p, k2, rest2) := Advance(k, rest, limits[0]);
      assert p == rest[..|p|] && rest2 == rest[|p|..];
      DisabledIsIdentity(k2, rest2, limits[1..]);
      Regroup(p, Drive(k2, rest2, limits[1..]).published, Drive(k2, rest2, limits[1..]).rest);
    }
  }

  // ----- the object

  class PiTape {
    const window: array<Byte>
    var stream: seq<Byte>
    var walk: Walk
    var windowLength: nat
    var windowFinal: bool

    constructor (capacity: nat, image: seq<Byte>, enabled: bool)
      ensures walk == Begin(enabled) && stream == image && window.Length == capacity && fresh(window)
    {
      window := new Byte[capacity];
      stream, walk, windowLength, windowFinal := image, Begin(enabled), 0, false;
    }

    /** repair_window; the walk holds no carry while it runs. */
    method RepairIn(count: nat, first: bool, final: bool) returns (published: nat)
      requires count <= window.Length && walk.carry == [] && (first <==> walk.first) && (walk.skip != 0 ==> !walk.first)
      modifies this`walk, window
      ensures published <= count
      ensures (window[..published], walk) == RepairWindow(old(walk), old(window[..count]), final)
    {
      hide SpanResult, SpanEnd, AfterSpan;
      var start := if first then HEADER else 0;
      walk := walk.(first := false);
      if !walk.framed {
        return count;
      }
      if walk.skip != 0 {
        if walk.skip >= count {
          walk := walk.(skip := walk.skip - count);
          return count;
        }
        start := walk.skip;
        walk := walk.(skip := 0);
      }
      var framed, hits := Span(window, count, start);
      published := HoldBack(count, framed, final);
    }

    /** The end of repair_window: what the walk over the chunks leaves open is carried, stepped
        over, or given up. */
    method HoldBack(count: nat, framed: nat, final: bool) returns (published: nat)
      requires framed <= count <= window.Length
      modifies this`walk
      ensures published <= count
      ensures (window[..published], walk) == AfterSpan(old(walk), window[..count], framed, final)
    {
      if final || framed >= count {
        return count;
      }
      var tail := count - framed;
      if tail <= CARRY {
        walk := walk.(carry := window[framed..count]);
        assert window[..count][framed..] == window[framed..count];
        assert window[..count][..framed] == window[..framed];
        return framed;
      }
      ghost var repaired := window[..count];
      var chunk := window[framed + 2] as int + 0x100 * window[framed + 3] as int
                 + 0x1_0000 * window[framed + 4] as int + 0x100_0000 * window[framed + 5] as int;
      assert chunk == Rd32(repaired, framed + 2);
      var past := framed + 6 + chunk;
      if past > count {
        walk := walk.(skip := past - count);
        return count;
      }
      walk := walk.(framed := false);
      return count;
    }

    /** window_advance: what the host is given next is one step of the run above. */
    method WindowAdvance(limit: nat)
      requires Sound(walk) && CARRY < limit <= window.Length
      modifies this, window
      ensures windowLength <= limit
      ensures (window[..windowLength], walk, stream) == Advance(old(walk), old(stream), limit)
      ensures windowFinal == Final(old(walk), old(stream), limit)
    {
      hide RepairWindow;
      var held := |walk.carry|;
      ghost var k := walk;
      var got := if |stream| < limit - held then |stream| else limit - held;
      var loaded := walk.carry + stream[..got];
      forall i | 0 <= i < held + got {
        window[i] := loaded[i];
      }
      assert window[..held + got] == loaded;
      walk := walk.(carry := []);
      windowFinal := got < limit - held;
      windowLength := RepairIn(held + got, walk.first, windowFinal);
      RepairIgnoresCarry(k, loaded, windowFinal);
      if walk.carry != [] {
        windowFinal := false;
      }
      stream := stream[got..];
    }
  }

  /** The carry a window begins with is already part of it, and a final window leaves none. */
  lemma RepairIgnoresCarry(k: Walk, w: seq<Byte>, final: bool)
    ensures RepairWindow(k.(carry := []), w, final) == RepairWindow(k, w, final)
    ensures final ==> RepairWindow(k, w, final).1.carry == []
  {
    hide SpanResult, SpanEnd;
  }
}
