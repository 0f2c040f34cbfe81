/** Streams cut into frames. The framing rule is a function that gives the length of the
    complete frame at the head of a stream, or zero when there is none. */
module Framing {
  import opened Bytes

  type Rule = seq<Byte> -> nat

  predicate Complete(rule: Rule, s: seq<Byte>) {
    0 < rule(s) <= |s|
  }

  /** Bytes that arrive later do not change a frame that is already complete. */
  ghost predicate Stable(rule: Rule) {
    forall a, b :: Complete(rule, a) ==> rule(a + b) == rule(a)
  }

  /** The complete frames, in stream order. */
  function Split(rule: Rule, s: seq<Byte>): seq<seq<Byte>>
    decreases |s|
  {
    if Complete(rule, s) then [s[..rule(s)]] + Split(rule, s[rule(s)..]) else []
  }

  /** What follows the last complete frame. */
  function Rest(rule: Rule, s: seq<Byte>): (r: seq<Byte>)
    ensures |r| <= |s|
    decreases |s|
  {
    if Complete(rule, s) then Rest(rule, s[rule(s)..]) else s
  }

  lemma {:induction false} RestIsIncomplete(rule: Rule, s: seq<Byte>)
    ensures !Complete(rule, Rest(rule, s))
    decreases |s|
  {
    if Complete(rule, s) {
      RestIsIncomplete(rule, s[rule(s)..]);
    }
  }

  /** Framing a longer stream first frames the part that came first. */
  lemma {:induction false} SplitAppend(rule: Rule, a: seq<Byte>, b: seq<Byte>)
    requires Stable(rule)
    ensures Split(rule, a + b) == Split(rule, a) + Split(rule, Rest(rule, a) + b)
    ensures Rest(rule, a + b) == Rest(rule, Rest(rule, a) + b)
    decreases |a|
  {
    if Complete(rule, a) {
      var n := rule(a);
      assert rule(a + b) == n;
      assert (a + b)[..n] == a[..n] && (a + b)[n..] == a[n..] + b;
      SplitAppend(rule, a[n..], b);
    }
  }

  /** Framing loses nothing. */
  lemma {:induction false} SplitIsExact(rule: Rule, s: seq<Byte>)
    ensures Concat(Split(rule, s)) + Rest(rule, s) == s
    decreases |s|
  {
    if Complete(rule, s) {
      var n := rule(s);
      SplitIsExact(rule, s[n..]);
      assert Split(rule, s)[1..] == Split(rule, s[n..]);
      assert s == s[..n] + s[n..];
    }
  }

  // ----- rewriting and counting over the frames

  /** Apply f to every frame and join the results. */
  function MapConcat<T>(f: seq<Byte> -> seq<T>, cs: seq<seq<Byte>>): seq<T> {
    if cs == [] then [] else f(cs[0]) + MapConcat(f, cs[1..])
  }

  lemma {:induction false} MapConcatAppend<T>(f: seq<Byte> -> seq<T>, xs: seq<seq<Byte>>, ys: seq<seq<Byte>>)
    ensures MapConcat(f, xs + ys) == MapConcat(f, xs) + MapConcat(f, ys)
  {
    if xs == [] {
      assert xs + ys == ys;
    } else {
      assert (xs + ys)[1..] == xs[1..] + ys;
      MapConcatAppend(f, xs[1..], ys);
    }
  }

  lemma MapConcatParts<T>(f: seq<Byte> -> seq<T>, xs: seq<seq<Byte>>, ys: seq<seq<Byte>>, rest: seq<T>)
    ensures MapConcat(f, xs + ys) + rest == MapConcat(f, xs) + (MapConcat(f, ys) + rest)
  {
    MapConcatAppend(f, xs, ys);
  }

  /** The sum of h over every frame. */
  function Sum(h: seq<Byte> -> nat, cs: seq<seq<Byte>>): nat {
    if cs == [] then 0 else h(cs[0]) + Sum(h, cs[1..])
  }

  lemma {:induction false} SumAppend(h: seq<Byte> -> nat, xs: seq<seq<Byte>>, ys: seq<seq<Byte>>)
    ensures Sum(h, xs + ys) == Sum(h, xs) + Sum(h, ys)
  {
    if xs == [] {
      assert xs + ys == ys;
    } else {
      assert (xs + ys)[1..] == xs[1..] + ys;
      SumAppend(h, xs[1..], ys);
    }
  }

  /** A stream with f applied to every complete frame. */
  function Rewritten(rule: Rule, f: seq<Byte> -> seq<Byte>, s: seq<Byte>): seq<Byte> {
    MapConcat(f, Split(rule, s)) + Rest(rule, s)
  }

  function Counted(rule: Rule, h: seq<Byte> -> nat, s: seq<Byte>): nat {
    Sum(h, Split(rule, s))
  }

  lemma RewrittenStep(rule: Rule, f: seq<Byte> -> seq<Byte>, h: seq<Byte> -> nat, s: seq<Byte>)
    requires Complete(rule, s)
    ensures Rewritten(rule, f, s) == f(s[..rule(s)]) + Rewritten(rule, f, s[rule(s)..])
    ensures Counted(rule, h, s) == h(s[..rule(s)]) + Counted(rule, h, s[rule(s)..])
    ensures Rest(rule, s) == Rest(rule, s[rule(s)..])
  {
    assert Split(rule, s)[1..] == Split(rule, s[rule(s)..]);
  }

  lemma MapConcatStep<T>(rule: Rule, f: seq<Byte> -> seq<T>, h: seq<Byte> -> nat, s: seq<Byte>)
    requires Complete(rule, s)
    ensures MapConcat(f, Split(rule, s)) == f(s[..rule(s)]) + MapConcat(f, Split(rule, s[rule(s)..]))
    ensures Counted(rule, h, s) == h(s[..rule(s)]) + Counted(rule, h, s[rule(s)..])
    ensures Rest(rule, s) == Rest(rule, s[rule(s)..])
  {
    assert Split(rule, s)[1..] == Split(rule, s[rule(s)..]);
  }

  ghost predicate KeepsLength(f: seq<Byte> -> seq<Byte>) {
    forall c :: |f(c)| == |c|
  }

  lemma {:induction false} MapConcatLength(f: seq<Byte> -> seq<Byte>, cs: seq<seq<Byte>>)
    requires KeepsLength(f)
    ensures |MapConcat(f, cs)| == |Concat(cs)|
  {
    if cs != [] {
      MapConcatLength(f, cs[1..]);
    }
  }

  lemma RewrittenLength(rule: Rule, f: seq<Byte> -> seq<Byte>, s: seq<Byte>)
    requires KeepsLength(f)
    ensures |Rewritten(rule, f, s)| == |s|
  {
    MapConcatLength(f, Split(rule, s));
    SplitIsExact(rule, s);
  }

  // ----- windows

  /** Completing the frames of a prefix first, then going on with its remainder, is the same. */
  lemma RewrittenSplits(rule: Rule, f: seq<Byte> -> seq<Byte>, h: seq<Byte> -> nat, a: seq<Byte>, b: seq<Byte>)
    requires Stable(rule)
    ensures Rewritten(rule, f, a + b) == MapConcat(f, Split(rule, a)) + Rewritten(rule, f, Rest(rule, a) + b)
    ensures Counted(rule, h, a + b) == Counted(rule, h, a) + Counted(rule, h, Rest(rule, a) + b)
    ensures Rest(rule, a + b) == Rest(rule, Rest(rule, a) + b)
  {
    SplitAppend(rule, a, b);
    var r := Rest(rule, a) + b;
    MapConcatParts(f, Split(rule, a), Split(rule, r), Rest(rule, r));
    SumAppend(h, Split(rule, a), Split(rule, r));
  }

  datatype Fed = Fed(published: seq<Byte>, carry: seq<Byte>, hits: nat)

  /** A caller that never holds the whole stream: each window is rewritten behind the unframed
      remainder of the one before, the framed part is published, the rest is carried. */
  function Feed(rule: Rule, f: seq<Byte> -> seq<Byte>, h: seq<Byte> -> nat,
                windows: seq<seq<Byte>>, carry: seq<Byte>): Fed
    decreases |windows|
  {
    if windows == [] then Fed([], carry, 0)
    else
      var buffer := carry + windows[0];
      var rest := Feed(rule, f, h, windows[1..], Rest(rule, buffer));
      Fed(MapConcat(f, Split(rule, buffer)) + rest.published, rest.carry, Counted(rule, h, buffer) + rest.hits)
  }

  lemma Regroup<T>(a: seq<T>, b: seq<T>, c: seq<T>)
    ensures (a + b) + c == a + (b + c)
  {
  }

  /** However a stream of frames is cut into windows, it is rewritten to the same bytes. */
  lemma {:induction false} FeedIsWhole(
    rule: Rule, f: seq<Byte> -> seq<Byte>, h: seq<Byte> -> nat, windows: seq<seq<Byte>>, carry: seq<Byte>)
    requires Stable(rule) && !Complete(rule, carry)
    ensures var fed, whole := Feed(rule, f, h, windows, carry), carry + Concat(windows);
            && fed.published + fed.carry == Rewritten(rule, f, whole)
            && fed.hits == Counted(rule, h, whole)
            && fed.carry == Rest(rule, whole)
    decreases |windows|
  {
    if windows == [] {
      assert carry + Concat(windows) == carry;
      assert [] + carry == carry;
    } else {
      var buffer, more := carry + windows[0], Concat(windows[1..]);
      Regroup(carry, windows[0], more);
      RestIsIncomplete(rule, buffer);
      FeedIsWhole(rule, f, h, windows[1..], Rest(rule, buffer));
      RewrittenSplits(rule, f, h, buffer, more);
      var rest := Feed(rule, f, h, windows[1..], Rest(rule, buffer));
      Regroup(MapConcat(f, Split(rule, buffer)), rest.published, rest.carry);
    }
  }

  /** The same caller on a stream that begins with a header, all of it in the first window. */
  function FeedAfterHeader(rule: Rule, f: seq<Byte> -> seq<Byte>, h: seq<Byte> -> nat,
                           windows: seq<seq<Byte>>, header: nat): Fed
    requires windows != [] && |windows[0]| >= header
  {
    var body := windows[0][header..];
    var rest := Feed(rule, f, h, windows[1..], Rest(rule, body));
    Fed(windows[0][..header] + MapConcat(f, Split(rule, body)) + rest.published, rest.carry,
        Counted(rule, h, body) + rest.hits)
  }

  lemma FeedAfterHeaderIsWhole(
    rule: Rule, f: seq<Byte> -> seq<Byte>, h: seq<Byte> -> nat, windows: seq<seq<Byte>>, header: nat)
    requires Stable(rule) && windows != [] && |windows[0]| >= header
    ensures |Concat(windows)| >= header
    ensures var fed := FeedAfterHeader(rule, f, h, windows, header);
            var head, whole := Concat(windows)[..header], Concat(windows)[header..];
            && fed.published + fed.carry == head + Rewritten(rule, f, whole)
            && fed.hits == Counted(rule, h, whole)
            && fed.carry == Rest(rule, whole)
  {
    var head, body, more := windows[0][..header], windows[0][header..], Concat(windows[1..]);
    assert Concat(windows)[..header] == head && Concat(windows)[header..] == body + more;
    RestIsIncomplete(rule, body);
    FeedIsWhole(rule, f, h, windows[1..], Rest(rule, body));
    RewrittenSplits(rule, f, h, body, more);
    var framed, rest := MapConcat(f, Split(rule, body)), Feed(rule, f, h, windows[1..], Rest(rule, body));
    Regroup4(head, framed, rest.published, rest.carry);
  }

  lemma Regroup4<T>(a: seq<T>, b: seq<T>, c: seq<T>, d: seq<T>)
    ensures ((a + b) + c) + d == a + (b + (c + d))
  {
  }

  // ----- walking a buffer in place

  /** A walk over `was[start..length]` has reached `position`: the frames before it are
      rewritten in `now`, nothing else has changed, and the total still to come is known. */
  ghost predicate Walked(rule: Rule, f: seq<Byte> -> seq<Byte>, h: seq<Byte> -> nat, was: seq<Byte>, now: seq<Byte>,
                         start: nat, position: nat, length: nat, hits: nat)
  {
    && |now| == |was| && start <= position <= length <= |was|
    && now[..start] == was[..start] && now[position..] == was[position..]
    && now[start..position] + Rewritten(rule, f, was[position..length]) == Rewritten(rule, f, was[start..length])
    && hits + Counted(rule, h, was[position..length]) == Counted(rule, h, was[start..length])
    && Rest(rule, was[position..length]) == Rest(rule, was[start..length])
  }

  lemma WalkBegins(rule: Rule, f: seq<Byte> -> seq<Byte>, h: seq<Byte> -> nat, was: seq<Byte>, start: nat, length: nat)
    requires start <= length <= |was|
    ensures Walked(rule, f, h, was, was, start, start, length, 0)
  {
    var all := Rewritten(rule, f, was[start..length]);
    assert was[start..start] + all == all;
  }

  lemma WalkFrame(rule: Rule, f: seq<Byte> -> seq<Byte>, h: seq<Byte> -> nat, was: seq<Byte>, now: seq<Byte>,
                  start: nat, position: nat, length: nat, hits: nat)
    requires Walked(rule, f, h, was, now, start, position, length, hits)
    ensures |now| == |was| && start <= position <= length <= |was| && now[position..] == was[position..]
  {
  }

  /** One more frame. */
  lemma WalkStep(rule: Rule, f: seq<Byte> -> seq<Byte>, h: seq<Byte> -> nat, was: seq<Byte>, before: seq<Byte>,
                 now: seq<Byte>, start: nat, position: nat, next: nat, length: nat, hits: nat)
    requires Walked(rule, f, h, was, before, start, position, length, hits)
    requires |now| == |was| && position < next <= length && rule(was[position..length]) == next - position
    requires now[..position] == before[..position] && now[next..] == before[next..]
    requires now[position..next] == f(was[position..next])
    ensures Walked(rule, f, h, was, now, start, next, length, hits + h(was[position..next]))
  {
    var rest := was[position..length];
    assert rest[..next - position] == was[position..next] && rest[next - position..] == was[next..length];
    RewrittenStep(rule, f, h, rest);
    Regroup(before[start..position], now[position..next], Rewritten(rule, f, was[next..length]));
    Joined(was, before, now, start, position, next);
  }

  lemma Joined(was: seq<Byte>, before: seq<Byte>, now: seq<Byte>, start: nat, position: nat, next: nat)
    requires |was| == |before| == |now| && start <= position <= next <= |was|
    requires before[..start] == was[..start] && before[position..] == was[position..]
    requires now[..position] == before[..position] && now[next..] == before[next..]
    ensures now[..start] == was[..start] && now[next..] == was[next..]
    ensures now[start..next] == before[start..position] + now[position..next]
  {
    assert now[..start] == now[..position][..start];
    assert now[start..position] == now[..position][start..];
    assert before[start..position] == before[..position][start..];
    assert now[next..] == before[position..][next - position..];
  }

  lemma WalkEnds(rule: Rule, f: seq<Byte> -> seq<Byte>, h: seq<Byte> -> nat, was: seq<Byte>, now: seq<Byte>,
                 start: nat, position: nat, length: nat, hits: nat)
    requires Walked(rule, f, h, was, now, start, position, length, hits)
    requires !Complete(rule, was[position..length])
    ensures now[..length] == was[..start] + Rewritten(rule, f, was[start..length])
    ensures now[length..] == was[length..]
    ensures position == length - |Rest(rule, was[start..length])|
    ensures hits == Counted(rule, h, was[start..length])
  {
    var rest := was[position..length];
    assert Rewritten(rule, f, rest) == rest;
    Tail(was, now, start, position, length);
  }

  lemma Tail(was: seq<Byte>, now: seq<Byte>, start: nat, position: nat, length: nat)
    requires |was| == |now| && start <= position <= length <= |was|
    requires now[..start] == was[..start] && now[position..] == was[position..]
    ensures now[length..] == was[length..]
    ensures now[..length] == was[..start] + (now[start..position] + was[position..length])
  {
    assert now[position..length] == now[position..][..length - position];
    assert now[length..] == now[position..][length - position..];
  }

  // ----- rewriting keeps the frames

  /** A frame is complete by itself, without the bytes that follow it. */
  ghost predicate Local(rule: Rule) {
    forall s :: Complete(rule, s) ==> rule(s[..rule(s)]) == rule(s)
  }

  /** f turns a frame into a frame of the same length. */
  ghost predicate KeepsFrames(rule: Rule, f: seq<Byte> -> seq<Byte>) {
    forall c :: Complete(rule, c) && rule(c) == |c| ==> |f(c)| == |c| && rule(f(c)) == |c|
  }

  function Map<T, U>(f: T -> U, xs: seq<T>): (r: seq<U>)
    ensures |r| == |xs|
  {
    if xs == [] then [] else [f(xs[0])] + Map(f, xs[1..])
  }

  lemma FrameThenRest(rule: Rule, frame: seq<Byte>, tail: seq<Byte>)
    requires Stable(rule) && Complete(rule, frame) && rule(frame) == |frame|
    ensures Split(rule, frame + tail) == [frame] + Split(rule, tail)
    ensures Rest(rule, frame + tail) == Rest(rule, tail)
  {
    assert rule(frame + tail) == |frame|;
    assert (frame + tail)[..|frame|] == frame && (frame + tail)[|frame|..] == tail;
  }

  /** The first frame of a stream, rewritten, is a frame. */
  lemma FirstKept(rule: Rule, f: seq<Byte> -> seq<Byte>, s: seq<Byte>)
    requires Local(rule) && KeepsFrames(rule, f) && Complete(rule, s)
    ensures Complete(rule, f(s[..rule(s)])) && rule(f(s[..rule(s)])) == |f(s[..rule(s)])|
  {
    var c := s[..rule(s)];
    assert rule(c) == |c| && Complete(rule, c);
  }

  /** The frames of a rewritten stream are the rewritten frames. */
  lemma {:induction false} SplitRewritten(rule: Rule, f: seq<Byte> -> seq<Byte>, s: seq<Byte>)
    requires Stable(rule) && Local(rule) && KeepsFrames(rule, f)
    ensures Split(rule, Rewritten(rule, f, s)) == Map(f, Split(rule, s))
    ensures Rest(rule, Rewritten(rule, f, s)) == Rest(rule, s)
    decreases |s|
  {
    hide Stable, Local, KeepsFrames;
    if Complete(rule, s) {
      var n := rule(s);
      var c, tail := s[..n], Rewritten(rule, f, s[n..]);
      RewrittenStep(rule, f, (x: seq<Byte>) => 0, s);
      SplitRewritten(rule, f, s[n..]);
      FirstKept(rule, f, s);
      FrameThenRest(rule, f(c), tail);
      assert Split(rule, s) == [c] + Split(rule, s[n..]);
      assert Split(rule, s)[1..] == Split(rule, s[n..]);
    } else {
      assert Rewritten(rule, f, s) == s;
    }
  }

  /** Every frame of a split is a frame by itself. */
  lemma {:induction false} FramesAreWhole(rule: Rule, s: seq<Byte>)
    requires Local(rule)
    ensures forall c | c in Split(rule, s) :: Complete(rule, c) && rule(c) == |c|
    decreases |s|
  {
    if Complete(rule, s) {
      FramesAreWhole(rule, s[rule(s)..]);
    }
  }
}
