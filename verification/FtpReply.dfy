/** Reassembling FTP control replies (section 4.2 of RFC 959) from a byte stream that arrives in
    arbitrary pieces: a reply is a line "ddd text", or everything from a first line "ddd-text"
    to a line that begins with the same code and a space. */
module FtpReply {
  import opened Bytes
  import opened Framing

  const CR: Byte := 13
  const LF: Byte := 10
  const CAPACITY := 768
  const TEXT_MAX := 237

  /** A complete reply at the head of the buffer: its code, and where it ends. */
  datatype Found = Found(code: nat, end: nat)

  // ----- lines

  predicate EndsLine(b: seq<Byte>, i: int) {
    0 <= i && i + 1 < |b| && b[i] == CR && b[i + 1] == LF
  }

  /** The first CR LF at or after `from`. */
  function LineEnd(b: seq<Byte>, from: nat): (r: Option<nat>)
    ensures r.Some? ==> from <= r.value && r.value + 2 <= |b| && EndsLine(b, r.value)
    ensures r.Some? ==> forall i | from <= i < r.value :: !EndsLine(b, i)
    ensures r.None? ==> forall i | from <= i :: !EndsLine(b, i)
    decreases |b| - from
  {
    if from + 1 >= |b| then None else if EndsLine(b, from) then Some(from) else LineEnd(b, from + 1)
  }

  predicate IsDigit(c: Byte) { '0' as int <= c <= '9' as int }

  /** A line that begins with a reply code and at least one more character. */
  predicate HasCode(b: seq<Byte>, start: nat, end: nat)
    requires end <= |b|
  {
    && end >= start + 4
    && '1' as int <= b[start] <= '5' as int && IsDigit(b[start + 1]) && IsDigit(b[start + 2])
  }

  function Code(b: seq<Byte>, start: nat, end: nat): (code: nat)
    requires end <= |b| && HasCode(b, start, end)
    ensures 100 <= code <= 599
  {
    (b[start] - '0' as int) * 100 + (b[start + 1] - '0' as int) * 10 + (b[start + 2] - '0' as int)
  }

  // ----- replies

  /** The multi-line code in force after the line at start..end: only the first line sets it. */
  function Opened(b: seq<Byte>, start: nat, end: nat, multi: nat): nat
    requires end <= |b| && HasCode(b, start, end)
  {
    if start == 0 && b[start + 3] == '-' as int then Code(b, start, end) else multi
  }

  /** The line ends the reply: a code and a space, and the code that opened a multi-line reply. */
  predicate Closes(b: seq<Byte>, start: nat, end: nat, multi: nat)
    requires end <= |b| && HasCode(b, start, end)
  {
    b[start + 3] == ' ' as int && (multi == 0 || Code(b, start, end) == multi)
  }

  /** Line by line from `start`, with the multi-line code in force. */
  function FindReply(b: seq<Byte>, start: nat, multi: nat): (r: Option<Found>)
    ensures r.Some? ==> start < r.value.end <= |b|
    decreases |b| - start
  {
    match LineEnd(b, start)
    case None => None
    case Some(i) =>
      if HasCode(b, start, i) then
        var m := Opened(b, start, i, multi);
        if Closes(b, start, i, m) then Some(Found(Code(b, start, i), i + 2)) else FindReply(b, i + 2, m)
      else FindReply(b, i + 2, multi)
  }

  function NextReply(b: seq<Byte>): Option<Found> { FindReply(b, 0, 0) }

  // ----- the grammar, over the list of lines

  /** The complete lines from `start` on, without their CR LF. */
  function Lines(b: seq<Byte>, start: nat): seq<seq<Byte>>
    decreases |b| - start
  {
    match LineEnd(b, start)
    case None => []
    case Some(i) => [b[start..i]] + Lines(b, i + 2)
  }

  /** A line "ddd" and a separator, with a first digit from 1 to 5. */
  predicate Coded(line: seq<Byte>, separator: Byte) {
    && |line| >= 4 && '1' as int <= line[0] <= '5' as int && IsDigit(line[1]) && IsDigit(line[2])
    && line[3] == separator
  }

  function LineCode(line: seq<Byte>): nat
    requires |line| >= 4 && IsDigit(line[0]) && IsDigit(line[1]) && IsDigit(line[2])
  {
    (line[0] - '0' as int) * 100 + (line[1] - '0' as int) * 10 + (line[2] - '0' as int)
  }

  const HYPHEN: Byte := '-' as int
  const SPACE: Byte := ' ' as int

  /** Whether a line ends a reply that began with the line `first`: "ddd " and, if the first line
      was "ddd-", the same code. */
  predicate Ends(first: seq<Byte>, line: seq<Byte>) {
    Coded(line, SPACE) && (Coded(first, HYPHEN) ==> LineCode(line) == LineCode(first))
  }

  /** The bytes of the first n lines with their CR LF. */
  function Through(lines: seq<seq<Byte>>, n: nat): nat
    requires n <= |lines|
  {
    if n == 0 then 0 else Through(lines, n - 1) + |lines[n - 1]| + 2
  }

  lemma {:induction false} ThroughShifts(lines: seq<seq<Byte>>, n: nat)
    requires 0 < n <= |lines|
    ensures Through(lines, n) == |lines[0]| + 2 + Through(lines[1..], n - 1)
  {
    if n > 1 {
      ThroughShifts(lines, n - 1);
    }
  }

  lemma {:induction false} LinesStand(b: seq<Byte>, start: nat, j: nat)
    requires j < |Lines(b, start)|
    ensures var lines := Lines(b, start);
            var at := start + Through(lines, j);
            && at + |lines[j]| + 2 <= |b| && b[at..at + |lines[j]|] == lines[j]
            && EndsLine(b, at + |lines[j]|) && forall i | at <= i < at + |lines[j]| :: !EndsLine(b, i)
    decreases j
  {
    hide EndsLine;
    var lines, i := Lines(b, start), LineEnd(b, start).value;
    assert lines[1..] == Lines(b, i + 2);
    if j > 0 {
      LinesStand(b, i + 2, j - 1);
      ThroughShifts(lines, j);
    }
  }

  /** Lines are what stands between one CR LF and the next, and nothing is left out. */
  lemma LinesAreExact(b: seq<Byte>, start: nat, j: nat)
    requires j < |Lines(b, start)|
    ensures var lines := Lines(b, start);
            var at := start + Through(lines, j);
            && at + |lines[j]| + 2 <= |b| && b[at..at + |lines[j]|] == lines[j]
            && b[at + |lines[j]|] == 0x0D && b[at + |lines[j]| + 1] == 0x0A
            && forall i | at <= i < at + |lines[j]| :: b[i] == 0x0D ==> b[i + 1] != 0x0A
  {
    hide Lines, Through;
    LinesStand(b, start, j);
    var at, n := start + Through(Lines(b, start), j), |Lines(b, start)[j]|;
    forall i | at <= i < at + n
      ensures b[i] == 0x0D ==> b[i + 1] != 0x0A
    {
      assert !EndsLine(b, i);
    }
  }

  /** The multi-line code that a first line puts in force. */
  function OpeningCode(first: seq<Byte>): nat {
    if Coded(first, HYPHEN) then LineCode(first) else 0
  }

  lemma LineAt(b: seq<Byte>, start: nat, i: nat)
    requires start <= i <= |b|
    ensures var line := b[start..i];
            && (HasCode(b, start, i) <==> |line| >= 4 && Coded(line, line[3]))
            && (HasCode(b, start, i) ==> Code(b, start, i) == LineCode(line) && b[start + 3] == line[3])
  {
  }

  /** No line before the j-th ends the reply that a line `first` began. */
  ghost predicate NoneEnds(first: seq<Byte>, lines: seq<seq<Byte>>, j: nat)
    requires j <= |lines|
  {
    forall k | 0 <= k < j :: !Ends(first, lines[k])
  }

  lemma NoneEndsLater(first: seq<Byte>, lines: seq<seq<Byte>>, j: nat)
    requires 0 < j <= |lines|
    ensures NoneEnds(first, lines, j) <==> !Ends(first, lines[0]) && NoneEnds(first, lines[1..], j - 1)
  {
    hide Ends;
    if NoneEnds(first, lines, j) {
      assert !Ends(first, lines[0]);
      forall k | 0 <= k < j - 1 ensures !Ends(first, lines[1..][k]) { assert !Ends(first, lines[k + 1]); }
    } else {
      var k :| 0 <= k < j && Ends(first, lines[k]);
      if k > 0 {
        assert lines[1..][k - 1] == lines[k];
      }
    }
  }

  /** From any line on, the search with the opening code in force finds the first line that ends
      the reply. */
  lemma {:induction false} SearchIsLeast(b: seq<Byte>, start: nat, multi: nat, first: seq<Byte>, j: nat)
    requires j <= |Lines(b, start)| && NoneEnds(first, Lines(b, start), j)
    requires start == 0 ==> Lines(b, 0) != [] && first == Lines(b, 0)[0]
    requires start > 0 ==> multi == OpeningCode(first)
    requires start == 0 ==> multi == 0
    ensures var lines := Lines(b, start);
            && (j == |lines| ==> FindReply(b, start, multi) == None)
            && (j < |lines| && Ends(first, lines[j]) ==>
                  FindReply(b, start, multi) == Some(Found(LineCode(lines[j]), start + Through(lines, j + 1))))
    decreases |b| - start
  {
    hide HasCode, Code, Coded, LineCode, NoneEnds, OpeningCode, FindReply, Through;
    var lines := Lines(b, start);
    if lines == [] {
      NoLines(b, start, multi);
    } else {
      var i := LineEnd(b, start).value;
      assert lines[1..] == Lines(b, i + 2);
      AtLine(b, start, i, multi, first);
      ThroughShifts(lines, 1);
      ThroughNone(lines[1..]);
      if j > 0 {
        NoneEndsLater(first, lines, j);
        SearchIsLeast(b, i + 2, OpeningCode(first), first, j - 1);
        if j < |lines| {
          ThroughShifts(lines, j + 1);
        }
      }
    }
  }

  /** One line of the search. */
  lemma AtLine(b: seq<Byte>, start: nat, i: nat, multi: nat, first: seq<Byte>)
    requires LineEnd(b, start) == Some(i)
    requires if start == 0 then first == b[0..i] && multi == 0 else multi == OpeningCode(first)
    ensures FindReply(b, start, multi)
         == if Ends(first, b[start..i]) then Some(Found(LineCode(b[start..i]), i + 2))
            else FindReply(b, i + 2, OpeningCode(first))
  {
    LineAt(b, start, i);
  }

  /** The reply grammar of the code, over the list of lines: the reply is the lines up to the
      first that ends it, and there is none if no line does. As in section 4.2 of RFC 959, after a
      first line "ddd-" only "ddd " with the same code ends it; after a first line that is not a
      reply line at all, which the RFC does not have, any "ddd " does. */
  lemma ReplyGrammar(b: seq<Byte>, j: nat)
    requires j <= |Lines(b, 0)|
    ensures var lines := Lines(b, 0);
            && (j < |lines| && Ends(lines[0], lines[j]) && NoneEnds(lines[0], lines, j) ==>
                  NextReply(b) == Some(Found(LineCode(lines[j]), Through(lines, j + 1))))
            && (NextReply(b).None? <==> lines == [] || NoneEnds(lines[0], lines, |lines|))
  {
    hide Coded, LineCode, FindReply;
    var lines := Lines(b, 0);
    if lines == [] {
      assert NextReply(b) == None by { NoLines(b, 0, 0); }
    } else {
      if j < |lines| && Ends(lines[0], lines[j]) && NoneEnds(lines[0], lines, j) {
        SearchIsLeast(b, 0, 0, lines[0], j);
      }
      if NoneEnds(lines[0], lines, |lines|) {
        SearchIsLeast(b, 0, 0, lines[0], |lines|);
      } else {
        var k := LeastEnd(lines[0], lines, |lines|);
        SearchIsLeast(b, 0, 0, lines[0], k);
      }
    }
  }

  lemma NoLines(b: seq<Byte>, start: nat, multi: nat)
    requires Lines(b, start) == []
    ensures FindReply(b, start, multi) == None
  {
  }

  lemma ThroughNone(lines: seq<seq<Byte>>)
    ensures Through(lines, 0) == 0
  {
  }

  lemma {:induction false} LeastEnd(first: seq<Byte>, lines: seq<seq<Byte>>, n: nat) returns (k: nat)
    requires n <= |lines| && !NoneEnds(first, lines, n)
    ensures k < n && Ends(first, lines[k]) && NoneEnds(first, lines, k)
  {
    if NoneEnds(first, lines, n - 1) {
      k := n - 1;
    } else {
      k := LeastEnd(first, lines, n - 1);
    }
  }

  /** Replies frame the stream. */
  function ReplySize(b: seq<Byte>): nat {
    match NextReply(b)
    case None => 0
    case Some(r) => r.end
  }

  /** The code of a reply text. */
  function CodeOf(text: seq<Byte>): nat {
    match NextReply(text)
    case None => 0
    case Some(r) => r.code
  }

  // ----- a reply depends on its own bytes only

  lemma {:induction false} LineEndSame(b: seq<Byte>, c: seq<Byte>, from: nat, n: nat)
    requires n <= |b| && n <= |c| && (forall i | 0 <= i < n :: b[i] == c[i])
    requires LineEnd(b, from).Some? && LineEnd(b, from).value + 2 <= n
    ensures LineEnd(c, from) == LineEnd(b, from)
    decreases |b| - from
  {
    if !EndsLine(b, from) {
      LineEndSame(b, c, from + 1, n);
    }
  }

  /** Streams that agree up to the end of a reply hold the same reply. */
  lemma {:induction false} ReplySame(b: seq<Byte>, c: seq<Byte>, start: nat, multi: nat, n: nat)
    requires n <= |b| && n <= |c| && (forall i | 0 <= i < n :: b[i] == c[i])
    requires FindReply(b, start, multi).Some? && FindReply(b, start, multi).value.end <= n
    ensures FindReply(c, start, multi) == FindReply(b, start, multi)
    decreases |b| - start
  {
    hide Code, Closes, Opened, HasCode;
    var i := LineEnd(b, start).value;
    ReplyAhead(b, start, multi);
    LineEndSame(b, c, start, n);
    LineSame(b, c, start, i, multi);
    if !HasCode(b, start, i) {
      ReplySame(b, c, i + 2, multi, n);
    } else if !Closes(b, start, i, Opened(b, start, i, multi)) {
      ReplySame(b, c, i + 2, Opened(b, start, i, multi), n);
    }
  }

  lemma ReplyAhead(b: seq<Byte>, start: nat, multi: nat)
    requires FindReply(b, start, multi).Some?
    ensures LineEnd(b, start).Some? && LineEnd(b, start).value + 2 <= FindReply(b, start, multi).value.end
  {
  }

  lemma LineSame(b: seq<Byte>, c: seq<Byte>, start: nat, end: nat, multi: nat)
    requires end <= |b| && end <= |c| && forall i | 0 <= i < end :: b[i] == c[i]
    ensures HasCode(c, start, end) == HasCode(b, start, end)
    ensures HasCode(b, start, end) ==>
              && Code(c, start, end) == Code(b, start, end) && Opened(c, start, end, multi) == Opened(b, start, end, multi)
              && Closes(c, start, end, Opened(c, start, end, multi)) == Closes(b, start, end, Opened(b, start, end, multi))
  {
  }

  /** A reply found in a prefix is never changed by bytes that arrive later, and needs none. */
  lemma ReplyIsStable()
    ensures Stable(ReplySize) && Local(ReplySize)
    ensures forall b: seq<Byte> {:trigger NextReply(b)} :: NextReply(b).Some? ==> CodeOf(b[..ReplySize(b)]) == NextReply(b).value.code
  {
    hide FindReply;
    forall a, b | Complete(ReplySize, a)
      ensures ReplySize(a + b) == ReplySize(a)
    {
      ReplySame(a, a + b, 0, 0, |a|);
    }
    forall s | NextReply(s).Some?
      ensures ReplySize(s[..ReplySize(s)]) == ReplySize(s) && CodeOf(s[..ReplySize(s)]) == NextReply(s).value.code
    {
      ReplyBounds(s);
      ReplySame(s, s[..ReplySize(s)], 0, 0, ReplySize(s));
    }
  }

  lemma ReplyBounds(s: seq<Byte>)
    requires NextReply(s).Some?
    ensures 0 < NextReply(s).value.end <= |s|
  {
  }

  // ----- a session

  /** What the client does with the control stream. */
  datatype Event = Receive(bytes: seq<Byte>) | Poll

  /** The buffer and what came out of it; `lost` says that a receive did not fit and was dropped. */
  datatype Session = Session(buffer: seq<Byte>, codes: seq<nat>, lost: bool)

  function Step(s: Session, e: Event): Session {
    match e
    case Receive(bytes) =>
      if |s.buffer| + |bytes| >= CAPACITY then s.(lost := true) else s.(buffer := s.buffer + bytes)
    case Poll =>
      match NextReply(s.buffer)
      case None => s
      case Some(r) => s.(buffer := s.buffer[r.end..], codes := s.codes + [r.code])
  }

  function Run(s: Session, events: seq<Event>): Session
    decreases |events|
  {
    if events == [] then s else Run(Step(s, events[0]), events[1..])
  }

  /** The bytes of all receives, in order. */
  function Stream(events: seq<Event>): seq<Byte> {
    if events == [] then []
    else (if events[0].Receive? then events[0].bytes else []) + Stream(events[1..])
  }

  /** The bytes of those receives that fitted. */
  function Kept(s: Session, events: seq<Event>): seq<Byte>
    decreases |events|
  {
    if events == [] then []
    else
      (if events[0].Receive? && |s.buffer| + |events[0].bytes| < 768 then events[0].bytes else [])
      + Kept(Step(s, events[0]), events[1..])
  }

  /** The codes of all complete replies of a stream. */
  function Codes(b: seq<Byte>): seq<nat> {
    Map(CodeOf, Split(ReplySize, b))
  }

  lemma {:induction false} MapAppend<T, U>(f: T -> U, xs: seq<T>, ys: seq<T>)
    ensures Map(f, xs + ys) == Map(f, xs) + Map(f, ys)
  {
    if xs == [] {
      assert xs + ys == ys;
    } else {
      assert (xs + ys)[1..] == xs[1..] + ys;
      MapAppend(f, xs[1..], ys);
    }
  }

  /** Taking the first reply off leaves the rest of the replies. */
  lemma FirstReply(b: seq<Byte>, more: seq<Byte>)
    requires NextReply(b).Some?
    ensures var r := NextReply(b).value;
            && r.end <= |b|
            && Codes(b + more) == [r.code] + Codes(b[r.end..] + more)
            && Rest(ReplySize, b + more) == Rest(ReplySize, b[r.end..] + more)
  {
    hide NextReply;
    ReplyIsStable();
    var n := ReplySize(b);
    CompleteReply(b);
    assert ReplySize(b + more) == n;
    assert (b + more)[..n] == b[..n] && (b + more)[n..] == b[n..] + more;
    var frames := Split(ReplySize, b + more);
    assert frames == [b[..n]] + Split(ReplySize, b[n..] + more);
    assert frames[1..] == Split(ReplySize, b[n..] + more);
  }

  lemma CompleteReply(b: seq<Byte>)
    requires NextReply(b).Some?
    ensures Complete(ReplySize, b) && ReplySize(b) == NextReply(b).value.end <= |b|
  {
  }

  /** Extraction ignores fragmentation: however the stream is cut into receives and whenever the
      client polls, the codes it has plus those still in its buffer are those of all the bytes
      that were kept, as if they had come at once. */
  lemma {:induction false} FragmentationIsInvisible(s: Session, events: seq<Event>)
    ensures var last := Run(s, events);
            && last.codes + Codes(last.buffer) == s.codes + Codes(s.buffer + Kept(s, events))
            && Rest(ReplySize, last.buffer) == Rest(ReplySize, s.buffer + Kept(s, events))
    decreases |events|
  {
    hide NextReply, Codes, Rest;
    if events == [] {
      assert s.buffer + Kept(s, events) == s.buffer;
    } else {
      var next := Step(s, events[0]);
      var later := Kept(next, events[1..]);
      FragmentationIsInvisible(next, events[1..]);
      match events[0] {
        case Receive(bytes) =>
          if |s.buffer| + |bytes| < CAPACITY {
            Regroup(s.buffer, bytes, later);
          } else {
            assert Kept(s, events) == later;
          }
        case Poll =>
          assert Kept(s, events) == later;
          if NextReply(s.buffer).Some? {
            FirstReply(s.buffer, later);
            var r := NextReply(s.buffer).value;
            Regroup(s.codes, [r.code], Codes(s.buffer[r.end..] + later));
          }
      }
    }
  }

  /** Every byte is kept exactly until a receive overflows the buffer, which is remembered. */
  lemma {:induction false} KeptUnlessLost(s: Session, events: seq<Event>)
    ensures s.lost ==> Run(s, events).lost
    ensures !Run(s, events).lost ==> Kept(s, events) == Stream(events)
    decreases |events|
  {
    hide NextReply;
    if events != [] {
      KeptUnlessLost(Step(s, events[0]), events[1..]);
    }
  }

  /** A client that polls until nothing is left has parsed the stream: the codes of the whole
      stream, and its unfinished end in the buffer. */
  lemma PolledDry(events: seq<Event>)
    requires !Run(Session([], [], false), events).lost
    requires NextReply(Run(Session([], [], false), events).buffer).None?
    ensures Run(Session([], [], false), events).codes == Codes(Stream(events))
    ensures Run(Session([], [], false), events).buffer == Rest(ReplySize, Stream(events))
  {
    hide Run, Stream, Kept, NextReply;
    var start := Session([], [], false);
    var last := Run(start, events);
    FragmentationIsInvisible(start, events);
    KeptUnlessLost(start, events);
    assert [] + Stream(events) == Stream(events);
    assert ReplySize(last.buffer) == 0;
    assert Codes(last.buffer) == [] && Rest(ReplySize, last.buffer) == last.buffer;
    assert last.codes + [] == last.codes && [] + Codes(Stream(events)) == Codes(Stream(events));
  }

  // ----- the object

  class FtpControl {
    const controlText: array<Byte>
    var controlLength: nat
    var lastReply: seq<Byte>
    var error: bool
    ghost var codes: seq<nat>

    ghost predicate Valid()
      reads this, controlText
    {
      controlText.Length == CAPACITY && controlLength < CAPACITY && controlText[controlLength] == 0
    }

    ghost function View(): Session
      requires Valid()
      reads this, controlText
    {
      Session(controlText[..controlLength], codes, error)
    }

    constructor ()
      ensures Valid() && fresh(controlText) && View() == Session([], [], false)
    {
      controlText := new Byte[CAPACITY](_ => 0);
      controlLength, lastReply, error, codes := 0, [], false, [];
    }

    /** ftp_control_receive for a buffer that arrived without error. */
    method ControlReceive(bytes: seq<Byte>)
      requires Valid()
      modifies this`controlLength, this`error, controlText
      ensures Valid() && View() == Step(old(View()), Receive(bytes))
    {
      if controlLength + |bytes| >= CAPACITY {
        error := true;
        return;
      }
      ghost var before := controlText[..controlLength];
      var offset := 0;
      while offset < |bytes|
        invariant 0 <= offset <= |bytes| && controlLength + |bytes| - offset < CAPACITY
        invariant controlLength == |before| + offset && error == old(error)
        invariant controlText[..controlLength] == before + bytes[..offset]
      {
        controlText[controlLength] := bytes[offset];
        controlLength := controlLength + 1;
        offset := offset + 1;
      }
      assert bytes[..offset] == bytes;
      controlText[controlLength] := 0;
    }

    /** memmove of the bytes behind a reply to the front, and the new terminator. */
    method DropFront(count: nat)
      requires Valid() && count <= controlLength
      modifies this`controlLength, controlText
      ensures Valid() && controlText[..controlLength] == old(controlText[count..controlLength])
    {
      ghost var was := controlText[..];
      var left := controlLength - count;
      for i := 0 to left
        invariant controlText[..i] == was[count..count + i]
        invariant controlText[i..] == was[i..]
      {
        assert controlText[i..][count] == was[i..][count];
        controlText[i] := controlText[count + i];
      }
      controlLength := left;
      controlText[controlLength] := 0;
    }

    /** The scan of ftp_reply, byte by byte. */
    method Scan() returns (r: Option<Found>)
      requires Valid()
      ensures r == NextReply(controlText[..controlLength])
    {
      hide FindReply, Code;
      var b := controlText[..controlLength];
      var lineStart, i, multiline := 0, 0, 0;
      while i + 1 < controlLength
        invariant 0 <= lineStart <= i <= controlLength
        invariant FindReply(b, lineStart, multiline) == NextReply(b)
        invariant forall k | lineStart <= k < i :: !EndsLine(b, k)
        decreases controlLength - i
      {
        if controlText[i] != CR || controlText[i + 1] != LF {
          i := i + 1;
          continue;
        }
        ReplyAtLine(b, lineStart, i, multiline);
        if HasCode(b, lineStart, i) {
          var lineCode := Code(b, lineStart, i);
          if lineStart == 0 && controlText[lineStart + 3] == '-' as int {
            multiline := lineCode;
          }
          if !(controlText[lineStart + 3] != ' ' as int || (multiline != 0 && lineCode != multiline)) {
            return Some(Found(lineCode, i + 2));
          }
        }
        lineStart := i + 2;
        i := i + 2;
      }
      NoReply(b, lineStart, i, multiline);
      return None;
    }

    /** ftp_reply: take one complete reply off the front, if there is one. */
    method Reply() returns (code: Option<nat>)
      requires Valid()
      modifies this`controlLength, this`lastReply, this`codes, controlText
      ensures Valid() && View() == Step(old(View()), Poll)
      ensures var r := NextReply(old(View()).buffer);
              if r.None? then code == None && lastReply == old(lastReply)
              else && code == Some(r.value.code) && r.value.end <= |old(View()).buffer|
                   && lastReply == old(View()).buffer[..if r.value.end < 237 then r.value.end else 237]
    {
      hide NextReply;
      var r := Scan();
      if r.None? {
        return None;
      }
      ghost var b := controlText[..controlLength];
      CompleteReply(b);
      var length := r.value.end;
      var copy := if length < TEXT_MAX then length else TEXT_MAX;
      lastReply := controlText[..copy];
      assert b[length..] == controlText[length..controlLength];
      codes := codes + [r.value.code];
      DropFront(length);
      return Some(r.value.code);
    }
  }

  lemma {:induction false} FirstLineEnd(b: seq<Byte>, from: nat, i: nat)
    requires from <= i && EndsLine(b, i) && forall k | from <= k < i :: !EndsLine(b, k)
    ensures LineEnd(b, from) == Some(i)
    decreases i - from
  {
    if from != i {
      FirstLineEnd(b, from + 1, i);
    }
  }

  /** What the reply search does at a line end it has come to. */
  lemma ReplyAtLine(b: seq<Byte>, start: nat, i: nat, multi: nat)
    requires start <= i && EndsLine(b, i) && forall k | start <= k < i :: !EndsLine(b, k)
    ensures FindReply(b, start, multi) ==
            if HasCode(b, start, i) then
              var m := Opened(b, start, i, multi);
              if Closes(b, start, i, m) then Some(Found(Code(b, start, i), i + 2)) else FindReply(b, i + 2, m)
            else FindReply(b, i + 2, multi)
  {
    FirstLineEnd(b, start, i);
  }

  lemma NoReply(b: seq<Byte>, start: nat, i: nat, multi: nat)
    requires i + 1 >= |b| && forall k | start <= k < i :: !EndsLine(b, k)
    ensures FindReply(b, start, multi) == None
  {
  }
}
