/** Reading files through the session's windows: what a host that gathers them has in hand, over
    every run of requests, and what an EOF reply then means. */
module MediaStreams {
  import opened Bytes
  import opened MediaFiles
  import opened MediaService
  import Tape = MediaCatalogue

  datatype Request = Request(cmd: Command, capacity: nat)

  /** The data bytes of a READ reply. */
  function WindowOf(r: Reply): seq<Byte> {
    if r.status == OK && |r.body| >= 4 then r.body[4..] else []
  }

  /** The remaining length a READ reply announces. */
  function RemainingOf(r: Reply): nat
    requires |r.body| >= 4
  {
    r.body[0] as int + 0x100 * r.body[1] as int + 0x1_0000 * r.body[2] as int
  }

  // ----- the host's side

  /** The windows of one entry since it was begun. A pass is inherited when the session was
      opened over a live stream, and spoiled when a READ of another entry failed during it. */
  datatype Pass = Pass(index: nat, bytes: seq<Byte>, inherited: bool, spoiled: bool)

  /** The pass the host is in, and those that an EOF reply ended. */
  datatype Host = Host(live: Option<Pass>, ended: seq<Pass>)

  /** The pass a READ of an entry goes on with. */
  function Current(h: Host, index: nat): Pass {
    if h.live.Some? && h.live.value.index == index then h.live.value else Pass(index, [], false, false)
  }

  /** A READ that is not turned away before the stream is looked at. */
  predicate Reaches(count: nat, q: Request) {
    q.cmd.Read? && q.cmd.index < count && q.capacity >= 4
  }

  /** What a host makes of the reply to a READ that reaches the stream. */
  function After(h: Host, index: nat, r: Reply): Host {
    var p := Current(h, index);
    if r.status == EOF then Host(None, h.ended + [p])
    else if r.status == OK then h.(live := Some(p.(bytes := p.bytes + WindowOf(r))))
    else h.(live := if h.live.Some? then Some(h.live.value.(spoiled := true)) else None)
  }

  function Observe(count: nat, h: Host, q: Request, r: Reply): Host {
    if Reaches(count, q) then After(h, q.cmd.index, r) else h
  }

  function Serve(s: State, qs: seq<Request>): State
    decreases |qs|
  {
    if qs == [] then s else Serve(Dispatch(s, qs[0].cmd, qs[0].capacity).0, qs[1..])
  }

  function ObserveAll(count: nat, s: State, h: Host, qs: seq<Request>): Host
    decreases |qs|
  {
    if qs == [] then h
    else
      var (s2, r) := Dispatch(s, qs[0].cmd, qs[0].capacity);
      ObserveAll(count, s2, Observe(count, h, qs[0], r), qs[1..])
  }

  // ----- what the session and the host agree on

  /** The bytes a pass is cut from: those left in the buffer if it is inherited, else the file. */
  function Source(c: Container, stale: seq<Byte>, p: Pass): Option<seq<Byte>> {
    if p.inherited then Some(stale)
    else if c.extract(p.index).Success? then Some(c.extract(p.index).value) else None
  }

  predicate Streaming(s: State) {
    s.stream.valid && s.stream.index == s.session.readIndex
  }

  /** The live pass is the beginning of its source; a spoiled one has lost the rest of it. */
  ghost predicate Tracks(s: State, c: Container, stale: seq<Byte>, h: Host) {
    && s.session.container == Some(c)
    && if !Streaming(s) then h.live.None?
       else
         && h.live.Some? && h.live.value.index == s.stream.index && Source(c, stale, h.live.value).Some?
         && h.live.value.bytes <= Source(c, stale, h.live.value).value
         && s.session.readOffset == |h.live.value.bytes|
         && s.stream.data == if h.live.value.spoiled then [] else Source(c, stale, h.live.value).value
  }

  /** Every file fits the stream buffer, or its extraction fails. */
  ghost predicate Buffered(c: Container) {
    forall i: nat :: c.extract(i).Success? ==> |c.extract(i).value| <= STREAM_CAPACITY
  }

  /** How much of what is left a window takes: 236 bytes at most, and four less than the room. */
  function Fitting(left: nat, capacity: nat): nat
    requires capacity >= 4
  {
    if left <= 236 && left <= capacity - 4 then left else if 236 <= capacity - 4 then 236 else capacity - 4
  }

  /** The reply to a READ that reaches the stream. EOF comes exactly when the pass is complete or
      spoiled; otherwise the reply tells what is left and how much it carries, and carries exactly
      the next bytes. */
  ghost predicate Answers(c: Container, stale: seq<Byte>, p: Pass, capacity: nat, r: Reply) {
    match Source(c, stale, p)
    case None => c.extract(p.index).Failure? && r == Reply(if c.extract(p.index).status == Tape.ErrRange then 0x2B else 0x27, [])
    case Some(file) =>
      && p.bytes <= file
      && if p.spoiled || |p.bytes| == |file| then r == Reply(0x20, [])
         else
           && r.status == 0 && |r.body| >= 4 && RemainingOf(r) == |file| - |p.bytes|
           && r.body[3] == |WindowOf(r)| && p.bytes + WindowOf(r) <= file
           && capacity >= 4 && |WindowOf(r)| == Fitting(|file| - |p.bytes|, capacity)
  }

  lemma ThreeBytes(v: nat)
    requires v < 0x100_0000
    ensures v == v % 0x100 + 0x100 * (v / 0x100 % 0x100) + 0x1_0000 * (v / 0x1_0000 % 0x100)
  {
    var (high, low) := (v / 0x100, v % 0x100);
    assert high / 0x100 == v / 0x1_0000;
  }

  lemma WindowAdds(data: seq<Byte>, at: nat, w: nat, pass: seq<Byte>)
    requires at + w <= |data| < 0x100_0000 && at == |pass| && pass <= data && w <= READ_WINDOW
    ensures var r := Reply(OK, WindowBody(data, at, w));
            && |r.body| == 4 + w && |WindowOf(r)| == w && r.body[3] == w && RemainingOf(r) == |data| - at
            && pass + WindowOf(r) <= data && |pass + WindowOf(r)| == at + w
  {
    var body := WindowBody(data, at, w);
    assert body[4..] == data[at..at + w];
    assert pass == data[..at];
    assert data[..at] + data[at..at + w] == data[..at + w];
    ThreeBytes(|data| - at);
  }

  /** A READ that goes on with the live stream. */
  lemma ReadGoesOn(s: State, c: Container, stale: seq<Byte>, h: Host, index: Byte, cap: nat)
    requires Tracks(s, c, stale, h) && Streaming(s) && s.stream.index == index && 4 <= cap <= REPLY_MAX
    requires |Source(c, stale, Current(h, index)).value| <= STREAM_CAPACITY
    ensures var (s2, r) := NextWindow(s, cap);
            && Tracks(s2, c, stale, After(h, index, r)) && Answers(c, stale, Current(h, index), cap, r)
  {
    hide WindowBody, WindowOf, RemainingOf;
    var p := h.live.value;
    var file := Source(c, stale, p).value;
    if !p.spoiled && |p.bytes| < |file| {
      WindowAdds(file, |p.bytes|, WindowSize(|file| - |p.bytes|, cap), p.bytes);
    }
  }

  /** A READ that begins another file, and so leaves the live one. */
  lemma ReadBegins(s: State, c: Container, stale: seq<Byte>, h: Host, index: Byte, cap: nat)
    requires Tracks(s, c, stale, h) && MustExtract(s, index) && index < |c.entries|
    requires 4 <= cap <= REPLY_MAX && Buffered(c)
    ensures var (s2, r) := ReadStep(s, index, cap);
            && Tracks(s2, c, stale, After(h, index, r)) && Answers(c, stale, Current(h, index), cap, r)
  {
    hide NextWindow, WindowOf, RemainingOf;
    assert Current(h, index) == Pass(index, [], false, false);
    if c.extract(index).Success? {
      var s1 := Started(s, c, index).0;
      var begun := h.(live := Some(Pass(index, [], false, false)));
      assert Tracks(s1, c, stale, begun);
      ReadGoesOn(s1, c, stale, begun, index, cap);
    }
  }

  /** One request, whatever it is: the host's account stays true, and a READ is answered as the
      account says. */
  lemma StreamStep(s: State, c: Container, stale: seq<Byte>, h: Host, q: Request)
    requires Tracks(s, c, stale, h) && Buffered(c) && |stale| <= STREAM_CAPACITY && !q.cmd.Close?
    ensures var (s2, r) := Dispatch(s, q.cmd, q.capacity);
            && Tracks(s2, c, stale, Observe(|c.entries|, h, q, r))
            && (Reaches(|c.entries|, q) ==> Answers(c, stale, Current(h, q.cmd.index), q.capacity, r))
  {
    hide FormatEntry, InfoReply, NextWindow, WindowOf, RemainingOf;
    if Reaches(|c.entries|, q) {
      var index, cap := q.cmd.index, Clipped(q.capacity);
      if MustExtract(s, index) {
        ReadBegins(s, c, stale, h, index, cap);
      } else {
        ReadGoesOn(s, c, stale, h, index, cap);
      }
    }
  }

  // ----- runs

  /** A pass that an EOF reply ended: the beginning of its source, and all of it unless a READ of
      another entry failed in the middle. */
  ghost predicate Right(c: Container, stale: seq<Byte>, p: Pass) {
    && p.index < |c.entries| && Source(c, stale, p).Some? && p.bytes <= Source(c, stale, p).value
    && (p.spoiled || p.bytes == Source(c, stale, p).value)
  }

  /** Every ended pass is right, and only the first can be the inherited one. */
  ghost predicate Account(c: Container, stale: seq<Byte>, h: Host) {
    && (forall i | 0 <= i < |h.ended| :: Right(c, stale, h.ended[i]))
    && (forall i | 0 < i < |h.ended| :: !h.ended[i].inherited)
    && (h.live.Some? && h.live.value.inherited ==> h.ended == [])
  }

  predicate Stays(qs: seq<Request>) {
    forall i | 0 <= i < |qs| :: !qs[i].cmd.Close?
  }

  /** How one reply moves the host's account on. */
  lemma AccountStep(c: Container, stale: seq<Byte>, h: Host, q: Request, r: Reply)
    requires Account(c, stale, h)
    requires Reaches(|c.entries|, q) ==> Answers(c, stale, Current(h, q.cmd.index), q.capacity, r)
    ensures Account(c, stale, Observe(|c.entries|, h, q, r)) && h.ended <= Observe(|c.entries|, h, q, r).ended
  {
    hide WindowOf, RemainingOf;
  }

  /** Bounded windows reassemble files: over any run of requests of one session, READs of any
      entries in any order with any capacities, every pass that an EOF reply ended is the file it
      was read from, unless a READ of another entry failed in the middle of it. */
  lemma {:induction false} WindowsReassemble(s: State, c: Container, stale: seq<Byte>, h: Host, qs: seq<Request>)
    requires Tracks(s, c, stale, h) && Account(c, stale, h)
    requires Buffered(c) && |stale| <= STREAM_CAPACITY && Stays(qs)
    ensures var last := ObserveAll(|c.entries|, s, h, qs);
            Tracks(Serve(s, qs), c, stale, last) && Account(c, stale, last) && h.ended <= last.ended
    decreases |qs|
  {
    hide Dispatch, Tracks, Account, Observe, Buffered, Answers;
    if qs != [] {
      var (s2, r) := Dispatch(s, qs[0].cmd, qs[0].capacity);
      StreamStep(s, c, stale, h, qs[0]);
      AccountStep(c, stale, h, qs[0], r);
      WindowsReassemble(s2, c, stale, Observe(|c.entries|, h, qs[0], r), qs[1..]);
    }
  }

  /** The stream buffer is never overrun. */
  lemma BufferFits(s: State, cmd: Command, capacity: nat)
    requires |s.stream.data| <= STREAM_CAPACITY && (s.session.container.Some? ==> Buffered(s.session.container.value))
    ensures |Dispatch(s, cmd, capacity).0.stream.data| <= STREAM_CAPACITY
  {
    hide FormatEntry, InfoReply, WindowBody;
  }

  // ----- a session that has just been opened

  /** Whether the stream left from before is of the first entry. A session begins with its cursor
      on that entry, so nothing then tells the new container's stream from the old one. */
  predicate Inherits(before: State) {
    before.stream.valid && before.stream.index == 0
  }

  function Opened(before: State): Host {
    Host(if Inherits(before) then Some(Pass(0, [], true, false)) else None, [])
  }

  lemma OpenTracks(before: State, c: Container)
    ensures Tracks(Bind(before, Success(c)).0, c, before.stream.data, Opened(before))
    ensures Account(c, before.stream.data, Opened(before))
  {
  }

  /** A run of one session from its opening. */
  function Observed(before: State, c: Container, qs: seq<Request>): Host {
    ObserveAll(|c.entries|, Bind(before, Success(c)).0, Opened(before), qs)
  }

  // ----- reading one entry

  /** Reads of one entry with room for data, mixed with the requests that do not read. */
  predicate StreamsOnly(q: Request, index: Byte) {
    match q.cmd
    case Read(i) => i == index && q.capacity >= 5
    case Close => false
    case _ => true
  }

  predicate AllStream(qs: seq<Request>, index: Byte) {
    forall i | 0 <= i < |qs| :: StreamsOnly(qs[i], index)
  }

  function ReadCount(qs: seq<Request>): nat {
    if qs == [] then 0 else (if qs[0].cmd.Read? then 1 else 0) + ReadCount(qs[1..])
  }

  /** What a host that reads one entry can have: `first` says where its first pass comes from. */
  ghost predicate OneEntry(h: Host, index: Byte, first: bool) {
    && (forall i | 0 <= i < |h.ended| :: h.ended[i].index == index && !h.ended[i].spoiled)
    && (h.live.Some? ==> !h.live.value.spoiled && (h.live.value.inherited ==> h.ended == []))
    && (forall i | 0 <= i < |h.ended| :: h.ended[i].inherited <==> first && i == 0)
    && (h.ended == [] ==> (first <==> Current(h, index).inherited))
  }

  lemma OneEntryStep(c: Container, stale: seq<Byte>, h: Host, index: Byte, first: bool, q: Request, r: Reply)
    requires OneEntry(h, index, first) && StreamsOnly(q, index)
    requires index < |c.entries| && c.extract(index).Success?
    requires Reaches(|c.entries|, q) ==> Answers(c, stale, Current(h, q.cmd.index), q.capacity, r)
    ensures OneEntry(Observe(|c.entries|, h, q, r), index, first)
    ensures |Observe(|c.entries|, h, q, r).ended| >= |h.ended|
    ensures Left(c, stale, Observe(|c.entries|, h, q, r), index)
         <= Left(c, stale, h, index) - (if q.cmd.Read? then 1 else 0) || |Observe(|c.entries|, h, q, r).ended| > |h.ended|
  {
    hide WindowOf, RemainingOf;
  }

  /** How many bytes the pass over an entry has still to come. */
  function Left(c: Container, stale: seq<Byte>, h: Host, index: nat): int {
    match Source(c, stale, Current(h, index))
    case None => 0
    case Some(file) => |file| - |Current(h, index).bytes|
  }

  lemma LeftIsNat(s: State, c: Container, stale: seq<Byte>, h: Host, index: nat)
    requires Tracks(s, c, stale, h)
    ensures Left(c, stale, h, index) >= 0
  {
  }

  lemma {:induction false} OneEntryRun(s: State, c: Container, stale: seq<Byte>, h: Host, index: Byte, first: bool, qs: seq<Request>)
    requires Tracks(s, c, stale, h) && Buffered(c) && |stale| <= STREAM_CAPACITY
    requires OneEntry(h, index, first) && AllStream(qs, index)
    requires index < |c.entries| && c.extract(index).Success?
    ensures OneEntry(ObserveAll(|c.entries|, s, h, qs), index, first)
    ensures |ObserveAll(|c.entries|, s, h, qs).ended| >= |h.ended|
    ensures ReadCount(qs) > Left(c, stale, h, index) ==> |ObserveAll(|c.entries|, s, h, qs).ended| > |h.ended|
    decreases |qs|
  {
    hide Dispatch, Tracks, Observe, Buffered, Answers, OneEntry, Left;
    LeftIsNat(s, c, stale, h, index);
    if qs != [] {
      var (s2, r) := Dispatch(s, qs[0].cmd, qs[0].capacity);
      StreamStep(s, c, stale, h, qs[0]);
      OneEntryStep(c, stale, h, index, first, qs[0], r);
      OneEntryRun(s2, c, stale, Observe(|c.entries|, h, qs[0], r), index, first, qs[1..]);
    }
  }

  /** When a host gets the file it opened. After any session is opened over any state, a host that
      reads one entry through is given, in its first complete pass, that entry's file if and only
      if no stream of the first entry was live and is being read, or what it left in the buffer
      is the same; every later pass is the file; and enough reads end a pass. */
  lemma FileAfterOpen(before: State, c: Container, index: Byte, file: seq<Byte>, qs: seq<Request>)
    requires Buffered(c) && |before.stream.data| <= STREAM_CAPACITY && AllStream(qs, index)
    requires index < |c.entries| && c.extract(index) == Success(file)
    ensures var ended := Observed(before, c, qs).ended;
            && (ended != [] ==>
                  (ended[0].bytes == file <==> !(Inherits(before) && index == 0) || before.stream.data == file))
            && (ended != [] && Inherits(before) && index == 0 ==> ended[0].bytes == before.stream.data)
            && (forall i | 0 < i < |ended| :: ended[i].bytes == file)
            && (ReadCount(qs) > (if Inherits(before) && index == 0 then |before.stream.data| else |file|) ==> ended != [])
  {
    hide Serve, ObserveAll, Tracks, Buffered;
    var s, stale, h := Bind(before, Success(c)).0, before.stream.data, Opened(before);
    OpenTracks(before, c);
    WindowsReassemble(s, c, stale, h, qs);
    OneEntryRun(s, c, stale, h, index, Inherits(before) && index == 0, qs);
  }

  /** A tape's files either fit the stream buffer or fail to be extracted. */
  lemma TapeIsBuffered(image: seq<Byte>)
    requires UefContainer(image).Success?
    ensures Buffered(UefContainer(image).value)
  {
    hide Tape.WalkOf, FileData;
  }

  /** The file of an entry, as the tape holds it. */
  function TapeFile(image: seq<Byte>, index: nat): seq<Byte> {
    var blocks := Tape.WalkOf(image).blocks;
    FileData(blocks, |blocks|, index)
  }

  lemma TapeEntries(image: seq<Byte>)
    requires UefContainer(image).Success?
    ensures var c, r := UefContainer(image).value, CatalogueOf(image, Some(MAX_ENTRIES));
            && r.Success? && c.entries == r.value.entries
            && forall i: nat {:trigger c.extract(i)} :: c.extract(i) == ExtractOf(image, i, STREAM_CAPACITY)
  {
    hide CatalogueOf, ExtractOf;
  }

  lemma TapeSource(image: seq<Byte>, stale: seq<Byte>, p: Pass)
    requires |image| < 0x1_0000_0000 && UefContainer(image).Success? && !p.inherited
    requires p.index < |UefContainer(image).value.entries| && Source(UefContainer(image).value, stale, p).Some?
    ensures Source(UefContainer(image).value, stale, p) == Some(TapeFile(image, p.index))
    ensures |TapeFile(image, p.index)| == UefContainer(image).value.entries[p.index].length
  {
    hide CatalogueOf, UefContainer, ExtractOf, FileData, Tape.WalkOf;
    TapeEntries(image);
    CatalogueAndExtractAgree(image, MAX_ENTRIES, p.index, STREAM_CAPACITY);
  }

  ghost predicate NoneInherited(h: Host) {
    && (h.live.Some? ==> !h.live.value.inherited)
    && forall i | 0 <= i < |h.ended| :: !h.ended[i].inherited
  }

  lemma {:induction false} InheritedNeedsLive(s: State, count: nat, h: Host, qs: seq<Request>)
    ensures NoneInherited(h) ==> NoneInherited(ObserveAll(count, s, h, qs))
    decreases |qs|
  {
    hide Dispatch;
    if qs != [] {
      var (s2, r) := Dispatch(s, qs[0].cmd, qs[0].capacity);
      InheritedNeedsLive(s2, count, Observe(count, h, qs[0], r), qs[1..]);
    }
  }

  ghost predicate NoneSpoiled(h: Host) {
    && (h.live.Some? ==> !h.live.value.spoiled)
    && forall i | 0 <= i < |h.ended| :: !h.ended[i].spoiled
  }

  /** A session whose every file can be extracted never spoils a pass. */
  lemma {:induction false} NeverSpoiled(s: State, c: Container, stale: seq<Byte>, h: Host, qs: seq<Request>)
    requires Tracks(s, c, stale, h) && Buffered(c) && |stale| <= STREAM_CAPACITY && Stays(qs) && NoneSpoiled(h)
    requires forall i | 0 <= i < |c.entries| :: c.extract(i).Success?
    ensures NoneSpoiled(ObserveAll(|c.entries|, s, h, qs))
    decreases |qs|
  {
    hide Dispatch, Tracks, Buffered, RemainingOf, WindowOf;
    if qs != [] {
      var (s2, r) := Dispatch(s, qs[0].cmd, qs[0].capacity);
      StreamStep(s, c, stale, h, qs[0]);
      NeverSpoiled(s2, c, stale, Observe(|c.entries|, h, qs[0], r), qs[1..]);
    }
  }

  /** For a tape: every pass an EOF reply ended, but a first one that was inherited, is the
      beginning of the file the catalogue lists, payloads in stream order, and all of it unless
      it was spoiled; and none can be spoiled if every listed length fits the stream buffer. */
  lemma TapeStreams(image: seq<Byte>, before: State, qs: seq<Request>)
    requires |image| < 0x1_0000_0000 && UefContainer(image).Success?
    requires |before.stream.data| <= STREAM_CAPACITY && Stays(qs)
    ensures var c := UefContainer(image).value;
            var ended := Observed(before, c, qs).ended;
            && (forall i | 0 <= i < |ended| && !ended[i].inherited ::
                  && ended[i].index < |c.entries| && ended[i].bytes <= TapeFile(image, ended[i].index)
                  && |TapeFile(image, ended[i].index)| == c.entries[ended[i].index].length
                  && (ended[i].spoiled || ended[i].bytes == TapeFile(image, ended[i].index)))
            && (forall i | 0 <= i < |ended| && ended[i].inherited :: i == 0 && Inherits(before))
            && ((forall i | 0 <= i < |c.entries| :: c.entries[i].length <= STREAM_CAPACITY) ==>
                  forall i | 0 <= i < |ended| :: !ended[i].spoiled)
  {
    hide Serve, ObserveAll, Tracks, Buffered, UefContainer;
    var c := UefContainer(image).value;
    TapeIsBuffered(image);
    OpenTracks(before, c);
    WindowsReassemble(Bind(before, Success(c)).0, c, before.stream.data, Opened(before), qs);
    var ended := Observed(before, c, qs).ended;
    forall i | 0 <= i < |ended| && !ended[i].inherited
      ensures var e := ended[i];
              && e.index < |c.entries| && Source(c, before.stream.data, e) == Some(TapeFile(image, e.index))
              && |TapeFile(image, e.index)| == c.entries[e.index].length
    {
      assert Right(c, before.stream.data, ended[i]);
      TapeSource(image, before.stream.data, ended[i]);
    }
    InheritedNeedsLive(Bind(before, Success(c)).0, |c.entries|, Opened(before), qs);
    if forall i | 0 <= i < |c.entries| :: c.entries[i].length <= STREAM_CAPACITY {
      forall i | 0 <= i < |c.entries| ensures c.extract(i).Success? {
        TapeEntries(image);
        CatalogueAndExtractAgree(image, MAX_ENTRIES, i, STREAM_CAPACITY);
      }
      NeverSpoiled(Bind(before, Success(c)).0, c, before.stream.data, Opened(before), qs);
    }
  }

  // ----- the exceptions, as runs

  function ReadOf(index: Byte): Request { Request(Read(index), REPLY_MAX) }

  /** A session opened over a live stream of the first entry: after opening one container and
      reading from its first file, opening any other container and reading its first file gets
      the very same reply, whatever that file is. */
  lemma StaleStream(before: State, a: Container, b: Container, file: seq<Byte>)
    requires |a.entries| > 0 && |b.entries| > 0 && a.extract(0) == Success(file) && file != []
    requires !Inherits(before)
    ensures var (s1, first) := Dispatch(Bind(before, Success(a)).0, Read(0), REPLY_MAX);
            var (s2, second) := Dispatch(Bind(s1, Success(b)).0, Read(0), REPLY_MAX);
            && first.status == OK && second == first
            && WindowOf(first) == file[..if |file| < READ_WINDOW then |file| else READ_WINDOW]
  {
    hide WindowBody;
    var w := if |file| < READ_WINDOW then |file| else READ_WINDOW;
    BodyWindow(file, w);
  }

  lemma BodyWindow(file: seq<Byte>, w: nat)
    requires w <= |file|
    ensures WindowOf(Reply(OK, WindowBody(file, 0, w))) == file[..w]
  {
    assert WindowBody(file, 0, w)[4..] == file[0..w];
  }

  /** A file whose pass is spoiled: after its first window, one failed READ of another entry turns
      the next READ into an EOF reply, though the rest of the file was never sent. */
  lemma EofComesEarly(before: State, c: Container, i: Byte, j: Byte, file: seq<Byte>)
    requires i < |c.entries| && j < |c.entries| && i != j && !Inherits(before)
    requires c.extract(i) == Success(file) && |file| > READ_WINDOW && c.extract(j).Failure?
    ensures var ended := Observed(before, c, [ReadOf(i), ReadOf(j), ReadOf(i)]).ended;
            ended == [Pass(i, file[..READ_WINDOW], false, true)] && ended[0].bytes != file
  {
    hide WindowBody, WindowOf;
    BodyWindow(file, READ_WINDOW);
    var s := Bind(before, Success(c)).0;
    var (s1, r1) := Dispatch(s, Read(i), REPLY_MAX);
    var (s2, r2) := Dispatch(s1, Read(j), REPLY_MAX);
    var (s3, r3) := Dispatch(s2, Read(i), REPLY_MAX);
    var qs := [ReadOf(i), ReadOf(j), ReadOf(i)];
    assert qs[1..] == [ReadOf(j), ReadOf(i)] && qs[1..][1..] == [ReadOf(i)] && qs[1..][1..][1..] == [];
    var h1 := Host(Some(Pass(i, file[..READ_WINDOW], false, false)), []);
    assert r1.status == OK && [] + file[..READ_WINDOW] == file[..READ_WINDOW];
    assert Observe(|c.entries|, Opened(before), ReadOf(i), r1) == h1;
    var h2 := Host(Some(Pass(i, file[..READ_WINDOW], false, true)), []);
    assert Observe(|c.entries|, h1, ReadOf(j), r2) == h2;
    assert r3.status == EOF;
    ObserveThree(|c.entries|, s, Opened(before), qs, s1, r1, s2, r2, s3, r3);
  }

  lemma ObserveThree(count: nat, s: State, h: Host, qs: seq<Request>, s1: State, r1: Reply, s2: State, r2: Reply, s3: State, r3: Reply)
    requires |qs| == 3
    requires (s1, r1) == Dispatch(s, qs[0].cmd, qs[0].capacity) && (s2, r2) == Dispatch(s1, qs[1].cmd, qs[1].capacity)
    requires (s3, r3) == Dispatch(s2, qs[2].cmd, qs[2].capacity)
    ensures ObserveAll(count, s, h, qs) == Observe(count, Observe(count, Observe(count, h, qs[0], r1), qs[1], r2), qs[2], r3)
  {
    hide Dispatch, Observe;
    var h1 := Observe(count, h, qs[0], r1);
    var h2 := Observe(count, h1, qs[1], r2);
    var h3 := Observe(count, h2, qs[2], r3);
    assert ObserveAll(count, s3, h3, qs[1..][1..][1..]) == h3;
    assert ObserveAll(count, s2, h2, qs[1..][1..]) == h3;
    assert ObserveAll(count, s1, h1, qs[1..]) == h3;
  }
}
