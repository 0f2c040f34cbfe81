/** The media session: a host asks for the catalogue, for what is known of an entry, or for the
    next part of a file, and gets replies of limited size. A file is extracted when its first
    part is asked for and kept in a static buffer that belongs to no session. */
module MediaService {
  import opened Bytes
  import opened MediaFiles
  import Tape = MediaCatalogue

  const REPLY_MAX := 240
  const READ_WINDOW := REPLY_MAX - 4
  const STREAM_CAPACITY := 65536
  const MAX_ENTRIES := 128

  const OK: Byte := 0x00
  const EOF: Byte := 0x20
  const ERR_PARAM: Byte := 0x23
  const ERR_FORMAT: Byte := 0x27
  const ERR_RANGE: Byte := 0x2B

  /** A decoded container: what its catalogue lists and what extraction gives into the stream
      buffer. For tapes this is UefContainer; disc images are any other value of this type. */
  datatype Container = Container(kind: Byte, entries: seq<Entry>, total: nat, boot: Byte, extract: nat -> Result<seq<Byte>>)

  function Extractor(image: seq<Byte>): nat -> Result<seq<Byte>> {
    (index: nat) => ExtractOf(image, index, STREAM_CAPACITY)
  }

  function UefContainer(image: seq<Byte>): Result<Container> {
    match CatalogueOf(image, Some(MAX_ENTRIES))
    case Failure(status) => Failure(status)
    case Success(c) => Success(Container(1, c.entries, c.total, 0, Extractor(image)))
  }

  datatype Session = Session(container: Option<Container>, catCursor: nat, readIndex: nat, readOffset: nat)

  /** The static stream: `data` is the buffer up to its length. */
  datatype Stream = Stream(data: seq<Byte>, index: nat, valid: bool)

  datatype State = State(session: Session, stream: Stream)

  datatype Command = Open | Cat | Info(index: Byte) | Read(index: Byte) | Close | Other

  datatype Reply = Reply(status: Byte, body: seq<Byte>)

  const RESET := Session(None, 0, 0, 0)

  // ----- lines

  function HexDigit(v: nat): Byte
    requires v < 16
  {
    if v < 10 then '0' as int + v else 'A' as int + v - 10
  }

  function Hex(value: nat, digits: nat): (r: seq<Byte>)
    ensures |r| == digits
  {
    if digits == 0 then [] else Hex(value / 16, digits - 1) + [HexDigit(value % 16)]
  }

  const SPACE: Byte := 0x20

  function Spaces(n: nat): (r: seq<Byte>)
    ensures |r| == n
  {
    if n == 0 then [] else Spaces(n - 1) + [SPACE]
  }

  /** media_format_entry: a forty-column line. */
  function FormatEntry(e: Entry): (line: seq<Byte>)
    ensures 36 <= |line| <= 40
  {
    var name := if |e.name| <= 11 then e.name else e.name[..11];
    name + Spaces(12 - |name|) + Hex(e.load, 8) + [SPACE] + Hex(e.exec, 8) + [SPACE] + Hex(e.length, 6)
    + (if e.locked then [SPACE, 'L' as int] else []) + (if e.crcOk then [] else [SPACE, '?' as int])
  }

  function InfoBody(e: Entry): seq<Byte> {
    Le32(e.load) + Le32(e.exec) + Le32(e.length) + [(if e.locked then 1 else 0) + (if e.crcOk then 0 else 2)]
    + (if |e.name| <= 16 then e.name else e.name[..16]) + [0]
  }

  // ----- commands

  function OpenReply(s: State, capacity: nat): Reply {
    match s.session.container
    case None => Reply(ERR_PARAM, [])
    case Some(c) =>
      if capacity < 4 then Reply(ERR_RANGE, []) else Reply(OK, [c.kind, |c.entries| % 0x100, c.total % 0x100, c.boot])
  }

  function CatStep(s: State, capacity: nat): (State, Reply) {
    match s.session.container
    case None => (s, Reply(ERR_PARAM, []))
    case Some(c) =>
      if s.session.catCursor >= |c.entries| then (s, Reply(EOF, []))
      else
        var line := FormatEntry(c.entries[s.session.catCursor]);
        if |line| + 1 > capacity then (s, Reply(ERR_RANGE, []))
        else (s.(session := s.session.(catCursor := s.session.catCursor + 1)), Reply(OK, line + [0x0D]))
  }

  function InfoReply(s: State, index: Byte, capacity: nat): Reply {
    match s.session.container
    case None => Reply(ERR_PARAM, [])
    case Some(c) =>
      if index >= |c.entries| || capacity < 29 then Reply(ERR_RANGE, []) else Reply(OK, InfoBody(c.entries[index]))
  }

  /** Whether a READ must extract: no live stream, or another index. */
  predicate MustExtract(s: State, index: Byte) {
    !s.stream.valid || s.stream.index != index || s.session.readIndex != index
  }

  /** The state in which a READ looks for its window, or the status with which it fails. A failed
      extraction empties the buffer. */
  function Started(s: State, c: Container, index: Byte): (State, Byte) {
    if !MustExtract(s, index) then (s, OK)
    else
      match c.extract(index)
      case Success(data) =>
        (State(s.session.(readIndex := index, readOffset := 0), Stream(data, index, true)), OK)
      case Failure(status) =>
        (s.(stream := s.stream.(data := [])), if status == Tape.ErrRange then ERR_RANGE else ERR_FORMAT)
  }

  function WindowSize(remaining: nat, capacity: nat): nat
    requires capacity >= 4
  {
    var w := if remaining < READ_WINDOW then remaining else READ_WINDOW;
    if w + 4 > capacity then capacity - 4 else w
  }

  function WindowBody(data: seq<Byte>, offset: nat, w: nat): seq<Byte>
    requires offset + w <= |data|
  {
    var remaining := |data| - offset;
    [remaining % 0x100, remaining / 0x100 % 0x100, remaining / 0x1_0000 % 0x100, w % 0x100] + data[offset..offset + w]
  }

  /** The next window of the stream, or its end, which also forgets the stream. */
  function NextWindow(s: State, capacity: nat): (State, Reply)
    requires capacity >= 4
  {
    var at, data := s.session.readOffset, s.stream.data;
    if at >= |data| then
      (State(s.session.(readOffset := 0), s.stream.(valid := false)), Reply(EOF, []))
    else
      var w := WindowSize(|data| - at, capacity);
      (s.(session := s.session.(readOffset := at + w)), Reply(OK, WindowBody(data, at, w)))
  }

  function ReadStep(s: State, index: Byte, capacity: nat): (State, Reply) {
    match s.session.container
    case None => (s, Reply(ERR_PARAM, []))
    case Some(c) =>
      if index >= |c.entries| || capacity < 4 then (s, Reply(ERR_RANGE, []))
      else
        var (s1, status) := Started(s, c, index);
        if status != OK then (s1, Reply(status, [])) else NextWindow(s1, capacity)
  }

  function Clipped(capacity: nat): nat { if capacity > REPLY_MAX then REPLY_MAX else capacity }

  /** media_service_dispatch */
  function Dispatch(s: State, cmd: Command, capacity: nat): (State, Reply) {
    var cap := Clipped(capacity);
    match cmd
    case Open => (s, OpenReply(s, cap))
    case Cat => CatStep(s, cap)
    case Info(index) => (s, InfoReply(s, index, cap))
    case Read(index) => ReadStep(s, index, cap)
    case Close => (State(RESET, s.stream.(valid := false)), Reply(OK, []))
    case Other => (s, Reply(ERR_PARAM, []))
  }

  /** media_service_open: a new session; the static stream is left as it is. */
  function Bind(s: State, c: Result<Container>): (State, Byte) {
    match c
    case Failure(_) => (s.(session := RESET), ERR_FORMAT)
    case Success(container) => (s.(session := RESET.(container := Some(container))), OK)
  }

  /** media_service_open on the bytes of a tape; no bytes at all are a mistake of the caller. */
  function OpenOn(s: State, image: seq<Byte>): (State, Byte) {
    if image == [] then (s.(session := RESET), ERR_PARAM) else Bind(s, UefContainer(image))
  }

  // ----- replies are bounded

  ghost predicate NamesFit(c: Container) {
    forall i | 0 <= i < |c.entries| :: |c.entries[i].name| <= 15
  }

  /** No reply exceeds the services response window, nor the capacity the host gave. */
  lemma RepliesAreBounded(s: State, cmd: Command, capacity: nat)
    requires s.session.container.Some? ==> NamesFit(s.session.container.value)
    ensures |Dispatch(s, cmd, capacity).1.body| <= REPLY_MAX && |Dispatch(s, cmd, capacity).1.body| <= capacity
  {
    hide FormatEntry;
    if s.session.container.Some? && cmd.Cat? && s.session.catCursor < |s.session.container.value.entries| {
      LineIsShort(s.session.container.value.entries[s.session.catCursor]);
    }
  }

  lemma TapeRepliesAreBounded(image: seq<Byte>, s: State, cmd: Command, capacity: nat)
    requires UefContainer(image).Success? && s.session.container == Some(UefContainer(image).value)
    ensures |Dispatch(s, cmd, capacity).1.body| <= REPLY_MAX && |Dispatch(s, cmd, capacity).1.body| <= capacity
  {
    hide CatalogueOf, Dispatch;
    CatalogueNamesFit(image, Some(MAX_ENTRIES));
    RepliesAreBounded(s, cmd, capacity);
  }

  lemma LineIsShort(e: Entry)
    ensures |FormatEntry(e)| <= 40
  {
  }

  // ----- the object

  class MediaService {
    var container: Option<Container>
    var catCursor: nat
    var readIndex: nat
    var readOffset: nat
    var streamData: seq<Byte>
    var streamIndex: nat
    var streamValid: bool

    ghost function View(): State
      reads this
    {
      State(Session(container, catCursor, readIndex, readOffset), Stream(streamData, streamIndex, streamValid))
    }

    constructor ()
      ensures View() == State(RESET, Stream([], 0, false))
    {
      container, catCursor, readIndex, readOffset := None, 0, 0, 0;
      streamData, streamIndex, streamValid := [], 0, false;
    }

    method Reset()
      modifies this`container, this`catCursor, this`readIndex, this`readOffset
      ensures View() == State(RESET, old(View()).stream)
    {
      container, catCursor, readIndex, readOffset := None, 0, 0, 0;
    }

    /** media_service_open on a tape image. */
    method OpenTape(image: seq<Byte>) returns (status: Byte)
      modifies this`container, this`catCursor, this`readIndex, this`readOffset
      ensures (View(), status) == OpenOn(old(View()), image)
    {
      hide CatalogueOf, Extractor;
      Reset();
      if image == [] {
        return ERR_PARAM;
      }
      var r := CatalogueUef(image, Some(MAX_ENTRIES));
      if r.Failure? {
        return ERR_FORMAT;
      }
      container := Some(Container(1, r.value.entries, r.value.total, 0, Extractor(image)));
      return OK;
    }

    method DispatchRead(index: Byte, capacity: nat) returns (r: Reply)
      modifies this`readIndex, this`readOffset, this`streamData, this`streamIndex, this`streamValid
      ensures (View(), r) == ReadStep(old(View()), index, capacity)
    {
      hide WindowBody;
      if container.None? {
        return Reply(ERR_PARAM, []);
      }
      if index >= |container.value.entries| || capacity < 4 {
        return Reply(ERR_RANGE, []);
      }
      if !streamValid || streamIndex != index || readIndex != index {
        var extracted := container.value.extract(index);
        if extracted.Failure? {
          streamData := [];
          return Reply(if extracted.status == Tape.ErrRange then ERR_RANGE else ERR_FORMAT, []);
        }
        streamData, streamIndex, streamValid := extracted.value, index, true;
        readIndex, readOffset := index, 0;
      }
      if readOffset >= |streamData| {
        readOffset, streamValid := 0, false;
        return Reply(EOF, []);
      }
      var remaining := |streamData| - readOffset;
      var window := if remaining < READ_WINDOW then remaining else READ_WINDOW;
      if window + 4 > capacity {
        window := capacity - 4;
      }
      r := Reply(OK, WindowBody(streamData, readOffset, window));
      readOffset := readOffset + window;
    }

    method DispatchCat(capacity: nat) returns (r: Reply)
      modifies this`catCursor
      ensures (View(), r) == CatStep(old(View()), capacity)
    {
      hide FormatEntry;
      if container.None? {
        return Reply(ERR_PARAM, []);
      }
      if catCursor >= |container.value.entries| {
        return Reply(EOF, []);
      }
      var line := FormatEntry(container.value.entries[catCursor]);
      if |line| + 1 > capacity {
        return Reply(ERR_RANGE, []);
      }
      catCursor := catCursor + 1;
      return Reply(OK, line + [0x0D]);
    }

    /** media_service_dispatch */
    method DispatchCommand(cmd: Command, capacity: nat) returns (r: Reply)
      modifies this
      ensures (View(), r) == Dispatch(old(View()), cmd, capacity)
    {
      hide ReadStep, CatStep, InfoReply, OpenReply;
      var cap := if capacity > REPLY_MAX then REPLY_MAX else capacity;
      match cmd {
        case Open => r := OpenReply(State(Session(container, catCursor, readIndex, readOffset),
                                          Stream(streamData, streamIndex, streamValid)), cap);
        case Cat => r := DispatchCat(cap);
        case Info(index) => r := InfoReply(State(Session(container, catCursor, readIndex, readOffset),
                                                 Stream(streamData, streamIndex, streamValid)), index, cap);
        case Read(index) => r := DispatchRead(index, cap);
        case Close =>
          streamValid := false;
          Reset();
          r := Reply(OK, []);
        case Other => r := Reply(ERR_PARAM, []);
      }
    }
  }
}
