/** What a host reads out of the replies to OPEN, CAT and INFO, taken apart byte by byte and column
    by column as the host takes them apart; and a recorded tape all the way to those replies. */
module MediaReplies {
  import opened Bytes
  import opened Framing
  import opened MediaFiles
  import opened MediaService
  import opened MediaStreams
  import opened TapeWriter
  import Tape = MediaCatalogue

  // ----- numbers in a line

  /** The value of a hexadecimal digit, as a host reads it. */
  function DigitValue(c: Byte): nat {
    if 0x30 <= c <= 0x39 then c - 0x30 else if 0x41 <= c <= 0x46 then c - 0x37 else 0
  }

  function Number(text: seq<Byte>): nat {
    if text == [] then 0 else 16 * Number(text[..|text| - 1]) + DigitValue(text[|text| - 1])
  }

  function Pow16(n: nat): (p: nat)
    ensures p > 0
  {
    if n == 0 then 1 else 16 * Pow16(n - 1)
  }

  lemma Unique(n: int, q: int, x: int, k: int, m: int)
    requires n * q + x == n * k + m && 0 <= x < n && 0 <= m < n
    ensures x == m
  {
    Difference(n, q, k);
    if q > k {
      AtLeast(n, q - k);
    } else if q < k {
      AtLeast(n, k - q);
      Difference(n, k, q);
    }
  }

  lemma Difference(n: int, q: int, k: int)
    ensures n * (q - k) == n * q - n * k
  {
  }

  lemma AtLeast(n: int, d: int)
    requires n > 0 && d >= 1
    ensures n * d >= n
  {
  }

  lemma DivMod(v: nat, n: nat)
    requires n > 0
    ensures v == n * (v / n) + v % n && v % n < n
  {
  }

  lemma RemainderIs(v: nat, n: nat, q: nat, x: nat)
    requires n > 0 && v == n * q + x && x < n
    ensures v % n == x
  {
    DivMod(v, n);
    Unique(n, q, x, v / n, v % n);
  }

  lemma LastDigit(v: nat, p: nat)
    requires p > 0
    ensures v % (16 * p) == 16 * (v / 16 % p) + v % 16
  {
    var q, r := v / 16 / p, v / 16 % p;
    assert v / 16 == p * q + r;
    assert v == 16 * (p * q + r) + v % 16;
    assert 16 * (p * q + r) == (16 * p) * q + 16 * r;
    RemainderIs(v, 16 * p, q, 16 * r + v % 16);
  }

  /** Digits read back as the number, less what is too high for them. */
  lemma {:induction false} HexReadsBack(value: nat, digits: nat)
    ensures Number(Hex(value, digits)) == value % Pow16(digits)
    decreases digits
  {
    if digits != 0 {
      HexReadsBack(value / 16, digits - 1);
      assert Hex(value, digits)[..digits - 1] == Hex(value / 16, digits - 1);
      LastDigit(value, Pow16(digits - 1));
    }
  }

  lemma Powers()
    ensures Pow16(8) == 0x1_0000_0000 && Pow16(6) == 0x100_0000
  {
    assert Pow16(4) == 0x1_0000;
  }

  // ----- a line of the catalogue

  /** A line as a host prints and scans it: the name, cut to eleven characters, in a field of twelve;
      load and execution address in eight digits; the length in six; then the lock and the CRC. */
  ghost predicate LineShows(line: seq<Byte>, e: Entry) {
    var n := if |e.name| <= 11 then |e.name| else 11;
    && |line| >= 36 && line[..n] == e.name[..n] && (forall i | n <= i < 12 :: line[i] == 0x20)
    && Number(line[12..20]) == e.load && line[20] == 0x20
    && Number(line[21..29]) == e.exec && line[29] == 0x20
    && Number(line[30..36]) == e.length % 0x100_0000
    && line[36..] == (if e.locked then [0x20, 0x4C] else []) + (if e.crcOk then [] else [0x20, 0x3F])
  }

  lemma LineParts(name: seq<Byte>, gap: seq<Byte>, load: seq<Byte>, exec: seq<Byte>, length: seq<Byte>, lock: seq<Byte>, crc: seq<Byte>)
    requires |name| + |gap| == 12 && |load| == |exec| == 8 && |length| == 6
    ensures var line := name + gap + load + [0x20] + exec + [0x20] + length + lock + crc;
            && |line| >= 36 && line[..|name|] == name && line[|name|..12] == gap
            && line[12..20] == load && line[20] == 0x20 && line[21..29] == exec && line[29] == 0x20
            && line[30..36] == length && line[36..] == lock + crc
  {
    var line := name + gap + load + [0x20] + exec + [0x20] + length + lock + crc;
    assert line == name + (gap + (load + ([0x20] + (exec + ([0x20] + (length + (lock + crc)))))));
  }

  lemma {:induction false} SpacesAre(n: nat)
    ensures forall i | 0 <= i < n :: Spaces(n)[i] == 0x20
  {
    if n != 0 {
      SpacesAre(n - 1);
    }
  }

  lemma NumbersShow(e: Entry)
    requires e.load < 0x1_0000_0000 && e.exec < 0x1_0000_0000
    ensures Number(Hex(e.load, 8)) == e.load && Number(Hex(e.exec, 8)) == e.exec
    ensures Number(Hex(e.length, 6)) == e.length % 0x100_0000
  {
    hide Hex, Number, Pow16;
    Powers();
    HexReadsBack(e.load, 8);
    HexReadsBack(e.exec, 8);
    HexReadsBack(e.length, 6);
  }

  function NameShown(e: Entry): seq<Byte> {
    if |e.name| <= 11 then e.name else e.name[..11]
  }

  /** The columns of a line, still as they were written. */
  ghost predicate Columns(line: seq<Byte>, e: Entry) {
    var n := |NameShown(e)|;
    && n <= 11 && |line| >= 36 && line[..n] == NameShown(e) && line[n..12] == Spaces(12 - n)
    && line[12..20] == Hex(e.load, 8) && line[20] == 0x20 && line[21..29] == Hex(e.exec, 8) && line[29] == 0x20
    && line[30..36] == Hex(e.length, 6)
    && line[36..] == (if e.locked then [0x20, 0x4C] else []) + (if e.crcOk then [] else [0x20, 0x3F])
  }

  lemma FormatHasColumns(e: Entry)
    ensures Columns(FormatEntry(e), e)
  {
    hide Hex, Spaces;
    LineParts(NameShown(e), Spaces(12 - |NameShown(e)|), Hex(e.load, 8), Hex(e.exec, 8), Hex(e.length, 6),
              if e.locked then [0x20, 0x4C] else [], if e.crcOk then [] else [0x20, 0x3F]);
  }

  lemma FormatShows(e: Entry)
    requires e.load < 0x1_0000_0000 && e.exec < 0x1_0000_0000
    ensures LineShows(FormatEntry(e), e)
  {
    hide Hex, Number, Spaces, FormatEntry;
    var line, n := FormatEntry(e), |NameShown(e)|;
    FormatHasColumns(e);
    NumbersShow(e);
    SpacesAre(12 - n);
    forall i | n <= i < 12 ensures line[i] == 0x20 { assert line[i] == line[n..12][i - n]; }
  }

  // ----- the replies

  ghost predicate Addressed(c: Container) {
    forall i | 0 <= i < |c.entries| ::
      c.entries[i].load < 0x1_0000_0000 && c.entries[i].exec < 0x1_0000_0000 && |c.entries[i].name| <= 15
  }

  /** CAT gives the lines of the entries one after another, each ended by CR, then EOF for good. */
  lemma CatShows(s: State, capacity: nat)
    requires s.session.container.Some? && Addressed(s.session.container.value) && capacity >= 41
    ensures var entries, at := s.session.container.value.entries, s.session.catCursor;
            var (s2, r) := Dispatch(s, Cat, capacity);
            if at >= |entries| then r == Reply(0x20, []) && s2 == s
            else
              && r.status == 0 && |r.body| >= 37 && r.body[|r.body| - 1] == 0x0D
              && LineShows(r.body[..|r.body| - 1], entries[at])
              && s2 == s.(session := s.session.(catCursor := at + 1))
  {
    hide FormatEntry, LineShows;
    var entries, at := s.session.container.value.entries, s.session.catCursor;
    if at < |entries| {
      var line := FormatEntry(entries[at]);
      FormatShows(entries[at]);
      assert (line + [0x0D])[..|line|] == line;
    }
  }

  function Cats(qs: seq<Request>): nat {
    if qs == [] then 0 else (if qs[0].cmd.Cat? then 1 else 0) + Cats(qs[1..])
  }

  /** The catalogue cursor counts the CATs, whatever else is asked in between. */
  lemma {:induction false} CatsAreCounted(s: State, qs: seq<Request>)
    requires s.session.container.Some? && Stays(qs) && (forall i | 0 <= i < |qs| :: qs[i].cmd.Cat? ==> qs[i].capacity >= 41)
    requires s.session.catCursor <= |s.session.container.value.entries|
    ensures var last, n := Serve(s, qs), |s.session.container.value.entries|;
            && last.session.container == s.session.container
            && last.session.catCursor == if s.session.catCursor + Cats(qs) < n then s.session.catCursor + Cats(qs) else n
    decreases |qs|
  {
    hide Dispatch;
    if qs != [] {
      CursorStep(s, qs[0]);
      CatsAreCounted(Dispatch(s, qs[0].cmd, qs[0].capacity).0, qs[1..]);
    }
  }

  lemma CursorStep(s: State, q: Request)
    requires s.session.container.Some? && !q.cmd.Close? && (q.cmd.Cat? ==> q.capacity >= 41)
    ensures var s2 := Dispatch(s, q.cmd, q.capacity).0;
            && s2.session.container == s.session.container
            && s2.session.catCursor ==
               s.session.catCursor + if q.cmd.Cat? && s.session.catCursor < |s.session.container.value.entries| then 1 else 0
  {
    hide FormatEntry, InfoReply, WindowBody;
    if q.cmd.Cat? && s.session.catCursor < |s.session.container.value.entries| {
      LineIsShort(s.session.container.value.entries[s.session.catCursor]);
    }
  }

  /** A little-endian number of four bytes, as a host adds it up. */
  function Long(b: seq<Byte>, at: nat): nat
    requires at + 4 <= |b|
  {
    b[at] as int + 256 * (b[at + 1] as int + 256 * (b[at + 2] as int + 256 * b[at + 3] as int))
  }

  /** INFO as a host takes it apart: addresses, length, the two flags, and the name up to its NUL. */
  ghost predicate InfoShows(body: seq<Byte>, e: Entry) {
    && |body| == 14 + |e.name|
    && Long(body, 0) == e.load && Long(body, 4) == e.exec && Long(body, 8) == e.length
    && (body[12] % 2 == 1 <==> e.locked) && (body[12] / 2 == 1 <==> !e.crcOk) && body[12] < 4
    && body[13..13 + |e.name|] == e.name && body[13 + |e.name|] == 0
  }

  lemma LongOf(v: nat)
    requires v < 0x1_0000_0000
    ensures Long(Le32(v), 0) == v
  {
    var (x, y, z) := (v / 0x100, v / 0x1_0000, v / 0x100_0000);
    assert v == v % 0x100 + 0x100 * x;
    assert x / 0x100 == y && x == x % 0x100 + 0x100 * y;
    assert y / 0x100 == z && y == y % 0x100 + 0x100 * z;
    assert z % 0x100 == z;
  }

  lemma LongInside(a: seq<Byte>, b: seq<Byte>, c: seq<Byte>)
    requires |b| == 4
    ensures Long(a + b + c, |a|) == Long(b, 0)
  {
  }

  lemma InfoParts(a: seq<Byte>, b: seq<Byte>, c: seq<Byte>, flags: Byte, name: seq<Byte>)
    requires |a| == |b| == |c| == 4
    ensures var body := a + b + c + [flags] + name + [0];
            && |body| == 14 + |name| && body[12] == flags && body[13..13 + |name|] == name && body[13 + |name|] == 0
            && Long(body, 0) == Long(a, 0) && Long(body, 4) == Long(b, 0) && Long(body, 8) == Long(c, 0)
  {
    hide Long;
    var rest := [flags] + name + [0];
    var body := a + b + c + [flags] + name + [0];
    assert body == [] + a + (b + (c + rest));
    LongInside([], a, b + (c + rest));
    assert body == a + b + (c + rest);
    LongInside(a, b, c + rest);
    assert body == a + b + c + rest;
    LongInside(a + b, c, rest);
  }

  lemma InfoIs(e: Entry)
    requires e.load < 0x1_0000_0000 && e.exec < 0x1_0000_0000 && e.length < 0x1_0000_0000 && |e.name| <= 15
    ensures InfoShows(InfoBody(e), e)
  {
    hide Le32, Long;
    LongOf(e.load);
    LongOf(e.exec);
    LongOf(e.length);
    InfoParts(Le32(e.load), Le32(e.exec), Le32(e.length), (if e.locked then 1 else 0) + (if e.crcOk then 0 else 2), e.name);
  }

  /** INFO shows the entry, and refuses an index that is not listed or a reply without room. */
  lemma InfoReplies(s: State, index: Byte, capacity: nat)
    requires s.session.container.Some? && Addressed(s.session.container.value)
    requires forall i | 0 <= i < |s.session.container.value.entries| :: s.session.container.value.entries[i].length < 0x1_0000_0000
    ensures var entries := s.session.container.value.entries;
            var (s2, r) := Dispatch(s, Info(index), capacity);
            && s2 == s
            && if index >= |entries| || capacity < 29 then r == Reply(0x2B, [])
               else r.status == 0 && InfoShows(r.body, entries[index])
  {
    hide InfoBody, InfoShows;
    var entries := s.session.container.value.entries;
    if index < |entries| {
      InfoIs(entries[index]);
    }
  }

  // ----- a recorded tape

  /** The container of a recorded tape holds its files, at most 128 of them, and their number. */
  ghost predicate Holds(c: Container, files: seq<seq<Record>>)
    requires AllFiles(files)
  {
    && c.kind == 1 && c.boot == 0 && c.total == |files| && |c.entries| == (if |files| < 128 then |files| else 128)
    && forall f | 0 <= f < |c.entries| :: Lists(c.entries[f], files[f])
  }

  lemma RecordedTapeHolds(version: seq<Byte>, chunks: seq<Chunk>, files: seq<seq<Record>>)
    requires |version| == 2 && AllWritable(chunks) && AllFiles(files) && Records(chunks) == Concat(files) && files != []
    ensures var c := UefContainer(Image(version, chunks)); c.Success? && Holds(c.value, files)
  {
    hide CatalogueOf, Lists, Image, ExtractOf, AllWritable, AllFiles;
    assert Image(version, chunks) + [] == Image(version, chunks);
    TapeReadsBack(version, chunks, [], files, 128, 0, 0);
    var entries := CatalogueOf(Image(version, chunks), Some(128)).value.entries;
    forall f | 0 <= f < |entries|
      ensures IsFile(files[f]) && Lists(entries[f], files[f])
    {
      TapeReadsBack(version, chunks, [], files, 128, f, 0);
      FileAt(files, f);
    }
  }

  lemma FileAt(files: seq<seq<Record>>, f: nat)
    requires AllFiles(files) && f < |files|
    ensures IsFile(files[f])
  {
  }

  /** The session that a recorded tape opens, as OPEN tells of it. */
  ghost predicate OpensOn(s: State, status: Byte, files: seq<seq<Record>>)
    requires AllFiles(files)
  {
    && status == 0 && s.session.container.Some? && s.session.catCursor == 0
    && Holds(s.session.container.value, files) && Addressed(s.session.container.value)
    && Dispatch(s, Open, 240).1 == Reply(0, [1, if |files| < 128 then |files| else 128, |files| % 256, 0])
  }

  /** Opening a recorded tape succeeds, and OPEN then tells how many files it has; CAT and INFO show
      each of them by CatShows and InfoReplies. */
  lemma RecordedTapeIsShown(version: seq<Byte>, chunks: seq<Chunk>, files: seq<seq<Record>>, before: State)
    requires |version| == 2 && AllWritable(chunks) && AllFiles(files) && Records(chunks) == Concat(files) && files != []
    ensures OpensOn(OpenOn(before, Image(version, chunks)).0, OpenOn(before, Image(version, chunks)).1, files)
  {
    hide Holds, Image, UefContainer, AllWritable, AllFiles, Addressed, Records, Concat;
    RecordedTapeHolds(version, chunks, files);
    ImageIsLong(version, chunks);
    HeldIsAddressed(UefContainer(Image(version, chunks)).value, files);
  }

  lemma HeldIsAddressed(c: Container, files: seq<seq<Record>>)
    requires AllFiles(files) && Holds(c, files)
    ensures Addressed(c) && c.kind == 1 && c.boot == 0 && c.total == |files|
    ensures |c.entries| == if |files| < 128 then |files| else 128
  {
    hide Contents;
    forall f | 0 <= f < |c.entries|
      ensures c.entries[f].load < 0x1_0000_0000 && c.entries[f].exec < 0x1_0000_0000 && |c.entries[f].name| <= 15
    {
      assert IsFile(files[f]);
      assert Recordable(files[f][0]);
    }
  }

  lemma ImageIsLong(version: seq<Byte>, chunks: seq<Chunk>)
    requires |version| == 2
    ensures Image(version, chunks) != []
  {
  }

  /** Reading one of its files through gives the contents that were recorded, unless the entry read is
      the first and a stream of a first entry was left live. */
  lemma RecordedTapeIsRead(version: seq<Byte>, chunks: seq<Chunk>, files: seq<seq<Record>>, before: State, index: Byte,
                           qs: seq<Request>)
    requires |version| == 2 && AllWritable(chunks) && AllFiles(files) && Records(chunks) == Concat(files)
    requires index < |files| && index < 128 && |Contents(files[index])| <= 65536
    requires |before.stream.data| <= 65536 && AllStream(qs, index) && !(Inherits(before) && index == 0)
    ensures UefContainer(Image(version, chunks)).Success?
    ensures var ended := Observed(before, UefContainer(Image(version, chunks)).value, qs).ended;
            && (forall i | 0 <= i < |ended| :: ended[i].bytes == Contents(files[index]))
            && (ReadCount(qs) > |Contents(files[index])| ==> ended != [])
  {
    hide CatalogueOf, Lists, Image, ExtractOf, Observed, Buffered;
    var image := Image(version, chunks);
    assert image + [] == image;
    TapeReadsBack(version, chunks, [], files, 128, index, 65536);
    TapeIsBuffered(image);
    TapeEntries(image);
    FileAfterOpen(before, UefContainer(image).value, index, Contents(files[index]), qs);
  }

  /** What is not a tape is not opened: no bytes at all, or bytes without the magic. */
  lemma OthersAreNotOpened(before: State, image: seq<Byte>)
    requires |image| < 12 || image[..10] != [0x55, 0x45, 0x46, 0x20, 0x46, 0x69, 0x6C, 0x65, 0x21, 0x00]
    ensures var (s, status) := OpenOn(before, image);
            status == (if image == [] then 0x23 else 0x27) && s.session.container.None? && s.stream == before.stream
  {
  }

  /** CLOSE forgets the session and its stream; from then on only an opening helps. */
  lemma ClosedIsClosed(s: State, capacity: nat, cmd: Command)
    ensures var (closed, r) := Dispatch(s, Close, capacity);
            && r == Reply(0, []) && closed.session.container.None? && !closed.stream.valid
            && (!cmd.Close? ==> Dispatch(closed, cmd, capacity) == (closed, Reply(0x23, [])))
  {
  }
}
