/** Tapes as a recorder writes them, and what the catalogue, the extractor and the repair make of
    them. The bytes of a block are laid out here on their own account; nothing in this module's
    layout is taken from the readers. */
module TapeWriter {
  import opened Bytes
  import opened Framing
  import TapeCrc
  import opened UefRepair
  import Tape = MediaCatalogue
  import opened MediaFiles

  // ----- one block

  /** A block as it is recorded. `next` is the four bytes the readers skip; the two CRCs are whatever
      stands on the tape. */
  datatype Record = Record(
    name: seq<Byte>, load: nat, exec: nat, number: nat, flags: Byte, next: seq<Byte>, headerCrc: seq<Byte>,
    data: seq<Byte>, dataCrc: seq<Byte>)

  predicate Recordable(r: Record) {
    && |r.name| <= 15 && (forall i | 0 <= i < |r.name| :: r.name[i] != 0)
    && r.load < 0x1_0000_0000 && r.exec < 0x1_0000_0000 && r.number < 0x1_0000 && |r.data| < 0x1_0000
    && |r.next| == 4 && |r.headerCrc| == 2 && |r.dataCrc| == 2
  }

  /** Load and execution addresses, block number, length, flags and four more bytes. */
  function Descriptor(r: Record): (d: seq<Byte>)
    ensures |d| == 13 + |r.next|
  {
    Le32(r.load) + (Le32(r.exec) + (Le16(r.number) + (Le16(|r.data|) + ([r.flags] + r.next))))
  }

  /** What the header CRC covers: the name, its NUL and the descriptor. */
  function Header(r: Record): seq<Byte> {
    r.name + ([0] + Descriptor(r))
  }

  function Tail(r: Record): seq<Byte> {
    if r.data == [] then [] else r.data + r.dataCrc
  }

  function Recorded(r: Record): seq<Byte> {
    [0x2A] + (Header(r) + (r.headerCrc + Tail(r)))
  }

  /** Whether a CRC of these two bytes is that of the data, read low byte first. */
  predicate Verifies(crc: seq<Byte>, data: seq<Byte>)
    requires |crc| == 2
  {
    [crc[1], crc[0]] == TapeCrc.Stored(TapeCrc.Crc(data))
  }

  /** The block a reader should find. */
  function BlockOf(r: Record): Tape.Block
    requires Recordable(r)
  {
    Tape.Block(r.name, r.load, r.exec, r.number, r.flags, r.data,
               Verifies(r.headerCrc, Header(r)) && (r.data == [] || Verifies(r.dataCrc, r.data)))
  }

  // ----- the catalogue's decoder reads it back

  lemma {:induction false} NameEndsAtNul(name: seq<Byte>, s: seq<Byte>, k: nat)
    requires 1 <= k <= |name| + 1 <= 16 && |s| > |name| + 1 && s[1..|name| + 1] == name && s[|name| + 1] == 0
    requires forall i | 0 <= i < |name| :: name[i] != 0
    ensures Tape.NameEnd(s, k) == |name| + 1
    decreases |name| + 1 - k
  {
    if k <= |name| {
      assert s[k] == s[1..|name| + 1][k - 1];
      NameEndsAtNul(name, s, k + 1);
    }
  }

  /** Where the parts of a block lie. */
  lemma Layout(r: Record, rest: seq<Byte>)
    requires Recordable(r)
    ensures var s, d := Recorded(r) + rest, |r.name| + 2;
            && |Recorded(r)| == d + 19 + |Tail(r)|
            && s[0] == 0x2A && s[1..d - 1] == r.name && s[d - 1] == 0
            && s[1..d + 17] == Header(r) && s[d..d + 17] == Descriptor(r)
            && s[d + 17..d + 19] == r.headerCrc && s[d + 19..] == Tail(r) + rest
  {
    hide Descriptor;
    var s, d := Recorded(r) + rest, |r.name| + 2;
    Layers([0x2A], Header(r), r.headerCrc, Tail(r), rest);
    assert Header(r)[..|r.name|] == r.name && Header(r)[|r.name|] == 0 && Header(r)[|r.name| + 1..] == Descriptor(r);
    assert s[1..d - 1] == s[1..d + 17][..|r.name|];
    assert s[d - 1] == s[1..d + 17][|r.name|];
    assert s[d..d + 17] == s[1..d + 17][|r.name| + 1..];
  }

  lemma Layers(a: seq<Byte>, b: seq<Byte>, c: seq<Byte>, e: seq<Byte>, rest: seq<Byte>)
    ensures var s := (a + (b + (c + e))) + rest;
            && s[..|a|] == a && s[|a|..|a| + |b|] == b && s[|a| + |b|..|a| + |b| + |c|] == c
            && s[|a| + |b| + |c|..] == e + rest
  {
    var s := (a + (b + (c + e))) + rest;
    assert s == a + (b + (c + (e + rest)));
  }

  /** The fields of a descriptor, each at its place. */
  lemma DescriptorFields(r: Record)
    requires Recordable(r)
    ensures var d := Descriptor(r);
            && Rd32(d, 0) == r.load && Rd32(d, 4) == r.exec && Rd16(d, 8) == r.number
            && Rd16(d, 10) == |r.data| && d[12] == r.flags
  {
    hide Le16, Le32, Rd16, Rd32;
    var a, b, c, e, f := Le32(r.load), Le32(r.exec), Le16(r.number), Le16(|r.data|), [r.flags] + r.next;
    var d := Descriptor(r);
    Le32ReadsBack(r.load);
    Le32ReadsBack(r.exec);
    Le16ReadsBack(r.number);
    Le16ReadsBack(|r.data|);
    assert d == [] + a + (b + (c + (e + f)));
    Rd32Inside([], a, b + (c + (e + f)));
    assert d == a + b + (c + (e + f));
    Rd32Inside(a, b, c + (e + f));
    assert d == a + b + c + (e + f);
    Rd16Inside(a + b, c, e + f);
    assert d == a + b + c + e + f;
    Rd16Inside(a + b + c, e, f);
    assert d[12] == f[0];
  }

  lemma FieldsInPlace(s: seq<Byte>, d: nat, descriptor: seq<Byte>)
    requires d + 17 <= |s| && s[d..d + 17] == descriptor
    ensures Rd32(s, d) == Rd32(descriptor, 0) && Rd32(s, d + 4) == Rd32(descriptor, 4)
    ensures Rd16(s, d + 8) == Rd16(descriptor, 8) && Rd16(s, d + 10) == Rd16(descriptor, 10) && s[d + 12] == descriptor[12]
  {
    forall i | 0 <= i < 17 ensures s[d + i] == descriptor[i] { assert s[d..d + 17][i] == s[d + i]; }
  }

  lemma CrcInPlace(s: seq<Byte>, at: nat, crc: seq<Byte>, data: seq<Byte>)
    requires at + 2 <= |s| && s[at..at + 2] == crc
    ensures Tape.CrcReads(s, at, data) <==> Verifies(crc, data)
  {
    hide TapeCrc.Crc, TapeCrc.Stored;
    assert s[at] == s[at..at + 2][0] && s[at + 1] == s[at..at + 2][1];
  }

  /** The decoder returns exactly what was recorded, whatever follows. */
  lemma DecodeReadsBack(r: Record, rest: seq<Byte>)
    requires Recordable(r)
    ensures Tape.Decode(Recorded(r) + rest) == Some(Tape.Decoded(BlockOf(r), |Recorded(r)|))
  {
    hide Recorded, Header, Descriptor, Tape.CrcReads, Verifies, Rd16, Rd32, Tape.Fields;
    var s, d := Recorded(r) + rest, |r.name| + 2;
    Layout(r, rest);
    NameEndsAtNul(r.name, s, 1);
    FieldsReadBack(r, rest);
  }

  lemma FieldsReadBack(r: Record, rest: seq<Byte>)
    requires Recordable(r)
    ensures |r.name| + 21 <= |Recorded(r) + rest|
    ensures Tape.Fields(Recorded(r) + rest, |r.name| + 2) == Some(Tape.Decoded(BlockOf(r), |Recorded(r)|))
  {
    hide Recorded, Header, Descriptor, Tape.CrcReads, Verifies, Rd16, Rd32;
    var s, d := Recorded(r) + rest, |r.name| + 2;
    Layout(r, rest);
    DescriptorFields(r);
    FieldsInPlace(s, d, Descriptor(r));
    CrcInPlace(s, d + 17, r.headerCrc, Header(r));
    if r.data != [] {
      var at := d + 19;
      DataInPlace(r, rest);
      CrcInPlace(s, at + |r.data|, r.dataCrc, r.data);
    }
  }

  // ----- a whole image

  /** A chunk of cassette blocks, with bytes behind them that are no block, or a chunk of any other
      type. */
  datatype Chunk = Cassette(records: seq<Record>, junk: seq<Byte>) | Other(kind: nat, body: seq<Byte>)

  predicate AllRecordable(rs: seq<Record>) {
    forall i | 0 <= i < |rs| :: Recordable(rs[i])
  }

  function Body(rs: seq<Record>): seq<Byte> {
    if rs == [] then [] else Recorded(rs[0]) + Body(rs[1..])
  }

  predicate Writable(ch: Chunk) {
    match ch
    case Cassette(rs, junk) => AllRecordable(rs) && (junk != [] ==> junk[0] != 0x2A) && |Body(rs) + junk| < 0x1_0000_0000
    case Other(kind, body) => kind < 0x1_0000 && kind != 0x0100 && |body| < 0x1_0000_0000
  }

  function ChunkBytes(ch: Chunk): seq<Byte> {
    match ch
    case Cassette(rs, junk) => [0x00, 0x01] + (Le32(|Body(rs) + junk|) + (Body(rs) + junk))
    case Other(kind, body) => Le16(kind) + (Le32(|body|) + body)
  }

  function Chunked(chunks: seq<Chunk>): seq<Byte> {
    if chunks == [] then [] else ChunkBytes(chunks[0]) + Chunked(chunks[1..])
  }

  /** "UEF File!" and its NUL, two version bytes, and the chunks. */
  function Image(version: seq<Byte>, chunks: seq<Chunk>): seq<Byte> {
    [0x55, 0x45, 0x46, 0x20, 0x46, 0x69, 0x6C, 0x65, 0x21, 0x00] + version + Chunked(chunks)
  }

  function Records(chunks: seq<Chunk>): seq<Record> {
    if chunks == [] then []
    else (if chunks[0].Cassette? then chunks[0].records else []) + Records(chunks[1..])
  }

  function BlocksOf(rs: seq<Record>): (bs: seq<Tape.Block>)
    requires AllRecordable(rs)
    ensures |bs| == |rs| && forall i | 0 <= i < |rs| :: bs[i] == BlockOf(rs[i])
  {
    if rs == [] then [] else [BlockOf(rs[0])] + BlocksOf(rs[1..])
  }

  lemma {:induction false} BodyReadsBack(rs: seq<Record>, junk: seq<Byte>)
    requires AllRecordable(rs) && (junk != [] ==> junk[0] != 0x2A)
    ensures Tape.Blocks(Body(rs) + junk) == BlocksOf(rs) && Tape.Residue(Body(rs) + junk) == junk
    decreases |rs|
  {
    hide Recorded, BlockOf, Tape.Decode;
    if rs == [] {
      NothingToDecode(junk);
      assert [] + junk == junk;
    } else {
      var rest := Body(rs[1..]) + junk;
      Regroup(Recorded(rs[0]), Body(rs[1..]), junk);
      DecodeReadsBack(rs[0], rest);
      BodyReadsBack(rs[1..], junk);
      assert (Body(rs) + junk)[|Recorded(rs[0])|..] == rest;
    }
  }

  lemma NothingToDecode(junk: seq<Byte>)
    requires junk != [] ==> junk[0] != 0x2A
    ensures Tape.Decode(junk) == None
  {
  }

  lemma ChunkFields(kind: seq<Byte>, body: seq<Byte>, rest: seq<Byte>)
    requires |kind| == 2 && |body| < 0x1_0000_0000
    ensures var c := kind + (Le32(|body|) + body);
            && |c| == 6 + |body| && Rd16(c, 0) == Rd16(kind, 0) && c[6..] == body && ChunkSize(c + rest) == |c|
  {
    hide Le32, Rd16, Rd32;
    var c := kind + (Le32(|body|) + body);
    Le32ReadsBack(|body|);
    assert c == [] + kind + (Le32(|body|) + body);
    Rd16Inside([], kind, Le32(|body|) + body);
    assert c + rest == kind + Le32(|body|) + (body + rest);
    Rd32Inside(kind, Le32(|body|), body + rest);
  }

  /** A chunk is amiss when something other than a block follows its blocks. */
  function Amiss(ch: Chunk): nat {
    if ch.Cassette? && ch.records != [] && ch.junk != [] then 1 else 0
  }

  function Issues(chunks: seq<Chunk>): nat {
    if chunks == [] then 0 else Amiss(chunks[0]) + Issues(chunks[1..])
  }

  /** One chunk: its blocks, whether it is amiss, and its own length whatever follows. */
  lemma ChunkReadsBack(ch: Chunk, rest: seq<Byte>)
    requires Writable(ch)
    ensures var c := ChunkBytes(ch);
            && |c| >= 6 && ChunkSize(c + rest) == |c| && Tape.ChunkIssues(c) == Amiss(ch)
            && Tape.ChunkBlocks(c) == if ch.Cassette? then BlocksOf(ch.records) else []
  {
    hide Body, BlocksOf, Tape.Blocks, Tape.Residue, ChunkSize, Le32;
    match ch {
      case Cassette(rs, junk) =>
        ChunkFields([0x00, 0x01], Body(rs) + junk, rest);
        BodyReadsBack(rs, junk);
        BlocksCount(rs);
      case Other(kind, body) =>
        ChunkFields(Le16(kind), body, rest);
        Le16ReadsBack(kind);
    }
  }

  predicate AllWritable(chunks: seq<Chunk>) {
    forall i | 0 <= i < |chunks| :: Writable(chunks[i])
  }

  lemma {:induction false} RecordsAre(chunks: seq<Chunk>)
    requires AllWritable(chunks)
    ensures AllRecordable(Records(chunks))
    decreases |chunks|
  {
    hide Recordable, Body;
    if chunks != [] {
      assert Writable(chunks[0]);
      RecordsAre(chunks[1..]);
    }
  }

  lemma BlocksJoin(a: seq<Record>, b: seq<Record>)
    requires AllRecordable(a) && AllRecordable(b)
    ensures AllRecordable(a + b) && BlocksOf(a + b) == BlocksOf(a) + BlocksOf(b)
  {
    hide BlockOf, Recordable;
  }

  /** Too little for a chunk: fewer than six bytes, or fewer than the length that they announce. */
  predicate Partial(tail: seq<Byte>) {
    |tail| >= 6 ==> 6 + Rd32(tail, 2) > |tail|
  }

  lemma {:induction false} ChunksReadBack(chunks: seq<Chunk>, tail: seq<Byte>)
    requires AllWritable(chunks) && Partial(tail)
    ensures AllRecordable(Records(chunks))
    ensures var s := Chunked(chunks) + tail;
            && MapConcat(Tape.ChunkBlocks, Split(ChunkSize, s)) == BlocksOf(Records(chunks))
            && Counted(ChunkSize, Tape.ChunkIssues, s) == Issues(chunks) && Rest(ChunkSize, s) == tail
    decreases |chunks|
  {
    hide ChunkBytes, BlocksOf, Tape.ChunkBlocks, Tape.ChunkIssues, ChunkSize, Amiss;
    RecordsAre(chunks);
    if chunks == [] {
      assert ChunkSize(tail) == 0 by { NoChunk(tail); }
      assert [] + tail == tail;
      assert BlocksOf([]) == [];
    } else {
      var c, rest := ChunkBytes(chunks[0]), Chunked(chunks[1..]) + tail;
      assert Writable(chunks[0]);
      ChunkReadsBack(chunks[0], rest);
      ChunksReadBack(chunks[1..], tail);
      Regroup(c, Chunked(chunks[1..]), tail);
      assert (c + rest)[..|c|] == c && (c + rest)[|c|..] == rest;
      MapConcatStep(ChunkSize, Tape.ChunkBlocks, Tape.ChunkIssues, c + rest);
      BlocksJoin(if chunks[0].Cassette? then chunks[0].records else [], Records(chunks[1..]));
      assert BlocksOf([]) == [];
    }
  }

  lemma NoChunk(tail: seq<Byte>)
    requires Partial(tail)
    ensures ChunkSize(tail) == 0
  {
  }

  /** Whether the image ends inside a chunk. */
  predicate CutShort(tail: seq<Byte>) { |tail| >= 6 }

  /** The walk over a recorded image finds its blocks, in order, and counts what is amiss: chunks with
      something behind their blocks, and an end in the middle of a chunk. */
  lemma WalkReadsBack(version: seq<Byte>, chunks: seq<Chunk>, tail: seq<Byte>)
    requires |version| == 2 && AllWritable(chunks) && Partial(tail)
    ensures AllRecordable(Records(chunks))
    ensures Tape.WalkOf(Image(version, chunks) + tail)
         == Tape.Walk(if CutShort(tail) then Tape.ErrTruncated else Tape.Ok, BlocksOf(Records(chunks)),
                      Issues(chunks) + if CutShort(tail) then 1 else 0)
  {
    hide Chunked, BlocksOf, ChunkSize, Tape.ChunkBlocks, Tape.ChunkIssues, Split, Rest, Issues;
    ChunksReadBack(chunks, tail);
    var image := Image(version, chunks) + tail;
    assert image[12..] == Chunked(chunks) + tail;
    assert image[..10] == [0x55, 0x45, 0x46, 0x20, 0x46, 0x69, 0x6C, 0x65, 0x21, 0x00];
  }

  // ----- the files of an image

  /** A file as it is recorded: one block or more, numbered from zero, all of one name. */
  predicate IsFile(file: seq<Record>) {
    && 0 < |file| <= 0x1_0000 && AllRecordable(file)
    && forall i | 0 <= i < |file| :: file[i].name == file[0].name && file[i].number == i
  }

  predicate AllFiles(files: seq<seq<Record>>) {
    forall f | 0 <= f < |files| :: IsFile(files[f])
  }

  function Contents(file: seq<Record>): seq<Byte> {
    if file == [] then [] else Contents(file[..|file| - 1]) + file[|file| - 1].data
  }

  /** Blocks that follow do not change the files before them. */
  lemma {:induction false} FilesBefore(a: seq<Tape.Block>, b: seq<Tape.Block>, n: nat, f: nat)
    requires n <= |a|
    ensures Starts(a + b, n) == Starts(a, n) && FileBlocks(a + b, n, f) == FileBlocks(a, n, f)
    decreases n
  {
    if n != 0 {
      FilesBefore(a, b, n - 1, f);
      assert (a + b)[n - 1] == a[n - 1] && (n > 1 ==> (a + b)[n - 2] == a[n - 2]);
    }
  }

  /** The blocks of one more file, as far as they have come. */
  lemma {:induction false} FileAfter(a: seq<Tape.Block>, t: seq<Tape.Block>, k: nat, f: nat)
    requires k <= |t| && forall i | 0 <= i < |t| :: t[i].name == t[0].name && (t[i].number == 0 <==> i == 0)
    ensures Starts(a + t, |a| + k) == Starts(a, |a|) + (if k > 0 then 1 else 0)
    ensures FileBlocks(a + t, |a| + k, f) == FileBlocks(a, |a|, f) + (if f == Starts(a, |a|) then t[..k] else [])
    decreases k
  {
    if k == 0 {
      FilesBefore(a, t, |a|, f);
    } else {
      FileAfter(a, t, k - 1, f);
      assert (a + t)[|a| + k - 1] == t[k - 1];
      assert k > 1 ==> (a + t)[|a| + k - 2] == t[k - 2];
      assert t[..k] == t[..k - 1] + [t[k - 1]];
    }
  }

  /** Recorded files are the files that the grouping rule finds. */
  lemma {:induction false} FilesAreFound(files: seq<seq<Record>>, f: nat)
    requires AllFiles(files) && f < |files|
    ensures AllRecordable(Concat(files))
    ensures var blocks := BlocksOf(Concat(files));
            && Starts(blocks, |blocks|) == |files| && FileBlocks(blocks, |blocks|, f) == BlocksOf(files[f])
    decreases |files|
  {
    hide BlocksOf, Recordable, FileBlocks, Starts;
    var n := |files| - 1;
    var front, last := files[..n], files[n];
    assert files == front + [last];
    ConcatAppend(front, last);
    FilesCount(front);
    assert IsFile(last);
    BlocksJoin(Concat(front), last);
    var a, t := BlocksOf(Concat(front)), BlocksOf(last);
    LastFile(last);
    FileAfter(a, t, |t|, f);
    FileBegun(a, |a|, f);
    assert t[..|t|] == t;
    if f < n {
      assert AllFiles(front);
      FilesAreFound(front, f);
    } else {
      assert FileBlocks(a, |a|, f) == [];
    }
  }

  lemma LastFile(file: seq<Record>)
    requires IsFile(file)
    ensures var t := BlocksOf(file);
            |t| == |file| && forall i | 0 <= i < |t| :: t[i].name == t[0].name && (t[i].number == 0 <==> i == 0)
  {
    hide Recordable;
    assert forall i | 0 <= i < |file| :: BlocksOf(file)[i] == BlockOf(file[i]);
  }

  lemma {:induction false} FilesCount(files: seq<seq<Record>>)
    requires AllFiles(files)
    ensures AllRecordable(Concat(files))
    ensures Starts(BlocksOf(Concat(files)), |Concat(files)|) == |files|
    decreases |files|
  {
    hide BlocksOf, Recordable, Starts;
    if files == [] {
      assert BlocksOf([]) == [];
      NoneStarted();
    } else {
      var n := |files| - 1;
      var front, last := files[..n], files[n];
      assert files == front + [last];
      ConcatAppend(front, last);
      FilesCount(front);
      assert IsFile(last);
      BlocksJoin(Concat(front), last);
      LastFile(last);
      BlocksCount(Concat(front));
      FileAfter(BlocksOf(Concat(front)), BlocksOf(last), |last|, 0);
    }
  }

  lemma NoneStarted()
    ensures Starts([], 0) == 0
  {
  }

  lemma BlocksCount(rs: seq<Record>)
    requires AllRecordable(rs)
    ensures |BlocksOf(rs)| == |rs|
  {
  }

  lemma {:induction false} ContentsAreData(file: seq<Record>)
    requires AllRecordable(file)
    ensures DataOf(BlocksOf(file)) == Contents(file)
    decreases |file|
  {
    if file != [] {
      var n := |file| - 1;
      assert file == file[..n] + [file[n]];
      assert AllRecordable(file[..n]) && AllRecordable([file[n]]);
      BlocksJoin(file[..n], [file[n]]);
      assert BlocksOf([file[n]]) == [BlockOf(file[n])];
      DataOfAppend(BlocksOf(file[..n]), BlockOf(file[n]));
      ContentsAreData(file[..n]);
    }
  }

  /** What the catalogue should list of a file: the addresses and the lock of its first block, and
      the length and number of all of them. */
  ghost predicate Lists(e: Entry, file: seq<Record>)
    requires IsFile(file)
  {
    && e.name == file[0].name && e.load == file[0].load && e.exec == file[0].exec
    && e.length == |Contents(file)| % 0x1_0000_0000 && e.blocks == |file| % 0x1_0000
    && e.locked == (file[0].flags % 2 == 1)
    && (e.crcOk <==> forall i | 0 <= i < |file| :: BlockOf(file[i]).crcOk)
  }

  lemma EntryLists(file: seq<Record>)
    requires IsFile(file)
    ensures Lists(EntryOf(BlocksOf(file)), file)
  {
    ContentsAreData(file);
    var bs := BlocksOf(file);
    assert bs[0] == BlockOf(file[0]);
    assert forall i | 0 <= i < |file| :: bs[i] == BlockOf(file[i]);
  }

  /** A recorded tape reads back: for every list of files, cut into chunks in any way, with any other
      chunks between them, junk behind the blocks and a cut at the end, the catalogue lists exactly
      these files and counts what is amiss, and extraction returns each file's contents whenever the
      buffer holds them. */
  lemma TapeReadsBack(version: seq<Byte>, chunks: seq<Chunk>, tail: seq<Byte>, files: seq<seq<Record>>, max: nat, f: nat, capacity: nat)
    requires |version| == 2 && AllWritable(chunks) && Partial(tail) && AllFiles(files) && Records(chunks) == Concat(files)
    requires max > 0 && f < |files|
    ensures var c := CatalogueOf(Image(version, chunks) + tail, Some(max));
            && c.Success? && c.value.total == |files|
            && c.value.issues == Issues(chunks) + (if CutShort(tail) then 1 else 0)
            && |c.value.entries| == (if |files| < max then |files| else max)
            && (f < max ==> Lists(c.value.entries[f], files[f]))
    ensures ExtractOf(Image(version, chunks) + tail, f, capacity)
         == if |Contents(files[f])| <= capacity then Success(Contents(files[f])) else Failure(Tape.ErrRange)
    ensures CatalogueOf(Image(version, chunks) + tail, None).Success?
    ensures CatalogueOf(Image(version, chunks) + tail, None).value.total == |files|
    ensures CatalogueOf(Image(version, chunks) + tail, None).value.entries == []
  {
    hide Image, BlocksOf, FileBlocks, Starts, Contents, EntryOf, Lists, Issues;
    WalkReadsBack(version, chunks, tail);
    FilesAreFound(files, f);
    assert IsFile(files[f]);
    EntryLists(files[f]);
    ContentsAreData(files[f]);
  }

  // ----- what the repair makes of a recorded block

  lemma {:induction false} RepairNameEnds(name: seq<Byte>, s: seq<Byte>, k: nat)
    requires 1 <= k <= 12 && k <= |name| + 1 && |name| <= 15 && |s| > |name| + 1 && s[1..|name| + 1] == name && s[|name| + 1] == 0
    requires forall i | 0 <= i < |name| :: name[i] != 0
    ensures UefRepair.NameEnd(s, k) == if |name| <= 11 then |name| + 1 else 12
    decreases 12 - k
  {
    if k <= |name| && k < 12 {
      assert s[k] == s[1..|name| + 1][k - 1];
      RepairNameEnds(name, s, k + 1);
    }
  }

  lemma DataInPlace(r: Record, rest: seq<Byte>)
    requires Recordable(r) && r.data != []
    ensures var s, at := Recorded(r) + rest, |r.name| + 21;
            && at + |r.data| + 2 <= |s| && s[at..at + |r.data|] == r.data
            && s[at + |r.data|..at + |r.data| + 2] == r.dataCrc && s[at + |r.data| + 2..] == rest
  {
    hide Recorded, Header, Descriptor;
    Layout(r, rest);
    var s, at := Recorded(r) + rest, |r.name| + 21;
    assert s[at..] == r.data + (r.dataCrc + rest) by { Regroup(r.data, r.dataCrc, rest); }
    assert s[at..at + |r.data|] == s[at..][..|r.data|] == r.data;
    assert s[at + |r.data|..at + |r.data| + 2] == s[at..][|r.data|..|r.data| + 2] == r.dataCrc;
    assert s[at + |r.data| + 2..] == s[at..][|r.data| + 2..] == rest;
  }

  /** The tests of the repair on a block whose name ends where they look for it. */
  lemma PayloadAt(s: seq<Byte>, e: nat, length: nat)
    requires 1 <= e <= 12 && e + 20 <= |s| && s[0] == STAR && UefRepair.NameEnd(s, 1) == e && s[e] == 0
    requires Rd16(s, e + 11) == length && (length != 0 ==> e + 20 + length + 2 <= |s|)
    ensures Payload(s) == if length != 0 then Some(Extent(e + 20, length)) else None
  {
    hide UefRepair.NameEnd;
  }

  lemma LongName(s: seq<Byte>)
    requires UefRepair.NameEnd(s, 1) == 12 && |s| > 12 && s[12] != 0
    ensures Payload(s) == None
  {
  }

  lemma LengthInPlace(r: Record, rest: seq<Byte>)
    requires Recordable(r)
    ensures |Recorded(r) + rest| >= |r.name| + 21
    ensures Rd16(Recorded(r) + rest, |r.name| + 12) == |r.data|
    ensures r.data != [] ==> |Recorded(r) + rest| >= |r.name| + 23 + |r.data|
  {
    hide Recorded, Header, Descriptor, Rd16, Rd32;
    Layout(r, rest);
    DescriptorFields(r);
    FieldsInPlace(Recorded(r) + rest, |r.name| + 2, Descriptor(r));
  }

  /** The repair finds the payload of a recorded block exactly when it has one and its name has at
      most eleven characters; the catalogue allows fifteen. */
  lemma PayloadIsFound(r: Record, rest: seq<Byte>)
    requires Recordable(r)
    ensures Payload(Recorded(r) + rest)
         == if r.data != [] && |r.name| <= 11 then Some(Extent(|r.name| + 21, |r.data|)) else None
  {
    hide Recorded, Header, Descriptor, Rd16, Rd32, Payload, UefRepair.NameEnd;
    var s, d := Recorded(r) + rest, |r.name| + 2;
    Layout(r, rest);
    RepairNameEnds(r.name, s, 1);
    if |r.name| > 11 {
      assert s[12] == s[1..d - 1][11];
      LongName(s);
    } else {
      LengthInPlace(r, rest);
      PayloadAt(s, d - 1, |r.data|);
    }
  }
  /** The record the repair leaves: the payload redirected and its CRC renewed, high byte first. */
  function RepairedRecord(r: Record): Record {
    if |r.name| <= 11 && Tokens(r.data) != {} then
      r.(data := Redirected(r.data), dataCrc := TapeCrc.Stored(TapeCrc.Crc(Redirected(r.data))))
    else r
  }

  /** A repaired block is the block as a recorder would have written it with the redirected payload;
      what follows it in its chunk is untouched. */
  lemma BlockIsRepaired(r: Record, rest: seq<Byte>)
    requires Recordable(r)
    ensures Recordable(RepairedRecord(r))
    ensures RepairedBody(Recorded(r) + rest) == Recorded(RepairedRecord(r)) + rest
  {
    hide Recorded, Header, Payload, Tokens, Redirected, TapeCrc.Crc, TapeCrc.Stored;
    PayloadIsFound(r, rest);
    NoneInNothing();
    if r.data != [] {
      DataInPlace(r, rest);
    }
    if r.data != [] && |r.name| <= 11 && Tokens(r.data) != {} {
      var fixed := Redirected(r.data);
      var crc := TapeCrc.Stored(TapeCrc.Crc(fixed));
      SameLength(r.data);
      WithPayload(r, rest, fixed, crc);
    }
  }

  lemma NoneInNothing()
    ensures Tokens([]) == {}
  {
  }

  lemma SameLength(d: seq<Byte>)
    ensures |Redirected(d)| == |d|
  {
  }

  lemma WithPayload(r: Record, rest: seq<Byte>, fixed: seq<Byte>, crc: seq<Byte>)
    requires Recordable(r) && r.data != [] && |fixed| == |r.data| && |crc| == 2
    ensures var s, p := Recorded(r) + rest, Extent(|r.name| + 21, |r.data|);
            && p.at + p.length + 2 <= |s|
            && Pieces(s, p, fixed, crc) == Recorded(r.(data := fixed, dataCrc := crc)) + rest
  {
    hide Recorded, Header, Descriptor;
    var q := r.(data := fixed, dataCrc := crc);
    FrontThenData(r, rest);
    FrontThenData(q, rest);
    SameHeader(r, fixed, crc);
    Replaced(Front(r), r.data, r.dataCrc, rest, fixed, crc);
  }

  /** The bytes of a block before its payload. */
  function Front(r: Record): seq<Byte> {
    [0x2A] + Header(r) + r.headerCrc
  }

  lemma FrontThenData(r: Record, rest: seq<Byte>)
    requires Recordable(r) && r.data != []
    ensures |Front(r)| == |r.name| + 21
    ensures Recorded(r) + rest == Front(r) + (r.data + r.dataCrc + rest)
  {
    hide Descriptor;
  }

  lemma SameHeader(r: Record, fixed: seq<Byte>, crc: seq<Byte>)
    requires |fixed| == |r.data|
    ensures Front(r.(data := fixed, dataCrc := crc)) == Front(r)
  {
  }

  lemma Replaced(front: seq<Byte>, data: seq<Byte>, was: seq<Byte>, rest: seq<Byte>, fixed: seq<Byte>, crc: seq<Byte>)
    requires |fixed| == |data| && |crc| == |was| == 2
    ensures var s, p := front + (data + was + rest), Extent(|front|, |data|);
            Pieces(s, p, fixed, crc) == front + (fixed + crc + rest)
  {
    var s := front + (data + was + rest);
    assert s[..|front|] == front && s[|front| + |data| + 2..] == rest;
  }
}
