/** Files on a tape: a block starts a new file when it is the first, has a different name from
    the block before it, or is numbered zero. The catalogue and the extractor each follow that
    rule in their own state; both are proved to describe the same files. */
module MediaFiles {
  import opened Bytes
  import opened UefFormat
  import opened Framing
  import opened MediaCatalogue
  import UefRepair

  // ----- the files of a block sequence

  predicate StartsFile(blocks: seq<Block>, i: nat)
    requires i < |blocks|
  {
    i == 0 || blocks[i].name != blocks[i - 1].name || blocks[i].number == 0
  }

  /** How many files begin in the first n blocks. */
  function Starts(blocks: seq<Block>, n: nat): (r: nat)
    requires n <= |blocks|
    ensures n > 0 ==> r > 0
    ensures r <= n
  {
    if n == 0 then 0 else Starts(blocks, n - 1) + (if StartsFile(blocks, n - 1) then 1 else 0)
  }

  /** The file block i belongs to. */
  function FileOf(blocks: seq<Block>, i: nat): nat
    requires i < |blocks|
  {
    Starts(blocks, i + 1) - 1
  }

  /** The blocks of file f among the first n, in stream order. */
  function FileBlocks(blocks: seq<Block>, n: nat, f: nat): seq<Block>
    requires n <= |blocks|
  {
    if n == 0 then []
    else FileBlocks(blocks, n - 1, f) + (if FileOf(blocks, n - 1) == f then [blocks[n - 1]] else [])
  }

  function DataOf(blocks: seq<Block>): seq<Byte> {
    if blocks == [] then [] else DataOf(blocks[..|blocks| - 1]) + blocks[|blocks| - 1].data
  }

  /** The contents of file f: its payloads in stream order. */
  function FileData(blocks: seq<Block>, n: nat, f: nat): seq<Byte>
    requires n <= |blocks|
  {
    DataOf(FileBlocks(blocks, n, f))
  }

  lemma DataOfAppend(bs: seq<Block>, b: Block)
    ensures DataOf(bs + [b]) == DataOf(bs) + b.data
  {
    assert (bs + [b])[..|bs|] == bs;
  }

  lemma FileDataStep(blocks: seq<Block>, n: nat, f: nat)
    requires 0 < n <= |blocks|
    ensures FileData(blocks, n, f)
         == FileData(blocks, n - 1, f) + (if FileOf(blocks, n - 1) == f then blocks[n - 1].data else [])
  {
    var before := FileBlocks(blocks, n - 1, f);
    if FileOf(blocks, n - 1) == f {
      DataOfAppend(before, blocks[n - 1]);
    } else {
      assert before + [] == before;
      assert DataOf(before) + [] == DataOf(before);
    }
  }

  /** A file that has not begun has no blocks; one that has begun has some. */
  lemma {:induction false} FileBegun(blocks: seq<Block>, n: nat, f: nat)
    requires n <= |blocks|
    ensures FileBlocks(blocks, n, f) != [] <==> f < Starts(blocks, n)
    decreases n
  {
    if n != 0 {
      FileBegun(blocks, n - 1, f);
    }
  }

  // ----- the catalogue

  datatype Entry = Entry(
    name: seq<Byte>, load: nat, exec: nat, length: nat, blocks: nat, locked: bool, crcOk: bool)

  predicate AllCrcOk(bs: seq<Block>) {
    forall i | 0 <= i < |bs| :: bs[i].crcOk
  }

  /** The catalogue entry of a file. The length field has 32 bits and the block count 16. */
  function EntryOf(bs: seq<Block>): Entry
    requires bs != []
  {
    Entry(bs[0].name, bs[0].load, bs[0].exec, |DataOf(bs)| % 0x1_0000_0000, |bs| % 0x1_0000,
          bs[0].flags % 2 == 1, AllCrcOk(bs))
  }

  /** One file more. */
  function NewEntry(b: Block): Entry {
    Entry(b.name, b.load, b.exec, |b.data|, 1, b.flags % 2 == 1, b.crcOk)
  }

  /** One block more of the open file. */
  function Extended(e: Entry, b: Block): Entry {
    e.(length := (e.length + |b.data|) % 0x1_0000_0000, blocks := (e.blocks + 1) % 0x1_0000, crcOk := e.crcOk && b.crcOk)
  }

  lemma EntryOfOne(b: Block)
    requires |b.data| < 0x1_0000
    ensures EntryOf([b]) == NewEntry(b)
  {
    assert [b][..0] == [];
    assert DataOf([b]) == b.data;
  }

  lemma EntryOfMore(bs: seq<Block>, b: Block)
    requires bs != []
    ensures EntryOf(bs + [b]) == Extended(EntryOf(bs), b)
  {
    DataOfAppend(bs, b);
    var n, k := |DataOf(bs)|, |b.data|;
    assert (n % 0x1_0000_0000 + k) % 0x1_0000_0000 == (n + k) % 0x1_0000_0000;
    assert (|bs| % 0x1_0000 + 1) % 0x1_0000 == (|bs| + 1) % 0x1_0000;
    assert AllCrcOk(bs + [b]) == (AllCrcOk(bs) && b.crcOk) by {
      if AllCrcOk(bs + [b]) {
        forall i | 0 <= i < |bs|
          ensures bs[i].crcOk
        {
          assert (bs + [b])[i].crcOk;
        }
        assert (bs + [b])[|bs|].crcOk;
      }
    }
  }

  /** The first `max` files of the first n blocks. */
  function Entries(blocks: seq<Block>, n: nat, max: nat): (r: seq<Entry>)
    requires n <= |blocks|
    ensures |r| == if Starts(blocks, n) < max then Starts(blocks, n) else max
  {
    var count := if Starts(blocks, n) < max then Starts(blocks, n) else max;
    seq(count, f requires 0 <= f < count => FileEntry(blocks, n, f))
  }

  function FileEntry(blocks: seq<Block>, n: nat, f: nat): Entry
    requires n <= |blocks| && f < Starts(blocks, n)
  {
    FileBegun(blocks, n, f);
    EntryOf(FileBlocks(blocks, n, f))
  }

  lemma EntriesStep(blocks: seq<Block>, n: nat, max: nat)
    requires 0 < n <= |blocks| && |blocks[n - 1].data| < 0x1_0000
    ensures var before, b := Entries(blocks, n - 1, max), blocks[n - 1];
            Entries(blocks, n, max) ==
            if StartsFile(blocks, n - 1) then (if |before| < max then before + [NewEntry(b)] else before)
            else if Starts(blocks, n) <= max && before != [] then before[|before| - 1 := Extended(before[|before| - 1], b)]
            else before
  {
    hide EntryOf, NewEntry, Extended;
    var before, after, b, last := Entries(blocks, n - 1, max), Entries(blocks, n, max), blocks[n - 1], FileOf(blocks, n - 1);
    forall f | 0 <= f < |after|
      ensures after[f] == (if f != last then before[f] else if StartsFile(blocks, n - 1) then NewEntry(b) else Extended(before[f], b))
      ensures f != last || !StartsFile(blocks, n - 1) ==> f < |before|
    {
      FileBegun(blocks, n - 1, f);
      FileBegun(blocks, n, f);
      if f == last {
        if StartsFile(blocks, n - 1) {
          assert FileBlocks(blocks, n, f) == [b];
          EntryOfOne(b);
        } else {
          EntryOfMore(FileBlocks(blocks, n - 1, f), b);
        }
      } else {
        assert FileBlocks(blocks, n, f) == FileBlocks(blocks, n - 1, f);
      }
    }
  }

  /** uef_group_t: the catalogue's visitor. */
  class GroupVisitor {
    const maxEntries: nat
    var entries: seq<Entry>
    var total: nat
    var current: seq<Byte>
    var haveCurrent: bool
    /** The entry that continuation blocks extend is the last one, or there is none. */
    var open: bool

    ghost predicate After(blocks: seq<Block>, n: nat)
      requires n <= |blocks|
      reads this
    {
      && haveCurrent == (n > 0) && (n > 0 ==> current == blocks[n - 1].name)
      && total == Starts(blocks, n)
      && entries == Entries(blocks, n, maxEntries)
      && open == (n > 0 && Starts(blocks, n) <= maxEntries)
    }

    constructor (max: nat)
      ensures maxEntries == max
      ensures forall blocks: seq<Block> :: After(blocks, 0)
    {
      maxEntries := max;
      entries, total, current, haveCurrent, open := [], 0, [], false, false;
    }

    /** uef_group_block */
    method Visit(ghost blocks: seq<Block>, ghost n: nat, b: Block)
      requires n < |blocks| && b == blocks[n] && |b.data| < 0x1_0000 && After(blocks, n)
      modifies this
      ensures After(blocks, n + 1)
    {
      hide Entries, NewEntry, Extended;
      EntriesStep(blocks, n + 1, maxEntries);
      EntriesLength(blocks, n, maxEntries);
      var isNew := !haveCurrent || current != b.name || b.number == 0;
      if isNew {
        total := total + 1;
        current, haveCurrent, open := b.name, true, false;
        if |entries| < maxEntries {
          entries := entries + [NewEntry(b)];
          open := true;
        }
        return;
      }
      if open {
        entries := entries[|entries| - 1 := Extended(entries[|entries| - 1], b)];
      }
    }
  }

  lemma EntriesLength(blocks: seq<Block>, n: nat, max: nat)
    requires n <= |blocks|
    ensures |Entries(blocks, n, max)| == if Starts(blocks, n) < max then Starts(blocks, n) else max
  {
  }

  datatype Catalogue = Catalogue(entries: seq<Entry>, total: nat, issues: nat)

  datatype Result<T> = Success(value: T) | Failure(status: Status)

  /** What media_catalogue reports for a UEF; `max` is None when only counting. */
  function CatalogueOf(image: seq<Byte>, max: Option<nat>): Result<Catalogue> {
    if max == Some(0) then Failure(ErrParam)
    else
      var w := WalkOf(image);
      if w.status == ErrFormat then Failure(ErrFormat)
      else Success(Catalogue(Entries(w.blocks, |w.blocks|, if max.Some? then max.value else 0), Starts(w.blocks, |w.blocks|), w.issues))
  }

  /** The UEF path of media_catalogue. */
  method CatalogueUef(image: seq<Byte>, max: Option<nat>) returns (r: Result<Catalogue>)
    ensures r == CatalogueOf(image, max)
  {
    hide WalkOf, Entries, Starts;
    if max == Some(0) {
      return Failure(ErrParam);
    }
    var group := new GroupVisitor(if max.Some? then max.value else 0);
    var w := UefWalk(image);
    BlocksAreShort(image);
    for n := 0 to |w.blocks|
      invariant group.After(w.blocks, n)
    {
      group.Visit(w.blocks, n, w.blocks[n]);
    }
    if w.status == ErrFormat {
      return Failure(ErrFormat);
    }
    return Success(Catalogue(group.entries, group.total, w.issues));
  }

  // ----- extraction

  /** uef_copy_t: the extractor's visitor, with its output buffer. */
  class CopyVisitor {
    const want: nat
    const output: array<Byte>
    var seen: nat
    var current: seq<Byte>
    var haveCurrent: bool
    var written: nat
    var overflow: bool

    ghost predicate After(blocks: seq<Block>, n: nat)
      requires n <= |blocks|
      reads this, output
    {
      && haveCurrent == (n > 0) && (n > 0 ==> current == blocks[n - 1].name)
      && seen == (if n > 0 then Starts(blocks, n) - 1 else 0)
      && (overflow <==> |FileData(blocks, n, want)| > output.Length)
      && written <= output.Length
      && (!overflow ==> output[..written] == FileData(blocks, n, want))
    }

    constructor (want: nat, output: array<Byte>)
      ensures this.want == want && this.output == output
      ensures forall blocks: seq<Block> :: After(blocks, 0)
    {
      this.want, this.output := want, output;
      seen, current, haveCurrent, written, overflow := 0, [], false, 0, false;
    }

    /** uef_copy_block */
    method Visit(ghost blocks: seq<Block>, ghost n: nat, b: Block)
      requires n < |blocks| && b == blocks[n] && After(blocks, n)
      modifies this, output
      ensures After(blocks, n + 1)
    {
      hide FileData;
      FileDataStep(blocks, n + 1, want);
      ghost var so_far := FileData(blocks, n, want);
      assert so_far + [] == so_far;
      var isNew := !haveCurrent || current != b.name || b.number == 0;
      if isNew {
        if haveCurrent {
          seen := seen + 1;
        }
        current, haveCurrent := b.name, true;
      }
      if seen != want || !haveCurrent {
        return;
      }
      if |b.data| == 0 {
        return;
      }
      if written + |b.data| > output.Length {
        overflow := true;
        return;
      }
      CopyData(output, written, b.data);
      written := written + |b.data|;
    }
  }

  method CopyData(output: array<Byte>, at: nat, data: seq<Byte>)
    requires at + |data| <= output.Length
    modifies output
    ensures output[..at] == old(output[..at]) && output[at..at + |data|] == data
    ensures output[..at + |data|] == old(output[..at]) + data
  {
    for k := 0 to |data|
      invariant output[..at] == old(output[..at]) && output[at..at + k] == data[..k]
    {
      output[at + k] := data[k];
    }
    assert data[..|data|] == data;
    assert output[..at + |data|] == output[..at] + output[at..at + |data|];
  }

  /** What media_extract answers for a UEF. */
  function ExtractOf(image: seq<Byte>, index: nat, capacity: nat): Result<seq<Byte>> {
    var w := WalkOf(image);
    var data := FileData(w.blocks, |w.blocks|, index);
    if w.status == ErrFormat then Failure(ErrFormat)
    else if |data| > capacity || index >= Starts(w.blocks, |w.blocks|) then Failure(ErrRange)
    else Success(data)
  }

  /** The UEF path of media_extract: the number of bytes it left in the output buffer. */
  method ExtractUef(image: seq<Byte>, index: nat, output: array<Byte>) returns (r: Result<nat>)
    modifies output
    ensures r.Failure? ==> ExtractOf(image, index, output.Length) == Failure(r.status)
    ensures r.Success? ==> r.value <= output.Length && ExtractOf(image, index, output.Length) == Success(output[..r.value])
  {
    hide WalkOf, FileData;
    var copy := new CopyVisitor(index, output);
    var w := UefWalk(image);
    for n := 0 to |w.blocks|
      invariant copy.After(w.blocks, n)
      modifies copy, output
    {
      copy.Visit(w.blocks, n, w.blocks[n]);
    }
    if w.status == ErrFormat {
      return Failure(ErrFormat);
    }
    if copy.overflow {
      return Failure(ErrRange);
    }
    if !copy.haveCurrent || copy.seen < index {
      return Failure(ErrRange);
    }
    return Success(copy.written);
  }

  // ----- they agree

  /** A block's payload length has 16 bits and its name at most fifteen characters. */
  predicate Short(b: Block) {
    |b.data| < 0x1_0000 && |b.name| < NAME_MAX
  }

  lemma DecodeIsShort(s: seq<Byte>)
    ensures Decode(s).Some? ==> Short(Decode(s).value.block)
  {
  }

  lemma {:induction false} ChunkIsShort(s: seq<Byte>)
    ensures forall b | b in Blocks(s) :: Short(b)
    decreases |s|
  {
    hide Decode;
    DecodeIsShort(s);
    if Decode(s).Some? {
      DecodeShape(s);
      ChunkIsShort(s[Decode(s).value.size..]);
    }
  }

  lemma {:induction false} ChunksAreShort(cs: seq<seq<Byte>>)
    ensures forall b | b in MapConcat(ChunkBlocks, cs) :: Short(b)
  {
    hide Blocks;
    if cs != [] {
      if |cs[0]| >= 6 { ChunkIsShort(cs[0][6..]); }
      ChunksAreShort(cs[1..]);
    }
  }

  lemma BlocksAreShort(image: seq<Byte>)
    ensures forall i | 0 <= i < |WalkOf(image).blocks| :: Short(WalkOf(image).blocks[i])
  {
    if IsUef(image) {
      ChunksAreShort(Split(UefRepair.ChunkSize, image[HEADER..]));
    }
  }

  lemma {:induction false} FileBlocksAreBlocks(blocks: seq<Block>, n: nat, f: nat)
    requires n <= |blocks|
    ensures forall b | b in FileBlocks(blocks, n, f) :: b in blocks
    decreases n
  {
    if n != 0 {
      FileBlocksAreBlocks(blocks, n - 1, f);
    }
  }

  /** Names in a catalogue have at most fifteen characters. */
  lemma CatalogueNamesFit(image: seq<Byte>, max: Option<nat>)
    requires CatalogueOf(image, max).Success?
    ensures forall i | 0 <= i < |CatalogueOf(image, max).value.entries| ::
              |CatalogueOf(image, max).value.entries[i].name| < NAME_MAX
  {
    hide WalkOf;
    var blocks := WalkOf(image).blocks;
    BlocksAreShort(image);
    forall f | 0 <= f < Starts(blocks, |blocks|)
      ensures |FileEntry(blocks, |blocks|, f).name| < NAME_MAX
    {
      FileBegun(blocks, |blocks|, f);
      FileBlocksAreBlocks(blocks, |blocks|, f);
      assert FileBlocks(blocks, |blocks|, f)[0] in blocks;
    }
  }

  /** The bytes of all blocks together. */
  function TotalData(bs: seq<Block>): nat {
    if bs == [] then 0 else |bs[0].data| + TotalData(bs[1..])
  }

  lemma {:induction false} TotalAppend(xs: seq<Block>, ys: seq<Block>)
    ensures TotalData(xs + ys) == TotalData(xs) + TotalData(ys)
  {
    if xs == [] {
      assert xs + ys == ys;
    } else {
      assert (xs + ys)[1..] == xs[1..] + ys;
      TotalAppend(xs[1..], ys);
    }
  }

  lemma {:induction false} ChunkTotal(s: seq<Byte>)
    ensures TotalData(Blocks(s)) <= |s|
    decreases |s|
  {
    hide Fields;
    if Decode(s).Some? {
      var d := Decode(s).value;
      ChunkTotal(s[d.size..]);
      assert Blocks(s)[1..] == Blocks(s[d.size..]);
    }
  }

  lemma {:induction false} ChunksTotal(cs: seq<seq<Byte>>)
    ensures TotalData(MapConcat(ChunkBlocks, cs)) <= |Concat(cs)|
  {
    hide Blocks;
    if cs != [] {
      if |cs[0]| >= 6 { ChunkTotal(cs[0][6..]); }
      ChunksTotal(cs[1..]);
      TotalAppend(ChunkBlocks(cs[0]), MapConcat(ChunkBlocks, cs[1..]));
    }
  }

  /** A tape never holds more payload than the image has bytes. */
  lemma PayloadFits(image: seq<Byte>)
    ensures TotalData(WalkOf(image).blocks) <= |image|
  {
    hide ChunkBlocks, ChunkIssues;
    if IsUef(image) {
      var chunks := image[HEADER..];
      ChunksTotal(Split(UefRepair.ChunkSize, chunks));
      SplitIsExact(UefRepair.ChunkSize, chunks);
    }
  }

  /** The lengths of the first k files of the first n blocks. */
  function FileLengths(blocks: seq<Block>, n: nat, k: nat): nat
    requires n <= |blocks|
  {
    if k == 0 then 0 else FileLengths(blocks, n, k - 1) + |FileData(blocks, n, k - 1)|
  }

  /** A block adds its length to the one file it belongs to. */
  lemma {:induction false} FileLengthsStep(blocks: seq<Block>, n: nat, k: nat)
    requires 0 < n <= |blocks|
    ensures FileLengths(blocks, n, k)
         == FileLengths(blocks, n - 1, k) + (if FileOf(blocks, n - 1) < k then |blocks[n - 1].data| else 0)
    decreases k
  {
    hide FileData;
    if k != 0 {
      FileLengthsStep(blocks, n, k - 1);
      FileDataStep(blocks, n, k - 1);
    }
  }

  lemma {:induction false} FileLengthsFit(blocks: seq<Block>, n: nat, k: nat)
    requires n <= |blocks|
    ensures FileLengths(blocks, n, k) <= TotalData(blocks[..n])
    decreases n
  {
    hide FileData;
    if n == 0 {
      NoFilesYet(blocks, k);
    } else {
      FileLengthsFit(blocks, n - 1, k);
      FileLengthsStep(blocks, n, k);
      assert blocks[..n] == blocks[..n - 1] + [blocks[n - 1]];
      TotalAppend(blocks[..n - 1], [blocks[n - 1]]);
      assert TotalData([blocks[n - 1]]) == |blocks[n - 1].data| by { assert [blocks[n - 1]][1..] == []; }
    }
  }

  lemma {:induction false} NoFilesYet(blocks: seq<Block>, k: nat)
    ensures FileLengths(blocks, 0, k) == 0
  {
    if k != 0 {
      NoFilesYet(blocks, k - 1);
    }
  }

  lemma {:induction false} OneFileFits(blocks: seq<Block>, n: nat, f: nat, k: nat)
    requires n <= |blocks| && f < k
    ensures |FileData(blocks, n, f)| <= FileLengths(blocks, n, k)
    decreases k
  {
    hide FileData;
    if f != k - 1 {
      OneFileFits(blocks, n, f, k - 1);
    }
  }

  function EntryLengths(entries: seq<Entry>): nat {
    if entries == [] then 0 else EntryLengths(entries[..|entries| - 1]) + entries[|entries| - 1].length
  }

  lemma {:induction false} EntryLengthsFit(blocks: seq<Block>, n: nat, k: nat)
    requires n <= |blocks| && k <= Starts(blocks, n)
    ensures EntryLengths(Entries(blocks, n, k)) <= FileLengths(blocks, n, k)
    decreases k
  {
    hide FileData;
    var es := Entries(blocks, n, k);
    if k != 0 {
      EntryLengthsFit(blocks, n, k - 1);
      assert es[..k - 1] == Entries(blocks, n, k - 1);
      FileBegun(blocks, n, k - 1);
      assert es[k - 1].length <= |FileData(blocks, n, k - 1)| by { EntryLengthIs(blocks, n, k - 1); }
    }
  }

  lemma EntryLengthIs(blocks: seq<Block>, n: nat, f: nat)
    requires n <= |blocks| && f < Starts(blocks, n)
    ensures FileEntry(blocks, n, f).length == |FileData(blocks, n, f)| % 0x1_0000_0000
    ensures FileEntry(blocks, n, f).length <= |FileData(blocks, n, f)|
  {
    FileBegun(blocks, n, f);
  }

  /** Catalogue and extract agree: for every image under 4 GiB and every entry the catalogue
      lists, extraction succeeds exactly when the buffer holds the listed length, and then gives
      exactly that many bytes, the file's payloads in stream order; and all listed lengths
      together are no more than the image. */
  lemma CatalogueAndExtractAgree(image: seq<Byte>, max: nat, index: nat, capacity: nat)
    requires |image| < 0x1_0000_0000 && CatalogueOf(image, Some(max)).Success?
    requires index < |CatalogueOf(image, Some(max)).value.entries|
    ensures var entries, blocks := CatalogueOf(image, Some(max)).value.entries, WalkOf(image).blocks;
            && (ExtractOf(image, index, capacity).Success? <==> capacity >= entries[index].length)
            && (capacity >= entries[index].length ==>
                  && ExtractOf(image, index, capacity).value == FileData(blocks, |blocks|, index)
                  && |ExtractOf(image, index, capacity).value| == entries[index].length)
            && EntryLengths(entries) <= |image|
  {
    hide WalkOf, FileData, Entries, EntryLengths, FileEntry, Starts;
    var blocks := WalkOf(image).blocks;
    PayloadFits(image);
    assert blocks[..|blocks|] == blocks;
    EntriesAreFiles(blocks, |blocks|, max, index);
  }

  lemma EntriesAreFiles(blocks: seq<Block>, n: nat, max: nat, index: nat)
    requires n <= |blocks| && TotalData(blocks[..n]) < 0x1_0000_0000 && index < |Entries(blocks, n, max)|
    ensures Entries(blocks, n, max)[index].length == |FileData(blocks, n, index)|
    ensures EntryLengths(Entries(blocks, n, max)) <= TotalData(blocks[..n])
  {
    hide FileData, FileBlocks, EntryLengths, Starts;
    var total := Starts(blocks, n);
    FileLengthsFit(blocks, n, total);
    OneFileFits(blocks, n, index, total);
    EntryLengthIs(blocks, n, index);
    var k := if total < max then total else max;
    assert Entries(blocks, n, k) == Entries(blocks, n, max);
    EntryLengthsFit(blocks, n, k);
    FileLengthsFit(blocks, n, k);
  }

  /** An index past the last file is refused whatever the capacity. */
  lemma ExtractPastEnd(image: seq<Byte>, index: nat)
    requires CatalogueOf(image, None).Success?
    ensures index >= CatalogueOf(image, None).value.total <==> forall c: nat :: ExtractOf(image, index, c) == Failure(ErrRange)
  {
    hide WalkOf;
    var w := WalkOf(image);
    var data := FileData(w.blocks, |w.blocks|, index);
    if index < Starts(w.blocks, |w.blocks|) {
      assert ExtractOf(image, index, |data|).Success?;
    }
  }
}
