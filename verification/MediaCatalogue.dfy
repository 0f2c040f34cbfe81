/** Cassette tapes inside UEF images: decoding the blocks, grouping them into files, and
    copying one file out. Two visitors go over the same walk and must agree. */
module MediaCatalogue {
  import opened Bytes
  import opened UefFormat
  import opened Framing
  import TapeCrc
  import UefRepair

  const NAME_MAX := 16

  /** One decoded block; `data` is the stretch of the image its payload occupies. */
  datatype Block = Block(
    name: seq<Byte>, load: nat, exec: nat, number: nat, flags: Byte, data: seq<Byte>, crcOk: bool)

  datatype Decoded = Decoded(block: Block, size: nat)

  datatype Status = Ok | ErrFormat | ErrRange | ErrTruncated | ErrParam

  // ----- one block

  /** Where the scan for the name's NUL stops: after at most fifteen characters. */
  function NameEnd(s: seq<Byte>, k: nat): (e: nat)
    requires 1 <= k <= NAME_MAX
    ensures k <= e <= NAME_MAX
    ensures e > k ==> e <= |s|
    ensures e < NAME_MAX && e < |s| ==> s[e] == 0
    ensures forall i | k <= i < e && i < |s| :: s[i] != 0
    decreases NAME_MAX - k
  {
    if k < |s| && s[k] != 0 && k < NAME_MAX then NameEnd(s, k + 1) else k
  }

  /** The catalogue reads a stored CRC low byte first. */
  predicate CrcReads(s: seq<Byte>, at: nat, data: seq<Byte>)
    requires at + 2 <= |s|
  {
    [s[at + 1], s[at]] == TapeCrc.Stored(TapeCrc.Crc(data))
  }

  /** The fixed fields and the payload of a block whose name's NUL stands just before `d`. */
  function Fields(s: seq<Byte>, d: nat): (r: Option<Decoded>)
    requires 2 <= d && d + 19 <= |s|
    ensures r.Some? ==> 0 < r.value.size <= |s| && |r.value.block.data| + 21 <= r.value.size
  {
    var length := Rd16(s, d + 10);
    var headerOk := CrcReads(s, d + 17, s[1..d + 17]);
    var data := d + 19;
    var b := Block(s[1..d - 1], Rd32(s, d), Rd32(s, d + 4), Rd16(s, d + 8), s[d + 12], [], headerOk);
    if length == 0 then Some(Decoded(b, data))
    else if data + length + 2 > |s| then None
    else
      var payload := s[data..data + length];
      Some(Decoded(b.(data := payload, crcOk := headerOk && CrcReads(s, data + length, payload)), data + length + 2))
  }

  /** The block at the head of the rest of a chunk, or None if it is malformed or runs over. */
  function Decode(s: seq<Byte>): (r: Option<Decoded>)
    ensures r.Some? ==> 0 < r.value.size <= |s| && |r.value.block.data| + 21 <= r.value.size
  {
    if s == [] || s[0] != 0x2A then None
    else
      var e := NameEnd(s, 1);
      if e >= |s| || s[e] != 0 || e + 1 + 17 + 2 > |s| then None else Fields(s, e + 1)
  }

  // ----- one chunk

  /** The blocks of a chunk body, up to the first that does not decode. */
  function Blocks(s: seq<Byte>): seq<Block>
    decreases |s|
  {
    match Decode(s)
    case None => []
    case Some(d) => [d.block] + Blocks(s[d.size..])
  }

  /** What is left of the body after them. */
  function Residue(s: seq<Byte>): seq<Byte>
    decreases |s|
  {
    match Decode(s)
    case None => s
    case Some(d) => Residue(s[d.size..])
  }

  function ChunkBlocks(c: seq<Byte>): seq<Block> {
    if |c| >= 6 && Rd16(c, 0) == CASSETTE_DATA then Blocks(c[6..]) else []
  }

  /** Bytes after at least one good block are an issue; a body with none is not. */
  function ChunkIssues(c: seq<Byte>): nat {
    if |c| >= 6 && Rd16(c, 0) == CASSETTE_DATA && Blocks(c[6..]) != [] && Residue(c[6..]) != [] then 1 else 0
  }

  // ----- the walk

  datatype Walk = Walk(status: Status, blocks: seq<Block>, issues: nat)

  predicate IsUef(image: seq<Byte>) {
    |image| >= HEADER && MAGIC <= image
  }

  /** Every block in stream order; a chunk that runs past the end of the image is an issue and
      ends the walk. */
  function WalkOf(image: seq<Byte>): Walk {
    if !IsUef(image) then Walk(ErrFormat, [], 0)
    else
      var chunks := image[HEADER..];
      var truncated := |Rest(UefRepair.ChunkSize, chunks)| >= 6;
      Walk(if truncated then ErrTruncated else Ok,
           MapConcat(ChunkBlocks, Split(UefRepair.ChunkSize, chunks)),
           Counted(UefRepair.ChunkSize, ChunkIssues, chunks) + (if truncated then 1 else 0))
  }

  /** cfs_decode_block on the image itself. */
  method DecodeBlock(image: seq<Byte>, end: nat, start: nat) returns (r: Option<Decoded>)
    requires start <= end <= |image|
    ensures r == Decode(image[start..end])
  {
    ghost var s := image[start..end];
    var pos := start;
    if pos >= end || image[pos] != 0x2A {
      return None;
    }
    pos := pos + 1;
    var nameStart := pos;
    var nameLength := 0;
    while pos < end && image[pos] != 0 && nameLength < NAME_MAX - 1
      invariant nameLength == pos - nameStart && nameLength <= NAME_MAX - 1 && pos <= end
      invariant NameEnd(s, pos - start) == NameEnd(s, 1)
    {
      assert s[pos - start] == image[pos];
      nameLength := nameLength + 1;
      pos := pos + 1;
    }
    assert pos < end ==> s[pos - start] == image[pos];
    assert NameEnd(s, 1) == pos - start;
    if pos >= end || image[pos] != 0 {
      return None;
    }
    pos := pos + 1;
    if pos + 17 + 2 > end {
      return None;
    }
    r := DecodeFields(image, end, start, pos);
  }

  /** The fixed fields, once the name has been found to end just before `pos`. */
  method DecodeFields(image: seq<Byte>, end: nat, start: nat, pos: nat) returns (r: Option<Decoded>)
    requires start + 2 <= pos && pos + 19 <= end <= |image|
    ensures r == Fields(image[start..end], pos - start)
  {
    hide CrcReads, Rd16, Rd32;
    ghost var s := image[start..end];
    ghost var d := pos - start;
    var load, exec := Rd32(image, pos), Rd32(image, pos + 4);
    var number, length := Rd16(image, pos + 8), Rd16(image, pos + 10);
    var flags := image[pos + 12];
    var name := image[start + 1..pos - 1];
    var headerOk := CrcReads(image, pos + 17, image[start + 1..pos + 17]);
    Rd32InPlace(image, start, end, d);
    Rd32InPlace(image, start, end, d + 4);
    Rd16InPlace(image, start, end, d + 8);
    Rd16InPlace(image, start, end, d + 10);
    SliceOfSlice(image, start, end, 1, d - 1);
    SliceOfSlice(image, start, end, 1, d + 17);
    CrcInPlace(image, start, end, d + 17, image[start + 1..pos + 17]);
    var data := pos + 19;
    if length == 0 {
      return Some(Decoded(Block(name, load, exec, number, flags, [], headerOk), data - start));
    }
    if data + length + 2 > end {
      return None;
    }
    var payload := image[data..data + length];
    SliceOfSlice(image, start, end, d + 19, d + 19 + length);
    CrcInPlace(image, start, end, d + 19 + length, payload);
    var dataOk := CrcReads(image, data + length, payload);
    return Some(Decoded(Block(name, load, exec, number, flags, payload, headerOk && dataOk), data + length + 2 - start));
  }

  lemma Rd16InPlace(image: seq<Byte>, start: nat, end: nat, at: nat)
    requires start + at + 2 <= end <= |image|
    ensures Rd16(image[start..end], at) == Rd16(image, start + at)
  {
  }

  lemma Rd32InPlace(image: seq<Byte>, start: nat, end: nat, at: nat)
    requires start + at + 4 <= end <= |image|
    ensures Rd32(image[start..end], at) == Rd32(image, start + at)
  {
  }

  lemma CrcInPlace(image: seq<Byte>, start: nat, end: nat, at: nat, data: seq<Byte>)
    requires start + at + 2 <= end <= |image|
    ensures CrcReads(image[start..end], at, data) == CrcReads(image, start + at, data)
  {
    hide TapeCrc.Crc, TapeCrc.Stored;
  }

  /** The blocks of one chunk body, visited in order. */
  method WalkChunk(image: seq<Byte>, data: nat, end: nat) returns (blocks: seq<Block>, issues: nat)
    requires data <= end <= |image|
    ensures blocks == Blocks(image[data..end])
    ensures issues == if Blocks(image[data..end]) != [] && Residue(image[data..end]) != [] then 1 else 0
  {
    hide Decode;
    ghost var s := image[data..end];
    blocks, issues := [], 0;
    var bp := data;
    while bp < end
      invariant data <= bp <= end
      invariant blocks + Blocks(image[bp..end]) == Blocks(s) && Residue(image[bp..end]) == Residue(s)
      invariant bp == data <==> blocks == []
      decreases end - bp
    {
      var next := DecodeBlock(image, end, bp);
      DecodeShape(image[bp..end]);
      if next.None? {
        if bp != data {
          issues := 1;
        }
        assert image[bp..end] != [];
        return;
      }
      var size := next.value.size;
      assert image[bp..end][size..] == image[bp + size..end];
      assert blocks + ([next.value.block] + Blocks(image[bp + size..end])) == (blocks + [next.value.block]) + Blocks(image[bp + size..end]);
      blocks := blocks + [next.value.block];
      bp := bp + size;
    }
    assert image[bp..end] == [];
    DecodeNothing();
  }

  lemma DecodeShape(s: seq<Byte>)
    ensures Decode(s).Some? ==> 0 < Decode(s).value.size <= |s|
  {
  }

  lemma DecodeNothing()
    ensures Decode([]).None?
  {
  }

  /** uef_walk: the visitor is called for each block of `walk.blocks` in turn. */
  method UefWalk(image: seq<Byte>) returns (walk: Walk)
    ensures walk == WalkOf(image)
  {
    if |image| < HEADER || image[..|MAGIC|] != MAGIC {
      return Walk(ErrFormat, [], 0);
    }
    assert IsUef(image);
    hide *;
    var pos, blocks, issues := HEADER, [], 0;
    SeenBegins(image);
    while pos + 6 <= |image|
      invariant HEADER <= pos <= |image| && Seen(image, pos, blocks, issues)
      decreases |image| - pos
    {
      var kind, length := Rd16(image, pos), Rd32(image, pos + 2);
      var data := pos + 6;
      if length > |image| || data + length > |image| {
        SeenTruncated(image, pos, blocks, issues);
        return Walk(ErrTruncated, blocks, issues + 1);
      }
      var end := data + length;
      var more, extra := [], 0;
      if kind == CASSETTE_DATA {
        more, extra := WalkChunk(image, data, end);
      }
      SeenChunk(image, pos, end, blocks, issues, more, extra);
      blocks, issues, pos := blocks + more, issues + extra, end;
    }
    SeenAll(image, pos, blocks, issues);
    return Walk(Ok, blocks, issues);
  }

  /** The walk has come to `pos` and has this to show for it. */
  ghost predicate Seen(image: seq<Byte>, pos: nat, blocks: seq<Block>, issues: nat)
    requires HEADER <= pos <= |image|
  {
    var rest, all := image[pos..], image[HEADER..];
    && blocks + MapConcat(ChunkBlocks, Split(UefRepair.ChunkSize, rest)) == MapConcat(ChunkBlocks, Split(UefRepair.ChunkSize, all))
    && issues + Counted(UefRepair.ChunkSize, ChunkIssues, rest) == Counted(UefRepair.ChunkSize, ChunkIssues, all)
    && Rest(UefRepair.ChunkSize, rest) == Rest(UefRepair.ChunkSize, all)
  }

  lemma SeenBegins(image: seq<Byte>)
    requires HEADER <= |image|
    ensures Seen(image, HEADER, [], 0)
  {
    var all := MapConcat(ChunkBlocks, Split(UefRepair.ChunkSize, image[HEADER..]));
    assert [] + all == all;
  }

  lemma SeenChunk(image: seq<Byte>, pos: nat, end: nat, blocks: seq<Block>, issues: nat, more: seq<Block>, extra: nat)
    requires HEADER <= pos && pos + 6 <= end <= |image| && end == pos + 6 + Rd32(image, pos + 2)
    requires Seen(image, pos, blocks, issues)
    requires var s := image[pos + 6..end];
             if Rd16(image, pos) == CASSETTE_DATA
             then more == Blocks(s) && extra == (if Blocks(s) != [] && Residue(s) != [] then 1 else 0)
             else more == [] && extra == 0
    ensures Seen(image, end, blocks + more, issues + extra)
  {
    hide ChunkBlocks, ChunkIssues, Blocks, Residue, Split, MapConcat, Counted, Rest;
    HeadInPlace(image, pos);
    var n := end - pos;
    assert Complete(UefRepair.ChunkSize, image[pos..]);
    MapConcatStep(UefRepair.ChunkSize, ChunkBlocks, ChunkIssues, image[pos..]);
    assert image[pos..][..n] == image[pos..end] && image[pos..][n..] == image[end..];
    ChunkInPlace(image, pos, end);
    Regroup(blocks, more, MapConcat(ChunkBlocks, Split(UefRepair.ChunkSize, image[end..])));
  }

  lemma SeenTruncated(image: seq<Byte>, pos: nat, blocks: seq<Block>, issues: nat)
    requires HEADER <= pos && pos + 6 <= |image| < pos + 6 + Rd32(image, pos + 2) && IsUef(image)
    requires Seen(image, pos, blocks, issues)
    ensures WalkOf(image) == Walk(ErrTruncated, blocks, issues + 1)
  {
    hide ChunkBlocks, ChunkIssues;
    HeadInPlace(image, pos);
    assert Split(UefRepair.ChunkSize, image[pos..]) == [] && Rest(UefRepair.ChunkSize, image[pos..]) == image[pos..];
    assert blocks + [] == blocks;
  }

  lemma SeenAll(image: seq<Byte>, pos: nat, blocks: seq<Block>, issues: nat)
    requires HEADER <= pos <= |image| < pos + 6 && IsUef(image)
    requires Seen(image, pos, blocks, issues)
    ensures WalkOf(image) == Walk(Ok, blocks, issues)
  {
    hide ChunkBlocks, ChunkIssues;
    assert Split(UefRepair.ChunkSize, image[pos..]) == [] && Rest(UefRepair.ChunkSize, image[pos..]) == image[pos..];
    assert blocks + [] == blocks;
  }

  lemma HeadInPlace(image: seq<Byte>, pos: nat)
    requires pos + 6 <= |image|
    ensures UefRepair.ChunkSize(image[pos..])
         == if pos + 6 + Rd32(image, pos + 2) <= |image| then 6 + Rd32(image, pos + 2) else 0
  {
    assert Rd32(image[pos..], 2) == Rd32(image, pos + 2);
  }

  lemma ChunkInPlace(image: seq<Byte>, pos: nat, end: nat)
    requires pos + 6 <= end <= |image|
    ensures var c, s := image[pos..end], image[pos + 6..end];
            if Rd16(image, pos) == CASSETTE_DATA
            then ChunkBlocks(c) == Blocks(s) && ChunkIssues(c) == (if Blocks(s) != [] && Residue(s) != [] then 1 else 0)
            else ChunkBlocks(c) == [] && ChunkIssues(c) == 0
  {
    hide Blocks, Residue;
    var c := image[pos..end];
    assert c[6..] == image[pos + 6..end] && Rd16(c, 0) == Rd16(image, pos);
  }
}
