/** The repair changes nothing a reader of the tape relies on: the catalogue stays the same, a
    file's bytes change only at redirected tokens, every rewritten payload carries its own CRC,
    and a second repair does nothing. */
module RepairMeaning {
  import opened Bytes
  import opened UefFormat
  import opened Framing
  import opened UefRepair
  import TapeCrc
  import Tape = MediaCatalogue
  import opened MediaFiles

  // ----- one block

  /** Both scanners stop at the same NUL. */
  lemma {:induction false} NameEndsAgree(s: seq<Byte>, k: nat)
    requires 1 <= k <= 12
    requires var e := UefRepair.NameEnd(s, k); e < |s| && s[e] == 0
    ensures Tape.NameEnd(s, k) == UefRepair.NameEnd(s, k)
    decreases 12 - k
  {
    if k < |s| && k <= 11 && s[k] != 0 {
      NameEndsAgree(s, k + 1);
    }
  }

  /** A payload the repair finds is the payload of the block the catalogue decodes there. */
  lemma PayloadIsDecoded(s: seq<Byte>)
    requires Payload(s).Some?
    ensures var p := Payload(s).value;
            && Tape.Decode(s).Some? && Tape.Decode(s).value.size == p.at + p.length + 2
            && Tape.Decode(s).value.block.data == s[p.at..p.at + p.length]
  {
    hide Tape.CrcReads;
    NameEndsAgree(s, 1);
  }

  /** A CRC that reads the same in either byte order. */
  predicate ReadsEitherWay(data: seq<Byte>) {
    TapeCrc.Stored(TapeCrc.Crc(data))[0] == TapeCrc.Stored(TapeCrc.Crc(data))[1]
  }

  /** A block the repair has rewritten. The catalogue reads the new CRC in the other byte order, so
      the block is good to it only if that makes no difference, and then only if its header is. */
  predicate RewrittenBlock(b: Tape.Block, c: Tape.Block) {
    && Tokens(b.data) != {} && c == b.(data := Redirected(b.data), crcOk := c.crcOk)
    && (c.crcOk ==> ReadsEitherWay(c.data)) && (b.crcOk ==> (c.crcOk <==> ReadsEitherWay(c.data)))
  }

  predicate SameBlock(b: Tape.Block, c: Tape.Block) {
    c == b || RewrittenBlock(b, c)
  }

  lemma SameShape(b: Tape.Block, c: Tape.Block)
    requires SameBlock(b, c)
    ensures |c.data| == |b.data| && c == b.(data := c.data, crcOk := c.crcOk)
  {
    hide Redirected, Tokens, ReadsEitherWay;
    RedirectedLength(b.data);
  }

  ghost predicate SameBlocks(bs: seq<Tape.Block>, cs: seq<Tape.Block>) {
    |bs| == |cs| && forall i | 0 <= i < |bs| :: SameBlock(bs[i], cs[i])
  }

  lemma SameBlocksAppend(a: seq<Tape.Block>, b: seq<Tape.Block>, c: seq<Tape.Block>, d: seq<Tape.Block>)
    requires SameBlocks(a, b) && SameBlocks(c, d)
    ensures SameBlocks(a + c, b + d)
  {
  }

  lemma {:induction false} PrefixDecidesName(s: seq<Byte>, r: seq<Byte>, k: nat, n: nat)
    requires |r| == |s| && 1 <= k <= 16 && n <= |s| && (forall i | 0 <= i < n :: r[i] == s[i])
    requires Tape.NameEnd(s, k) < n
    ensures Tape.NameEnd(r, k) == Tape.NameEnd(s, k)
    decreases 16 - k
  {
    if k < |s| && s[k] != 0 && k < 16 {
      PrefixDecidesName(s, r, k + 1, n);
    }
  }

  /** Decoding looks at the header and takes the payload as it is. */
  lemma DecodeAfterWrite(s: seq<Byte>, r: seq<Byte>, p: Extent)
    requires Payload(s) == Some(p) && |r| == |s| && r[..p.at] == s[..p.at]
    ensures Tape.Decode(r).Some? && Tape.Decode(r).value.size == p.at + p.length + 2
    ensures var b, c := Tape.Decode(s), Tape.Decode(r);
            b.Some? && c.value.block == b.value.block.(data := r[p.at..p.at + p.length], crcOk := c.value.block.crcOk)
    ensures p.at >= 21 && (Tape.Decode(s).value.block.crcOk ==> HeaderReads(s, p))
    ensures Tape.Decode(r).value.block.crcOk
       <==> HeaderReads(s, p) && Tape.CrcReads(r, p.at + p.length, r[p.at..p.at + p.length])
  {
    hide Tape.Fields, Tape.CrcReads, Payload, Tape.Decode, Rd16, Tape.NameEnd;
    SamePrefix(s, r, p.at);
    PayloadShape(s);
    PayloadIsDecoded(s);
    PrefixDecidesName(s, r, 1, p.at);
    DecodeIsFields(s, p.at - 20);
    DecodeIsFields(r, p.at - 20);
    FieldsAfterWrite(s, r, p.at - 19, p.length);
  }

  lemma SamePrefix(s: seq<Byte>, r: seq<Byte>, n: nat)
    requires n <= |s| == |r| && r[..n] == s[..n]
    ensures forall i | 0 <= i < n :: r[i] == s[i]
  {
    forall i | 0 <= i < n ensures r[i] == s[i] { assert r[..n][i] == s[..n][i]; }
  }

  lemma PayloadShape(s: seq<Byte>)
    requires Payload(s).Some?
    ensures var p := Payload(s).value;
            && p.at >= 21 && p.length > 0 && p.at + p.length + 2 <= |s|
            && s[0] == STAR && s[p.at - 20] == 0 && Tape.NameEnd(s, 1) == p.at - 20 && p.length == Rd16(s, p.at - 9)
  {
    NameEndsAgree(s, 1);
  }

  lemma DecodeIsFields(s: seq<Byte>, e: nat)
    requires e >= 1 && e + 20 <= |s| && s[0] == STAR && s[e] == 0 && Tape.NameEnd(s, 1) == e
    ensures Tape.Decode(s) == Tape.Fields(s, e + 1)
  {
    hide Tape.Fields;
  }

  /** The header CRC as the catalogue reads it, in front of the payload. */
  predicate HeaderReads(s: seq<Byte>, p: Extent)
    requires 3 <= p.at <= |s|
  {
    Tape.CrcReads(s, p.at - 2, s[1..p.at - 2])
  }

  lemma FieldsAfterWrite(s: seq<Byte>, r: seq<Byte>, d: nat, length: nat)
    requires 2 <= d && d + 19 <= |s| == |r| && forall i | 0 <= i < d + 19 :: r[i] == s[i]
    requires Rd16(s, d + 10) == length && Tape.Fields(s, d).Some?
    ensures d + 19 + length <= |s|
    ensures var b, c := Tape.Fields(s, d), Tape.Fields(r, d);
            && c.Some? && c.value.size == b.value.size
            && c.value.block == b.value.block.(data := r[d + 19..d + 19 + length], crcOk := c.value.block.crcOk)
            && (b.value.block.crcOk ==> Tape.CrcReads(s, d + 17, s[1..d + 17]))
            && (length != 0 ==>
                  && d + 19 + length + 2 <= |s|
                  && (c.value.block.crcOk <==>
                      && Tape.CrcReads(s, d + 17, s[1..d + 17])
                      && Tape.CrcReads(r, d + 19 + length, r[d + 19..d + 19 + length])))
  {
    hide Tape.CrcReads, Rd16, Rd32;
    FieldsOfPrefix(s, r, d);
    HeaderCrcOfPrefix(s, r, d);
  }

  lemma HeaderCrcOfPrefix(s: seq<Byte>, r: seq<Byte>, d: nat)
    requires 2 <= d && d + 19 <= |s| == |r| && forall i | 0 <= i < d + 19 :: r[i] == s[i]
    ensures Tape.CrcReads(r, d + 17, r[1..d + 17]) == Tape.CrcReads(s, d + 17, s[1..d + 17])
  {
    hide TapeCrc.Crc, TapeCrc.Stored;
    assert r[1..d + 17] == s[1..d + 17];
  }

  /** The catalogue's reading of a CRC stored high byte first. */
  lemma StoredReads(r: seq<Byte>, at: nat, data: seq<Byte>)
    requires at + 2 <= |r| && [r[at], r[at + 1]] == TapeCrc.Stored(TapeCrc.Crc(data))
    ensures Tape.CrcReads(r, at, data) <==> ReadsEitherWay(data)
  {
    hide TapeCrc.Crc, TapeCrc.Stored;
    var pair := TapeCrc.Stored(TapeCrc.Crc(data));
    assert pair[0] == r[at] && pair[1] == r[at + 1];
    assert [r[at + 1], r[at]] == pair <==> r[at + 1] == pair[0] && r[at] == pair[1];
  }

  lemma FieldsOfPrefix(s: seq<Byte>, r: seq<Byte>, d: nat)
    requires |r| == |s| && 2 <= d && d + 19 <= |s| && forall i | 0 <= i < d + 19 :: r[i] == s[i]
    ensures r[1..d - 1] == s[1..d - 1]
    ensures Rd32(r, d) == Rd32(s, d) && Rd32(r, d + 4) == Rd32(s, d + 4)
    ensures Rd16(r, d + 8) == Rd16(s, d + 8) && Rd16(r, d + 10) == Rd16(s, d + 10)
  {
  }

  // ----- one chunk body

  /** Where the repair writes, it writes the redirected payload and that payload's own CRC; all
      other bytes of the body stay. A reader that checks the stored CRC high byte first accepts. */
  lemma BodyBytes(s: seq<Byte>)
    ensures Payload(s).None? || Tokens(PayloadBytes(s)) == {} ==> RepairedBody(s) == s
    ensures Payload(s).Some? && Tokens(PayloadBytes(s)) != {} ==>
              var p, r := Payload(s).value, RepairedBody(s);
              && r[..p.at] == s[..p.at]
              && r[p.at..p.at + p.length] == Redirected(PayloadBytes(s))
              && r[p.at + p.length..p.at + p.length + 2] == TapeCrc.Stored(TapeCrc.Crc(Redirected(PayloadBytes(s))))
              && TapeCrc.Crc(r[p.at..p.at + p.length + 2]) == TapeCrc.ZERO
              && r[p.at + p.length + 2..] == s[p.at + p.length + 2..]
  {
    hide Payload, Tokens, Redirected, TapeCrc.Crc, TapeCrc.Stored;
    if Payload(s).Some? && Tokens(PayloadBytes(s)) != {} {
      var p := Payload(s).value;
      PayloadBounds(s);
      var fixed := Redirected(PayloadBytes(s));
      var crc := TapeCrc.Stored(TapeCrc.Crc(fixed));
      RedirectedLength(PayloadBytes(s));
      PiecesParts(s, p, fixed, crc);
      TapeCrc.ResidueIffStored(fixed, crc[0], crc[1]);
      assert crc == [crc[0], crc[1]];
    }
  }

  lemma PayloadBounds(s: seq<Byte>)
    requires Payload(s).Some?
    ensures Payload(s).value.at + Payload(s).value.length + 2 <= |s|
  {
  }

  lemma RedirectedLength(d: seq<Byte>)
    ensures |Redirected(d)| == |d|
  {
  }

  lemma PiecesParts(s: seq<Byte>, p: Extent, fixed: seq<Byte>, crc: seq<Byte>)
    requires p.at + p.length + 2 <= |s| && |fixed| == p.length && |crc| == 2
    ensures var r := Pieces(s, p, fixed, crc);
            && |r| == |s|
            && r[..p.at] == s[..p.at] && r[p.at..p.at + p.length] == fixed
            && r[p.at + p.length..p.at + p.length + 2] == crc
            && r[p.at..p.at + p.length + 2] == fixed + crc && r[p.at + p.length + 2..] == s[p.at + p.length + 2..]
  {
  }

  /** The blocks of a repaired body are those of the original, and so is what follows them. */
  lemma BodyBlocks(s: seq<Byte>)
    ensures SameBlocks(Tape.Blocks(s), Tape.Blocks(RepairedBody(s)))
    ensures Tape.Residue(RepairedBody(s)) == Tape.Residue(s)
  {
    hide Payload, Tokens, RepairedBody, Redirected, Tape.Decode, Tape.CrcReads, ReadsEitherWay, TapeCrc.Crc, TapeCrc.Stored,
         HeaderReads;
    BodyBytes(s);
    var r := RepairedBody(s);
    if Payload(s).Some? && Tokens(PayloadBytes(s)) != {} {
      var p := Payload(s).value;
      PayloadIsDecoded(s);
      BodyLength(s);
      DecodeAfterWrite(s, r, p);
      var b, c, size := Tape.Decode(s).value.block, Tape.Decode(r).value.block, p.at + p.length + 2;
      assert r[size..] == s[size..];
      var fixed, at := Redirected(PayloadBytes(s)), p.at + p.length;
      assert r[at] == r[at..at + 2][0] && r[at + 1] == r[at..at + 2][1];
      StoredReads(r, at, fixed);
      assert RewrittenBlock(b, c);
      assert Tape.Blocks(s) == [b] + Tape.Blocks(s[size..]);
      assert Tape.Blocks(r) == [c] + Tape.Blocks(s[size..]);
    }
  }

  /** What becomes of the catalogue's CRC verdict on a rewritten block: good exactly when the header
      reads as good and the two bytes of the new CRC are equal. */
  lemma RewrittenVerdict(s: seq<Byte>)
    requires Payload(s).Some? && Tokens(PayloadBytes(s)) != {}
    ensures Payload(s).value.at >= 21 && Tape.Decode(RepairedBody(s)).Some?
    ensures Tape.Decode(RepairedBody(s)).value.block.crcOk
       <==> HeaderReads(s, Payload(s).value) && ReadsEitherWay(Redirected(PayloadBytes(s)))
  {
    hide Payload, Tokens, RepairedBody, Redirected, Tape.Decode, Tape.CrcReads, ReadsEitherWay, TapeCrc.Crc, TapeCrc.Stored,
         HeaderReads;
    BodyBytes(s);
    BodyLength(s);
    PayloadBounds(s);
    var p, r := Payload(s).value, RepairedBody(s);
    DecodeAfterWrite(s, r, p);
    var at := p.at + p.length;
    assert r[at] == r[at..at + 2][0] && r[at + 1] == r[at..at + 2][1];
    StoredReads(r, at, Redirected(PayloadBytes(s)));
  }

  lemma BodyLength(s: seq<Byte>)
    ensures |RepairedBody(s)| == |s|
  {
  }

  /** A second repair finds the same payload, without tokens. */
  lemma BodyTwice(s: seq<Byte>)
    ensures RepairedBody(RepairedBody(s)) == RepairedBody(s)
    ensures Tokens(PayloadBytes(RepairedBody(s))) == {}
  {
    hide Tokens, Redirected, BodyAfter, Payload, TapeCrc.Crc;
    BodyBytes(s);
    NoPayloadNoTokens();
    if Payload(s).Some? && Tokens(PayloadBytes(s)) != {} {
      var p, r := Payload(s).value, RepairedBody(s);
      BodyLength(s);
      PayloadBounds(s);
      assert PayloadBytes(r) == Redirected(PayloadBytes(s)) by { PayloadAfterWrite(s, r, p); }
      NoTokensNoChange(r);
      PayloadAfterWrite(s, r, p);
      RedirectedOnce(PayloadBytes(s));
    }
  }

  lemma NoTokensNoChange(r: seq<Byte>)
    ensures Tokens(PayloadBytes(r)) == {} ==> RepairedBody(r) == r
  {
    hide Tokens, Redirected, Payload, TapeCrc.Crc;
  }

  lemma NoPayloadNoTokens()
    ensures Tokens([]) == {}
  {
  }

  lemma PayloadAfterWrite(s: seq<Byte>, r: seq<Byte>, p: Extent)
    requires Payload(s) == Some(p) && |r| == |s| && r[..p.at] == s[..p.at]
    ensures Payload(r) == Some(p)
  {
    var e := UefRepair.NameEnd(s, 1);
    forall i | 0 <= i < p.at ensures r[i] == s[i] { assert r[..p.at][i] == s[..p.at][i]; }
    PrefixDecidesRepairName(s, r, 1, p.at);
  }

  lemma {:induction false} PrefixDecidesRepairName(s: seq<Byte>, r: seq<Byte>, k: nat, n: nat)
    requires |r| == |s| && 1 <= k <= 12 && n <= |s| && (forall i | 0 <= i < n :: r[i] == s[i])
    requires UefRepair.NameEnd(s, k) < n
    ensures UefRepair.NameEnd(r, k) == UefRepair.NameEnd(s, k)
    decreases 12 - k
  {
    if k < |s| && k <= 11 && s[k] != 0 {
      PrefixDecidesRepairName(s, r, k + 1, n);
    }
  }

  // ----- all chunks

  lemma ChunkParts(c: seq<Byte>)
    requires |c| >= 6
    ensures RepairedChunk(c)[..6] == c[..6] && |RepairedChunk(c)| == |c|
    ensures Rd16(RepairedChunk(c), 0) == Rd16(c, 0) && Rd32(RepairedChunk(c), 2) == Rd32(c, 2)
    ensures RepairedChunk(c)[6..] == if Rd16(c, 0) == CASSETTE_DATA then RepairedBody(c[6..]) else c[6..]
  {
    hide RepairedBody;
    BodyLength(c[6..]);
    var r := RepairedChunk(c);
    forall i | 0 <= i < 6 ensures r[i] == c[i] { assert r[..6][i] == c[..6][i]; }
  }

  lemma ChunkRule()
    ensures Stable(ChunkSize) && Local(ChunkSize) && KeepsFrames(ChunkSize, RepairedChunk)
  {
    hide RepairedChunk;
    ChunkSizeIsStable();
    forall s | Complete(ChunkSize, s)
      ensures ChunkSize(s[..ChunkSize(s)]) == ChunkSize(s)
    {
      assert Rd32(s[..ChunkSize(s)], 2) == Rd32(s, 2);
    }
    forall c | Complete(ChunkSize, c) && ChunkSize(c) == |c|
      ensures |RepairedChunk(c)| == |c| && ChunkSize(RepairedChunk(c)) == |c|
    {
      ChunkParts(c);
    }
  }

  lemma ChunkMeaning(c: seq<Byte>)
    ensures SameBlocks(Tape.ChunkBlocks(c), Tape.ChunkBlocks(RepairedChunk(c)))
    ensures Tape.ChunkIssues(RepairedChunk(c)) == Tape.ChunkIssues(c)
    ensures RepairedChunk(RepairedChunk(c)) == RepairedChunk(c) && ChunkHits(RepairedChunk(c)) == 0
  {
    hide Tape.Blocks, Tape.Residue, RepairedBody, Tokens, PayloadBytes;
    if |c| >= 6 {
      ChunkParts(c);
      BodyBlocks(c[6..]);
      BodyTwice(c[6..]);
      assert RepairedChunk(c) == RepairedChunk(c)[..6] + RepairedChunk(c)[6..];
    }
  }

  lemma {:induction false} ChunksMeaning(cs: seq<seq<Byte>>)
    ensures SameBlocks(MapConcat(Tape.ChunkBlocks, cs), MapConcat(Tape.ChunkBlocks, Map(RepairedChunk, cs)))
    ensures Sum(Tape.ChunkIssues, Map(RepairedChunk, cs)) == Sum(Tape.ChunkIssues, cs)
    ensures MapConcat(RepairedChunk, Map(RepairedChunk, cs)) == MapConcat(RepairedChunk, cs)
    ensures Sum(ChunkHits, Map(RepairedChunk, cs)) == 0
  {
    hide Tape.ChunkBlocks, Tape.ChunkIssues, RepairedChunk, ChunkHits;
    if cs != [] {
      ChunkMeaning(cs[0]);
      ChunksMeaning(cs[1..]);
      SameBlocksAppend(Tape.ChunkBlocks(cs[0]), Tape.ChunkBlocks(RepairedChunk(cs[0])),
                       MapConcat(Tape.ChunkBlocks, cs[1..]), MapConcat(Tape.ChunkBlocks, Map(RepairedChunk, cs[1..])));
    }
  }

  // ----- the image

  lemma ImageParts(image: seq<Byte>)
    requires |image| >= HEADER
    ensures RepairedImage(image)[..HEADER] == image[..HEADER]
    ensures RepairedImage(image)[HEADER..] == Rewritten(ChunkSize, RepairedChunk, image[HEADER..])
  {
    hide RepairedChunk;
    assert |Repaired(image[HEADER..])| == |image[HEADER..]|;
  }

  /** Repairing twice is repairing once, and the second pass redirects nothing. */
  lemma RepairTwice(image: seq<Byte>)
    ensures RepairedImage(RepairedImage(image)) == RepairedImage(image)
    ensures SpanHits(RepairedImage(image), HEADER) == 0
  {
    hide RepairedChunk, ChunkHits, ChunkSize, Split, Rest, Map, MapConcat, Sum;
    if |image| >= HEADER {
      var s, once := image[HEADER..], RepairedImage(image);
      ImageParts(image);
      ImageParts(once);
      ChunkRule();
      SplitRewritten(ChunkSize, RepairedChunk, s);
      ChunksMeaning(Split(ChunkSize, s));
      assert once == once[..HEADER] + once[HEADER..];
      assert RepairedImage(once) == RepairedImage(once)[..HEADER] + RepairedImage(once)[HEADER..];
    }
  }

  /** The walk over a repaired image: the same status, issues and blocks. */
  lemma WalkMeaning(image: seq<Byte>)
    ensures var w, v := Tape.WalkOf(image), Tape.WalkOf(RepairedImage(image));
            v.status == w.status && v.issues == w.issues && SameBlocks(w.blocks, v.blocks)
  {
    hide RepairedChunk, Tape.ChunkBlocks, Tape.ChunkIssues, ChunkSize, Split, Rest, Map, MapConcat, Sum, SameBlocks;
    NoBlocks();
    if |image| >= HEADER {
      var s, once := image[HEADER..], RepairedImage(image);
      ImageParts(image);
      HeaderSame(image, once);
      ChunkRule();
      SplitRewritten(ChunkSize, RepairedChunk, s);
      ChunksMeaning(Split(ChunkSize, s));
    }
  }

  lemma NoBlocks()
    ensures SameBlocks([], [])
  {
  }

  lemma HeaderSame(image: seq<Byte>, once: seq<Byte>)
    requires |once| == |image| >= HEADER && once[..HEADER] == image[..HEADER]
    ensures Tape.IsUef(once) == Tape.IsUef(image)
  {
    assert once[..10] == once[..HEADER][..10] && image[..10] == image[..HEADER][..10];
    assert MAGIC <= image <==> image[..10] == MAGIC;
    assert MAGIC <= once <==> once[..10] == MAGIC;
  }

  // ----- files

  lemma {:induction false} StartsMeaning(bs: seq<Tape.Block>, cs: seq<Tape.Block>, n: nat)
    requires SameBlocks(bs, cs) && n <= |bs|
    ensures Starts(cs, n) == Starts(bs, n)
    decreases n
  {
    if n != 0 {
      hide SameBlock;
      StartsMeaning(bs, cs, n - 1);
      SameShape(bs[n - 1], cs[n - 1]);
      if n > 1 { SameShape(bs[n - 2], cs[n - 2]); }
    }
  }

  /** Each file keeps its blocks: the same bytes but for redirected tokens. */
  lemma {:induction false} FileMeaning(bs: seq<Tape.Block>, cs: seq<Tape.Block>, n: nat, f: nat)
    requires SameBlocks(bs, cs) && n <= |bs|
    ensures SameBlocks(FileBlocks(bs, n, f), FileBlocks(cs, n, f))
    decreases n
  {
    if n != 0 {
      hide SameBlock;
      FileMeaning(bs, cs, n - 1, f);
      StartsMeaning(bs, cs, n);
      assert SameBlock(bs[n - 1], cs[n - 1]);
    }
  }

  lemma {:induction false} DataLength(bs: seq<Tape.Block>, cs: seq<Tape.Block>)
    requires SameBlocks(bs, cs)
    ensures |DataOf(cs)| == |DataOf(bs)|
  {
    if bs != [] {
      hide SameBlock;
      var n := |bs| - 1;
      assert SameBlocks(bs[..n], cs[..n]) by {
        forall i | 0 <= i < n ensures SameBlock(bs[..n][i], cs[..n][i]) { assert SameBlock(bs[i], cs[i]); }
      }
      DataLength(bs[..n], cs[..n]);
      SameShape(bs[n], cs[n]);
    }
  }

  lemma EntryMeaning(bs: seq<Tape.Block>, cs: seq<Tape.Block>)
    requires SameBlocks(bs, cs) && bs != []
    ensures EntryOf(cs) == EntryOf(bs).(crcOk := EntryOf(cs).crcOk)
  {
    hide SameBlock;
    DataLength(bs, cs);
    SameShape(bs[0], cs[0]);
  }

  /** Repair preserves meaning: for every image, the catalogue of the repaired tape has the same
      verdict, total, issues and entries, apart from the CRC flags; and every file is the same
      sequence of blocks, each with its bytes as they were or with its tokens redirected. */
  lemma RepairPreservesMeaning(image: seq<Byte>, max: Option<nat>)
    ensures var before, after := CatalogueOf(image, max), CatalogueOf(RepairedImage(image), max);
            && before.Success? == after.Success? && (before.Failure? ==> after == before)
            && (before.Success? ==>
                  && after.value.total == before.value.total && after.value.issues == before.value.issues
                  && |after.value.entries| == |before.value.entries|
                  && forall i | 0 <= i < |before.value.entries| ::
                       after.value.entries[i] == before.value.entries[i].(crcOk := after.value.entries[i].crcOk))
    ensures var bs, cs := Tape.WalkOf(image).blocks, Tape.WalkOf(RepairedImage(image)).blocks;
            |cs| == |bs| && forall f: nat :: SameBlocks(FileBlocks(bs, |bs|, f), FileBlocks(cs, |bs|, f))
  {
    hide Tape.WalkOf, RepairedImage, SameBlock, FileBlocks, EntryOf;
    var bs, cs := Tape.WalkOf(image).blocks, Tape.WalkOf(RepairedImage(image)).blocks;
    WalkMeaning(image);
    StartsMeaning(bs, cs, |bs|);
    forall f: nat ensures SameBlocks(FileBlocks(bs, |bs|, f), FileBlocks(cs, |bs|, f)) { FileMeaning(bs, cs, |bs|, f); }
    if CatalogueOf(image, max).Success? {
      var k := if max.Some? then max.value else 0;
      forall f | 0 <= f < |Entries(bs, |bs|, k)|
        ensures Entries(cs, |cs|, k)[f] == Entries(bs, |bs|, k)[f].(crcOk := Entries(cs, |cs|, k)[f].crcOk)
      {
        FileBegun(bs, |bs|, f);
        FileBegun(cs, |cs|, f);
        FileMeaning(bs, cs, |bs|, f);
        EntryMeaning(FileBlocks(bs, |bs|, f), FileBlocks(cs, |cs|, f));
      }
    }
  }
}
