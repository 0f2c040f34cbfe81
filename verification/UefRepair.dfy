/** FILEV repair: redirect the `?&212=` / `!&213=` loader idiom to &900/&901 inside cassette
    payloads, in place, and recompute the one CRC the rewrite disturbs. */
module UefRepair {
  import opened Bytes
  import opened UefFormat
  import opened Framing
  import TapeCrc

  const AMPERSAND: Byte := '&' as int
  const QUERY: Byte := '?' as int
  const PLING: Byte := '!' as int
  const STAR: Byte := '*' as int
  const DIGIT0: Byte := '0' as int
  const DIGIT1: Byte := '1' as int
  const DIGIT2: Byte := '2' as int
  const DIGIT3: Byte := '3' as int
  const DIGIT9: Byte := '9' as int

  predicate IsHexDigit(c: Byte) {
    '0' as int <= c <= '9' as int || 'A' as int <= c <= 'F' as int || 'a' as int <= c <= 'f' as int
  }

  // ----- one payload

  /** An address token the repair redirects: `&212` or `&213`, the target of an indirection and
      not the beginning of a longer address. */
  predicate Redirects(d: seq<Byte>, at: int) {
    && 1 <= at && at + 4 <= |d|
    && d[at] == AMPERSAND && d[at + 1] == DIGIT2 && d[at + 2] == DIGIT1
    && (d[at + 3] == DIGIT2 || d[at + 3] == DIGIT3)
    && (at + 4 < |d| ==> !IsHexDigit(d[at + 4]))
    && (d[at - 1] == QUERY || d[at - 1] == PLING)
  }

  /** Byte k once every token that starts below `limit` has been redirected at once: each such
      token of the original payload contributes its three digits, everything else stays. */
  function RedirectedByte(d: seq<Byte>, limit: int, k: int): Byte
    requires 0 <= k < |d|
  {
    if k - 1 < limit && Redirects(d, k - 1) then DIGIT9
    else if k - 2 < limit && Redirects(d, k - 2) then DIGIT0
    else if k - 3 < limit && Redirects(d, k - 3) then (if d[k] == DIGIT2 then DIGIT0 else DIGIT1)
    else d[k]
  }

  function RedirectedBelow(d: seq<Byte>, limit: int): (r: seq<Byte>)
    ensures |r| == |d|
  {
    seq(|d|, k requires 0 <= k < |d| => RedirectedByte(d, limit, k))
  }

  function TokensBelow(d: seq<Byte>, limit: int): set<int> {
    set at | 0 <= at < |d| && at < limit && Redirects(d, at)
  }

  /** The address tokens of the original payload. */
  function Tokens(d: seq<Byte>): set<int> {
    TokensBelow(d, |d|)
  }

  /** All tokens of the original payload replaced simultaneously. */
  function Redirected(d: seq<Byte>): (r: seq<Byte>)
    ensures |r| == |d|
  {
    RedirectedBelow(d, |d|)
  }

  /** The three assignments of the loop body. */
  function RewriteToken(p: seq<Byte>, at: int): (r: seq<Byte>)
    requires 0 <= at && at + 4 <= |p|
    ensures |r| == |p|
  {
    p[at + 1 := DIGIT9][at + 2 := DIGIT0][at + 3 := if p[at + 3] == DIGIT2 then DIGIT0 else DIGIT1]
  }

  /** What the left-to-right scan sees at a position is what was there originally. */
  lemma ScanSeesOriginal(d: seq<Byte>, at: int)
    requires 0 <= at < |d|
    ensures Redirects(RedirectedBelow(d, at), at) <==> Redirects(d, at)
  {
  }

  /** One hit moves the partly redirected payload one token on. */
  lemma StepRedirects(d: seq<Byte>, at: int)
    requires 0 <= at < |d|
    ensures RedirectedBelow(d, at + 1)
         == if Redirects(d, at) then RewriteToken(RedirectedBelow(d, at), at) else RedirectedBelow(d, at)
  {
    var p, q := RedirectedBelow(d, at), RedirectedBelow(d, at + 1);
    forall k | 0 <= k < |d|
      ensures q[k] == if !Redirects(d, at) then p[k] else RewriteToken(p, at)[k]
    {
      assert q[k] == RedirectedByte(d, at + 1, k) && p[k] == RedirectedByte(d, at, k);
    }
  }

  lemma StepCounts(d: seq<Byte>, at: int)
    requires 0 <= at < |d|
    ensures |TokensBelow(d, at + 1)| == |TokensBelow(d, at)| + (if Redirects(d, at) then 1 else 0)
  {
    if Redirects(d, at) {
      assert TokensBelow(d, at + 1) == TokensBelow(d, at) + {at};
    } else {
      assert TokensBelow(d, at + 1) == TokensBelow(d, at);
    }
  }

  lemma NothingBelowZero(d: seq<Byte>)
    ensures RedirectedBelow(d, 0) == d && TokensBelow(d, 0) == {}
  {
  }

  lemma TailHasNoToken(d: seq<Byte>, limit: int)
    requires limit + 4 > |d|
    ensures RedirectedBelow(d, limit) == Redirected(d) && TokensBelow(d, limit) == Tokens(d)
  {
  }

  /** The tests of the loop body, on the bytes as they are now. */
  predicate TokenHere(data: array<Byte>, base: nat, length: nat, at: nat)
    requires base + length <= data.Length && at + 4 <= length
    reads data
    ensures TokenHere(data, base, length, at) <==> Redirects(data[base..base + length], at)
  {
    && data[base + at] == AMPERSAND && data[base + at + 1] == DIGIT2 && data[base + at + 2] == DIGIT1
    && (data[base + at + 3] == DIGIT2 || data[base + at + 3] == DIGIT3)
    && !(at + 4 < length && IsHexDigit(data[base + at + 4]))
    && !(at == 0 || (data[base + at - 1] != QUERY && data[base + at - 1] != PLING))
  }

  /** The assignments of the loop body. */
  method RewriteHere(data: array<Byte>, base: nat, length: nat, at: nat)
    requires base + length <= data.Length && at + 4 <= length
    modifies data
    ensures data[..base] == old(data[..base]) && data[base + length..] == old(data[base + length..])
    ensures data[base..base + length] == RewriteToken(old(data[base..base + length]), at)
  {
    data[base + at + 1] := DIGIT9;
    data[base + at + 2] := DIGIT0;
    data[base + at + 3] := if data[base + at + 3] == DIGIT2 then DIGIT0 else DIGIT1;
  }

  /** The in-place left-to-right loop computes the simultaneous substitution, and its count is
      the number of tokens the original payload held. */
  method RepairPayload(data: array<Byte>, base: nat, length: nat) returns (repaired: nat)
    requires base + length <= data.Length
    modifies data
    ensures data[..base] == old(data[..base]) && data[base + length..] == old(data[base + length..])
    ensures data[base..base + length] == Redirected(old(data[base..base + length]))
    ensures repaired == |Tokens(old(data[base..base + length]))|
  {
    hide *;
    ghost var d := data[base..base + length];
    repaired := 0;
    var at := 0;
    NothingBelowZero(d);
    while at + 4 <= length
      invariant 0 <= at <= length
      invariant data[base..base + length] == RedirectedBelow(d, at)
      invariant data[..base] == old(data[..base]) && data[base + length..] == old(data[base + length..])
      invariant repaired == |TokensBelow(d, at)|
    {
      var hit := ScanStep(data, base, length, at, d);
      repaired := repaired + hit;
      at := at + 1;
    }
    TailHasNoToken(d, at);
  }

  /** One turn of the loop. */
  method ScanStep(data: array<Byte>, base: nat, length: nat, at: nat, ghost d: seq<Byte>) returns (hit: nat)
    requires base + length <= data.Length && at + 4 <= length && |d| == length
    requires data[base..base + length] == RedirectedBelow(d, at)
    modifies data
    ensures data[..base] == old(data[..base]) && data[base + length..] == old(data[base + length..])
    ensures data[base..base + length] == RedirectedBelow(d, at + 1)
    ensures |TokensBelow(d, at + 1)| == |TokensBelow(d, at)| + hit
  {
    ScanSeesOriginal(d, at);
    StepRedirects(d, at);
    StepCounts(d, at);
    if TokenHere(data, base, length, at) {
      RewriteHere(data, base, length, at);
      return 1;
    }
    return 0;
  }

  /** A second pass finds nothing and changes nothing. */
  lemma RedirectedOnce(d: seq<Byte>)
    ensures Tokens(Redirected(d)) == {}
    ensures Redirected(Redirected(d)) == Redirected(d)
  {
    forall at
      ensures !Redirects(Redirected(d), at)
    {
      NoTokenLeft(d, at);
    }
  }

  lemma NoTokenLeft(d: seq<Byte>, at: int)
    ensures !Redirects(Redirected(d), at)
  {
    var r := Redirected(d);
    if Redirects(r, at) {
      assert r[at] == d[at];
      assert r[at + 1] == d[at + 1];
      assert r[at + 2] == d[at + 2];
      assert r[at + 3] == d[at + 3];
      assert at + 4 < |d| ==> r[at + 4] == d[at + 4];
      assert r[at - 1] == d[at - 1];
      assert Redirects(d, at);
      assert false;
    }
  }

  /** A payload without tokens is left alone; one with a token is changed. */
  lemma ChangesIffTokens(d: seq<Byte>)
    ensures Tokens(d) == {} <==> Redirected(d) == d
  {
    if Tokens(d) == {} {
      forall at
        ensures !Redirects(d, at)
      {
        assert at !in Tokens(d);
      }
    } else {
      var at :| at in Tokens(d);
      assert Redirected(d)[at + 1] == DIGIT9;
    }
  }

  /** The address tokens in so many bytes: `?&212`, `!&212`, `?&213` or `!&213`, with no further hex
      digit behind. */
  predicate IsToken(d: seq<Byte>, at: int) {
    && 1 <= at && at + 4 <= |d| && d[at - 1] in {0x3F, 0x21}
    && (d[at..at + 4] == [0x26, 0x32, 0x31, 0x32] || d[at..at + 4] == [0x26, 0x32, 0x31, 0x33])
    && (at + 4 == |d| || !(0x30 <= d[at + 4] <= 0x39 || 0x41 <= d[at + 4] <= 0x46 || 0x61 <= d[at + 4] <= 0x66))
  }

  lemma RedirectsAreTokens(d: seq<Byte>, at: int)
    ensures Redirects(d, at) <==> IsToken(d, at)
  {
    if 1 <= at && at + 4 <= |d| {
      assert d[at..at + 4] == [d[at], d[at + 1], d[at + 2], d[at + 3]];
    }
  }

  /** What the repair makes of a payload: `&212` becomes `&900` and `&213` becomes `&901` wherever it
      is a token, and every byte outside the tokens stays. */
  lemma TokensAreRedirected(d: seq<Byte>, at: int)
    ensures at in Tokens(d) <==> IsToken(d, at)
    ensures IsToken(d, at) && d[at + 3] == 0x32 ==> Redirected(d)[at..at + 4] == [0x26, 0x39, 0x30, 0x30]
    ensures IsToken(d, at) && d[at + 3] == 0x33 ==> Redirected(d)[at..at + 4] == [0x26, 0x39, 0x30, 0x31]
    ensures 0 <= at < |d| && (forall t | at - 3 <= t <= at :: !IsToken(d, t)) ==> Redirected(d)[at] == d[at]
  {
    RedirectsAreTokens(d, at);
    if IsToken(d, at) {
      var r := Redirected(d);
      assert d[at] == d[at..at + 4][0] && d[at + 1] == d[at..at + 4][1] && d[at + 2] == d[at..at + 4][2];
      assert r[at..at + 4] == [r[at], r[at + 1], r[at + 2], r[at + 3]];
      assert r[at] == RedirectedByte(d, |d|, at) && r[at + 1] == RedirectedByte(d, |d|, at + 1);
      assert r[at + 2] == RedirectedByte(d, |d|, at + 2) && r[at + 3] == RedirectedByte(d, |d|, at + 3);
    } else if 0 <= at < |d| && forall t | at - 3 <= t <= at :: !IsToken(d, t) {
      RedirectsAreTokens(d, at - 1);
      RedirectsAreTokens(d, at - 2);
      RedirectsAreTokens(d, at - 3);
      assert !IsToken(d, at - 1) && !IsToken(d, at - 2) && !IsToken(d, at - 3);
      assert Redirected(d)[at] == RedirectedByte(d, |d|, at);
    }
  }

  // ----- one chunk

  datatype Extent = Extent(at: nat, length: nat)

  /** Where the scan for the name's NUL stops: at most twelve bytes into the block. */
  function NameEnd(body: seq<Byte>, k: nat): (e: nat)
    requires k <= 12
    ensures k <= e <= 12
    ensures e < |body| && body[e] != 0 ==> e == 12
    ensures e > k ==> e <= |body|
    ensures forall i | k <= i < e && i < |body| :: body[i] != 0
    decreases 12 - k
  {
    if k < |body| && k <= 11 && body[k] != 0 then NameEnd(body, k + 1) else k
  }

  /** The payload of a chunk that begins with a standard cassette block: '*', a name and its
      NUL, a 17-byte descriptor, header CRC, payload, payload CRC. */
  function Payload(body: seq<Byte>): (p: Option<Extent>)
    ensures p.Some? ==> p.value.length > 0 && p.value.at + p.value.length + 2 <= |body|
  {
    if |body| > 1 && body[0] == STAR then
      var end := NameEnd(body, 1);
      if end < |body| && body[end] == 0 && end + 20 <= |body| then
        var length := Rd16(body, end + 11);
        if length != 0 && end + 20 + length + 2 <= |body| then Some(Extent(end + 20, length)) else None
      else None
    else None
  }

  function PayloadBytes(body: seq<Byte>): seq<Byte> {
    match Payload(body)
    case None => []
    case Some(p) => body[p.at..p.at + p.length]
  }

  /** A block body with its payload and payload CRC replaced. */
  function Pieces(body: seq<Byte>, p: Extent, fixed: seq<Byte>, crc: seq<Byte>): seq<Byte>
    requires p.at + p.length + 2 <= |body|
  {
    body[..p.at] + fixed + crc + body[p.at + p.length + 2..]
  }

  /** The body with the payload at `p` redirected and, if that changes it, the payload CRC
      renewed, high byte first. */
  function BodyAfter(body: seq<Byte>, p: Extent): (r: seq<Byte>)
    requires p.at + p.length + 2 <= |body|
    ensures |r| == |body|
  {
    var payload := body[p.at..p.at + p.length];
    if Tokens(payload) == {} then body
    else Pieces(body, p, Redirected(payload), TapeCrc.Stored(TapeCrc.Crc(Redirected(payload))))
  }

  function RepairedBody(body: seq<Byte>): (r: seq<Byte>)
    ensures |r| == |body|
  {
    match Payload(body)
    case None => body
    case Some(p) => BodyAfter(body, p)
  }

  function RepairedChunk(c: seq<Byte>): (r: seq<Byte>)
    ensures |r| == |c|
  {
    if |c| >= 6 && Rd16(c, 0) == CASSETTE_DATA then c[..6] + RepairedBody(c[6..]) else c
  }

  function ChunkHits(c: seq<Byte>): nat {
    if |c| >= 6 && Rd16(c, 0) == CASSETTE_DATA then |Tokens(PayloadBytes(c[6..]))| else 0
  }

  // ----- a run of chunks

  /** UEF framing: a 16-bit type, a 32-bit length, and that many bytes. */
  function ChunkSize(s: seq<Byte>): nat {
    if |s| >= 6 && 6 + Rd32(s, 2) <= |s| then 6 + Rd32(s, 2) else 0
  }

  lemma ChunkSizeIsStable()
    ensures Stable(ChunkSize)
  {
    forall a, b | Complete(ChunkSize, a)
      ensures ChunkSize(a + b) == ChunkSize(a)
    {
      assert Rd32(a + b, 2) == Rd32(a, 2);
    }
  }

  /** The stream with every complete chunk repaired; the incomplete rest is as it was. */
  function Repaired(s: seq<Byte>): (r: seq<Byte>)
    ensures |r| == |s|
  {
    RewrittenLength(ChunkSize, RepairedChunk, s);
    Rewritten(ChunkSize, RepairedChunk, s)
  }

  /** A window after uef_repair_filev_span: chunks are walked from `start`. */
  function SpanResult(w: seq<Byte>, start: nat): (r: seq<Byte>)
    ensures |r| == |w|
  {
    if |w| < start then w else w[..start] + Repaired(w[start..])
  }

  function SpanEnd(w: seq<Byte>, start: nat): (n: nat)
    ensures n <= |w|
  {
    if |w| < start then |w| else |w| - |Rest(ChunkSize, w[start..])|
  }

  function SpanHits(w: seq<Byte>, start: nat): nat {
    if |w| < start then 0 else Counted(ChunkSize, ChunkHits, w[start..])
  }

  /** The whole-image form: past the twelve-byte file header. */
  function RepairedImage(image: seq<Byte>): (r: seq<Byte>)
    ensures |r| == |image|
  {
    SpanResult(image, HEADER)
  }

  // ----- the in-place walk

  /** The scan of the source for the end of the name. */
  method FindNameEnd(window: array<Byte>, block: nat, limit: nat) returns (e: nat)
    requires block + 1 < limit <= window.Length
    ensures block <= e && e - block == NameEnd(window[block..limit], 1)
  {
    e := block + 1;
    ghost var body := window[block..limit];
    while e < limit && e - block <= 11 && window[e] != 0
      invariant block + 1 <= e <= limit && e - block <= 12
      invariant NameEnd(body, e - block) == NameEnd(body, 1)
    {
      assert body[e - block] == window[e];
      e := e + 1;
    }
    assert e < limit ==> body[e - block] == window[e];
  }

  /** Repair the chunk body that lies at block..limit of the window. */
  method RepairBody(window: array<Byte>, block: nat, limit: nat) returns (hits: nat)
    requires block <= limit <= window.Length
    modifies window
    ensures window[..block] == old(window[..block]) && window[limit..] == old(window[limit..])
    ensures window[block..limit] == RepairedBody(old(window[block..limit]))
    ensures hits == |Tokens(PayloadBytes(old(window[block..limit])))|
  {
    hide Payload, BodyAfter;
    hits := 0;
    var p := FindPayload(window, block, limit);
    if p.Some? {
      hits := RepairPayloadAndCrc(window, block, limit, p.value);
    } else {
      assert Tokens([]) == {};
    }
  }

  /** The source's nested tests for a standard cassette block. */
  method FindPayload(window: array<Byte>, block: nat, limit: nat) returns (p: Option<Extent>)
    requires block <= limit <= window.Length
    ensures p == Payload(window[block..limit])
  {
    ghost var body := window[block..limit];
    if limit - block > 1 && window[block] == STAR {
      var nameEnd := FindNameEnd(window, block, limit);
      if nameEnd < limit && window[nameEnd] == 0 {
        assert body[nameEnd - block] == window[nameEnd];
        var descriptor := nameEnd + 1;
        var dataAt := descriptor + 17 + 2;
        if dataAt <= limit && descriptor + 13 <= limit {
          var length := window[descriptor + 10] as int + 0x100 * window[descriptor + 11] as int;
          assert length == Rd16(body, descriptor - block + 10);
          var dataCrc := dataAt + length;
          if length != 0 && dataCrc + 2 <= limit {
            return Some(Extent(dataAt - block, length));
          }
        }
      }
    }
    return None;
  }

  /** Redirect one payload and, if that changed it, renew the CRC behind it. */
  method RepairPayloadAndCrc(window: array<Byte>, block: nat, ghost limit: nat, p: Extent) returns (hits: nat)
    requires block + p.at + p.length + 2 <= limit <= window.Length
    modifies window
    ensures window[..block] == old(window[..block]) && window[limit..] == old(window[limit..])
    ensures window[block..limit] == BodyAfter(old(window[block..limit]), p)
    ensures hits == |Tokens(old(window[block..limit])[p.at..p.at + p.length])|
  {
    hide BodyAfter, Tokens, Redirected;
    ghost var was := window[..];
    var dataAt, dataCrc := block + p.at, block + p.at + p.length;
    SliceOfSlice(was, block, limit, p.at, p.at + p.length);
    hits := RepairPayload(window, dataAt, p.length);
    ghost var middle := window[..];
    if hits != 0 {
      var stored := RenewCrc(window, dataAt, dataCrc);
      BodyHit(was, middle, window[..], block, limit, p, dataAt, dataCrc, stored);
    } else {
      BodyMissed(was[block..limit], p);
      BodyKept(was, window[..], block, limit, dataAt, dataCrc);
    }
  }

  lemma BodyHit(was: seq<Byte>, middle: seq<Byte>, now: seq<Byte>, block: nat, limit: nat, p: Extent,
                a: nat, c: nat, stored: seq<Byte>)
    requires |was| == |middle| == |now| && a == block + p.at && c == a + p.length && c + 2 <= limit <= |was|
    requires middle[..a] == was[..a] && middle[a..c] == Redirected(was[a..c]) && middle[c..] == was[c..]
    requires now[..a] == middle[..a] && now[a..c] == middle[a..c] && now[c + 2..] == middle[c + 2..]
    requires stored == TapeCrc.Stored(TapeCrc.Crc(middle[a..c])) && now[c] == stored[0] && now[c + 1] == stored[1]
    requires |Tokens(was[a..c])| != 0
    ensures now[..block] == was[..block] && now[limit..] == was[limit..]
    ensures now[block..limit] == BodyAfter(was[block..limit], p)
  {
    hide Redirected, Tokens, TapeCrc.Stored, TapeCrc.Crc;
    assert middle[c + 2..] == middle[c..][2..] && was[c + 2..] == was[c..][2..];
    BodyRebuilt(was, now, block, limit, p, now[a..c], stored);
    SliceOfSlice(was, block, limit, p.at, p.at + p.length);
  }

  lemma BodyMissed(body: seq<Byte>, p: Extent)
    requires p.at + p.length + 2 <= |body| && |Tokens(body[p.at..p.at + p.length])| == 0
    ensures BodyAfter(body, p) == body
    ensures Redirected(body[p.at..p.at + p.length]) == body[p.at..p.at + p.length]
  {
    ChangesIffTokens(body[p.at..p.at + p.length]);
  }

  method RenewCrc(window: array<Byte>, from: nat, at: nat) returns (stored: seq<Byte>)
    requires from <= at && at + 2 <= window.Length
    modifies window
    ensures window[..from] == old(window[..from]) && window[from..at] == old(window[from..at])
    ensures stored == TapeCrc.Stored(TapeCrc.Crc(old(window[from..at])))
    ensures window[at] == stored[0] && window[at + 1] == stored[1]
    ensures window[at + 2..] == old(window[at + 2..])
  {
    var crc := TapeCrc.Compute(window, from, at - from);
    stored := TapeCrc.Stored(crc);
    window[at], window[at + 1] := stored[0], stored[1];
  }

  /** Reassembling a window from the pieces that were written. */
  lemma BodyRebuilt(was: seq<Byte>, now: seq<Byte>, block: nat, limit: nat, p: Extent, fixed: seq<Byte>, crc: seq<Byte>)
    requires |now| == |was| && block <= limit <= |was| && block + p.at + p.length + 2 <= limit
    requires |fixed| == p.length && |crc| == 2
    requires now[..block + p.at] == was[..block + p.at]
    requires now[block + p.at..block + p.at + p.length] == fixed
    requires now[block + p.at + p.length] == crc[0] && now[block + p.at + p.length + 1] == crc[1]
    requires now[block + p.at + p.length + 2..] == was[block + p.at + p.length + 2..]
    ensures now[..block] == was[..block] && now[limit..] == was[limit..]
    ensures now[block..limit] == Pieces(was[block..limit], p, fixed, crc)
  {
    var made := Pieces(was[block..limit], p, fixed, crc);
    var end := block + p.at + p.length;
    assert now[..block] == now[..block + p.at][..block];
    assert now[limit..] == now[end + 2..][limit - end - 2..];
    forall k | 0 <= k < limit - block
      ensures now[block..limit][k] == made[k]
    {
      if k < p.at {
        assert now[block + k] == now[..block + p.at][block + k];
      } else if k < p.at + p.length {
        assert now[block + k] == now[block + p.at..end][k - p.at];
      } else if k >= p.at + p.length + 2 {
        assert now[block + k] == now[end + 2..][block + k - end - 2];
      }
    }
  }

  lemma BodyKept(was: seq<Byte>, now: seq<Byte>, block: nat, limit: nat, a: nat, b: nat)
    requires |now| == |was| && block <= a <= b <= limit <= |was|
    requires now[..a] == was[..a] && now[a..b] == was[a..b] && now[b..] == was[b..]
    ensures now == was
  {
    assert now == now[..a] + now[a..b] + now[b..];
    assert was == was[..a] + was[a..b] + was[b..];
  }

  /** Repair the complete chunk at position..next of the window. */
  method RepairChunk(window: array<Byte>, position: nat, next: nat) returns (hits: nat)
    requires position + 6 <= next <= window.Length
    modifies window
    ensures window[..position] == old(window[..position]) && window[next..] == old(window[next..])
    ensures window[position..next] == RepairedChunk(old(window[position..next]))
    ensures hits == ChunkHits(old(window[position..next]))
  {
    hide RepairedChunk, RepairedBody, ChunkHits, PayloadBytes, Tokens;
    ghost var was := window[..];
    var chunk := window[position] as int + 0x100 * window[position + 1] as int;
    var block := position + 6;
    hits := 0;
    RepairedChunkIs(was, position, next);
    if chunk == CASSETTE_DATA {
      hits := RepairBody(window, block, next);
      ChunkRebuilt(was, window[..], position, block, next);
    }
  }

  lemma RepairedChunkIs(was: seq<Byte>, position: nat, next: nat)
    requires position + 6 <= next <= |was|
    ensures var c, body := was[position..next], was[position + 6..next];
            if Rd16(was, position) == CASSETTE_DATA
            then RepairedChunk(c) == was[position..position + 6] + RepairedBody(body)
              && ChunkHits(c) == |Tokens(PayloadBytes(body))|
            else RepairedChunk(c) == c && ChunkHits(c) == 0
  {
    var c := was[position..next];
    assert c[6..] == was[position + 6..next] && c[..6] == was[position..position + 6];
    assert Rd16(c, 0) == Rd16(was, position);
  }

  lemma ChunkRebuilt(was: seq<Byte>, now: seq<Byte>, position: nat, block: nat, next: nat)
    requires |was| == |now| && position <= block <= next <= |was|
    requires now[..block] == was[..block]
    ensures now[..position] == was[..position]
    ensures now[position..next] == was[position..block] + now[block..next]
  {
    assert now[..position] == now[..block][..position];
    assert now[position..block] == now[..block][position..];
    assert was[position..block] == was[..block][position..];
  }

  /** uef_repair_filev_span: repairs every complete chunk from `start` and says where they end. */
  method Span(window: array<Byte>, length: nat, start: nat) returns (position: nat, repaired: nat)
    requires length <= window.Length
    modifies window
    ensures window[..length] == SpanResult(old(window[..length]), start)
    ensures window[length..] == old(window[length..])
    ensures position == SpanEnd(old(window[..length]), start)
    ensures repaired == SpanHits(old(window[..length]), start)
  {
    repaired := 0;
    if length < start {
      return length, 0;
    }
    position := start;
    ghost var was := window[..];
    WalkBegins(ChunkSize, RepairedChunk, ChunkHits, was, start, length);
    while position + 6 <= length
      invariant Walked(ChunkSize, RepairedChunk, ChunkHits, was, window[..], start, position, length, repaired)
    {
      var next, hits := SpanStep(window, was, length, start, position, repaired);
      if next == position {
        break;
      }
      repaired := repaired + hits;
      position := next;
    }
    WalkEnds(ChunkSize, RepairedChunk, ChunkHits, was, window[..], start, position, length, repaired);
    assert was[..length][start..] == was[start..length] && was[..length][..start] == was[..start];
  }

  /** One turn of the walk: repair the chunk at `position`, or stay there if it is incomplete. */
  method SpanStep(window: array<Byte>, ghost was: seq<Byte>, length: nat, ghost start: nat, position: nat, ghost done: nat)
    returns (next: nat, hits: nat)
    requires length <= window.Length && position + 6 <= length
    requires Walked(ChunkSize, RepairedChunk, ChunkHits, was, window[..], start, position, length, done)
    modifies window
    ensures Walked(ChunkSize, RepairedChunk, ChunkHits, was, window[..], start, next, length, done + hits)
    ensures next == position ==> hits == 0 && !Complete(ChunkSize, was[position..length])
    ensures next != position ==> next > position
  {
    hide RepairedChunk, ChunkHits, Walked;
    ghost var before := window[..];
    var chunkLength := window[position + 2] as int + 0x100 * window[position + 3] as int
                     + 0x1_0000 * window[position + 4] as int + 0x100_0000 * window[position + 5] as int;
    WalkFrame(ChunkSize, RepairedChunk, ChunkHits, was, before, start, position, length, done);
    SizeInPlace(was, before, position, length);
    next := position + 6 + chunkLength;
    if chunkLength > length || next > length {
      return position, 0;
    }
    assert before[position..next] == before[position..][..next - position];
    assert was[position..next] == was[position..][..next - position];
    hits := RepairChunk(window, position, next);
    WalkStep(ChunkSize, RepairedChunk, ChunkHits, was, before, window[..], start, position, next, length, done);
  }

  lemma SizeInPlace(was: seq<Byte>, now: seq<Byte>, position: nat, length: nat)
    requires |was| == |now| && position + 6 <= length <= |was| && now[position..] == was[position..]
    ensures ChunkSize(was[position..length])
         == if position + 6 + Rd32(now, position + 2) <= length then 6 + Rd32(now, position + 2) else 0
  {
    var rest := was[position..length];
    assert forall k | 0 <= k < 6 :: rest[k] == was[position..][k] && now[position + k] == now[position..][k];
    assert Rd32(rest, 2) == Rd32(now, position + 2);
  }

  /** uef_repair_filev_stamp: the whole image at once. */
  method Stamp(window: array<Byte>) returns (repaired: nat)
    modifies window
    ensures window[..] == RepairedImage(old(window[..]))
    ensures repaired == SpanHits(old(window[..]), HEADER)
  {
    var position;
    assert window[..window.Length] == window[..];
    position, repaired := Span(window, window.Length, HEADER);
    assert window[..window.Length] == window[..];
  }

  // ----- windows

  /** The caller of uef_repair_filev_span on a tape it never holds whole: each window goes in
      behind the remainder of the one before; the part up to the returned offset is published
      and the rest is held back. */
  function Feed(windows: seq<seq<Byte>>, carry: seq<Byte>, start: nat): Fed
    decreases |windows|
  {
    if windows == [] then Fed([], carry, 0)
    else
      var buffer := carry + windows[0];
      var end := SpanEnd(buffer, start);
      var rest := Feed(windows[1..], SpanResult(buffer, start)[end..], 0);
      Fed(SpanResult(buffer, start)[..end] + rest.published, rest.carry, SpanHits(buffer, start) + rest.hits)
  }

  /** A repaired window is its repaired chunks, then its unframed remainder. */
  lemma SpanParts(w: seq<Byte>, start: nat)
    requires start <= |w|
    ensures SpanResult(w, start)[..SpanEnd(w, start)]
         == w[..start] + MapConcat(RepairedChunk, Split(ChunkSize, w[start..]))
    ensures SpanResult(w, start)[SpanEnd(w, start)..] == Rest(ChunkSize, w[start..])
  {
    Parts(w[..start], MapConcat(RepairedChunk, Split(ChunkSize, w[start..])), Rest(ChunkSize, w[start..]));
    assert |Repaired(w[start..])| == |w[start..]|;
  }

  lemma Parts<T>(a: seq<T>, b: seq<T>, c: seq<T>)
    ensures (a + (b + c))[..|a| + |b|] == a + b && (a + (b + c))[|a| + |b|..] == c
  {
  }

  lemma {:induction false} LaterWindows(windows: seq<seq<Byte>>, carry: seq<Byte>)
    ensures Feed(windows, carry, 0) == Framing.Feed(ChunkSize, RepairedChunk, ChunkHits, windows, carry)
    decreases |windows|
  {
    if windows != [] {
      var buffer := carry + windows[0];
      SpanParts(buffer, 0);
      assert buffer[0..] == buffer;
      var framed := MapConcat(RepairedChunk, Split(ChunkSize, buffer));
      assert buffer[..0] + framed == framed;
      LaterWindows(windows[1..], Rest(ChunkSize, buffer));
    }
  }

  /** Windowed repair refines whole-image repair: for every image and every cut of it whose
      first piece holds the file header, what is published followed by what is still carried is
      the repaired image, and the hits add up to the same number. */
  lemma WindowsRefineWhole(windows: seq<seq<Byte>>)
    requires windows != [] && |windows[0]| >= HEADER
    ensures Feed(windows, [], HEADER).published + Feed(windows, [], HEADER).carry == RepairedImage(Concat(windows))
    ensures Feed(windows, [], HEADER).hits == SpanHits(Concat(windows), HEADER)
    ensures !Complete(ChunkSize, Feed(windows, [], HEADER).carry)
  {
    ChunkSizeIsStable();
    FeedAfterHeaderIsWhole(ChunkSize, RepairedChunk, ChunkHits, windows, HEADER);
    FeedBegins(windows);
    RestIsIncomplete(ChunkSize, Concat(windows)[HEADER..]);
  }

  lemma FeedBegins(windows: seq<seq<Byte>>)
    requires windows != [] && |windows[0]| >= HEADER
    ensures Feed(windows, [], HEADER) == FeedAfterHeader(ChunkSize, RepairedChunk, ChunkHits, windows, HEADER)
  {
    assert [] + windows[0] == windows[0];
    SpanParts(windows[0], HEADER);
    LaterWindows(windows[1..], Rest(ChunkSize, windows[0][HEADER..]));
  }
}
