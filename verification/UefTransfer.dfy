/** A tape's whole way through the stream: uploaded in chunks, each sent once or more, then read
    back window by window out of JIM. */
module UefTransfer {
  import opened Bytes
  import opened Framing
  import opened UefWindow
  import opened UefStream
  import UefRepair

  // ----- the upload

  /** JIM with a chunk at its front, where APPEND takes it from. */
  function WithFront(jim: seq<Byte>, chunk: seq<Byte>): (r: seq<Byte>)
    requires |chunk| <= |jim|
    ensures |r| == |jim| && r[..|chunk|] == chunk
  {
    chunk + jim[|chunk|..]
  }

  /** The APPEND of a chunk, with its own length and CRC. */
  function AppendOf(env: Env, sys: System, chunk: seq<Byte>): Request {
    Append(sys.stream.token, sys.stream.generation, |chunk|, env.crc32(chunk))
  }

  predicate Sendable(chunk: seq<Byte>) {
    0 < |chunk| <= 0xFF00
  }

  /** Write a chunk to JIM and send its APPEND the given number of times. */
  function Send(env: Env, sys: System, chunk: seq<Byte>, times: nat): (after: System)
    requires Fits(sys) && Sendable(chunk)
    ensures Fits(after)
  {
    var ready := Step(env, sys, HostWrites(WithFront(sys.jim, chunk))).0;
    Resend(env, ready, AppendOf(env, ready, chunk), times)
  }

  /** A chunk and how often it is sent. */
  datatype Sending = Sending(chunk: seq<Byte>, times: nat)

  predicate Proper(x: Sending) {
    Sendable(x.chunk) && x.times >= 1
  }

  function Upload(env: Env, sys: System, xs: seq<Sending>): (after: System)
    requires Fits(sys) && forall i | 0 <= i < |xs| :: Proper(xs[i])
    ensures Fits(after)
    decreases |xs|
  {
    if xs == [] then sys
    else
      assert Proper(xs[0]);
      Upload(env, Send(env, sys, xs[0].chunk, xs[0].times), xs[1..])
  }

  function Content(xs: seq<Sending>): seq<Byte> {
    if xs == [] then [] else xs[0].chunk + Content(xs[1..])
  }

  /** One chunk, however often it is sent, is added once. */
  lemma SendAdds(env: Env, sys: System, chunks: seq<seq<Byte>>, x: Sending)
    requires Fits(sys) && UploadKept(env, sys.stream, chunks) && Proper(x)
    requires |sys.stream.tape| + |x.chunk| <= STREAM_CAPACITY
    ensures var after := Send(env, sys, x.chunk, x.times);
            && UploadKept(env, after.stream, chunks + [x.chunk]) && after.stream.tape == sys.stream.tape + x.chunk
            && after.guard == sys.guard
  {
    hide UploadKept;
    var ready := Step(env, sys, HostWrites(WithFront(sys.jim, x.chunk))).0;
    var r := AppendOf(env, ready, x.chunk);
    assert ready == sys.(jim := WithFront(sys.jim, x.chunk));
    UploadIsOn(env, sys.stream, chunks);
    assert AppendTakes(env, ready, r);
    SentOnce(env, ready, chunks, r, x.times);
  }

  lemma UploadIsOn(env: Env, s: Stream, chunks: seq<seq<Byte>>)
    requires UploadKept(env, s, chunks)
    ensures s.uploading
  {
  }

  lemma {:induction false} UploadAdds(env: Env, sys: System, chunks: seq<seq<Byte>>, xs: seq<Sending>)
    requires Fits(sys) && UploadKept(env, sys.stream, chunks) && forall i | 0 <= i < |xs| :: Proper(xs[i])
    requires |sys.stream.tape| + |Content(xs)| <= STREAM_CAPACITY
    ensures var after := Upload(env, sys, xs);
            && after.stream.tape == sys.stream.tape + Content(xs) && after.stream.uploading && after.guard == sys.guard
    decreases |xs|
  {
    hide UploadKept, Send;
    if xs == [] {
      UploadIsOn(env, sys.stream, chunks);
    } else {
      assert Proper(xs[0]);
      SendAdds(env, sys, chunks, xs[0]);
      UploadAdds(env, Send(env, sys, xs[0].chunk, xs[0].times), chunks + [xs[0].chunk], xs[1..]);
      Regroup(sys.stream.tape, xs[0].chunk, Content(xs[1..]));
    }
  }

  // ----- the reading

  /** The window as the host finds it: as many bytes as the trailer says, in page order. */
  function Seen(sys: System): seq<Byte>
    requires |sys.jim| >= JIM_WINDOW
  {
    if TrailerLength(sys.jim) <= Limit(sys.guard) then Gather(sys.jim, sys.guard, TrailerLength(sys.jim)) else []
  }

  /** A tape is being read: the published window ends at the cursor, and is marked final exactly
      when the cursor is at the end. */
  predicate Reading(sys: System) {
    && Fits(sys) && sys.stream.ready
    && sys.stream.published.offset + sys.stream.published.length == sys.stream.cursor
    && (sys.stream.published.final <==> sys.stream.cursor == |sys.stream.tape|)
  }

  /** The refill that asks for what follows the current generation. */
  function Refilled(env: Env, sys: System): System
    requires Fits(sys)
  {
    Step(env, sys, Refill(sys.stream.token, sys.stream.generation)).0
  }

  lemma RefillReads(env: Env, sys: System)
    requires Reading(sys)
    ensures var next := Refilled(env, sys);
            && Reading(next) && next.stream.tape == sys.stream.tape && next.guard == sys.guard
            && next.stream.published.offset == sys.stream.cursor
            && (!sys.stream.published.final ==> next.stream.cursor > sys.stream.cursor)
            && Shown(next)
  {
    hide Laid, Shown;
    PublishShows(sys.(stream := sys.stream.(generation := Inc(sys.stream.generation))));
  }

  /** What a host gathers that refills until it is told that the window is the last. */
  function Fetched(env: Env, sys: System): seq<Byte>
    requires Reading(sys)
    decreases |sys.stream.tape| - sys.stream.cursor
  {
    if sys.stream.published.final then Seen(sys)
    else
      RefillReads(env, sys);
      Seen(sys) + Fetched(env, Refilled(env, sys))
  }

  lemma SeenIsCurrent(sys: System)
    requires Reading(sys) && Shown(sys)
    ensures Seen(sys) == sys.stream.tape[sys.stream.published.offset..sys.stream.cursor]
  {
    hide Gather, TrailerLength, GuardStands;
  }

  lemma {:induction false} FetchedIsTape(env: Env, sys: System)
    requires Reading(sys) && Shown(sys)
    ensures Fetched(env, sys) == sys.stream.tape[sys.stream.published.offset..]
    decreases |sys.stream.tape| - sys.stream.cursor
  {
    hide Step, Shown, Seen, Refilled;
    SeenIsCurrent(sys);
    if !sys.stream.published.final {
      RefillReads(env, sys);
      FetchedIsTape(env, Refilled(env, sys));
      Joined(sys.stream.tape, sys.stream.published.offset, sys.stream.cursor);
    }
  }

  lemma Joined(s: seq<Byte>, a: nat, b: nat)
    requires a <= b <= |s|
    ensures s[a..b] + s[b..] == s[a..]
  {
  }

  // ----- the whole way

  /** What arrives of the bytes of a tape: those bytes with the repair off, the repaired image with
      the repair on. */
  ghost predicate Arrives(env: Env, got: seq<Byte>, tape: seq<Byte>) {
    && (env.repair ==> got == UefRepair.RepairedImage(tape))
    && (!env.repair ==> got == tape)
  }

  /** FINALIZE of a tape, raw or unpacked, shows the first window of what arrives. */
  lemma FinalizeShows(env: Env, sys: System, tape: seq<Byte>)
    requires Fits(sys) && sys.stream.uploading && sys.stream.tape != []
    requires if IsRaw(sys.stream.tape) then tape == sys.stream.tape
             else env.unpack(sys.stream.tape).ok && tape == env.unpack(sys.stream.tape).written && |tape| <= 0x100_0000
    ensures var (after, status) := Step(env, sys, Finalize(sys.stream.token));
            && status == Done && Reading(after) && Shown(after) && Arrives(env, after.stream.tape, tape)
            && after.stream.published.offset == 0
  {
    hide Laid, Shown;
    var u := Normalised(env, sys.stream.tape);
    assert u.written == tape && u.ok;
    PublishShows(sys.(stream := sys.stream.(tape := Restored(env, tape), format := u.format, ready := true, uploading := false,
                                            cursor := 0, generation := Inc(sys.stream.generation))));
  }

  /** End to end: whatever the backend held before, a tape uploaded in any chunks, each sent once or
      more, and then fetched from JIM window by window until the last, under a guard or without,
      arrives as the bytes sent, or those they unpack to; repaired if and only if the repair is on. */
  lemma UploadArrives(env: Env, sys: System, xs: seq<Sending>, tape: seq<Byte>)
    requires Fits(sys) && (forall i | 0 <= i < |xs| :: Proper(xs[i]))
    requires Content(xs) != [] && |Content(xs)| <= 0x100_0000
    requires if IsRaw(Content(xs)) then tape == Content(xs)
             else env.unpack(Content(xs)).ok && tape == env.unpack(Content(xs)).written && |tape| <= 0x100_0000
    ensures var sent := Upload(env, Step(env, sys, Begin).0, xs);
            var (reading, status) := Step(env, sent, Finalize(sent.stream.token));
            status == Done && Reading(reading) && Arrives(env, Fetched(env, reading), tape)
  {
    hide Upload, Fetched, Shown, Laid, Reading, IsRaw, Arrives;
    var begun := Step(env, sys, Begin).0;
    assert UploadKept(env, begun.stream, []);
    UploadAdds(env, begun, [], xs);
    var sent := Upload(env, begun, xs);
    assert [] + Content(xs) == Content(xs);
    FinalizeShows(env, sent, tape);
    var reading := Step(env, sent, Finalize(sent.stream.token)).0;
    FetchedIsTape(env, reading);
    assert reading.stream.tape[0..] == reading.stream.tape;
  }

  /** A raw tape. */
  lemma TapeArrives(env: Env, sys: System, xs: seq<Sending>)
    requires Fits(sys) && (forall i | 0 <= i < |xs| :: Proper(xs[i]))
    requires IsRaw(Content(xs)) && |Content(xs)| <= 0x100_0000
    ensures var sent := Upload(env, Step(env, sys, Begin).0, xs);
            var (reading, status) := Step(env, sent, Finalize(sent.stream.token));
            && status == Done && Reading(reading)
            && (env.repair ==> Fetched(env, reading) == UefRepair.RepairedImage(Content(xs)))
            && (!env.repair ==> Fetched(env, reading) == Content(xs))
  {
    hide Upload, Fetched, Reading, Step;
    UploadArrives(env, sys, xs, Content(xs));
  }

  /** A packed tape. */
  lemma UnpackedTapeArrives(env: Env, sys: System, xs: seq<Sending>)
    requires Fits(sys) && (forall i | 0 <= i < |xs| :: Proper(xs[i]))
    requires Content(xs) != [] && !IsRaw(Content(xs)) && |Content(xs)| <= 0x100_0000
    requires env.unpack(Content(xs)).ok && |env.unpack(Content(xs)).written| <= 0x100_0000
    ensures var sent := Upload(env, Step(env, sys, Begin).0, xs);
            var (reading, status) := Step(env, sent, Finalize(sent.stream.token));
            && status == Done && Reading(reading)
            && (env.repair ==> Fetched(env, reading) == UefRepair.RepairedImage(env.unpack(Content(xs)).written))
            && (!env.repair ==> Fetched(env, reading) == env.unpack(Content(xs)).written)
  {
    hide Upload, Fetched, Reading, Step;
    UploadArrives(env, sys, xs, env.unpack(Content(xs)).written);
  }

  // ----- requests that are turned away

  /** Every BEGIN has a token of its own: never zero, and not the one before it. */
  lemma BeginIsNew(env: Env, sys: System)
    requires Fits(sys)
    ensures var begun := Step(env, sys, Begin).0;
            begun.stream.token != 0 && begun.stream.token != sys.stream.token
  {
  }

  /** A token left over from another stream is refused whatever it is sent with. */
  lemma StaleTokenIsRefused(env: Env, sys: System, token: U32, value: U32, length: nat, crc: U32)
    requires Fits(sys) && token != 0 && token != sys.stream.token
    ensures forall r | r in [Append(token, value, length, crc), Finalize(token), Rewind(token), Refill(token, value),
                             Republish(token), Close(token)] :: Step(env, sys, r) == (sys, Refused)
  {
    hide Normalised, AppendChunk, Restarted, Publish, RepublishNow, ChunkLength;
    assert !AppendTakes(env, sys, Append(token, value, length, crc));
    assert !AppendRepeats(env, sys, Append(token, value, length, crc));
  }

  /** Which refills are answered: the one that asks for the next window, the one that repeats the
      last, and the two that leave the generation open. */
  lemma RefillIsAnsweredIff(env: Env, sys: System, value: U32)
    requires Fits(sys) && sys.stream.ready && sys.stream.token != 0
    ensures var (after, status) := Step(env, sys, Refill(sys.stream.token, value));
            && (status == Done <==> value == sys.stream.generation || (value + 1) % 0x1_0000_0000 == sys.stream.generation
                                    || value == 0xFFFF_FFFF)
            && (status == Done ==>
                  after.stream.generation ==
                  if value == sys.stream.generation || value == 0xFFFF_FFFF then (sys.stream.generation + 1) % 0x1_0000_0000
                  else sys.stream.generation)
    ensures Step(env, sys, Refill(0, 0)).1 == Done
    ensures Step(env, sys, Refill(0, 0)).0.stream.generation == (sys.stream.generation + 1) % 0x1_0000_0000
  {
    hide Laid;
  }

  /** A chunk whose CRC was sent and does not agree is refused, as is one out of sequence. */
  lemma BadChunkIsRefused(env: Env, sys: System, token: U32, value: U32, length: nat, crc: U32)
    requires Fits(sys) && 0 < length <= UPLOAD_MAX
    requires (crc != 0 && crc != env.crc32(sys.jim[..length]))
          || (value != sys.stream.generation && (value + 1) % 0x1_0000_0000 != sys.stream.generation)
    ensures Step(env, sys, Append(token, value, length, crc)) == (sys, Refused)
  {
    hide AppendChunk;
  }

  /** An upload that is not a tape is answered so and stays an upload; JIM is not touched. */
  lemma NoTapeNoReading(env: Env, sys: System)
    requires Fits(sys) && sys.stream.uploading && sys.stream.tape != [] && !IsRaw(sys.stream.tape)
    requires !env.unpack(sys.stream.tape).ok
    ensures var (after, status) := Step(env, sys, Finalize(sys.stream.token));
            && status == NotATape && after.stream.ready == sys.stream.ready && after.stream.uploading
            && |after.stream.tape| == |sys.stream.tape| && after.jim == sys.jim
  {
  }

  // ----- the other requests

  /** The guard image: one of the right length is taken and stands on every page at once, none at
      all withdraws it, and any other length is refused. */
  lemma GuardIsTaken(env: Env, sys: System, image: seq<Byte>)
    requires Fits(sys)
    ensures var (after, status) := Step(env, sys, GuardImage(image));
            if |image| == 105 then status == Done && after.guard == Some(image) && GuardStands(after.jim, image)
            else if image == [] then status == Done && after.guard == None
            else status == Refused && after == sys
  {
    hide Laid, GuardStands, Stamped;
    if |image| == 105 {
      var shaped := sys.(guard := Some(image), jim := Stamped(sys.jim, image));
      StampStands(sys.jim, image);
      if sys.stream.ready {
        var again := shaped.stream.(cursor := shaped.stream.published.offset);
        LaidKeepsGuard(shaped.jim, shaped.guard,
                       again.tape[again.cursor..again.cursor + WindowLength(again, shaped.guard)]);
      }
    }
  }

  /** A tape that is ready answers REWIND with its first window, REPUBLISH with the window it has, and
      CLOSE by forgetting it. */
  lemma ReadyIsAnswered(env: Env, sys: System)
    requires Fits(sys) && sys.stream.ready
    ensures var (first, status) := Step(env, sys, Rewind(sys.stream.token));
            && status == Done && Shown(first) && first.stream.tape == sys.stream.tape && first.stream.published.offset == 0
            && first.stream.published.length == first.stream.cursor == Smaller(|sys.stream.tape|, Limit(sys.guard))
            && first.stream.generation == (sys.stream.generation + 1) % 0x1_0000_0000
    ensures var (again, status) := Step(env, sys, Republish(sys.stream.token));
            && status == Done && again.stream == sys.stream && (sys.stream.published.length > 0 ==> Shown(again))
    ensures var (closed, status) := Step(env, sys, Close(sys.stream.token));
            && status == Done && !closed.stream.ready && !closed.stream.uploading && closed.stream.tape == []
            && TrailerLength(closed.jim) == 0
  {
    hide Laid, Shown;
    PublishShows(sys.(stream := sys.stream.(cursor := 0, generation := Inc(sys.stream.generation))));
    if sys.stream.published.length > 0 {
      RepublishShows(sys);
    }
  }

  /** An APPEND that gives no length means the one in the trailer. */
  lemma TrailerServes(env: Env, sys: System, token: U32, value: U32, crc: U32)
    requires Fits(sys) && TrailerLength(sys.jim) > 0
    ensures Step(env, sys, Append(token, value, 0, crc)) == Step(env, sys, Append(token, value, TrailerLength(sys.jim), crc))
  {
  }

  /** FINALIZE needs an upload with something in it. */
  lemma FinalizeIsRefusedIff(env: Env, sys: System)
    requires Fits(sys)
    ensures Step(env, sys, Finalize(sys.stream.token)).1 == Refused <==> !sys.stream.uploading || sys.stream.tape == []
    ensures Step(env, sys, Finalize(0)) == Step(env, sys, Finalize(sys.stream.token))
  {
    hide Restarted, Normalised;
  }
}
