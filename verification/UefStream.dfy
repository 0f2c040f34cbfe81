/** The incremental UEF stream: upload a tape in numbered chunks, then read it back in
    numbered windows. Every request is one step; a step either takes effect or is refused. */
module UefStream {
  import opened Bytes
  import opened UefFormat
  import opened UefWindow
  import UefRepair

  type U32 = v: int | 0 <= v < 0x1_0000_0000

  const STREAM_CAPACITY := 0x100_0000
  const UPLOAD_MAX := 0xFF00
  const NO_SEQUENCE: U32 := 0xFFFF_FFFF

  /** What unpacking an upload that is not a raw UEF gives: whether it is a tape, and the bytes
      that reach the stream buffer either way. */
  datatype Unpacked = Unpacked(ok: bool, format: Byte, written: seq<Byte>)

  /** The parts outside this model: the CRC-32 of a chunk, decompression, and the repair switch. */
  datatype Env = Env(crc32: seq<Byte> -> U32, unpack: seq<Byte> -> Unpacked, repair: bool)

  datatype LastAppend = LastAppend(sequence: U32, crc: U32, length: nat)

  datatype Published = Published(offset: nat, length: nat, final: bool)

  /** `tape` is the stream buffer up to its length. */
  datatype Stream = Stream(
    tape: seq<Byte>, cursor: nat, published: Published, token: U32, generation: U32,
    last: LastAppend, ready: bool, uploading: bool, format: Byte)

  datatype System = System(stream: Stream, guard: Guard, jim: seq<Byte>)

  datatype Request =
    | Probe
    | Begin
    | Append(token: U32, value: U32, length: nat, crc: U32)
    | Finalize(token: U32)
    | Rewind(token: U32)
    | Refill(token: U32, value: U32)
    | Republish(token: U32)
    | Close(token: U32)
    | Unknown
    | GuardImage(image: seq<Byte>)
    | HostWrites(jim: seq<Byte>)

  datatype Status = Done | Refused | NotATape

  function Inc(v: U32): U32 { (v + 1) % 0x1_0000_0000 }

  function NextToken(t: U32): U32 { if Inc(t) == 0 then 1 else Inc(t) }

  // ----- the operations

  function Cleared(s: Stream): Stream {
    Stream([], 0, Published(0, 0, false), s.token, 0, LastAppend(NO_SEQUENCE, 0, 0), false, false, 0)
  }

  function Smaller(a: nat, b: nat): nat { if a < b then a else b }

  /** How many bytes the next window takes. */
  function WindowLength(s: Stream, guard: Guard): (n: nat)
    requires s.cursor <= |s.tape|
    ensures n <= Limit(guard) && s.cursor + n <= |s.tape|
  {
    Smaller(|s.tape| - s.cursor, Limit(guard))
  }

  /** uef_stream_publish: lay the next window down and step past it. */
  function Publish(sys: System): System
    requires sys.stream.cursor <= |sys.stream.tape| && |sys.jim| >= JIM_WINDOW
  {
    var s := sys.stream;
    var n := WindowLength(s, sys.guard);
    sys.(stream := s.(cursor := s.cursor + n, published := Published(s.cursor, n, s.cursor + n == |s.tape|)),
         jim := Laid(sys.jim, sys.guard, s.tape[s.cursor..s.cursor + n]))
  }

  /** uef_stream_republish: lay the same window down again. */
  function RepublishNow(sys: System): System
    requires Fits(sys)
  {
    var s := sys.stream;
    if s.published.length == 0 then sys
    else
      sys.(jim := Laid(sys.jim, sys.guard, s.tape[s.published.offset..s.published.offset + s.published.length]))
  }

  /** uef_window_relayout: the guard has changed shape, so publish the current window anew. */
  function Relayout(sys: System): System
    requires |sys.jim| >= JIM_WINDOW && sys.stream.published.offset <= |sys.stream.tape|
  {
    if !sys.stream.ready then sys
    else Publish(sys.(stream := sys.stream.(cursor := sys.stream.published.offset)))
  }

  /** The published window lies in the tape and in the layout in force; until a tape is ready
      there is none. */
  predicate Fits(sys: System) {
    && |sys.jim| >= JIM_WINDOW
    && sys.stream.published.offset + sys.stream.published.length <= |sys.stream.tape|
    && sys.stream.published.length <= Limit(sys.guard)
    && sys.stream.cursor <= |sys.stream.tape|
    && (!sys.stream.ready ==> sys.stream.published == Published(0, 0, false))
  }

  predicate TokenFits(s: Stream, token: U32) { token == 0 || token == s.token }

  /** The chunk length an APPEND means: its own, or the trailer's when it gives none. */
  function ChunkLength(sys: System, r: Request): nat
    requires r.Append? && |sys.jim| >= JIM_WINDOW
  {
    if r.length == 0 then TrailerLength(sys.jim) else r.length
  }

  predicate AppendAdmitted(sys: System, r: Request)
    requires r.Append? && |sys.jim| >= JIM_WINDOW
  {
    && sys.stream.uploading && TokenFits(sys.stream, r.token)
    && 0 < ChunkLength(sys, r) <= UPLOAD_MAX
  }

  /** An APPEND that adds a chunk: the next sequence number, room for it, and a CRC that agrees
      if one was sent. */
  predicate AppendTakes(env: Env, sys: System, r: Request)
    requires r.Append? && |sys.jim| >= JIM_WINDOW
  {
    && AppendAdmitted(sys, r) && r.value == sys.stream.generation
    && ChunkLength(sys, r) <= STREAM_CAPACITY - |sys.stream.tape|
    && (r.crc == 0 || r.crc == env.crc32(sys.jim[..ChunkLength(sys, r)]))
  }

  /** An APPEND that repeats the last chunk taken. */
  predicate AppendRepeats(env: Env, sys: System, r: Request)
    requires r.Append? && |sys.jim| >= JIM_WINDOW
  {
    && AppendAdmitted(sys, r) && r.value != sys.stream.generation
    && Inc(r.value) == sys.stream.generation && r.value == sys.stream.last.sequence
    && ChunkLength(sys, r) == sys.stream.last.length
    && env.crc32(sys.jim[..ChunkLength(sys, r)]) == sys.stream.last.crc
    && (r.crc == 0 || r.crc == env.crc32(sys.jim[..ChunkLength(sys, r)]))
  }

  function AppendChunk(env: Env, sys: System, r: Request): System
    requires r.Append? && |sys.jim| >= JIM_WINDOW && ChunkLength(sys, r) <= UPLOAD_MAX
  {
    var chunk := sys.jim[..ChunkLength(sys, r)];
    sys.(stream := sys.stream.(tape := sys.stream.tape + chunk,
                               last := LastAppend(r.value, env.crc32(chunk), |chunk|),
                               generation := Inc(sys.stream.generation)))
  }

  predicate IsRaw(tape: seq<Byte>) { MAGIC <= tape }

  /** What FINALIZE makes of an upload. */
  function Normalised(env: Env, upload: seq<Byte>): Unpacked {
    if IsRaw(upload) then Unpacked(true, 'R' as int, upload)
    else
      var u := env.unpack(upload);
      if |u.written| <= STREAM_CAPACITY then u else Unpacked(false, 0, u.written[..STREAM_CAPACITY])
  }

  function Restored(env: Env, tape: seq<Byte>): (r: seq<Byte>)
    ensures |r| == |tape|
  {
    if env.repair then UefRepair.RepairedImage(tape) else tape
  }

  /** A failed unpacking overwrites the front of the buffer and leaves its length alone. */
  function Overwritten(tape: seq<Byte>, written: seq<Byte>): (r: seq<Byte>)
    ensures |r| == |tape|
  {
    if |written| >= |tape| then written[..|tape|] else written + tape[|written|..]
  }

  /** Begin reading: from the start, one generation on. */
  function Restarted(sys: System): System
    requires |sys.jim| >= JIM_WINDOW
  {
    Publish(sys.(stream := sys.stream.(cursor := 0, generation := Inc(sys.stream.generation))))
  }

  predicate Advances(s: Stream, r: Request)
    requires r.Refill?
  {
    (r.token == 0 && r.value == 0) || r.value == 0xFFFF_FFFF || r.value == s.generation
  }

  predicate Retries(s: Stream, r: Request)
    requires r.Refill?
  {
    !Advances(s, r) && Inc(r.value) == s.generation
  }

  /** One request. */
  function Step(env: Env, sys: System, r: Request): (result: (System, Status))
    requires Fits(sys)
    ensures Fits(result.0) && |result.0.jim| == |sys.jim|
  {
    var s := sys.stream;
    match r
    case Probe => (sys, Done)
    case Begin =>
      (sys.(stream := Cleared(s).(uploading := true, token := NextToken(s.token)), jim := WithTrailer(sys.jim, 0)), Done)
    case Append(_, _, _, _) =>
      if AppendTakes(env, sys, r) then (AppendChunk(env, sys, r), Done)
      else if AppendRepeats(env, sys, r) then (sys, Done)
      else (sys, Refused)
    case Finalize(token) =>
      if !s.uploading || !TokenFits(s, token) || s.tape == [] then (sys, Refused)
      else
        var u := Normalised(env, s.tape);
        if !u.ok then (sys.(stream := s.(tape := Overwritten(s.tape, u.written))), NotATape)
        else
          (Restarted(sys.(stream := s.(tape := Restored(env, u.written), format := u.format, ready := true, uploading := false))),
           Done)
    case Rewind(token) =>
      if !s.ready || !TokenFits(s, token) then (sys, Refused) else (Restarted(sys), Done)
    case Refill(token, _) =>
      if !s.ready || !TokenFits(s, token) then (sys, Refused)
      else if Advances(s, r) then (Publish(sys.(stream := s.(generation := Inc(s.generation)))), Done)
      else if Retries(s, r) then (RepublishNow(sys), Done)
      else (sys, Refused)
    case Republish(token) =>
      if !s.ready || !TokenFits(s, token) then (sys, Refused) else (RepublishNow(sys), Done)
    case Close(token) =>
      if !TokenFits(s, token) then (sys, Refused)
      else (sys.(stream := Cleared(s), jim := WithTrailer(sys.jim, 0)), Done)
    case Unknown => (sys, Refused)
    case GuardImage(image) =>
      if image == [] then (Relayout(sys.(guard := None)), Done)
      else if |image| != GUARD_LENGTH then (sys, Refused)
      else (Relayout(sys.(guard := Some(image), jim := Stamped(sys.jim, image))), Done)
    case HostWrites(jim) =>
      if |jim| == |sys.jim| then (sys.(jim := jim), Done) else (sys, Done)
  }

  // ----- what the host sees of a run

  /** The history of a run: the chunks taken since BEGIN, or the windows last laid down for the
      generations since FINALIZE or REWIND. `clean` says that the host has not written to JIM
      since the current window was laid. */
  datatype Phase =
    | Closed
    | Uploading(chunks: seq<seq<Byte>>)
    | Spoiled
    | Reading(tape: seq<Byte>, windows: seq<seq<Byte>>, clean: bool)

  function CurrentWindow(sys: System): seq<Byte>
    requires Fits(sys)
  {
    sys.stream.tape[sys.stream.published.offset..sys.stream.published.offset + sys.stream.published.length]
  }

  function Relaid(p: Phase, sys: System): Phase
    requires p.Reading? && Fits(sys)
  {
    p.(clean := p.clean || sys.stream.published.length != 0)
  }

  /** How one request moves the history. */
  function Follow(env: Env, sys: System, p: Phase, r: Request): Phase
    requires Fits(sys)
  {
    var (after, status) := Step(env, sys, r);
    if status != Done then (if status == NotATape then Spoiled else p)
    else
      match r
      case Begin => Uploading([])
      case Append(_, _, _, _) =>
        if p.Uploading? && AppendTakes(env, sys, r) then Uploading(p.chunks + [sys.jim[..ChunkLength(sys, r)]]) else p
      case Finalize(_) => Reading(after.stream.tape, [CurrentWindow(after)], true)
      case Rewind(_) => Reading(after.stream.tape, [CurrentWindow(after)], true)
      case Refill(_, _) =>
        if !p.Reading? then p
        else if Advances(sys.stream, r) then p.(windows := p.windows + [CurrentWindow(after)], clean := true)
        else Relaid(p, sys)
      case Republish(_) => if p.Reading? then Relaid(p, sys) else p
      case Close(_) => Closed
      case GuardImage(_) =>
        if p.Reading? && p.windows != [] then
          p.(windows := p.windows[..|p.windows| - 1] + [CurrentWindow(after)], clean := true)
        else p
      case HostWrites(_) => if p.Reading? then p.(clean := false) else p
      case _ => p
  }

  /** Exactly-once upload: the tape is the chunks taken, once each, in sequence order; the
      generation counts them; the last one is remembered for recognising its repetition. */
  ghost predicate UploadKept(env: Env, s: Stream, chunks: seq<seq<Byte>>) {
    && s.uploading && !s.ready
    && s.tape == Concat(chunks) && |s.tape| <= STREAM_CAPACITY
    && (forall i | 0 <= i < |chunks| :: 0 < |chunks[i]| <= UPLOAD_MAX)
    && s.generation == |chunks| <= |s.tape|
    && s.last == if chunks == [] then LastAppend(NO_SEQUENCE, 0, 0)
                 else LastAppend(|chunks| - 1, env.crc32(chunks[|chunks| - 1]), |chunks[|chunks| - 1]|)
  }

  /** Exact delivery: the windows last laid down for successive generations make up exactly the
      tape up to the cursor, the last of them is the published one, and it is final exactly
      when the cursor is at the end. */
  ghost predicate DeliveryKept(s: Stream, p: Phase)
    requires p.Reading?
  {
    && s.ready && !s.uploading && s.tape == p.tape
    && s.published.offset + s.published.length == s.cursor <= |s.tape|
    && p.windows != [] && p.windows[|p.windows| - 1] == s.tape[s.published.offset..s.cursor]
    && Concat(p.windows[..|p.windows| - 1]) == s.tape[..s.published.offset]
    && (s.published.final <==> s.cursor == |s.tape|)
  }

  /** What the host finds in JIM is the current window, its length, and the guard. */
  ghost predicate Shown(sys: System)
    requires Fits(sys)
  {
    && Gather(sys.jim, sys.guard, sys.stream.published.length) == CurrentWindow(sys)
    && TrailerLength(sys.jim) == sys.stream.published.length
    && (sys.guard.Some? && sys.stream.published.length > 0 ==> GuardStands(sys.jim, sys.guard.value))
  }

  ghost predicate Good(env: Env, sys: System, p: Phase) {
    && Fits(sys)
    && match p
       case Closed => !sys.stream.ready && !sys.stream.uploading
       case Uploading(chunks) => UploadKept(env, sys.stream, chunks)
       case Spoiled => sys.stream.uploading && !sys.stream.ready
       case Reading(_, _, clean) => DeliveryKept(sys.stream, p) && (clean ==> Shown(sys))
  }

  // ----- every request keeps it

  lemma PublishShows(sys: System)
    requires sys.stream.cursor <= |sys.stream.tape| && |sys.jim| >= JIM_WINDOW && sys.stream.ready
    ensures Fits(Publish(sys)) && Shown(Publish(sys))
  {
    hide Laid, Gather, GuardStands, TrailerLength;
    var s := sys.stream;
    var data := s.tape[s.cursor..s.cursor + WindowLength(s, sys.guard)];
    LaidRoundTrip(sys.jim, sys.guard, data);
    if sys.guard.Some? && data != [] {
      LaidKeepsGuard(sys.jim, sys.guard, data);
    }
  }

  lemma RepublishShows(sys: System)
    requires Fits(sys) && sys.stream.published.length != 0
    ensures Fits(RepublishNow(sys)) && Shown(RepublishNow(sys)) && RepublishNow(sys).stream == sys.stream
  {
    hide Laid, Gather, GuardStands, TrailerLength;
    LaidRoundTrip(sys.jim, sys.guard, CurrentWindow(sys));
    if sys.guard.Some? {
      LaidKeepsGuard(sys.jim, sys.guard, CurrentWindow(sys));
    }
  }

  /** The first window after FINALIZE or REWIND. */
  lemma RestartGood(env: Env, sys: System)
    requires |sys.jim| >= JIM_WINDOW && sys.stream.ready && !sys.stream.uploading
    ensures Fits(Restarted(sys))
    ensures Good(env, Restarted(sys), Reading(sys.stream.tape, [CurrentWindow(Restarted(sys))], true))
  {
    hide Laid, Shown;
    var from := sys.(stream := sys.stream.(cursor := 0, generation := Inc(sys.stream.generation)));
    PublishShows(from);
    assert Concat([CurrentWindow(Restarted(sys))][..0]) == [];
  }

  /** The next window. */
  lemma AdvanceGood(env: Env, sys: System, p: Phase)
    requires p.Reading? && Fits(sys) && DeliveryKept(sys.stream, p)
    ensures var after := Publish(sys.(stream := sys.stream.(generation := Inc(sys.stream.generation))));
            Fits(after) && Good(env, after, p.(windows := p.windows + [CurrentWindow(after)], clean := true))
  {
    hide Laid, Shown;
    var from := sys.(stream := sys.stream.(generation := Inc(sys.stream.generation)));
    var after := Publish(from);
    PublishShows(from);
    var n := |p.windows| - 1;
    var more := p.windows + [CurrentWindow(after)];
    assert more[..|more| - 1] == p.windows == p.windows[..n] + [p.windows[n]];
    ConcatAppend(p.windows[..n], p.windows[n]);
    var s := sys.stream;
    assert s.tape[..s.published.offset] + s.tape[s.published.offset..s.cursor] == s.tape[..s.cursor];
  }

  /** The current window in a new shape. */
  lemma RelayoutGood(env: Env, sys: System, p: Phase)
    requires p.Reading? && |sys.jim| >= JIM_WINDOW && DeliveryKept(sys.stream, p)
    ensures var after := Relayout(sys);
            Fits(after) && Good(env, after, p.(windows := p.windows[..|p.windows| - 1] + [CurrentWindow(after)], clean := true))
  {
    hide Laid, Shown;
    PublishShows(sys.(stream := sys.stream.(cursor := sys.stream.published.offset)));
    var n := |p.windows| - 1;
    assert (p.windows[..n] + [CurrentWindow(Relayout(sys))])[..n] == p.windows[..n];
  }

  lemma {:induction false} ConcatIsLonger(chunks: seq<seq<Byte>>)
    requires forall i | 0 <= i < |chunks| :: 0 < |chunks[i]|
    ensures |chunks| <= |Concat(chunks)|
  {
    if chunks != [] {
      ConcatIsLonger(chunks[1..]);
    }
  }

  lemma AppendGood(env: Env, sys: System, chunks: seq<seq<Byte>>, r: Request)
    requires Fits(sys) && UploadKept(env, sys.stream, chunks) && r.Append? && AppendTakes(env, sys, r)
    ensures UploadKept(env, AppendChunk(env, sys, r).stream, chunks + [sys.jim[..ChunkLength(sys, r)]])
  {
    var chunk := sys.jim[..ChunkLength(sys, r)];
    ConcatAppend(chunks, chunk);
    ConcatIsLonger(chunks + [chunk]);
  }

  lemma AppendNeedsUpload(env: Env, sys: System, r: Request)
    requires Fits(sys) && r.Append?
    ensures AppendTakes(env, sys, r) ==> sys.stream.uploading && Fits(AppendChunk(env, sys, r))
    ensures AppendTakes(env, sys, r) ==>
              AppendChunk(env, sys, r).stream.uploading && !AppendChunk(env, sys, r).stream.ready == !sys.stream.ready
  {
  }

  lemma RestartKeepsTape(sys: System)
    requires |sys.jim| >= JIM_WINDOW
    ensures Restarted(sys).stream.tape == sys.stream.tape
  {
  }

  lemma RelaidGood(env: Env, sys: System, p: Phase)
    requires p.Reading? && Good(env, sys, p)
    ensures Good(env, RepublishNow(sys), Relaid(p, sys))
  {
    hide Laid, Shown;
    if sys.stream.published.length != 0 {
      RepublishShows(sys);
    }
  }

  lemma GuardGood(env: Env, sys: System, p: Phase, image: seq<Byte>)
    requires Good(env, sys, p)
    ensures var r := GuardImage(image); Good(env, Step(env, sys, r).0, Follow(env, sys, p, r))
  {
    hide Laid, Shown, Stamped, Publish;
    if image == [] || |image| == GUARD_LENGTH {
      var shaped := if image == [] then sys.(guard := None)
                    else sys.(guard := Some(image), jim := Stamped(sys.jim, image));
      if p.Reading? {
        RelayoutGood(env, shaped, p);
      }
    }
  }

  /** Every request keeps the history true of the system. */
  lemma StepGood(env: Env, sys: System, p: Phase, r: Request)
    requires Good(env, sys, p)
    ensures Good(env, Step(env, sys, r).0, Follow(env, sys, p, r))
  {
    hide Laid, Shown, Stamped, WithTrailer, Normalised, Restored, Restarted, RepublishNow, Relayout, Publish, AppendTakes,
         AppendRepeats, AppendChunk;
    match r {
      case Append(_, _, _, _) =>
        if p.Uploading? && AppendTakes(env, sys, r) {
          AppendGood(env, sys, p.chunks, r);
        } else {
          AppendNeedsUpload(env, sys, r);
        }
      case Finalize(token) =>
        var u := Normalised(env, sys.stream.tape);
        if sys.stream.uploading && TokenFits(sys.stream, token) && sys.stream.tape != [] && u.ok {
          RestartGood(env, sys.(stream := sys.stream.(
            tape := Restored(env, u.written), format := u.format, ready := true, uploading := false)));
          RestartKeepsTape(sys.(stream := sys.stream.(
            tape := Restored(env, u.written), format := u.format, ready := true, uploading := false)));
        }
      case Rewind(token) =>
        if sys.stream.ready && TokenFits(sys.stream, token) {
          RestartGood(env, sys);
          RestartKeepsTape(sys);
        }
      case Refill(token, _) =>
        if sys.stream.ready && TokenFits(sys.stream, token) {
          if Advances(sys.stream, r) {
            AdvanceGood(env, sys, p);
          } else if Retries(sys.stream, r) {
            RelaidGood(env, sys, p);
          }
        }
      case Republish(token) =>
        if sys.stream.ready && TokenFits(sys.stream, token) {
          RelaidGood(env, sys, p);
        }
      case GuardImage(image) => GuardGood(env, sys, p, image);
      case _ =>
    }
  }

  // ----- runs

  function Run(env: Env, sys: System, rs: seq<Request>): (after: System)
    requires Fits(sys)
    ensures Fits(after)
    decreases |rs|
  {
    if rs == [] then sys else Run(env, Step(env, sys, rs[0]).0, rs[1..])
  }

  function History(env: Env, sys: System, p: Phase, rs: seq<Request>): Phase
    requires Fits(sys)
    decreases |rs|
  {
    if rs == [] then p else History(env, Step(env, sys, rs[0]).0, Follow(env, sys, p, rs[0]), rs[1..])
  }

  lemma {:induction false} RunGood(env: Env, sys: System, p: Phase, rs: seq<Request>)
    requires Good(env, sys, p)
    ensures Good(env, Run(env, sys, rs), History(env, sys, p, rs))
    decreases |rs|
  {
    hide Good, Step, Follow;
    if rs != [] {
      GoodFits(env, sys, p);
      StepGood(env, sys, p, rs[0]);
      RunGood(env, Step(env, sys, rs[0]).0, Follow(env, sys, p, rs[0]), rs[1..]);
    }
  }

  lemma GoodFits(env: Env, sys: System, p: Phase)
    requires Good(env, sys, p)
    ensures Fits(sys)
  {
  }

  /** The backend as it is created: nothing uploaded, nothing to read. */
  function Created(jim: seq<Byte>): System {
    System(Stream([], 0, Published(0, 0, false), 0, 0, LastAppend(0, 0, 0), false, false, 0), None, jim)
  }

  /** Exactly-once upload and exact delivery, in every state any run can reach: whatever requests
      come in whatever order, with whatever arguments and whatever the host does to JIM, the
      history of the requests that took effect is the truth about the tape. */
  lemma EveryRunIsExact(env: Env, jim: seq<Byte>, rs: seq<Request>)
    requires |jim| >= JIM_WINDOW
    ensures var sys, p := Run(env, Created(jim), rs), History(env, Created(jim), Closed, rs);
            && (p.Uploading? ==> UploadKept(env, sys.stream, p.chunks))
            && (p.Reading? ==> DeliveryKept(sys.stream, p) && Concat(p.windows) == p.tape[..sys.stream.cursor])
            && (p.Reading? && p.clean ==> Shown(sys))
            && (sys.stream.uploading <==> p.Uploading? || p.Spoiled?)
            && (sys.stream.ready <==> p.Reading?)
  {
    hide Run, History, Shown;
    RunGood(env, Created(jim), Closed, rs);
    var sys, p := Run(env, Created(jim), rs), History(env, Created(jim), Closed, rs);
    if p.Reading? {
      WindowsJoin(sys.stream, p);
    }
  }

  lemma WindowsJoin(s: Stream, p: Phase)
    requires p.Reading? && DeliveryKept(s, p)
    ensures Concat(p.windows) == p.tape[..s.cursor]
  {
    var n := |p.windows| - 1;
    assert p.windows == p.windows[..n] + [p.windows[n]];
    ConcatAppend(p.windows[..n], p.windows[n]);
    assert s.tape[..s.published.offset] + s.tape[s.published.offset..s.cursor] == s.tape[..s.cursor];
  }

  /** A refused request changes nothing at all; nor does a repeated chunk. */
  lemma RefusedChangesNothing(env: Env, sys: System, r: Request)
    requires Fits(sys)
    ensures Step(env, sys, r).1 == Refused ==> Step(env, sys, r).0 == sys
    ensures r.Append? && !AppendTakes(env, sys, r) ==> Step(env, sys, r).0 == sys
    ensures r.Append? ==> (Step(env, sys, r).1 == Done <==> AppendTakes(env, sys, r) || AppendRepeats(env, sys, r))
  {
    hide AppendTakes, AppendRepeats, AppendChunk, Laid, Stamped;
  }

  /** A retry with the previous generation lays the same window down again: it is answered, the
      stream does not move, and the host finds the window it already had. */
  lemma RetryMovesNothing(env: Env, sys: System, p: Phase, r: Request)
    requires Good(env, sys, p) && p.Reading? && r.Refill? && (r.token == 0 || r.token == sys.stream.token)
    requires (r.value + 1) % 0x1_0000_0000 == sys.stream.generation
    requires r.value != 0xFFFF_FFFF && (r.token != 0 || r.value != 0)
    ensures var (after, status) := Step(env, sys, r);
            && status == Done && after.stream == sys.stream && after.guard == sys.guard
            && Follow(env, sys, p, r).windows == p.windows
            && (sys.stream.published.length != 0 ==> Shown(after))
  {
    hide Laid, Shown;
    if sys.stream.published.length != 0 {
      RepublishShows(sys);
    }
  }

  // ----- a host that resends

  /** The same request n times over. */
  function Resend(env: Env, sys: System, r: Request, n: nat): (after: System)
    requires Fits(sys)
    ensures Fits(after)
    decreases n
  {
    if n == 0 then sys else Resend(env, Step(env, sys, r).0, r, n - 1)
  }

  /** However many times a host resends the chunk that is due, it is stored once, and every
      sending is answered Done. */
  lemma SentOnce(env: Env, sys: System, chunks: seq<seq<Byte>>, r: Request, n: nat)
    requires Fits(sys) && UploadKept(env, sys.stream, chunks)
    requires r.Append? && AppendTakes(env, sys, r) && n >= 1
    ensures var after := Resend(env, sys, r, n);
            && after == AppendChunk(env, sys, r)
            && UploadKept(env, after.stream, chunks + [sys.jim[..ChunkLength(sys, r)]])
            && AppendRepeats(env, after, r) && !AppendTakes(env, after, r)
  {
    hide UploadKept;
    AppendGood(env, sys, chunks, r);
    UploadCounts(env, sys.stream, chunks);
    var once := AppendChunk(env, sys, r);
    assert Step(env, sys, r).0 == once;
    assert AppendRepeats(env, once, r) && !AppendTakes(env, once, r);
    ResendRepeats(env, once, r, n - 1);
  }

  lemma UploadCounts(env: Env, s: Stream, chunks: seq<seq<Byte>>)
    requires UploadKept(env, s, chunks)
    ensures s.generation < 0x200_0000
  {
  }

  lemma {:induction false} ResendRepeats(env: Env, sys: System, r: Request, n: nat)
    requires Fits(sys) && r.Append? && AppendRepeats(env, sys, r) && !AppendTakes(env, sys, r)
    ensures Resend(env, sys, r, n) == sys
    decreases n
  {
    hide AppendRepeats, AppendTakes;
    if n != 0 {
      ResendRepeats(env, sys, r, n - 1);
    }
  }

  // ----- a host that reads on

  /** n refills, each asking for what follows the current generation. */
  function ReadOn(env: Env, sys: System, n: nat): (after: System)
    requires Fits(sys)
    ensures Fits(after)
    decreases n
  {
    if n == 0 then sys
    else ReadOn(env, Step(env, sys, Refill(sys.stream.token, sys.stream.generation)).0, n - 1)
  }

  lemma RefillAdvances(env: Env, sys: System)
    requires Fits(sys) && sys.stream.ready
    ensures var (after, status) := Step(env, sys, Refill(sys.stream.token, sys.stream.generation));
            && status == Done && after.guard == sys.guard && after.stream.tape == sys.stream.tape && after.stream.ready
            && after.stream.cursor == Smaller(|sys.stream.tape|, sys.stream.cursor + Limit(sys.guard))
            && (after.stream.published.final <==> after.stream.cursor == |after.stream.tape|)
  {
    hide Laid;
  }

  /** Reading on reaches the end after as many windows as the tape needs and stays there: then
      the windows make up the whole tape and the window is marked final. */
  lemma {:induction false} ReadOnDelivers(env: Env, sys: System, n: nat)
    requires Fits(sys) && sys.stream.ready && n >= 1
    ensures var after := ReadOn(env, sys, n);
            && after.stream.tape == sys.stream.tape
            && after.stream.cursor == Smaller(|sys.stream.tape|, sys.stream.cursor + n * Limit(sys.guard))
            && (after.stream.published.final <==> sys.stream.cursor + n * Limit(sys.guard) >= |sys.stream.tape|)
    decreases n
  {
    hide Step;
    RefillAdvances(env, sys);
    var next := Step(env, sys, Refill(sys.stream.token, sys.stream.generation)).0;
    if n == 1 {
      assert ReadOn(env, next, 0) == next;
    } else {
      ReadOnDelivers(env, next, n - 1);
      assert n * Limit(sys.guard) == (n - 1) * Limit(sys.guard) + Limit(sys.guard);
    }
  }
}
