/** The emulator's stream backend as an object: its fields and the JIM buffer are updated in
    place, and every request is proved to take the step that UefStream gives for it. */
module UefBackend {
  import opened Bytes
  import opened UefWindow
  import opened UefStream
  import UefRepair

  class UefBackend {
    const env: Env
    const jim: array<Byte>
    var tape: seq<Byte>
    var cursor: nat
    var published: Published
    var token: U32
    var generation: U32
    var lastAppend: LastAppend
    var ready: bool
    var uploading: bool
    var format: Byte
    var guard: Guard

    ghost function StreamView(): Stream
      reads this
    {
      Stream(tape, cursor, published, token, generation, lastAppend, ready, uploading, format)
    }

    ghost function View(): System
      reads this, jim
    {
      System(StreamView(), guard, jim[..])
    }

    ghost predicate Valid()
      reads this, jim
    {
      Fits(View())
    }

    constructor (env: Env, jim: array<Byte>)
      requires jim.Length >= JIM_WINDOW
      ensures this.env == env && this.jim == jim
      ensures Valid() && View() == Created(jim[..])
    {
      this.env, this.jim := env, jim;
      tape, cursor, published := [], 0, Published(0, 0, false);
      token, generation, lastAppend := 0, 0, LastAppend(0, 0, 0);
      ready, uploading, format, guard := false, false, 0, None;
    }

    /** uef_stream_publish */
    method StreamPublish()
      requires cursor <= |tape| && jim.Length >= JIM_WINDOW
      modifies this`cursor, this`published, jim
      ensures View() == Publish(old(View()))
    {
      hide Laid;
      var available := |tape| - cursor;
      var limit := if guard.Some? then GUARD_WINDOW else FLAT_WINDOW;
      var count := if available < limit then available else limit;
      LayWindow(jim, guard, tape[cursor..cursor + count]);
      published := Published(cursor, count, cursor + count == |tape|);
      cursor := cursor + count;
    }

    /** uef_stream_republish */
    method StreamRepublish()
      requires Valid()
      modifies jim
      ensures View() == RepublishNow(old(View()))
    {
      hide Laid;
      if published.length != 0 {
        LayWindow(jim, guard, tape[published.offset..published.offset + published.length]);
      }
    }

    /** uef_window_relayout */
    method WindowRelayout()
      requires published.offset <= |tape| && jim.Length >= JIM_WINDOW
      modifies this`cursor, this`published, jim
      ensures View() == Relayout(old(View()))
    {
      hide Publish;
      if ready {
        cursor := published.offset;
        StreamPublish();
      }
    }

    /** uef_stream_clear */
    method StreamClear()
      requires jim.Length >= JIM_WINDOW
      modifies this, jim
      ensures View() == System(Cleared(old(StreamView())), old(guard), WithTrailer(old(jim[..]), 0))
    {
      tape, cursor, published := [], 0, Published(0, 0, false);
      generation, lastAppend := 0, LastAppend(NO_SEQUENCE, 0, 0);
      ready, uploading, format := false, false, 0;
      jim[TRAILER], jim[TRAILER + 1] := 0, 0;
    }

    method BeginUpload()
      requires jim.Length >= JIM_WINDOW
      modifies this, jim
      ensures View() == System(Cleared(old(StreamView())).(uploading := true, token := NextToken(old(token))), old(guard),
                               WithTrailer(old(jim[..]), 0))
    {
      hide WithTrailer;
      StreamClear();
      uploading := true;
      token := (token + 1) % 0x1_0000_0000;
      if token == 0 {
        token := 1;
      }
    }

    /** The APPEND branch, test by test. */
    method AppendUpload(r: Request) returns (status: Status)
      requires Valid() && r.Append?
      modifies this`tape, this`lastAppend, this`generation
      ensures (View(), status) == Step(env, old(View()), r)
    {
      hide Fits;
      assert jim.Length >= JIM_WINDOW by { FitsJim(View()); }
      var wanted := if r.token == 0 then token else r.token;
      var length := if r.length == 0 then jim[TRAILER] as int + 0x100 * jim[TRAILER + 1] as int else r.length;
      assert length == ChunkLength(View(), r);
      if !uploading || wanted != token || length == 0 || length > UPLOAD_MAX {
        return Refused;
      }
      var chunk := jim[..length];
      assert chunk == View().jim[..length];
      var actual := env.crc32(chunk);
      if r.value == generation {
        if length > STREAM_CAPACITY - |tape| {
          return Refused;
        }
        if r.crc != 0 && r.crc != actual {
          return Refused;
        }
        tape := tape + chunk;
        lastAppend := LastAppend(r.value, actual, length);
        generation := (generation + 1) % 0x1_0000_0000;
        return Done;
      } else if || (r.value + 1) % 0x1_0000_0000 != generation || r.value != lastAppend.sequence
                || length != lastAppend.length || actual != lastAppend.crc || (r.crc != 0 && r.crc != actual) {
        return Refused;
      }
      return Done;
    }

    /** The repair of the finished tape, in place. */
    method RepairTape()
      modifies this`tape
      ensures tape == Restored(env, old(tape))
    {
      if env.repair {
        var source := tape;
        var buffer := new Byte[|tape|](i requires 0 <= i < |source| => source[i]);
        assert buffer[..] == tape;
        var hits := UefRepair.Stamp(buffer);
        tape := buffer[..];
      }
    }

    method Restart()
      requires jim.Length >= JIM_WINDOW
      modifies this`cursor, this`generation, this`published, jim
      ensures View() == Restarted(old(View()))
    {
      hide Publish;
      cursor := 0;
      generation := (generation + 1) % 0x1_0000_0000;
      StreamPublish();
    }

    /** The FINALIZE branch: unpack, repair, publish the first window. */
    method FinalizeUpload(r: Request) returns (status: Status)
      requires Valid() && r.Finalize?
      modifies this, jim
      ensures (View(), status) == Step(env, old(View()), r)
    {
      hide Restarted, Restored;
      var wanted := if r.token == 0 then token else r.token;
      if !uploading || wanted != token || tape == [] {
        return Refused;
      }
      var u := Normalised(env, tape);
      if !u.ok {
        tape := Overwritten(tape, u.written);
        return NotATape;
      }
      tape := u.written;
      RepairTape();
      format, ready, uploading := u.format, true, false;
      Restart();
      return Done;
    }

    method RefillWindow(r: Request) returns (status: Status)
      requires Valid() && r.Refill?
      modifies this`cursor, this`generation, this`published, jim
      ensures (View(), status) == Step(env, old(View()), r)
    {
      hide Publish, RepublishNow;
      if !ready || (r.token != 0 && r.token != token) {
        return Refused;
      }
      if (r.token == 0 && r.value == 0) || r.value == 0xFFFF_FFFF || r.value == generation {
        generation := (generation + 1) % 0x1_0000_0000;
        StreamPublish();
      } else if (r.value + 1) % 0x1_0000_0000 == generation {
        StreamRepublish();
      } else {
        return Refused;
      }
      return Done;
    }

    /** The guard-image command. */
    method SetGuard(image: seq<Byte>) returns (status: Status)
      requires Valid()
      modifies this`guard, this`cursor, this`published, jim
      ensures (View(), status) == Step(env, old(View()), GuardImage(image))
    {
      hide Relayout, Stamped;
      if image == [] {
        guard := None;
        WindowRelayout();
        return Done;
      }
      if |image| != GUARD_LENGTH {
        return Refused;
      }
      guard := Some(image);
      GuardStamp(jim, image);
      WindowRelayout();
      return Done;
    }

    /** incremental_uef_control and the guard-image command: one request, one step. */
    method Control(r: Request) returns (status: Status)
      requires Valid() && !r.HostWrites?
      modifies this, jim
      ensures (View(), status) == Step(env, old(View()), r) && Valid()
    {
      hide Restarted, RepublishNow, Publish, Relayout, WithTrailer, Stamped, Restored, AppendTakes, AppendRepeats, AppendChunk;
      ghost var after := Step(env, View(), r);
      assert Fits(after.0);
      match r {
        case Probe =>
          status := Done;
        case Begin =>
          BeginUpload();
          status := Done;
        case Append(_, _, _, _) =>
          status := AppendUpload(r);
        case Finalize(_) =>
          status := FinalizeUpload(r);
        case Rewind(t) =>
          if !ready || (t != 0 && t != token) {
            return Refused;
          }
          Restart();
          status := Done;
        case Refill(_, _) =>
          status := RefillWindow(r);
        case Republish(t) =>
          if !ready || (t != 0 && t != token) {
            return Refused;
          }
          StreamRepublish();
          status := Done;
        case Close(t) =>
          if t != 0 && t != token {
            return Refused;
          }
          StreamClear();
          status := Done;
        case Unknown =>
          status := Refused;
        case GuardImage(image) =>
          status := SetGuard(image);
      }
    }
  }

  lemma FitsJim(sys: System)
    requires Fits(sys)
    ensures |sys.jim| >= JIM_WINDOW
  {
  }
}
