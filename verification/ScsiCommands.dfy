/** What a host gets for every command but READ, WRITE and REQUEST SENSE, and what the status
    register shows it on the way: all of it as bytes through the registers. */
module ScsiCommands {
  import opened Bytes
  import opened Framing
  import opened Scsi
  import opened ScsiTransfers

  // ----- how a command ends

  /** The host read these bytes, the bus is free, and the disc and the sense data are as given. */
  ghost predicate Answered(d: Drive, sent: State, got: seq<Byte>, image: seq<Byte>, sense: Sense)
    requires Kept(d, sent)
  {
    var (last, bytes) := ReadRun(d, sent, |got|);
    bytes == got && last.phase == BusFree && last.image == image && last.sense == sense
  }

  /** A command that goes straight to its status. */
  lemma StatusAnswers(d: Drive, s: State)
    requires Kept(d, s) && s.phase == StatusIn && s.message == 0
    ensures Answered(d, s, [s.status, 0], s.image, s.sense)
  {
    hide ReadRun;
    Finish(d, s);
  }

  /** A command that sends its buffer first. */
  lemma DataAnswers(d: Drive, s: State)
    requires Kept(d, s) && s.phase == DataIn && s.transfer.offset == 0 && s.transfer.blocks == 1
    ensures Answered(d, s, s.buffer[..s.transfer.length] + [0, 0], s.image, s.sense)
  {
    hide ReadRun, BlockOut, Further;
    var n := s.transfer.length;
    ReadBlock(d, s);
    FurtherKeeps(s, n);
    SenseEnds(d, Further(s, n));
    ReadRunKeeps(d, s, n);
    Finish(d, ReadRun(d, s, n).0);
    ReadRunJoins(d, s, n, 2);
  }

  lemma FurtherKeeps(s: State, n: nat)
    ensures var t := Further(s, n); t.transfer.blocks == s.transfer.blocks && t.image == s.image && t.sense == s.sense
  {
  }

  lemma SentIsKept(d: Drive, s: State, id: Byte, c: seq<Byte>) returns (t: State)
    requires Kept(d, s) && s.phase == BusFree && Whole(c)
    ensures Sound(d, t) && t.image == s.image && t.sense == s.sense
    ensures forall i | 0 <= i < |c| :: t.command[i] == c[i]
    ensures SendCommand(d, s, id, c) == Execute(d, t) && Kept(d, Execute(d, t))
  {
    hide Execute, SendCommand;
    t := CommandArrives(d, s, id, c);
    ExecuteKeeps(d, t);
    forall i | 0 <= i < |c| ensures t.command[i] == c[i] { assert t.command[..|c|][i] == c[i]; }
  }

  // ----- the commands

  /** TEST UNIT READY and START STOP: a mounted drive is always ready. */
  lemma UnitIsReady(d: Drive, s: State, id: Byte, c: seq<Byte>)
    requires Kept(d, s) && s.phase == BusFree && |c| == 6 && (c[0] == 0x00 || c[0] == 0x1B)
    ensures Kept(d, SendCommand(d, s, id, c))
    ensures Answered(d, SendCommand(d, s, id, c), [0, 0], s.image, s.sense)
  {
    hide ReadRun, SendCommand, Answered;
    var t := SentIsKept(d, s, id, c);
    assert t.command[0] == c[0];
    StatusAnswers(d, Execute(d, t));
  }

  /** TRANSLATE: the logical address comes back low byte first. */
  lemma TranslateAnswers(d: Drive, s: State, id: Byte, hi: Byte, mid: Byte, lo: Byte, count: Byte, control: Byte)
    requires Kept(d, s) && s.phase == BusFree
    ensures var c := [0x0F, hi, mid, lo, count, control];
            Kept(d, SendCommand(d, s, id, c))
            && Answered(d, SendCommand(d, s, id, c), [lo, mid, hi % 32, 0, 0, 0], s.image, s.sense)
  {
    hide ReadRun, SendCommand, Answered, SectorOf;
    var c := [0x0F, hi, mid, lo, count, control];
    var t := SentIsKept(d, s, id, c);
    assert t.command[0] == c[0] && t.command[1] == c[1] && t.command[2] == c[2] && t.command[3] == c[3];
    var e := Execute(d, t);
    DataAnswers(d, e);
    assert e.buffer[..4] == [lo, mid, hi % 32, 0];
    assert e.buffer[..4] + [0, 0] == [lo, mid, hi % 32, 0, 0, 0];
  }

  /** MODE SENSE: the first 22 geometry bytes, or as many as asked for and there are. */
  lemma ModeSenseAnswers(d: Drive, s: State, id: Byte, c: seq<Byte>)
    requires Kept(d, s) && s.phase == BusFree && |c| == 6 && c[0] == 0x1A
    ensures Kept(d, SendCommand(d, s, id, c)) && |d.geometry| == 33
    ensures var n := if c[4] == 0 then 22 else if c[4] > 33 then 33 else c[4] as int;
            Answered(d, SendCommand(d, s, id, c), d.geometry[..n] + [0, 0], s.image, s.sense)
  {
    hide ReadRun, SendCommand, Answered, SectorOf;
    var n := if c[4] == 0 then 22 else if c[4] > 33 then 33 else c[4] as int;
    var t := SentIsKept(d, s, id, c);
    assert t.command[0] == c[0] && t.command[4] == c[4];
    var e := Execute(d, t);
    DataAnswers(d, e);
    assert e.buffer[..n] == d.geometry[..n];
  }

  /** VERIFY(10), which this drive uses as a range check. */
  lemma VerifyAnswers(d: Drive, s: State, id: Byte, c: seq<Byte>)
    requires Kept(d, s) && s.phase == BusFree && |c| == 10 && c[0] == 0x2F
    ensures Kept(d, SendCommand(d, s, id, c))
    ensures var sector := c[1] as int % 32 * 0x1_0000 + c[2] as int * 0x100 + c[3] as int;
            if sector * 256 < |s.image| then Answered(d, SendCommand(d, s, id, c), [0, 0], s.image, s.sense)
            else Answered(d, SendCommand(d, s, id, c), [2, 0], s.image, Sense(0x21, sector))
  {
    hide ReadRun, SendCommand, Answered;
    var t := SentIsKept(d, s, id, c);
    assert t.command[0] == c[0] && t.command[1] == c[1] && t.command[2] == c[2] && t.command[3] == c[3];
    StatusAnswers(d, Execute(d, t));
  }

  /** Every opcode the drive does not have ends with status 2 and changes nothing. */
  lemma OtherIsRefused(d: Drive, s: State, id: Byte, c: seq<Byte>)
    requires Kept(d, s) && s.phase == BusFree && Whole(c)
    requires c[0] !in {0x00, 0x03, 0x08, 0x0A, 0x0F, 0x15, 0x1A, 0x1B, 0x2F}
    ensures Kept(d, SendCommand(d, s, id, c))
    ensures Answered(d, SendCommand(d, s, id, c), [2, 0], s.image, s.sense)
  {
    hide ReadRun, SendCommand, Answered;
    var t := SentIsKept(d, s, id, c);
    assert t.command[0] == c[0];
    StatusAnswers(d, Execute(d, t));
  }

  // ----- MODE SELECT

  /** The adapter is taking parameters of a MODE SELECT, with `left` to come. */
  predicate TakingParameters(s: State, from: State, left: nat) {
    && s.phase == DataOut && s.transfer.blocks == 1 && s.transfer.length == left
    && |s.command| == 10 && s.command[0] == 0x15 && s.image == from.image && s.sense == from.sense
  }

  lemma ParameterStep(d: Drive, s: State, from: State, left: nat, v: Byte)
    requires Kept(d, s) && TakingParameters(s, from, left) && left >= 1
    ensures var after := Step(d, s, Write(DATA, v));
            if left > 1 then TakingParameters(after, from, left - 1)
            else after.phase == StatusIn && after.status == 0 && after.message == 0 && after.image == from.image && after.sense == from.sense
  {
    hide WithSector;
  }

  lemma {:induction false} ParametersTaken(d: Drive, s: State, from: State, data: seq<Byte>)
    requires Kept(d, s) && data != [] && TakingParameters(s, from, |data|)
    ensures Kept(d, WriteRun(d, s, data))
    ensures Answered(d, WriteRun(d, s, data), [0, 0], from.image, from.sense)
    decreases |data|
  {
    hide Step, Kept, Answered, TakingParameters;
    StepKeeps(d, s, Write(DATA, data[0]));
    ParameterStep(d, s, from, |data|, data[0]);
    var after := Step(d, s, Write(DATA, data[0]));
    if |data| > 1 {
      ParametersTaken(d, after, from, data[1..]);
    } else {
      assert data[1..] == [];
      StatusAnswers(d, after);
    }
  }

  /** MODE SELECT takes as many parameter bytes as it announced, and changes nothing. */
  lemma ModeSelectAnswers(d: Drive, s: State, id: Byte, c: seq<Byte>, data: seq<Byte>)
    requires Kept(d, s) && s.phase == BusFree && |c| == 6 && c[0] == 0x15 && |data| == c[4] > 0
    ensures Kept(d, SendCommand(d, s, id, c)) && Kept(d, WriteRun(d, SendCommand(d, s, id, c), data))
    ensures Answered(d, WriteRun(d, SendCommand(d, s, id, c), data), [0, 0], s.image, s.sense)
  {
    hide ReadRun, WriteRun, SendCommand, Answered;
    var t := SentIsKept(d, s, id, c);
    assert t.command[0] == c[0] && t.command[4] == c[4];
    ParametersTaken(d, Execute(d, t), s, data);
  }

  // ----- the status register

  /** The lines say which phase the bus is in. */
  predicate LinesKept(s: State) {
    var l := s.lines;
    && (l.busy <==> s.phase != BusFree)
    && (l.command <==> s.phase in {Command, StatusIn, MessageIn})
    && (l.input <==> s.phase in {DataIn, StatusIn, MessageIn})
    && (l.message <==> s.phase == MessageIn)
  }

  lemma LinesStep(d: Drive, s: State, a: Access)
    requires Mounted(d, s) && LinesKept(s)
    ensures LinesKept(Step(d, s, a))
  {
    hide SectorOf, WithSector, Overlay, SenseData, Mounted;
    match a {
      case Read(_) => ReadLines(d, s);
      case Write(_, v) =>
        MountedSelect(d, s, true);
        MountedSelect(d, s, false);
        WriteLines(d, Select(s, true), v);
        WriteLines(d, Select(s, false), v);
    }
  }

  lemma MountedSelect(d: Drive, s: State, selected: bool)
    requires Mounted(d, s) && LinesKept(s)
    ensures Mounted(d, Select(s, selected)) && LinesKept(Select(s, selected))
  {
  }

  lemma ReadLines(d: Drive, s: State)
    requires Mounted(d, s) && LinesKept(s)
    ensures LinesKept(ReadData(d, s).0)
  {
    hide BlockOut;
    if s.phase == DataIn {
      var t := s.transfer;
      var s1 := SetRequest(s.(transfer := t.(offset := t.offset + 1, length := Less(t.length))), false);
      if s1.transfer.length == 0 {
        BlockOutLines(d, s1);
      }
    }
  }

  lemma BlockOutLines(d: Drive, s: State)
    requires Mounted(d, s) && LinesKept(s) && s.phase == DataIn
    ensures LinesKept(BlockOut(d, s))
  {
    hide SectorOf, ToStatus, BadSector, LinesKept;
    assert s.lines.busy by { BusyWhenCommand(s); }
    forall x: State, good | x.lines == s.lines
      ensures LinesKept(ToStatus(x, good))
    {
      MovesKeepLines(x, 0, good);
    }
    forall x: State, n: nat | x.lines == s.lines
      ensures LinesKept(BadSector(x, n))
    {
      MovesKeepLines(x, n, true);
    }
    forall x: State, active | x.lines == s.lines && x.phase == s.phase
      ensures LinesKept(SetRequest(x, active))
    {
      RequestKeepsLines(s, x, active);
    }
  }

  lemma WriteLines(d: Drive, s: State, v: Byte)
    requires Mounted(d, s) && LinesKept(s)
    ensures LinesKept(WriteData(d, s, v))
  {
    hide SectorOf, WithSector, Overlay, SenseData, Execute, BlockIn;
    if s.phase == Command {
      CommandLines(d, s.(lastWrite := v), v);
    } else if s.phase == DataOut {
      BlockLines(d, s.(lastWrite := v), v);
    }
  }

  lemma CommandLines(d: Drive, s: State, v: Byte)
    requires Mounted(d, s) && LinesKept(s) && s.phase == Command
    ensures LinesKept(CommandByte(d, s, v))
  {
    hide Execute;
    var t := s.transfer;
    var command := if t.offset < 10 then s.command[t.offset := v] else s.command;
    var length := if t.offset == 0 && 0x20 <= v <= 0x3F then 10 else t.length;
    ExecuteLines(d, SetRequest(s.(command := command, transfer := t.(offset := t.offset + 1, length := Less(length))), false));
  }

  /** Each move to another phase sets the lines for it; only a busy bus moves. */
  lemma MovesKeepLines(s: State, n: nat, good: bool)
    requires s.lines.busy
    ensures LinesKept(ToStatus(s, good)) && LinesKept(ToDataIn(s, n)) && LinesKept(ToDataOut(s, n)) && LinesKept(BadSector(s, n))
  {
  }

  lemma ExecuteLines(d: Drive, s: State)
    requires Mounted(d, s) && LinesKept(s) && s.phase == Command
    ensures LinesKept(Execute(d, s))
  {
    hide SectorOf, Overlay, SenseData, LinesKept, ToStatus, ToDataIn, ToDataOut, BadSector;
    assert s.lines.busy by { BusyWhenCommand(s); }
    forall x: State, good | x.lines == s.lines
      ensures LinesKept(ToStatus(x, good))
    {
      MovesKeepLines(x, 0, good);
    }
    forall x: State, n: nat | x.lines == s.lines
      ensures LinesKept(BadSector(x, n))
    {
      MovesKeepLines(x, n, true);
    }
    forall x: State, n: nat | x.lines == s.lines
      ensures LinesKept(ToDataIn(x, n))
    {
      MovesKeepLines(x, n, true);
    }
    forall x: State, n: nat | x.lines == s.lines
      ensures LinesKept(ToDataOut(x, n))
    {
      MovesKeepLines(x, n, true);
    }
  }

  lemma BusyWhenCommand(s: State)
    requires LinesKept(s) && s.phase != BusFree
    ensures s.lines.busy
  {
  }

  lemma BlockLines(d: Drive, s: State, v: Byte)
    requires Mounted(d, s) && LinesKept(s) && s.phase == DataOut
    ensures LinesKept(DataByteIn(d, s, v))
  {
    hide WithSector, BlockIn;
    var t := s.transfer;
    var buffer := if t.offset < SECTOR then s.buffer[t.offset := v] else s.buffer;
    var s1 := SetRequest(s.(buffer := buffer, transfer := t.(offset := t.offset + 1, length := Less(t.length))), false);
    if s1.transfer.length == 0 {
      BlockInLines(d, s1);
    }
  }

  lemma BlockInLines(d: Drive, s: State)
    requires Mounted(d, s) && LinesKept(s) && s.phase == DataOut
    ensures LinesKept(BlockIn(d, s))
  {
    hide WithSector, LinesKept, ToStatus, BadSector;
    assert s.lines.busy by { BusyWhenCommand(s); }
    forall x: State, good | x.lines == s.lines
      ensures LinesKept(ToStatus(x, good))
    {
      MovesKeepLines(x, 0, good);
    }
    forall x: State, n: nat | x.lines == s.lines
      ensures LinesKept(BadSector(x, n))
    {
      MovesKeepLines(x, n, true);
    }
    forall x: State, active | x.lines == s.lines && x.phase == s.phase
      ensures LinesKept(SetRequest(x, active))
    {
      RequestKeepsLines(s, x, active);
    }
  }

  lemma RequestKeepsLines(s: State, x: State, active: bool)
    requires LinesKept(s) && x.lines == s.lines && x.phase == s.phase
    ensures LinesKept(SetRequest(x, active))
  {
  }

  /** What the status register shows in each phase, before the interrupt bit. */
  function PhaseByte(p: BusPhase): Byte {
    match p
    case BusFree => 0x20
    case Selection => 0x22
    case Command => 0xA2
    case DataIn => 0x62
    case DataOut => 0x22
    case StatusIn => 0xE2
    case MessageIn => 0xE3
  }

  /** In every state a run can reach, the status register names the phase, and bit 4 the interrupt. */
  lemma {:induction false} StatusShowsPhase(d: Drive, s: State, run: seq<Access>)
    requires Kept(d, s) && LinesKept(s)
    ensures var last := Run(d, s, run);
            Mounted(d, last) && Value(d, last, 0xFC41) == PhaseByte(last.phase) + if last.lines.pending then 0x10 else 0
    decreases |run|
  {
    hide Step, LinesKept, Kept;
    if run == [] {
      assert Mounted(d, s) by { KeptIsMounted(d, s); }
      ShowsPhase(d, s);
    } else {
      StepKeeps(d, s, run[0]);
      LinesStep(d, s, run[0]);
      StatusShowsPhase(d, Step(d, s, run[0]), run[1..]);
    }
  }

  lemma ShowsPhase(d: Drive, s: State)
    requires Mounted(d, s) && LinesKept(s)
    ensures Value(d, s, 0xFC41) == PhaseByte(s.phase) + if s.lines.pending then 0x10 else 0
  {
  }

  /** The interrupt register: bit 0 arms, and clearing it drops what is pending; an armed request
      interrupts at once. */
  lemma InterruptIsArmed(d: Drive, s: State, v: Byte)
    requires Mounted(d, s)
    ensures var l := Step(d, s, Write(0xFC43, v)).lines;
            && (l.armed <==> v % 2 == 1) && (l.pending <==> v % 2 == 1 && (s.lines.pending || s.lines.request))
            && Step(d, s, Write(0xFC43, v)).phase == s.phase
  {
  }

  /** A data write when the drive has something to say, or a read when it waits to hear, frees the bus. */
  lemma OutOfTurnFrees(d: Drive, s: State, v: Byte)
    requires Mounted(d, s)
    ensures s.phase in {DataIn, StatusIn, MessageIn} ==> Step(d, s, Write(0xFC40, v)).phase == BusFree
    ensures s.phase in {Selection, Command, DataOut} ==> Step(d, s, Read(0xFC40)).phase == BusFree
  {
  }

  // ----- sectors, byte by byte

  /** Byte j of what a READ delivers is that byte of the image, or zero past its end. */
  lemma {:induction false} SectorsAreImage(image: seq<Byte>, sector: nat, k: nat, j: nat)
    requires k <= ReadableRun(image, sector, k) && j < 256 * k
    ensures |Sectors(image, sector, k)| == 256 * k
    ensures Sectors(image, sector, k)[j] == if 256 * sector + j < |image| then image[256 * sector + j] else 0
    decreases k
  {
    hide SectorOf;
    SectorsLength(image, sector, k);
    if j < 256 {
      SectorByte(image, sector, j);
      assert Sectors(image, sector, k)[j] == SectorOf(image, sector)[j];
    } else {
      SectorsAreImage(image, sector + 1, k - 1, j - 256);
      assert Sectors(image, sector, k)[j] == Sectors(image, sector + 1, k - 1)[j - 256];
    }
  }

  lemma SectorByte(image: seq<Byte>, sector: nat, j: nat)
    requires Readable(image, sector) && j < 256
    ensures SectorOf(image, sector)[j] == if 256 * sector + j < |image| then image[256 * sector + j] else 0
  {
  }

  lemma {:induction false} SectorsLength(image: seq<Byte>, sector: nat, k: nat)
    requires k <= ReadableRun(image, sector, k)
    ensures |Sectors(image, sector, k)| == 256 * k
    decreases k
  {
    hide SectorOf;
    if k != 0 {
      SectorsLength(image, sector + 1, k - 1);
    }
  }

  /** How many sectors can be read: those that begin inside the image. */
  lemma {:induction false} ReadableCount(image: seq<Byte>, sector: nat, b: nat)
    ensures var sectors := (|image| + 255) / 256;
            ReadableRun(image, sector, b) == if sector >= sectors then 0 else if sectors - sector < b then sectors - sector else b
    decreases b
  {
    if b != 0 {
      ReadableCount(image, sector + 1, b - 1);
    }
  }

  /** How many can be written: those that lie inside it, on a drive that is not write protected. */
  lemma {:induction false} WritableCount(d: Drive, image: seq<Byte>, sector: nat, b: nat)
    ensures var sectors := |image| / 256;
            WritableRun(d, image, sector, b) ==
            if !d.writable || sector >= sectors then 0 else if sectors - sector < b then sectors - sector else b
    decreases b
  {
    if b != 0 {
      WritableCount(d, image, sector + 1, b - 1);
    }
  }

  /** Byte i of the image after a WRITE: the block's byte under the sectors written, else as before. */
  lemma {:induction false} WrittenBytes(image: seq<Byte>, sector: nat, blocks: seq<seq<Byte>>, i: nat)
    requires WholeBlocks(blocks) && (sector + |blocks|) * SECTOR <= |image| && i < |image|
    ensures |Written(image, sector, blocks)| == |image| && |Concat(blocks)| == 256 * |blocks|
    ensures Written(image, sector, blocks)[i]
         == if 256 * sector <= i < 256 * (sector + |blocks|) then Concat(blocks)[i - 256 * sector] else image[i]
    decreases |blocks|
  {
    hide WithSector;
    if blocks != [] {
      assert |blocks[0]| == SECTOR;
      var after := WithSector(image, sector, blocks[0]);
      WithSectorLength(image, sector, blocks[0]);
      assert WholeBlocks(blocks[1..]);
      WrittenBytes(after, sector + 1, blocks[1..], i);
      WithSectorBytes(image, sector, blocks[0], i);
    }
  }

  lemma WithSectorBytes(image: seq<Byte>, sector: nat, data: seq<Byte>, i: nat)
    requires sector * SECTOR + SECTOR <= |image| && |data| == SECTOR && i < |image|
    ensures WithSector(image, sector, data)[i] == if 256 * sector <= i < 256 * sector + 256 then data[i - 256 * sector] else image[i]
  {
  }
}
