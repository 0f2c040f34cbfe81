/** The BeebSCSI host adapter: a bus-phase machine behind four registers, with one disc image.
    Every register access is one step. */
module Scsi {
  import opened Bytes

  datatype BusPhase = BusFree | Selection | Command | DataIn | DataOut | StatusIn | MessageIn

  /** The signal lines and the interrupt latch. */
  datatype Lines = Lines(
    selected: bool, message: bool, command: bool, input: bool, busy: bool, request: bool, armed: bool, pending: bool)

  datatype Transfer = Transfer(blocks: nat, nextSector: nat, offset: nat, length: nat)

  datatype Sense = Sense(code: Byte, sector: nat)

  datatype State = State(
    phase: BusPhase, lines: Lines, command: seq<Byte>, buffer: seq<Byte>, transfer: Transfer,
    status: Byte, message: Byte, sense: Sense, lastWrite: Byte, image: seq<Byte>)

  /** What does not change once an image is mounted. */
  datatype Drive = Drive(geometry: seq<Byte>, writable: bool)

  const SECTOR := 256
  const GOOD: Byte := 0
  const CHECK: Byte := 2
  const BAD_SECTOR: Byte := 0x21

  predicate Mounted(d: Drive, s: State) {
    |s.command| == 10 && |s.buffer| == SECTOR && |d.geometry| == 33 && |s.image| > 0
  }

  /** An unsigned counter stepping down past zero wraps. */
  function Less(n: nat): nat { if n == 0 then 0xFFFF_FFFF else n - 1 }

  // ----- phases

  function SetRequest(s: State, active: bool): State {
    s.(lines := s.lines.(request := active, pending := s.lines.pending || (s.lines.armed && active)))
  }

  function FreeBus(s: State): State {
    SetRequest(s.(lines := s.lines.(selected := false, message := false, command := false, input := false, busy := false),
                  phase := BusFree), false)
  }

  function ToStatus(s: State, good: bool): State {
    SetRequest(s.(phase := StatusIn, lines := s.lines.(input := true, command := true, message := false),
                  status := if good then GOOD else CHECK, message := 0), true)
  }

  function ToDataIn(s: State, length: nat): State {
    SetRequest(s.(phase := DataIn, lines := s.lines.(input := true, command := false, message := false),
                  transfer := s.transfer.(offset := 0, length := length), status := 0, message := 0), true)
  }

  function ToDataOut(s: State, length: nat): State {
    SetRequest(s.(phase := DataOut, lines := s.lines.(input := false, command := false, message := false),
                  transfer := s.transfer.(offset := 0, length := length)), true)
  }

  function BadSector(s: State, sector: nat): State {
    ToStatus(s.(sense := Sense(BAD_SECTOR, sector)), false)
  }

  // ----- the image

  predicate Readable(image: seq<Byte>, sector: nat) { sector * SECTOR < |image| }

  predicate Writable(d: Drive, image: seq<Byte>, sector: nat) { d.writable && sector * SECTOR + SECTOR <= |image| }

  function Zeros(n: nat): (r: seq<Byte>)
    ensures |r| == n && forall i | 0 <= i < n :: r[i] == 0
  {
    seq(n, _ => 0)
  }

  /** A sector as read: the image's bytes, zero padded past its end. */
  function SectorOf(image: seq<Byte>, sector: nat): (r: seq<Byte>)
    requires Readable(image, sector)
    ensures |r| == SECTOR
  {
    var from := sector * SECTOR;
    if from + SECTOR <= |image| then image[from..from + SECTOR] else image[from..] + Zeros(from + SECTOR - |image|)
  }

  function WithSector(image: seq<Byte>, sector: nat, data: seq<Byte>): (r: seq<Byte>)
    requires sector * SECTOR + SECTOR <= |image| && |data| == SECTOR
    ensures |r| == |image|
  {
    image[..sector * SECTOR] + data + image[sector * SECTOR + SECTOR..]
  }

  // ----- commands

  function CommandSector(c: seq<Byte>): nat
    requires |c| == 10
  {
    c[1] as int % 32 * 0x1_0000 + c[2] as int * 0x100 + c[3] as int
  }

  function BlockCount(n: Byte): nat { if n == 0 then 256 else n }

  function Overlay(buffer: seq<Byte>, data: seq<Byte>): (r: seq<Byte>)
    requires |data| <= |buffer|
    ensures |r| == |buffer|
  {
    data + buffer[|data|..]
  }

  /** REQUEST SENSE data: the code and the sector, then zeros up to the allocation. */
  function SenseData(sense: Sense, allocation: nat): (r: seq<Byte>)
    ensures |r| >= 4 && |r| >= allocation && (allocation <= SECTOR ==> |r| <= SECTOR)
  {
    [sense.code, sense.sector / 0x1_0000 % 0x100, sense.sector / 0x100 % 0x100, sense.sector % 0x100]
    + Zeros(if allocation > 4 then allocation - 4 else 0)
  }

  function Execute(d: Drive, s: State): State
    requires Mounted(d, s)
  {
    var c := s.command;
    var sector := CommandSector(c);
    var t := s.transfer;
    if c[0] == 0x00 || c[0] == 0x1B then ToStatus(s, true)
    else if c[0] == 0x03 then
      var allocation := if c[4] == 0 then 4 else c[4] as int;
      ToDataIn(s.(buffer := Overlay(s.buffer, SenseData(s.sense, allocation)), sense := Sense(0, 0),
                  transfer := t.(blocks := 1)), allocation)
    else if c[0] == 0x08 then
      var s1 := s.(transfer := t.(blocks := BlockCount(c[4])));
      if !Readable(s.image, sector) then BadSector(s1, sector)
      else ToDataIn(s1.(buffer := SectorOf(s.image, sector), transfer := s1.transfer.(nextSector := sector + 1)), SECTOR)
    else if c[0] == 0x0A then
      ToDataOut(s.(transfer := t.(blocks := BlockCount(c[4]), nextSector := sector), status := 0, message := 0), SECTOR)
    else if c[0] == 0x0F then
      ToDataIn(s.(buffer := Overlay(s.buffer, [c[3], c[2], c[1] % 32, 0]), transfer := t.(blocks := 1)), 4)
    else if c[0] == 0x15 then ToDataOut(s.(transfer := t.(blocks := 1)), c[4])
    else if c[0] == 0x1A then
      var wanted := if c[4] == 0 then 22 else c[4] as int;
      var allocation := if wanted > 33 then 33 else wanted;
      ToDataIn(s.(buffer := Overlay(s.buffer, d.geometry[..allocation]), transfer := t.(blocks := 1)), allocation)
    else if c[0] == 0x2F then (if Readable(s.image, sector) then ToStatus(s, true) else BadSector(s, sector))
    else ToStatus(s, false)
  }

  // ----- the data register

  function CommandByte(d: Drive, s: State, v: Byte): State
    requires Mounted(d, s)
  {
    var t := s.transfer;
    var command := if t.offset < 10 then s.command[t.offset := v] else s.command;
    var length := if t.offset == 0 && 0x20 <= v <= 0x3F then 10 else t.length;
    var s1 := SetRequest(s.(command := command, transfer := t.(offset := t.offset + 1, length := Less(length))), false);
    if s1.transfer.length == 0 then Execute(d, s1) else s1
  }

  /** A full buffer has come in: write it if the command is WRITE, and go on or finish. */
  function BlockIn(d: Drive, s: State): State
    requires Mounted(d, s)
  {
    var t := s.transfer;
    if s.command[0] == 0x0A && !Writable(d, s.image, t.nextSector) then BadSector(s, t.nextSector)
    else
      var s1 := if s.command[0] == 0x0A then
                  s.(image := WithSector(s.image, t.nextSector, s.buffer), transfer := t.(nextSector := t.nextSector + 1))
                else s;
      var s2 := s1.(transfer := s1.transfer.(blocks := Less(t.blocks)));
      if s2.transfer.blocks == 0 then ToStatus(s2, true)
      else SetRequest(s2.(transfer := s2.transfer.(offset := 0, length := SECTOR)), true)
  }

  function DataByteIn(d: Drive, s: State, v: Byte): State
    requires Mounted(d, s)
  {
    var t := s.transfer;
    var buffer := if t.offset < SECTOR then s.buffer[t.offset := v] else s.buffer;
    var s1 := SetRequest(s.(buffer := buffer, transfer := t.(offset := t.offset + 1, length := Less(t.length))), false);
    if s1.transfer.length != 0 then s1 else BlockIn(d, s1)
  }

  function WriteData(d: Drive, s0: State, v: Byte): State
    requires Mounted(d, s0)
  {
    var s := s0.(lastWrite := v);
    match s.phase
    case BusFree => if s.lines.selected then s.(lines := s.lines.(busy := true), phase := Selection) else s
    case Selection =>
      if s.lines.selected then s
      else
        s.(phase := Command, lines := s.lines.(input := false, command := true, message := false),
           transfer := s.transfer.(offset := 0, length := 6))
    case Command => CommandByte(d, s, v)
    case DataOut => DataByteIn(d, s, v)
    case _ => FreeBus(s)
  }

  /** The buffer has been read out: fetch the next sector or finish. */
  function BlockOut(d: Drive, s: State): State
    requires Mounted(d, s)
  {
    var t := s.transfer.(blocks := Less(s.transfer.blocks));
    if t.blocks == 0 then ToStatus(s.(transfer := t), true)
    else
      var sector := t.nextSector;
      var s1 := s.(transfer := t.(nextSector := sector + 1));
      if Readable(s.image, sector) then
        SetRequest(s1.(buffer := SectorOf(s.image, sector), transfer := s1.transfer.(offset := 0, length := SECTOR)), true)
      else BadSector(s1, sector)
  }

  function ReadData(d: Drive, s: State): (State, Byte)
    requires Mounted(d, s)
  {
    match s.phase
    case StatusIn =>
      (SetRequest(SetRequest(s, false).(phase := MessageIn, lines := SetRequest(s, false).lines.(message := true)), true), s.status)
    case MessageIn => (FreeBus(SetRequest(s, false)), s.message)
    case DataIn =>
      var t := s.transfer;
      var v := if t.offset < SECTOR then s.buffer[t.offset] else 0;
      var s1 := SetRequest(s.(transfer := t.(offset := t.offset + 1, length := Less(t.length))), false);
      (if s1.transfer.length != 0 then s1 else BlockOut(d, s1), v)
    case BusFree => (s, s.lastWrite)
    case _ => (FreeBus(s), s.lastWrite)
  }

  // ----- the registers

  datatype Access = Read(address: nat) | Write(address: nat, value: Byte)

  function Arm(s: State, value: Byte): State {
    var armed := value % 2 == 1;
    s.(lines := s.lines.(selected := true, armed := armed,
                         pending := armed && (s.lines.pending || s.lines.request)))
  }

  function Select(s: State, selected: bool): State { s.(lines := s.lines.(selected := selected)) }

  function Step(d: Drive, s: State, a: Access): State
    requires Mounted(d, s)
  {
    match a
    case Read(address) => if address != 0xFC44 && address % 4 == 0 then ReadData(d, s).0 else s
    case Write(address, v) =>
      if address == 0xFC44 then s
      else if address % 4 == 0 then WriteData(d, Select(s, true), v)
      else if address % 4 == 2 then WriteData(d, Select(s, false), v)
      else if address % 4 == 3 then Arm(s, v)
      else s
  }

  function StatusByte(s: State): Byte {
    0x20 + (if s.lines.command then 0x80 else 0) + (if s.lines.input then 0x40 else 0)
    + (if s.lines.pending then 0x10 else 0) + (if s.lines.busy then 0x02 else 0) + (if s.lines.message then 0x01 else 0)
  }

  /** What a register read returns. */
  function Value(d: Drive, s: State, address: nat): Byte
    requires Mounted(d, s)
  {
    if address == 0xFC44 then 0xFF
    else if address % 4 == 0 then ReadData(d, s).1
    else if address % 4 == 1 then StatusByte(s)
    else 0xFF
  }

  // ----- what every access keeps

  /** The interrupt latch: pending only while armed, and always when armed with a request up. */
  predicate LatchKept(l: Lines) {
    (l.pending ==> l.armed) && (l.armed && l.request ==> l.pending)
  }

  /** A transfer to the host never runs out of its buffer, and has something left. */
  predicate BufferKept(s: State) {
    s.phase == DataIn ==> s.transfer.length >= 1 && s.transfer.offset + s.transfer.length <= SECTOR && s.transfer.blocks >= 1
  }

  ghost predicate Kept(d: Drive, s: State) {
    Mounted(d, s) && LatchKept(s.lines) && BufferKept(s)
  }

  /** The part of Kept that holds between the moves of one access. */
  ghost predicate Sound(d: Drive, s: State) {
    Mounted(d, s) && LatchKept(s.lines)
  }

  lemma RequestKeeps(d: Drive, s: State, active: bool)
    requires Mounted(d, s) && (s.lines.pending ==> s.lines.armed)
    requires active || LatchKept(s.lines.(request := false))
    ensures Sound(d, SetRequest(s, active)) && SetRequest(s, active).phase == s.phase
    ensures SetRequest(s, active).transfer == s.transfer
  {
  }

  lemma PhasesKeep(d: Drive, s: State)
    requires Sound(d, s)
    ensures Kept(d, FreeBus(s)) && Kept(d, ToStatus(s, true)) && Kept(d, ToStatus(s, false))
    ensures forall n :: Kept(d, BadSector(s, n)) && Kept(d, ToDataOut(s, n))
  {
  }

  lemma DataInKeeps(d: Drive, s: State, length: nat)
    requires Sound(d, s) && 1 <= length <= SECTOR && s.transfer.blocks >= 1
    ensures Kept(d, ToDataIn(s, length))
  {
  }

  lemma ExecuteKeeps(d: Drive, s: State)
    requires Sound(d, s)
    ensures Kept(d, Execute(d, s))
  {
    hide ToDataIn, ToDataOut, ToStatus, BadSector, Kept, SectorOf, CommandSector, SenseData, Overlay;
    var c, t := s.command, s.transfer;
    PhasesKeep(d, s);
    if c[0] == 0x03 {
      var allocation := if c[4] == 0 then 4 else c[4] as int;
      SenseFits(s, allocation);
      DataInKeeps(d, s.(buffer := Overlay(s.buffer, SenseData(s.sense, allocation)), sense := Sense(0, 0),
                        transfer := t.(blocks := 1)), allocation);
    } else if c[0] == 0x08 {
      var sector := CommandSector(c);
      var s1 := s.(transfer := t.(blocks := BlockCount(c[4])));
      PhasesKeep(d, s1);
      if Readable(s.image, sector) {
        SectorLength(s.image, sector);
        DataInKeeps(d, s1.(buffer := SectorOf(s.image, sector), transfer := s1.transfer.(nextSector := sector + 1)), SECTOR);
      }
    } else if c[0] == 0x0A {
      PhasesKeep(d, s.(transfer := t.(blocks := BlockCount(c[4]), nextSector := CommandSector(c)), status := 0, message := 0));
    } else if c[0] == 0x0F {
      OverlayLength(s.buffer, [c[3], c[2], c[1] % 32, 0]);
      DataInKeeps(d, s.(buffer := Overlay(s.buffer, [c[3], c[2], c[1] % 32, 0]), transfer := t.(blocks := 1)), 4);
    } else if c[0] == 0x15 {
      PhasesKeep(d, s.(transfer := t.(blocks := 1)));
    } else if c[0] == 0x1A {
      var wanted := if c[4] == 0 then 22 else c[4] as int;
      var allocation := if wanted > 33 then 33 else wanted;
      OverlayLength(s.buffer, d.geometry[..allocation]);
      DataInKeeps(d, s.(buffer := Overlay(s.buffer, d.geometry[..allocation]), transfer := t.(blocks := 1)), allocation);
    }
  }

  lemma SenseFits(s: State, allocation: nat)
    requires |s.buffer| == SECTOR && allocation <= SECTOR
    ensures |SenseData(s.sense, allocation)| <= SECTOR && |Overlay(s.buffer, SenseData(s.sense, allocation))| == SECTOR
  {
  }

  lemma SectorLength(image: seq<Byte>, sector: nat)
    requires Readable(image, sector)
    ensures |SectorOf(image, sector)| == SECTOR
  {
  }

  lemma OverlayLength(buffer: seq<Byte>, data: seq<Byte>)
    requires |data| <= |buffer|
    ensures |Overlay(buffer, data)| == |buffer|
  {
  }

  lemma CommandByteKeeps(d: Drive, s: State, v: Byte)
    requires Sound(d, s) && s.phase == Command
    ensures Kept(d, CommandByte(d, s, v))
  {
    hide Execute, SetRequest;
    var t := s.transfer;
    var command := if t.offset < 10 then s.command[t.offset := v] else s.command;
    var length := if t.offset == 0 && 0x20 <= v <= 0x3F then 10 else t.length;
    var s0 := s.(command := command, transfer := t.(offset := t.offset + 1, length := Less(length)));
    RequestKeeps(d, s0, false);
    ExecuteKeeps(d, SetRequest(s0, false));
  }

  lemma BlockInKeeps(d: Drive, s: State)
    requires Sound(d, s) && s.phase == DataOut
    ensures Kept(d, BlockIn(d, s))
  {
    hide ToStatus, BadSector, SetRequest, WithSector;
    var t := s.transfer;
    PhasesKeep(d, s);
    if !(s.command[0] == 0x0A && !Writable(d, s.image, t.nextSector)) {
      if s.command[0] == 0x0A {
        WithSectorLength(s.image, t.nextSector, s.buffer);
      }
      var s1 := if s.command[0] == 0x0A then
                  s.(image := WithSector(s.image, t.nextSector, s.buffer), transfer := t.(nextSector := t.nextSector + 1))
                else s;
      var s2 := s1.(transfer := s1.transfer.(blocks := Less(t.blocks)));
      PhasesKeep(d, s2);
      RequestKeeps(d, s2.(transfer := s2.transfer.(offset := 0, length := SECTOR)), true);
    }
  }

  lemma WithSectorLength(image: seq<Byte>, sector: nat, data: seq<Byte>)
    requires sector * SECTOR + SECTOR <= |image| && |data| == SECTOR
    ensures |WithSector(image, sector, data)| == |image|
  {
  }

  lemma WriteKeeps(d: Drive, s: State, v: Byte)
    requires Kept(d, s)
    ensures Kept(d, WriteData(d, s, v))
  {
    hide CommandByte, FreeBus, BlockIn, SetRequest;
    var s0 := s.(lastWrite := v);
    PhasesKeep(d, s0);
    if s.phase == Command {
      CommandByteKeeps(d, s0, v);
    } else if s.phase == DataOut {
      var t := s0.transfer;
      var buffer := if t.offset < SECTOR then s0.buffer[t.offset := v] else s0.buffer;
      var s1 := s0.(buffer := buffer, transfer := t.(offset := t.offset + 1, length := Less(t.length)));
      RequestKeeps(d, s1, false);
      BlockInKeeps(d, SetRequest(s1, false));
    }
  }

  lemma BlockOutKeeps(d: Drive, s: State)
    requires Sound(d, s) && s.phase == DataIn && s.transfer.blocks >= 1
    ensures Kept(d, BlockOut(d, s))
  {
    hide ToStatus, BadSector, SetRequest, SectorOf;
    var t := s.transfer.(blocks := Less(s.transfer.blocks));
    PhasesKeep(d, s.(transfer := t));
    var s1 := s.(transfer := t.(nextSector := t.nextSector + 1));
    PhasesKeep(d, s1);
    if Readable(s.image, t.nextSector) {
      SectorLength(s.image, t.nextSector);
      RequestKeeps(d, s1.(buffer := SectorOf(s.image, t.nextSector), transfer := s1.transfer.(offset := 0, length := SECTOR)), true);
    }
  }

  lemma ReadKeeps(d: Drive, s: State)
    requires Kept(d, s)
    ensures Kept(d, ReadData(d, s).0)
    ensures s.phase == DataIn ==> s.transfer.offset < SECTOR
  {
    hide BlockOut, FreeBus, SetRequest;
    PhasesKeep(d, s);
    RequestKeeps(d, s, false);
    var s0 := SetRequest(s, false);
    PhasesKeep(d, s0);
    RequestKeeps(d, s0.(phase := MessageIn, lines := s0.lines.(message := true)), true);
    if s.phase == DataIn {
      var t := s.transfer;
      var s1 := s.(transfer := t.(offset := t.offset + 1, length := Less(t.length)));
      RequestKeeps(d, s1, false);
      BlockOutOrOn(d, SetRequest(s1, false));
    }
  }

  lemma BlockOutOrOn(d: Drive, s: State)
    requires Sound(d, s) && s.phase == DataIn && s.transfer.blocks >= 1 && s.transfer.offset + s.transfer.length <= SECTOR
    ensures s.transfer.length != 0 ==> Kept(d, s)
    ensures s.transfer.length == 0 ==> Kept(d, BlockOut(d, s))
  {
    hide BlockOut;
    BlockOutKeeps(d, s);
  }

  lemma SelectKeeps(d: Drive, s: State, on: bool)
    requires Kept(d, s)
    ensures Kept(d, Select(s, on))
  {
  }

  lemma ArmKeeps(d: Drive, s: State, v: Byte)
    requires Kept(d, s)
    ensures Kept(d, Arm(s, v))
  {
  }

  lemma KeptIsMounted(d: Drive, s: State)
    requires Kept(d, s)
    ensures Mounted(d, s)
  {
  }

  /** Every access keeps the latch and the buffer bounds. */
  lemma StepKeeps(d: Drive, s: State, a: Access)
    requires Kept(d, s)
    ensures Mounted(d, s) && Kept(d, Step(d, s, a))
  {
    hide ReadData, WriteData, Kept, Mounted, Select, Arm;
    KeptIsMounted(d, s);
    match a {
      case Read(_) => ReadKeeps(d, s);
      case Write(_, v) =>
        ArmKeeps(d, s, v);
        SelectKeeps(d, s, true);
        SelectKeeps(d, s, false);
        KeptIsMounted(d, Select(s, true));
        KeptIsMounted(d, Select(s, false));
        WriteKeeps(d, Select(s, true), v);
        WriteKeeps(d, Select(s, false), v);
    }
  }

  function Run(d: Drive, s: State, run: seq<Access>): State
    requires Kept(d, s)
    decreases |run|
  {
    if run == [] then s
    else
      StepKeeps(d, s, run[0]);
      Run(d, Step(d, s, run[0]), run[1..])
  }

  /** Over every run: an interrupt is pending only while armed and never missed when armed, and no
      read goes past the buffer. */
  lemma {:induction false} RunKeeps(d: Drive, s: State, run: seq<Access>)
    requires Kept(d, s)
    ensures Kept(d, Run(d, s, run))
    decreases |run|
  {
    hide Step, Kept;
    if run != [] {
      StepKeeps(d, s, run[0]);
      RunKeeps(d, Step(d, s, run[0]), run[1..]);
    }
  }
}
