/** Whole SCSI transfers through the data register: READ(6) delivers exactly the sectors asked for,
    WRITE(6) changes exactly the sectors it covers, and what was written is read back. */
module ScsiTransfers {
  import opened Bytes
  import opened Framing
  import opened Scsi

  const DATA := 0xFC40

  // ----- strings of accesses

  /** n reads of the data register. */
  function ReadRun(d: Drive, s: State, n: nat): (State, seq<Byte>)
    requires Kept(d, s)
    decreases n
  {
    if n == 0 then (s, [])
    else
      StepKeeps(d, s, Read(DATA));
      var (last, got) := ReadRun(d, Step(d, s, Read(DATA)), n - 1);
      (last, [Value(d, s, DATA)] + got)
  }

  /** The bytes written to the data register one after another. */
  function WriteRun(d: Drive, s: State, data: seq<Byte>): State
    requires Kept(d, s)
    decreases |data|
  {
    if data == [] then s
    else
      StepKeeps(d, s, Write(DATA, data[0]));
      WriteRun(d, Step(d, s, Write(DATA, data[0])), data[1..])
  }

  lemma {:induction false} ReadRunKeeps(d: Drive, s: State, n: nat)
    requires Kept(d, s)
    ensures Kept(d, ReadRun(d, s, n).0) && |ReadRun(d, s, n).1| == n
    decreases n
  {
    hide Kept, Step, Value;
    if n != 0 {
      StepKeeps(d, s, Read(DATA));
      ReadRunKeeps(d, Step(d, s, Read(DATA)), n - 1);
    }
  }

  lemma {:induction false} ReadRunJoins(d: Drive, s: State, m: nat, n: nat)
    requires Kept(d, s)
    ensures Kept(d, ReadRun(d, s, m).0)
    ensures var (mid, first) := ReadRun(d, s, m);
            var (last, second) := ReadRun(d, mid, n);
            ReadRun(d, s, m + n) == (last, first + second)
    decreases m
  {
    hide Kept, Step, Value;
    ReadRunKeeps(d, s, m);
    if m == 0 {
      var second := ReadRun(d, s, n);
      assert [] + second.1 == second.1;
    } else {
      StepKeeps(d, s, Read(DATA));
      var s1 := Step(d, s, Read(DATA));
      ReadRunJoins(d, s1, m - 1, n);
      ReadRunKeeps(d, s1, m - 1);
      var (mid, first) := ReadRun(d, s1, m - 1);
      Regroup([Value(d, s, DATA)], first, ReadRun(d, mid, n).1);
    }
  }

  lemma {:induction false} WriteRunKeeps(d: Drive, s: State, data: seq<Byte>)
    requires Kept(d, s)
    ensures Kept(d, WriteRun(d, s, data))
    decreases |data|
  {
    hide Kept, Step;
    if data != [] {
      StepKeeps(d, s, Write(DATA, data[0]));
      WriteRunKeeps(d, Step(d, s, Write(DATA, data[0])), data[1..]);
    }
  }

  lemma {:induction false} WriteRunJoins(d: Drive, s: State, a: seq<Byte>, b: seq<Byte>)
    requires Kept(d, s)
    ensures Kept(d, WriteRun(d, s, a))
    ensures WriteRun(d, s, a + b) == WriteRun(d, WriteRun(d, s, a), b)
    decreases |a|
  {
    hide Kept, Step;
    WriteRunKeeps(d, s, a);
    if a == [] {
      assert a + b == b;
    } else {
      StepKeeps(d, s, Write(DATA, a[0]));
      assert (a + b)[1..] == a[1..] + b;
      WriteRunJoins(d, Step(d, s, Write(DATA, a[0])), a[1..], b);
    }
  }

  // ----- sending a command

  /** A whole command: opcodes &20 to &3F take ten bytes, all others six. */
  predicate Whole(c: seq<Byte>) {
    c != [] && |c| == if 0x20 <= c[0] <= 0x3F then 10 else 6
  }

  /** The adapter is taking a command and has its first i bytes. */
  predicate Taking(s: State, from: State, c: seq<Byte>, i: nat)
    requires Whole(c) && i <= |c|
  {
    && s.phase == Command && s.transfer.offset == i && s.transfer.length == (if i == 0 then 6 else |c| - i)
    && |s.command| == 10 && s.command[..i] == c[..i]
    && s.image == from.image && s.sense == from.sense
  }

  lemma TakeByte(d: Drive, s: State, from: State, c: seq<Byte>, i: nat)
    requires Kept(d, s) && Whole(c) && i < |c| - 1 && Taking(s, from, c, i)
    ensures Taking(Step(d, s, Write(DATA, c[i])), from, c, i + 1)
  {
    hide Execute;
    var after := Step(d, s, Write(DATA, c[i]));
    assert after.command == s.command[i := c[i]];
    assert after.command[..i + 1] == s.command[..i] + [c[i]];
    assert c[..i + 1] == c[..i] + [c[i]];
  }

  /** The last byte of a command executes it. */
  lemma TakeLast(d: Drive, s: State, from: State, c: seq<Byte>) returns (t: State)
    requires Kept(d, s) && Whole(c) && Taking(s, from, c, |c| - 1)
    ensures Sound(d, t) && t.command[..|c|] == c && t.image == from.image && t.sense == from.sense
    ensures Step(d, s, Write(DATA, c[|c| - 1])) == Execute(d, t)
  {
    hide Execute;
    var n := |c| - 1;
    var s1 := Select(s, true).(lastWrite := c[n]);
    t := SetRequest(s1.(command := s.command[n := c[n]], transfer := s.transfer.(offset := n + 1, length := 0)), false);
    assert t.command[..n + 1] == s.command[..n] + [c[n]];
    assert c == c[..n] + [c[n]];
  }

  /** Selection, then the command bytes. */
  function SendCommand(d: Drive, s: State, id: Byte, c: seq<Byte>): State
    requires Kept(d, s)
  {
    StepKeeps(d, s, Write(DATA, id));
    var s1 := Step(d, s, Write(DATA, id));
    StepKeeps(d, s1, Write(DATA + 2, 0));
    WriteRun(d, Step(d, s1, Write(DATA + 2, 0)), c)
  }

  /** From a free bus, selecting the adapter and sending a whole command executes that command on
      the disc as it is. */
  lemma CommandArrives(d: Drive, s: State, id: Byte, c: seq<Byte>) returns (t: State)
    requires Kept(d, s) && s.phase == BusFree && Whole(c)
    ensures Sound(d, t) && t.command[..|c|] == c && t.image == s.image && t.sense == s.sense
    ensures SendCommand(d, s, id, c) == Execute(d, t)
  {
    hide Execute, Sound;
    StepKeeps(d, s, Write(DATA, id));
    var s1 := Step(d, s, Write(DATA, id));
    StepKeeps(d, s1, Write(DATA + 2, 0));
    var s2 := Step(d, s1, Write(DATA + 2, 0));
    assert Taking(s2, s, c, 0);
    t := SendBytes(d, s2, s, c, 0);
    assert c[0..] == c;
  }

  lemma {:induction false} SendBytes(d: Drive, s: State, from: State, c: seq<Byte>, i: nat) returns (t: State)
    requires Kept(d, s) && Whole(c) && i < |c| && Taking(s, from, c, i)
    ensures Sound(d, t) && t.command[..|c|] == c && t.image == from.image && t.sense == from.sense
    ensures WriteRun(d, s, c[i..]) == Execute(d, t)
    decreases |c| - i
  {
    hide Execute, Sound, Kept, Step, Taking;
    StepKeeps(d, s, Write(DATA, c[i]));
    assert c[i..][1..] == c[i + 1..];
    if i == |c| - 1 {
      t := TakeLast(d, s, from, c);
      assert c[i + 1..] == [];
    } else {
      TakeByte(d, s, from, c, i);
      t := SendBytes(d, Step(d, s, Write(DATA, c[i])), from, c, i + 1);
    }
  }

  // ----- reading

  /** A data-in state further on in its buffer. */
  function Further(s: State, n: nat): State {
    if n == 0 then s
    else s.(transfer := s.transfer.(offset := s.transfer.offset + n,
                                    length := if n <= s.transfer.length then s.transfer.length - n else 0),
            lines := s.lines.(request := false))
  }

  lemma ReadOne(d: Drive, s: State)
    requires Kept(d, s) && s.phase == DataIn
    ensures Value(d, s, DATA) == s.buffer[s.transfer.offset]
    ensures Step(d, s, Read(DATA)) == if s.transfer.length == 1 then BlockOut(d, Further(s, 1)) else Further(s, 1)
  {
    hide BlockOut;
  }

  lemma {:induction false} ReadSome(d: Drive, s: State, n: nat)
    requires Kept(d, s) && s.phase == DataIn && n < s.transfer.length
    ensures ReadRun(d, s, n) == (Further(s, n), s.buffer[s.transfer.offset..s.transfer.offset + n])
    decreases n
  {
    hide Step, Value;
    if n != 0 {
      StepKeeps(d, s, Read(DATA));
      ReadOne(d, s);
      ReadSome(d, Further(s, 1), n - 1);
      assert Further(Further(s, 1), n - 1) == Further(s, n);
      HeadOfSlice(s.buffer, s.transfer.offset, n);
    } else {
      assert s.buffer[s.transfer.offset..s.transfer.offset] == [];
    }
  }

  lemma HeadOfSlice(s: seq<Byte>, at: nat, n: nat)
    requires 0 < n && at + n <= |s|
    ensures s[at..at + n] == [s[at]] + s[at + 1..at + 1 + (n - 1)]
  {
  }

  /** Reading a whole block gives its buffer and moves to whatever comes next. */
  lemma ReadBlock(d: Drive, s: State)
    requires Kept(d, s) && s.phase == DataIn && s.transfer.offset == 0
    ensures Kept(d, Further(s, s.transfer.length - 1))
    ensures Mounted(d, Further(s, s.transfer.length))
    ensures ReadRun(d, s, s.transfer.length) == (BlockOut(d, Further(s, s.transfer.length)), s.buffer[..s.transfer.length])
  {
    hide BlockOut, Step, Value;
    var n := s.transfer.length;
    ReadSome(d, s, n - 1);
    ReadRunJoins(d, s, n - 1, 1);
    var s1 := Further(s, n - 1);
    ReadOne(d, s1);
    StepKeeps(d, s1, Read(DATA));
    assert Further(s1, 1) == Further(s, n);
    assert ReadRun(d, Step(d, s1, Read(DATA)), 0) == (Step(d, s1, Read(DATA)), []);
    assert [s.buffer[n - 1]] + [] == [s.buffer[n - 1]];
    assert s.buffer[..n] == s.buffer[0..n - 1] + [s.buffer[n - 1]];
  }

  /** How many of b sectors from `sector` on can be read before the end of the image. */
  function ReadableRun(image: seq<Byte>, sector: nat, b: nat): (k: nat)
    ensures k <= b
    decreases b
  {
    if b == 0 || !Readable(image, sector) then 0 else 1 + ReadableRun(image, sector + 1, b - 1)
  }

  /** k sectors of the image, zero padded past its end. */
  function Sectors(image: seq<Byte>, sector: nat, k: nat): seq<Byte>
    requires k <= ReadableRun(image, sector, k)
    decreases k
  {
    if k == 0 then [] else SectorOf(image, sector) + Sectors(image, sector + 1, k - 1)
  }

  lemma {:induction false} RunOfRun(image: seq<Byte>, sector: nat, b: nat)
    ensures ReadableRun(image, sector, ReadableRun(image, sector, b)) == ReadableRun(image, sector, b)
    decreases b
  {
    if b != 0 && Readable(image, sector) {
      RunOfRun(image, sector + 1, b - 1);
    }
  }

  /** The transfer has ended: with good status, or at a sector that is not there. */
  predicate Ended(s: State, from: State, good: bool, sector: nat) {
    && s.phase == StatusIn && s.message == 0 && s.image == from.image
    && s.status == (if good then GOOD else CHECK)
    && (good ==> s.sense == from.sense) && (!good ==> s.sense == Sense(BAD_SECTOR, sector))
  }

  /** At the start of a block of a read, with b blocks to go counting this one. */
  predicate AtBlock(s: State, from: State, sector: nat, b: nat) {
    && s.phase == DataIn && s.transfer == Transfer(b, sector + 1, 0, SECTOR) && b >= 1
    && Readable(s.image, sector) && s.buffer == SectorOf(s.image, sector)
    && s.image == from.image && s.sense == from.sense
  }

  lemma NextBlock(d: Drive, s: State, from: State, sector: nat, b: nat)
    requires Kept(d, s) && AtBlock(s, from, sector, b)
    ensures Mounted(d, Further(s, SECTOR))
    ensures var t := BlockOut(d, Further(s, SECTOR));
            if b == 1 then Ended(t, from, true, sector + 1)
            else if Readable(s.image, sector + 1) then AtBlock(t, from, sector + 1, b - 1)
            else Ended(t, from, false, sector + 1)
  {
    hide SectorOf;
  }

  lemma {:induction false} ReadBlocks(d: Drive, s: State, from: State, sector: nat, b: nat)
    requires Kept(d, s) && AtBlock(s, from, sector, b)
    ensures var k := ReadableRun(from.image, sector, b);
            && ReadableRun(from.image, sector, k) == k
            && ReadRun(d, s, SECTOR * k).1 == Sectors(from.image, sector, k)
            && Ended(ReadRun(d, s, SECTOR * k).0, from, k == b, sector + k)
    decreases b
  {
    hide BlockOut, Step, Value, SectorOf, Ended, Kept;
    var k := ReadableRun(from.image, sector, b);
    RunOfRun(from.image, sector, b);
    ReadBlock(d, s);
    NextBlock(d, s, from, sector, b);
    var (next, first) := ReadRun(d, s, SECTOR);
    ReadRunKeeps(d, s, SECTOR);
    assert first == SectorOf(from.image, sector) by { assert s.buffer[..SECTOR] == s.buffer; }
    ReadRunJoins(d, s, SECTOR, SECTOR * (k - 1));
    assert SECTOR * k == SECTOR + SECTOR * (k - 1);
    if b > 1 && Readable(from.image, sector + 1) {
      ReadBlocks(d, next, from, sector + 1, b - 1);
    } else {
      assert k == 1 && ReadRun(d, next, 0) == (next, []);
    }
  }

  /** Status and message complete every transfer and free the bus. */
  lemma Finish(d: Drive, s: State)
    requires Kept(d, s) && s.phase == StatusIn && s.message == 0
    ensures ReadRun(d, s, 2).1 == [s.status, 0]
    ensures ReadRun(d, s, 2).0.phase == BusFree
    ensures ReadRun(d, s, 2).0.image == s.image && ReadRun(d, s, 2).0.sense == s.sense
  {
    StepKeeps(d, s, Read(DATA));
    var s1 := Step(d, s, Read(DATA));
    StepKeeps(d, s1, Read(DATA));
    var s2 := Step(d, s1, Read(DATA));
    assert ReadRun(d, s2, 0) == (s2, []);
    assert ReadRun(d, s1, 1) == (s2, [0] + []);
  }

  function Read6(sector: nat, count: Byte, control: Byte): seq<Byte>
    requires sector < 0x20_0000
  {
    [0x08, sector / 0x1_0000, sector / 0x100 % 0x100, sector % 0x100, count, control]
  }

  function Write6(sector: nat, count: Byte, control: Byte): seq<Byte>
    requires sector < 0x20_0000
  {
    [0x0A, sector / 0x1_0000, sector / 0x100 % 0x100, sector % 0x100, count, control]
  }

  lemma SectorArrives(command: seq<Byte>, op: Byte, sector: nat, count: Byte, control: Byte)
    requires |command| == 10 && sector < 0x20_0000
    requires command[..6] == [op, sector / 0x1_0000, sector / 0x100 % 0x100, sector % 0x100, count, control]
    ensures command[0] == op && command[4] == count && CommandSector(command) == sector
  {
    var c := command[..6];
    assert command[0] == c[0] && command[1] == c[1] && command[2] == c[2] && command[3] == c[3] && command[4] == c[4];
    assert sector / 0x1_0000 < 32;
  }

  /** READ(6) is exact: the host gets 256 bytes for each block, equal to the image and zero padded
      past its end; then status 0 if that was every block asked for, or status 2 with the first
      sector that is not there in the sense data; then message 0 and a free bus. The image does
      not change. */
  lemma ReadIsExact(d: Drive, s: State, id: Byte, sector: nat, count: Byte, control: Byte)
    requires Kept(d, s) && s.phase == BusFree && sector < 0x20_0000
    ensures Kept(d, SendCommand(d, s, id, Read6(sector, count, control)))
    ensures var b := BlockCount(count);
            var k := ReadableRun(s.image, sector, b);
            var (last, got) := ReadRun(d, SendCommand(d, s, id, Read6(sector, count, control)), SECTOR * k + 2);
            && k <= ReadableRun(s.image, sector, k)
            && got == Sectors(s.image, sector, k) + [if k == b then 0 else 2, 0]
            && last.phase == BusFree && last.image == s.image
            && last.sense == if k == b then s.sense else Sense(0x21, sector + k)
  {
    hide Execute, SendCommand, ReadRun, Ended;
    var c := Read6(sector, count, control);
    var t := CommandArrives(d, s, id, c);
    ExecuteKeeps(d, t);
    SectorArrives(t.command, 0x08, sector, count, control);
    var b := BlockCount(count);
    var k := ReadableRun(s.image, sector, b);
    RunOfRun(s.image, sector, b);
    ReadStarts(d, t, s, sector, count);
    var begun := Execute(d, t);
    ReadRunKeeps(d, begun, SECTOR * k);
    if Readable(s.image, sector) {
      ReadBlocks(d, begun, s, sector, b);
    } else {
      assert k == 0;
      ReadNone(d, begun);
    }
    var (ended, data) := ReadRun(d, begun, SECTOR * k);
    EndedMeans(ended, s, k == b, sector + k);
    Finish(d, ended);
    ReadRunJoins(d, begun, SECTOR * k, 2);
  }

  lemma ReadNone(d: Drive, s: State)
    requires Kept(d, s)
    ensures ReadRun(d, s, 0) == (s, [])
  {
  }

  lemma EndedMeans(s: State, from: State, good: bool, sector: nat)
    requires Ended(s, from, good, sector)
    ensures s.phase == StatusIn && s.message == 0 && s.image == from.image && s.status == (if good then GOOD else CHECK)
    ensures s.sense == if good then from.sense else Sense(BAD_SECTOR, sector)
  {
  }

  lemma ReadStarts(d: Drive, t: State, from: State, sector: nat, count: Byte)
    requires Sound(d, t) && t.command[0] == 0x08 && t.command[4] == count && CommandSector(t.command) == sector
    requires t.image == from.image && t.sense == from.sense
    ensures var s := Execute(d, t);
            if Readable(from.image, sector) then AtBlock(s, from, sector, BlockCount(count))
            else Ended(s, from, false, sector)
  {
    hide SectorOf;
  }

  // ----- sense

  /** Sense data: the code, the sector highest byte first, then zeros; as much as there is room for. */
  predicate SenseShown(got: seq<Byte>, sense: Sense) {
    && got != [] && got[0] == sense.code
    && (|got| >= 4 ==> (got[1] as int * 0x1_0000 + got[2] as int * 0x100 + got[3] as int) == sense.sector % 0x100_0000)
    && forall i | 4 <= i < |got| :: got[i] == 0
  }

  /** REQUEST SENSE hands over the recorded code and sector, cut or zero padded to the length asked
      for, and forgets them. */
  lemma SenseIsReported(d: Drive, s: State, id: Byte, count: Byte, control: Byte)
    requires Kept(d, s) && s.phase == BusFree
    ensures Kept(d, SendCommand(d, s, id, [0x03, 0, 0, 0, count, control]))
    ensures var n: nat := if count == 0 then 4 else count;
            var (last, got) := ReadRun(d, SendCommand(d, s, id, [0x03, 0, 0, 0, count, control]), n + 2);
            && |got| == n + 2 && SenseShown(got[..n], s.sense) && got[n..] == [0, 0]
            && last.phase == BusFree && last.sense == Sense(0, 0) && last.image == s.image
  {
    hide SendCommand, ReadRun, Execute;
    var c := [0x03, 0, 0, 0, count, control];
    var n := if count == 0 then 4 else count as int;
    var t := CommandArrives(d, s, id, c);
    ExecuteKeeps(d, t);
    assert t.command[0] == t.command[..6][0] && t.command[4] == t.command[..6][4];
    SenseStarts(d, t, n);
    var begun := Execute(d, t);
    ReadBlock(d, begun);
    SenseEnds(d, Further(begun, n));
    ReadRunKeeps(d, begun, n);
    var (ended, data) := ReadRun(d, begun, n);
    Finish(d, ended);
    ReadRunJoins(d, begun, n, 2);
    SenseSector(s.sense.sector);
    assert SenseShown(data, s.sense);
  }

  lemma SenseSector(n: nat)
    ensures n % 0x100_0000 == n / 0x1_0000 % 0x100 * 0x1_0000 + n / 0x100 % 0x100 * 0x100 + n % 0x100
  {
    assert n / 0x100 / 0x100 == n / 0x1_0000 && n / 0x1_0000 / 0x100 == n / 0x100_0000;
  }

  lemma SenseStarts(d: Drive, t: State, n: nat)
    requires Sound(d, t) && t.command[0] == 0x03 && n == (if t.command[4] == 0 then 4 else t.command[4] as int)
    ensures var s := Execute(d, t);
            && s.phase == DataIn && s.transfer.offset == 0 && s.transfer.length == n && s.transfer.blocks == 1
            && s.sense == Sense(0, 0) && s.image == t.image
            && s.buffer[0] == t.sense.code && s.buffer[1] == t.sense.sector / 0x1_0000 % 0x100
            && s.buffer[2] == t.sense.sector / 0x100 % 0x100 && s.buffer[3] == t.sense.sector % 0x100
            && forall i | 4 <= i < n :: s.buffer[i] == 0
  {
    hide SectorOf;
  }

  lemma SenseEnds(d: Drive, s: State)
    requires Mounted(d, s) && s.transfer.blocks == 1
    ensures BlockOut(d, s).phase == StatusIn && BlockOut(d, s).status == GOOD && BlockOut(d, s).message == 0
    ensures BlockOut(d, s).sense == s.sense && BlockOut(d, s).image == s.image
  {
  }

  // ----- writing

  /** At the start of a block of a write, with b blocks to come counting this one. */
  predicate AtBlockOut(s: State, sector: nat, b: nat) {
    s.phase == DataOut && s.transfer == Transfer(b, sector, 0, SECTOR) && b >= 1
    && |s.command| == 10 && s.command[0] == 0x0A && |s.buffer| == SECTOR
  }

  /** The same block with the first bytes in. */
  predicate Filling(s: State, from: State, block: seq<Byte>, n: nat)
    requires n <= |block| == SECTOR
  {
    && s.phase == DataOut && s.command == from.command && s.image == from.image && s.sense == from.sense
    && s.transfer == from.transfer.(offset := n, length := SECTOR - n)
    && |s.buffer| == SECTOR && s.buffer[..n] == block[..n]
  }

  lemma FillOne(d: Drive, s: State, from: State, block: seq<Byte>, n: nat)
    requires Kept(d, s) && n < |block| - 1 && |block| == SECTOR && Filling(s, from, block, n)
    ensures Filling(Step(d, s, Write(DATA, block[n])), from, block, n + 1)
  {
    hide BlockIn;
    var after := Step(d, s, Write(DATA, block[n]));
    assert after.buffer == s.buffer[n := block[n]];
    assert after.buffer[..n + 1] == s.buffer[..n] + [block[n]];
    assert block[..n + 1] == block[..n] + [block[n]];
  }

  lemma FillLast(d: Drive, s: State, from: State, block: seq<Byte>) returns (t: State)
    requires Kept(d, s) && |block| == SECTOR && Filling(s, from, block, SECTOR - 1)
    ensures Sound(d, t) && t.buffer == block && t.image == from.image && t.sense == from.sense && t.command == from.command
    ensures t.transfer == from.transfer.(offset := SECTOR, length := 0) && t.phase == DataOut
    ensures Step(d, s, Write(DATA, block[SECTOR - 1])) == BlockIn(d, t)
  {
    hide BlockIn;
    var s1 := Select(s, true).(lastWrite := block[SECTOR - 1]);
    t := SetRequest(s1.(buffer := s.buffer[SECTOR - 1 := block[SECTOR - 1]],
                        transfer := s.transfer.(offset := SECTOR, length := 0)), false);
    assert t.buffer == s.buffer[..SECTOR - 1] + [block[SECTOR - 1]];
    assert block == block[..SECTOR - 1] + [block[SECTOR - 1]];
  }

  lemma {:induction false} FillBlock(d: Drive, s: State, from: State, block: seq<Byte>, n: nat) returns (t: State)
    requires Kept(d, s) && |block| == SECTOR && n < SECTOR && Filling(s, from, block, n)
    ensures Sound(d, t) && t.buffer == block && t.image == from.image && t.sense == from.sense && t.command == from.command
    ensures t.transfer == from.transfer.(offset := SECTOR, length := 0) && t.phase == DataOut
    ensures WriteRun(d, s, block[n..]) == BlockIn(d, t)
    decreases SECTOR - n
  {
    hide BlockIn, Sound, Kept, Step, Filling;
    StepKeeps(d, s, Write(DATA, block[n]));
    assert block[n..][1..] == block[n + 1..];
    if n == SECTOR - 1 {
      t := FillLast(d, s, from, block);
      assert block[n + 1..] == [];
    } else {
      FillOne(d, s, from, block, n);
      t := FillBlock(d, Step(d, s, Write(DATA, block[n])), from, block, n + 1);
    }
  }

  /** How many of b sectors from `sector` on can be written. */
  function WritableRun(d: Drive, image: seq<Byte>, sector: nat, b: nat): (k: nat)
    ensures k <= b
    decreases b
  {
    if b == 0 || !Writable(d, image, sector) then 0 else 1 + WritableRun(d, image, sector + 1, b - 1)
  }

  /** The image with blocks stored from `sector` on. */
  function Written(image: seq<Byte>, sector: nat, blocks: seq<seq<Byte>>): (r: seq<Byte>)
    requires forall i | 0 <= i < |blocks| :: |blocks[i]| == SECTOR
    requires (sector + |blocks|) * SECTOR <= |image|
    ensures |r| == |image|
    decreases |blocks|
  {
    if blocks == [] then image else Written(WithSector(image, sector, blocks[0]), sector + 1, blocks[1..])
  }

  ghost predicate WholeBlocks(blocks: seq<seq<Byte>>) {
    forall i | 0 <= i < |blocks| :: |blocks[i]| == SECTOR
  }

  lemma {:induction false} WritableFits(d: Drive, image: seq<Byte>, sector: nat, b: nat)
    ensures WritableRun(d, image, sector, b) > 0 ==> (sector + WritableRun(d, image, sector, b)) * SECTOR <= |image|
    decreases b
  {
    if b != 0 && Writable(d, image, sector) {
      WritableFits(d, image, sector + 1, b - 1);
    }
  }

  /** The end of a write: the image with the blocks that fit, and the verdict. */
  predicate Stored(s: State, image: seq<Byte>, good: bool, sense: Sense, sector: nat) {
    && s.phase == StatusIn && s.message == 0 && s.image == image
    && s.status == (if good then GOOD else CHECK)
    && s.sense == if good then sense else Sense(BAD_SECTOR, sector)
  }

  lemma NextBlockOut(d: Drive, t: State, sector: nat, b: nat)
    requires Sound(d, t) && t.phase == DataOut && t.command[0] == 0x0A && b >= 1
    requires t.transfer == Transfer(b, sector, SECTOR, 0)
    ensures Writable(d, t.image, sector) ==>
              var s := BlockIn(d, t); var image := WithSector(t.image, sector, t.buffer);
              if b == 1 then Stored(s, image, true, t.sense, sector + 1)
              else AtBlockOut(s, sector + 1, b - 1) && s.image == image && s.sense == t.sense
    ensures !Writable(d, t.image, sector) ==> Stored(BlockIn(d, t), t.image, false, t.sense, sector)
  {
    hide WithSector;
  }

  /** The blocks of a WRITE, one after another, up to the first that is refused. */
  lemma {:induction false} WriteBlocks(d: Drive, s: State, sector: nat, blocks: seq<seq<Byte>>)
    requires Kept(d, s) && AtBlockOut(s, sector, |blocks|) && WholeBlocks(blocks)
    ensures var b := |blocks|;
            var k := WritableRun(d, s.image, sector, b);
            var sent := if k == b then b else k + 1;
            && (k > 0 ==> (sector + k) * SECTOR <= |s.image|)
            && Stored(WriteRun(d, s, Concat(blocks[..sent])),
                      if k > 0 then Written(s.image, sector, blocks[..k]) else s.image, k == b, s.sense, sector + k)
    decreases |blocks|
  {
    hide BlockIn, Step, Kept, Stored, WithSector, Sound;
    var b := |blocks|;
    var k := WritableRun(d, s.image, sector, b);
    WritableFits(d, s.image, sector, b);
    var sent := if k == b then b else k + 1;
    assert |blocks[0]| == SECTOR;
    FillStarts(s, blocks[0], sector, b);
    var t := FillBlock(d, s, s, blocks[0], 0);
    assert blocks[0][0..] == blocks[0];
    NextBlockOut(d, t, sector, b);
    var next := WriteRun(d, s, blocks[0]);
    WriteRunKeeps(d, s, blocks[0]);
    assert blocks[..sent][1..] == blocks[1..][..sent - 1];
    assert Concat(blocks[..sent]) == blocks[0] + Concat(blocks[1..][..sent - 1]);
    WriteRunJoins(d, s, blocks[0], Concat(blocks[1..][..sent - 1]));
    if k == 0 {
      assert Concat(blocks[1..][..0]) == [];
    } else {
      var image := WithSector(s.image, sector, blocks[0]);
      WithSectorLength(s.image, sector, blocks[0]);
      assert blocks[..k][1..] == blocks[1..][..k - 1];
      assert Written(image, sector + 1, []) == image;
      assert blocks[1..][..0] == [];
      if b != 1 {
        RunAfterWrite(d, s.image, image, sector + 1, b - 1);
        assert WholeBlocks(blocks[1..]);
        WriteBlocks(d, next, sector + 1, blocks[1..]);
      }
    }
  }

  lemma FillStarts(s: State, block: seq<Byte>, sector: nat, b: nat)
    requires AtBlockOut(s, sector, b) && |block| == SECTOR
    ensures Filling(s, s, block, 0)
  {
    assert s.buffer[..0] == block[..0];
  }

  /** Writing does not move the end of the image. */
  lemma {:induction false} RunAfterWrite(d: Drive, image: seq<Byte>, after: seq<Byte>, sector: nat, b: nat)
    requires |after| == |image|
    ensures WritableRun(d, after, sector, b) == WritableRun(d, image, sector, b)
    decreases b
  {
    if b != 0 {
      RunAfterWrite(d, image, after, sector + 1, b - 1);
    }
  }

  /** WRITE(6) is exact: the blocks sent are stored in their sectors, as far as the drive lets
      them be; the first refused block ends the transfer with status 2 and its sector in the
      sense data. */
  lemma WriteIsExact(d: Drive, s: State, id: Byte, sector: nat, count: Byte, control: Byte, blocks: seq<seq<Byte>>)
    requires Kept(d, s) && s.phase == BusFree && sector < 0x20_0000
    requires |blocks| == BlockCount(count) && WholeBlocks(blocks)
    ensures Kept(d, SendCommand(d, s, id, Write6(sector, count, control)))
    ensures var b := |blocks|;
            var k := WritableRun(d, s.image, sector, b);
            var sent := Concat(blocks[..if k == b then b else k + 1]);
            var ended := WriteRun(d, SendCommand(d, s, id, Write6(sector, count, control)), sent);
            && Kept(d, ended) && (k > 0 ==> (sector + k) * SECTOR <= |s.image|)
            && ended.image == (if k > 0 then Written(s.image, sector, blocks[..k]) else s.image)
            && ReadRun(d, ended, 2).1 == [if k == b then 0 else 2, 0]
            && ReadRun(d, ended, 2).0.phase == BusFree && ReadRun(d, ended, 2).0.image == ended.image
            && ReadRun(d, ended, 2).0.sense == if k == b then s.sense else Sense(0x21, sector + k)
  {
    hide Execute, SendCommand, ReadRun, WriteRun, Written, WritableRun;
    var t := CommandArrives(d, s, id, Write6(sector, count, control));
    ExecuteKeeps(d, t);
    SectorArrives(t.command, 0x0A, sector, count, control);
    WriteStarts(d, t, sector, count);
    var begun := Execute(d, t);
    WriteBlocks(d, begun, sector, blocks);
    var b := |blocks|;
    var k := WritableRun(d, s.image, sector, b);
    var sent := Concat(blocks[..if k == b then b else k + 1]);
    WriteRunKeeps(d, begun, sent);
    Finish(d, WriteRun(d, begun, sent));
  }

  lemma WriteStarts(d: Drive, t: State, sector: nat, count: Byte)
    requires Sound(d, t) && t.command[0] == 0x0A && t.command[4] == count && CommandSector(t.command) == sector
    ensures var s := Execute(d, t); AtBlockOut(s, sector, BlockCount(count)) && s.image == t.image && s.sense == t.sense
  {
  }

  // ----- what was written is what is read

  lemma SectorAfterWrite(image: seq<Byte>, sector: nat, data: seq<Byte>, other: nat)
    requires sector * SECTOR + SECTOR <= |image| && |data| == SECTOR && Readable(image, other)
    ensures Readable(WithSector(image, sector, data), other)
    ensures SectorOf(WithSector(image, sector, data), other) == if other == sector then data else SectorOf(image, other)
  {
    var after := WithSector(image, sector, data);
    var from, at := other * SECTOR, sector * SECTOR;
    assert other < sector ==> from + SECTOR <= at;
    assert other > sector ==> from >= at + SECTOR;
    if other == sector {
      assert after[at..at + SECTOR] == data;
    } else if from + SECTOR <= |image| {
      assert after[from..from + SECTOR] == image[from..from + SECTOR];
    } else {
      assert after[from..] == image[from..];
    }
  }

  /** Each written sector holds its block; every other sector is as it was. */
  lemma {:induction false} SectorAfterWrites(image: seq<Byte>, sector: nat, blocks: seq<seq<Byte>>, other: nat)
    requires WholeBlocks(blocks) && (sector + |blocks|) * SECTOR <= |image| && Readable(image, other)
    ensures Readable(Written(image, sector, blocks), other)
    ensures SectorOf(Written(image, sector, blocks), other)
         == if sector <= other < sector + |blocks| then blocks[other - sector] else SectorOf(image, other)
    decreases |blocks|
  {
    hide SectorOf, WithSector;
    if blocks != [] {
      assert |blocks[0]| == SECTOR;
      SectorAfterWrite(image, sector, blocks[0], other);
      WithSectorLength(image, sector, blocks[0]);
      assert WholeBlocks(blocks[1..]);
      SectorAfterWrites(WithSector(image, sector, blocks[0]), sector + 1, blocks[1..], other);
    }
  }

  predicate Holds(image: seq<Byte>, sector: nat, blocks: seq<seq<Byte>>, i: nat) {
    i < |blocks| && Readable(image, sector + i) && SectorOf(image, sector + i) == blocks[i]
  }

  lemma {:induction false} SectorsAre(image: seq<Byte>, sector: nat, blocks: seq<seq<Byte>>)
    requires forall i | 0 <= i < |blocks| :: Holds(image, sector, blocks, i)
    ensures ReadableRun(image, sector, |blocks|) == |blocks|
    ensures Sectors(image, sector, |blocks|) == Concat(blocks)
    decreases |blocks|
  {
    hide SectorOf;
    if blocks != [] {
      assert Holds(image, sector, blocks, 0);
      var rest, next := blocks[1..], sector + 1;
      forall i: nat | i < |rest|
        ensures Holds(image, next, rest, i)
      {
        assert Holds(image, sector, blocks, i + 1);
        assert rest[i] == blocks[i + 1];
      }
      SectorsAre(image, next, rest);
    }
  }

  /** Blocks a drive took come back from the same sectors exactly. */
  lemma WrittenIsRead(image: seq<Byte>, sector: nat, blocks: seq<seq<Byte>>)
    requires WholeBlocks(blocks) && (sector + |blocks|) * SECTOR <= |image|
    ensures ReadableRun(Written(image, sector, blocks), sector, |blocks|) == |blocks|
    ensures Sectors(Written(image, sector, blocks), sector, |blocks|) == Concat(blocks)
  {
    hide Written, SectorOf;
    var after := Written(image, sector, blocks);
    forall i | 0 <= i < |blocks|
      ensures Holds(after, sector, blocks, i)
    {
      assert (sector + i) * SECTOR < (sector + |blocks|) * SECTOR;
      SectorAfterWrites(image, sector, blocks, sector + i);
    }
    SectorsAre(after, sector, blocks);
  }

  /** A whole WRITE, status and message included. */
  function WriteAll(d: Drive, s: State, id: Byte, sector: nat, count: Byte, control: Byte, data: seq<Byte>): State
    requires Kept(d, s) && sector < 0x20_0000 && Kept(d, SendCommand(d, s, id, Write6(sector, count, control)))
  {
    var begun := SendCommand(d, s, id, Write6(sector, count, control));
    WriteRunKeeps(d, begun, data);
    ReadRun(d, WriteRun(d, begun, data), 2).0
  }

  /** A WRITE the drive takes, then a READ of the same sectors: the same bytes, and good status. */
  lemma WriteThenRead(d: Drive, s: State, id: Byte, sector: nat, count: Byte, control: Byte, blocks: seq<seq<Byte>>)
    requires Kept(d, s) && s.phase == BusFree && sector < 0x20_0000
    requires |blocks| == BlockCount(count) && WholeBlocks(blocks)
    requires d.writable && (sector + |blocks|) * SECTOR <= |s.image|
    ensures Kept(d, SendCommand(d, s, id, Write6(sector, count, control)))
    ensures var after := WriteAll(d, s, id, sector, count, control, Concat(blocks));
            && Kept(d, after) && Kept(d, SendCommand(d, after, id, Read6(sector, count, control)))
            && after.image == Written(s.image, sector, blocks)
            && ReadRun(d, SendCommand(d, after, id, Read6(sector, count, control)), SECTOR * |blocks| + 2).1
            == Concat(blocks) + [0, 0]
  {
    hide Execute, SendCommand, ReadRun, WriteRun, Written, WritableRun, ReadableRun, Sectors, Kept;
    WriteIsExact(d, s, id, sector, count, control, blocks);
    AllWritable(d, s.image, sector, |blocks|);
    assert blocks[..|blocks|] == blocks;
    var begun := SendCommand(d, s, id, Write6(sector, count, control));
    var ended := WriteRun(d, begun, Concat(blocks));
    ReadRunKeeps(d, ended, 2);
    var after := ReadRun(d, ended, 2).0;
    WrittenIsRead(s.image, sector, blocks);
    ReadIsExact(d, after, id, sector, count, control);
  }

  lemma {:induction false} AllWritable(d: Drive, image: seq<Byte>, sector: nat, b: nat)
    requires d.writable && (sector + b) * SECTOR <= |image|
    ensures WritableRun(d, image, sector, b) == b
    decreases b
  {
    if b != 0 {
      AllWritable(d, image, sector + 1, b - 1);
    }
  }
}
