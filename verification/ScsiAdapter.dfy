/** The host adapter as one object whose state each register access updates in place, proved to
    take the steps of Scsi. */
module ScsiAdapter {
  import opened Bytes
  import opened Scsi

  class Adapter {
    const drive: Drive
    const buffer: array<Byte>
    var phase: BusPhase
    var lines: Lines
    var command: seq<Byte>
    var transfer: Transfer
    var status: Byte
    var message: Byte
    var sense: Sense
    var lastWrite: Byte
    var image: seq<Byte>

    ghost function View(): State
      reads this, buffer
    {
      State(phase, lines, command, buffer[..], transfer, status, message, sense, lastWrite, image)
    }

    ghost predicate Valid()
      reads this, buffer
    {
      Mounted(drive, View())
    }

    /** A mounted image, the bus free. */
    constructor (drive: Drive, image: seq<Byte>)
      requires |image| > 0 && |drive.geometry| == 33
      ensures Valid() && fresh(buffer) && this.drive == drive && this.image == image
      ensures Kept(drive, View()) && phase == BusFree && sense == Sense(0, 0)
    {
      this.drive, this.image := drive, image;
      buffer := new Byte[SECTOR](_ => 0);
      phase, lines := BusFree, Lines(false, false, false, false, false, false, false, false);
      command, transfer := [0, 0, 0, 0, 0, 0, 0, 0, 0, 0], Transfer(0, 0, 0, 0);
      status, message, sense, lastWrite := 0, 0, Sense(0, 0), 0;
    }

    method RaiseRequest(active: bool)
      modifies this`lines
      ensures View() == SetRequest(old(View()), active)
    {
      lines := lines.(request := active);
      if lines.armed && active {
        lines := lines.(pending := true);
      }
    }

    method ReleaseBus()
      modifies this`lines, this`phase
      ensures View() == FreeBus(old(View()))
    {
      lines := lines.(selected := false, message := false, command := false, input := false, busy := false);
      phase := BusFree;
      RaiseRequest(false);
    }

    method StatusPhase(good: bool)
      modifies this`lines, this`phase, this`status, this`message
      ensures View() == ToStatus(old(View()), good)
    {
      phase := StatusIn;
      lines := lines.(input := true, command := true, message := false);
      status, message := if good then GOOD else CHECK, 0;
      RaiseRequest(true);
    }

    method ReadPhase(length: nat)
      modifies this`lines, this`phase, this`transfer, this`status, this`message
      ensures View() == ToDataIn(old(View()), length)
    {
      phase := DataIn;
      lines := lines.(input := true, command := false, message := false);
      transfer := transfer.(offset := 0, length := length);
      status, message := 0, 0;
      RaiseRequest(true);
    }

    method WritePhase(length: nat)
      modifies this`lines, this`phase, this`transfer
      ensures View() == ToDataOut(old(View()), length)
    {
      phase := DataOut;
      lines := lines.(input := false, command := false, message := false);
      transfer := transfer.(offset := 0, length := length);
      RaiseRequest(true);
    }

    method Fail(sector: nat)
      modifies this`lines, this`phase, this`status, this`message, this`sense
      ensures View() == BadSector(old(View()), sector)
    {
      hide ToStatus;
      sense := Sense(BAD_SECTOR, sector);
      StatusPhase(false);
    }

    /** Put data at the front of the buffer. */
    method Load(data: seq<Byte>)
      requires Valid() && |data| <= SECTOR
      modifies buffer
      ensures View() == old(View()).(buffer := Overlay(old(buffer[..]), data))
    {
      ghost var was := buffer[..];
      for i := 0 to |data|
        invariant buffer[..i] == data[..i] && buffer[i..] == was[i..]
      {
        buffer[i] := data[i];
      }
      assert data[..|data|] == data;
      assert buffer[..] == buffer[..|data|] + buffer[|data|..];
    }

    method ReadSector(sector: nat) returns (ok: bool)
      requires Valid()
      modifies buffer
      ensures ok == Readable(image, sector)
      ensures View() == if ok then old(View()).(buffer := SectorOf(image, sector)) else old(View())
    {
      hide SectorOf;
      var offset := sector * SECTOR;
      if offset >= |image| {
        return false;
      }
      SectorLength(image, sector);
      Load(SectorOf(image, sector));
      return true;
    }

    method WriteSector(sector: nat) returns (ok: bool)
      requires Valid()
      modifies this`image
      ensures ok == Writable(drive, old(image), sector)
      ensures View() == if ok then old(View()).(image := WithSector(old(image), sector, buffer[..])) else old(View())
      ensures Valid()
    {
      var offset := sector * SECTOR;
      if !drive.writable || offset + SECTOR > |image| {
        return false;
      }
      image := image[..offset] + buffer[..] + image[offset + SECTOR..];
      return true;
    }

    method ExecuteCommand()
      requires Valid()
      modifies this, buffer
      ensures View() == Execute(drive, old(View()))
    {
      hide ToStatus, ToDataIn, ToDataOut, BadSector, SectorOf, SenseData;
      var c := command;
      var sector := CommandSector(c);
      if c[0] == 0x00 || c[0] == 0x1B {
        StatusPhase(true);
      } else if c[0] == 0x03 {
        var allocation := if c[4] == 0 then 4 else c[4] as int;
        SenseFits(View(), allocation);
        Load(SenseData(sense, allocation));
        sense := Sense(0, 0);
        transfer := transfer.(blocks := 1);
        ReadPhase(allocation);
      } else if c[0] == 0x08 {
        transfer := transfer.(blocks := if c[4] == 0 then 256 else c[4]);
        var ok := ReadSector(sector);
        if !ok {
          Fail(sector);
        } else {
          transfer := transfer.(nextSector := sector + 1);
          ReadPhase(SECTOR);
        }
      } else if c[0] == 0x0A {
        transfer := transfer.(blocks := if c[4] == 0 then 256 else c[4], nextSector := sector);
        status, message := 0, 0;
        WritePhase(SECTOR);
      } else if c[0] == 0x0F {
        Load([c[3], c[2], c[1] % 32, 0]);
        transfer := transfer.(blocks := 1);
        ReadPhase(4);
      } else if c[0] == 0x15 {
        transfer := transfer.(blocks := 1);
        WritePhase(c[4]);
      } else if c[0] == 0x1A {
        var allocation := if c[4] == 0 then 22 else c[4] as int;
        if allocation > 33 {
          allocation := 33;
        }
        Load(drive.geometry[..allocation]);
        transfer := transfer.(blocks := 1);
        ReadPhase(allocation);
      } else if c[0] == 0x2F {
        if sector * SECTOR < |image| {
          StatusPhase(true);
        } else {
          Fail(sector);
        }
      } else {
        StatusPhase(false);
      }
    }

    method TakeCommandByte(v: Byte)
      requires Valid()
      modifies this, buffer
      ensures View() == CommandByte(drive, old(View()), v)
    {
      hide Execute, SetRequest;
      if transfer.offset < 10 {
        command := command[transfer.offset := v];
      }
      if transfer.offset == 0 && 0x20 <= v <= 0x3F {
        transfer := transfer.(length := 10);
      }
      transfer := transfer.(offset := transfer.offset + 1, length := Less(transfer.length));
      ghost var s := View();
      RequestMounts(drive, s, false);
      RaiseRequest(false);
      if transfer.length == 0 {
        ExecuteCommand();
      }
    }

    method FinishBlockIn()
      requires Valid()
      modifies this
      ensures View() == BlockIn(drive, old(View()))
    {
      hide ToStatus, BadSector, SetRequest, WithSector;
      if command[0] == 0x0A {
        var ok := WriteSector(transfer.nextSector);
        if !ok {
          Fail(transfer.nextSector);
          return;
        }
        transfer := transfer.(nextSector := transfer.nextSector + 1);
      }
      transfer := transfer.(blocks := Less(transfer.blocks));
      if transfer.blocks == 0 {
        StatusPhase(true);
        return;
      }
      transfer := transfer.(offset := 0, length := SECTOR);
      RaiseRequest(true);
    }

    method TakeDataByte(v: Byte)
      requires Valid()
      modifies this, buffer
      ensures View() == DataByteIn(drive, old(View()), v)
    {
      hide BlockIn, SetRequest;
      ghost var was := buffer[..];
      if transfer.offset < SECTOR {
        buffer[transfer.offset] := v;
        assert buffer[..] == was[transfer.offset := v];
      }
      transfer := transfer.(offset := transfer.offset + 1, length := Less(transfer.length));
      RequestMounts(drive, View(), false);
      RaiseRequest(false);
      if transfer.length == 0 {
        FinishBlockIn();
      }
    }

    method WriteDataRegister(v: Byte)
      requires Valid()
      modifies this, buffer
      ensures View() == WriteData(drive, old(View()), v)
    {
      hide CommandByte, DataByteIn, FreeBus;
      lastWrite := v;
      match phase {
        case BusFree =>
          if lines.selected {
            lines := lines.(busy := true);
            phase := Selection;
          }
        case Selection =>
          if !lines.selected {
            phase := Command;
            lines := lines.(input := false, command := true, message := false);
            transfer := transfer.(offset := 0, length := 6);
          }
        case Command => TakeCommandByte(v);
        case DataOut => TakeDataByte(v);
        case _ => ReleaseBus();
      }
    }

    method FinishBlockOut()
      requires Valid()
      modifies this, buffer
      ensures View() == BlockOut(drive, old(View()))
    {
      hide ToStatus, BadSector, SetRequest, SectorOf;
      transfer := transfer.(blocks := Less(transfer.blocks));
      if transfer.blocks == 0 {
        StatusPhase(true);
        return;
      }
      var sector := transfer.nextSector;
      transfer := transfer.(nextSector := sector + 1);
      var ok := ReadSector(sector);
      if ok {
        transfer := transfer.(offset := 0, length := SECTOR);
        RaiseRequest(true);
      } else {
        Fail(sector);
      }
    }

    method ReadDataRegister() returns (value: Byte)
      requires Valid()
      modifies this, buffer
      ensures (View(), value) == ReadData(drive, old(View()))
    {
      hide BlockOut, FreeBus, SetRequest;
      match phase {
        case StatusIn =>
          value := status;
          RaiseRequest(false);
          phase := MessageIn;
          lines := lines.(message := true);
          RaiseRequest(true);
        case MessageIn =>
          value := message;
          RaiseRequest(false);
          ReleaseBus();
        case DataIn =>
          value := if transfer.offset < SECTOR then buffer[transfer.offset] else 0;
          transfer := transfer.(offset := transfer.offset + 1, length := Less(transfer.length));
          RequestMounts(drive, View(), false);
          RaiseRequest(false);
          if transfer.length == 0 {
            FinishBlockOut();
          }
        case BusFree =>
          value := lastWrite;
        case _ =>
          value := lastWrite;
          ReleaseBus();
      }
    }

    /** beebscsi_elkulator_read */
    method ReadRegister(address: nat) returns (value: Byte)
      requires Valid() && Kept(drive, View())
      modifies this, buffer
      ensures View() == Step(drive, old(View()), Read(address)) && value == Scsi.Value(drive, old(View()), address)
      ensures Valid() && Kept(drive, View())
    {
      hide ReadData, Kept;
      StepKeeps(drive, View(), Read(address));
      KeptIsMounted(drive, Step(drive, View(), Read(address)));
      if address == 0xFC44 {
        return 0xFF;
      }
      if address % 4 == 0 {
        value := ReadDataRegister();
        return;
      }
      if address % 4 != 1 {
        return 0xFF;
      }
      value := 0x20;
      if lines.command { value := value + 0x80; }
      if lines.input { value := value + 0x40; }
      if lines.pending { value := value + 0x10; }
      if lines.busy { value := value + 0x02; }
      if lines.message { value := value + 0x01; }
    }

    /** beebscsi_elkulator_write */
    method WriteRegister(address: nat, value: Byte)
      requires Valid() && Kept(drive, View())
      modifies this, buffer
      ensures View() == Step(drive, old(View()), Write(address, value))
      ensures Valid() && Kept(drive, View())
    {
      hide WriteData, Kept;
      StepKeeps(drive, View(), Write(address, value));
      KeptIsMounted(drive, Step(drive, View(), Write(address, value)));
      if address == 0xFC44 {
        return;
      }
      if address % 4 == 0 {
        lines := lines.(selected := true);
        WriteDataRegister(value);
      } else if address % 4 == 2 {
        lines := lines.(selected := false);
        WriteDataRegister(value);
      } else if address % 4 == 3 {
        lines := lines.(selected := true, armed := value % 2 == 1);
        if !lines.armed {
          lines := lines.(pending := false);
        } else if lines.request {
          lines := lines.(pending := true);
        }
      }
    }
  }

  lemma RequestMounts(d: Drive, s: State, active: bool)
    requires Mounted(d, s)
    ensures Mounted(d, SetRequest(s, active)) && SetRequest(s, active).transfer == s.transfer
    ensures SetRequest(s, active).phase == s.phase
  {
  }
}
