/** The mailbox as the object the emulator drives: every field is updated in place, and every
    method is proved to take the step that Mailbox gives for it. The registers and JIM are one
    object, which callbacks and the dispatcher change; the scheduler around it is the other. */
module MailboxDevice {
  import opened Bytes
  import opened MailboxCore
  import opened Mailbox

  /** The bank after pi1mhz_mailbox_init: blank JIM, page and command registers driven. */
  ghost predicate InitialCore<B>(c: Core<B>) {
    && (forall i | 0 <= i < JIM_SIZE :: c.jim[i] == 0)
    && c.cursor == 0 && c.page == 0 && c.regs == Registers(0, 0, 0, 0, 0, 0)
    && (forall i | 0 <= i < 256 :: c.window[i] == 0)
    && c.driven == PageAddresses() + {REG_COMMAND, REG_IRQ}
    && c.result == 0 && c.selector == 0
  }

  class RegisterBank<B> {
    // ARM side
    var jim: Jim
    var address: Addr24
    var page: Addr24
    var result: Byte
    var selector: Byte
    var backend: B
    // published to the bus
    var registers: Registers
    var pageWindow: Page
    var outputEnabled: set<int>

    ghost function View(): Core<B>
      reads this
    {
      Core(jim, address, page, registers, pageWindow, outputEnabled, result, selector, backend)
    }

    constructor (backend: B)
      ensures InitialCore(View()) && this.backend == backend
    {
      var blank := seq(JIM_SIZE, _ => 0);
      jim, address, page := blank, 0, 0;
      result, selector, this.backend := 0, 0, backend;
      registers := Registers(0, 0, 0, 0, 0, 0);
      pageWindow := blank[..256];
      outputEnabled := PageAddresses() + {REG_COMMAND, REG_IRQ};
    }

    /** Set the service cursor and publish it: publish_service_cursor with outputs driven. */
    method PublishServiceCursor(to: Addr24)
      modifies this`address, this`registers, this`outputEnabled
      ensures View() == MoveCursor(old(View()), to)
    {
      address := to;
      registers := registers.(lo := address % 0x100, mid := address / 0x100 % 0x100, hi := address / 0x1_0000,
                              data := jim[SERVICES_BASE + address]);
      outputEnabled := outputEnabled + CURSOR_REGISTERS;
    }

    /** Select a page and publish it: publish_page_window with outputs driven. */
    method PublishPageWindow(to: Addr24, register: nat)
      modifies this`page, this`pageWindow, this`outputEnabled
      ensures View() == SelectPage(old(View()), to, register)
    {
      page := to;
      var base := PageAddress(page);
      pageWindow := jim[base..base + 256];
      outputEnabled := outputEnabled + PageAddresses() + {register};
    }

    method WriteCommandRegister(value: Byte)
      modifies this`selector, this`result, this`registers, this`outputEnabled
      ensures View() == WriteCommand(old(View()), value)
    {
      outputEnabled := outputEnabled + {REG_COMMAND};
      if value >= 0xF0 {
        selector := value;
        result := BUSY;
        registers := registers.(command := BUSY);
      } else {
        result := value;
        registers := registers.(command := value);
      }
    }

    method WriteDataRegister(value: Byte)
      modifies this`jim, this`address, this`registers, this`outputEnabled
      ensures View() == Apply(old(View()), Event(REG_DATA, value, true, 0))
    {
      jim := jim[SERVICES_BASE + address := value];
      PublishServiceCursor((address + 1) % 0x100_0000);
    }

    method WritePageHigh(value: Byte)
      modifies this`page, this`registers, this`pageWindow, this`outputEnabled
      ensures View() == Apply(old(View()), Event(REG_PAGE_HI, value, true, 0))
    {
      var v := if value > LAST_SET then LAST_SET else value;
      registers := registers.(set_ := v);
      PublishPageWindow(WithHigh(page, v), REG_PAGE_HI);
    }

    method WritePageByte(offset: Byte, value: Byte)
      modifies this`jim, this`pageWindow, this`outputEnabled
      ensures View() == WritePage(old(View()), offset, value)
    {
      jim := jim[PageAddress(page) + offset := value];
      pageWindow := pageWindow[offset as int := value];
      outputEnabled := outputEnabled + {PAGE_BASE + offset};
    }

    /** The switch of complete_active_callback. */
    method Callback(e: Event)
      modifies this
      ensures View() == Apply(old(View()), e)
    {
      hide MoveCursor, SelectPage, WriteCommand, WritePage, PageAddress;
      if !e.write {
        if e.address == REG_DATA {
          PublishServiceCursor((address + 1) % 0x100_0000);
        }
      } else if e.address == REG_ADDR_LO {
        PublishServiceCursor(WithLow(address, e.value));
      } else if e.address == REG_ADDR_MID {
        PublishServiceCursor(WithMid(address, e.value));
      } else if e.address == REG_ADDR_HI {
        PublishServiceCursor(WithHigh(address, e.value));
      } else if e.address == REG_DATA {
        WriteDataRegister(e.value);
      } else if e.address == REG_COMMAND {
        WriteCommandRegister(e.value);
      } else if e.address == REG_PAGE_HI {
        WritePageHigh(e.value);
      } else if e.address == REG_PAGE_MID {
        PublishPageWindow(WithMid(page, e.value), REG_PAGE_MID);
      } else if e.address == REG_PAGE_LO {
        PublishPageWindow(WithLow(page, e.value), REG_PAGE_LO);
      } else if PAGE_BASE <= e.address <= PAGE_END {
        WritePageByte(e.address % 0x100, e.value);
      }
    }

    /** Run the dispatcher and publish its result. */
    method RunDispatcher(dispatch: Dispatch<B>)
      modifies this`backend, this`result, this`jim, this`registers, this`outputEnabled
      ensures View() == Serve(old(View()), dispatch)
    {
      var (b, r, j) := dispatch(backend, selector, CommandPointer(selector), jim);
      backend, result, jim := b, r, j;
      registers := registers.(command := result);
      outputEnabled := outputEnabled + {REG_COMMAND};
    }

    /** The published byte at an address. */
    method Read(mirror: Mirror, address: nat, floating: Byte) returns (value: Byte)
      ensures value == ReadValue(View(), mirror, address, floating)
    {
      if PAGE_BASE <= address <= PAGE_END {
        var offset := address % 0x100;
        if mirror.offset <= offset < mirror.offset + |mirror.bytes| {
          return mirror.bytes[offset - mirror.offset];
        }
        return pageWindow[offset];
      }
      match address {
        case 0xFCA6 => value := registers.lo;
        case 0xFCA7 => value := registers.mid;
        case 0xFCA8 => value := registers.hi;
        case 0xFCA9 => value := registers.data;
        case 0xFCAA => value := registers.command;
        case 0xFCAB => value := 0;
        case 0xFCFD => value := page / 0x1_0000;
        case 0xFCFE => value := page / 0x100 % 0x100;
        case 0xFCFF => value := page % 0x100;
        case _ => value := floating;
      }
    }
  }

  /** The histories of a run. */
  datatype Past = Past(cycles: seq<Event>, captured: seq<Event>, completed: seq<Event>, acts: seq<Act>)

  class MailboxDevice<B> {
    const device: Device<B>
    const bank: RegisterBank<B>
    var posted: Option<Event>
    var active: Option<Event>
    var servicePending: bool
    var captureTicksRemaining: nat
    var callbackTicksRemaining: nat
    var serviceTicksRemaining: nat
    /** Numbers the cycles for their stamps. */
    var count: nat
    ghost var past: Past

    ghost function View(): State<B>
      reads this, bank
    {
      State(bank.View(), posted, active, servicePending,
            captureTicksRemaining, callbackTicksRemaining, serviceTicksRemaining,
            past.cycles, past.captured, past.completed, past.acts)
    }

    ghost predicate Valid()
      reads this
    {
      count == |past.cycles|
    }

    constructor (device: Device<B>, backend: B)
      ensures Valid() && this.device == device && fresh(bank)
      ensures View() == Fresh(bank.View()) && InitialCore(bank.View()) && bank.backend == backend
    {
      this.device := device;
      bank := new RegisterBank(backend);
      posted, active, servicePending := None, None, false;
      captureTicksRemaining, callbackTicksRemaining, serviceTicksRemaining := 0, 0, 0;
      count, past := 0, Past([], [], [], []);
    }

    method CapturePostedEvent()
      requires posted.Some?
      modifies this`active, this`posted, this`captureTicksRemaining, this`callbackTicksRemaining, this`past
      ensures View() == Capture(device, old(View())) && count == old(count)
    {
      var e := posted.value;
      active, posted := Some(e), None;
      past := past.(captured := past.captured + [e]);
      captureTicksRemaining := 0;
      if !e.write && e.address != REG_DATA {
        callbackTicksRemaining := device.timing.readCallback;
      } else if e.write && REG_PAGE_HI <= e.address <= REG_PAGE_LO {
        callbackTicksRemaining := device.timing.pageCallback;
      } else {
        callbackTicksRemaining := device.timing.callback;
      }
    }

    method CompleteActiveCallback()
      requires active.Some?
      modifies this, bank
      ensures View() == CompleteCallback(device, old(View())) && count == old(count)
    {
      hide Apply;
      var e := active.value;
      active := None;
      callbackTicksRemaining := 0;
      past := past.(completed := past.completed + [e]);
      bank.Callback(e);
      if e.write && e.address == REG_COMMAND {
        if e.value >= 0xF0 {
          servicePending := true;
          serviceTicksRemaining := device.timing.service;
          past := past.(acts := past.acts + [Accepted(e.value)]);
        } else {
          servicePending := false;
          past := past.(acts := past.acts + [Withdrawn]);
        }
      }
    }

    method CompletePendingService()
      modifies this, bank
      ensures View() == CompleteService(device, old(View())) && count == old(count)
    {
      hide Serve;
      servicePending := false;
      serviceTicksRemaining := 0;
      past := past.(acts := past.acts + [Dispatched(bank.selector)]);
      bank.RunDispatcher(device.dispatch);
    }

    /** One turn of the drain loop. */
    method DrainOnce() returns (changed: bool)
      modifies this, bank
      ensures View() == Pass(device, old(View())) && changed == Moves(device, old(View()))
      ensures count == old(count)
    {
      hide Capture, CompleteCallback, CompleteService;
      changed := false;
      if active.None? && posted.Some? && captureTicksRemaining == 0 {
        CapturePostedEvent();
        changed := true;
      }
      if active.Some? && callbackTicksRemaining == 0 {
        CompleteActiveCallback();
        changed := true;
      }
      if active.None? && servicePending && serviceTicksRemaining == 0 {
        CompletePendingService();
        changed := true;
      }
    }

    method DrainZeroTimeTransitions()
      modifies this, bank
      ensures View() == Drain(device, old(View())) && count == old(count)
    {
      hide Pass, Moves;
      var changed := true;
      while changed
        invariant count == old(count)
        invariant changed ==> Drain(device, View()) == Drain(device, old(View()))
        invariant !changed ==> View() == Drain(device, old(View()))
        decreases changed, Work(View())
      {
        ghost var s := View();
        if Moves(device, s) {
          PassShrinksWork(device, s);
        } else {
          StillIfNoMove(device, s);
        }
        changed := DrainOnce();
      }
    }

    /** Count down what a tick counts down, completing what reaches zero. */
    method CountDown()
      modifies this, bank
      ensures View() == CallbackTick(device, CaptureTick(ServiceTick(device, old(View())))) && count == old(count)
    {
      hide CompleteCallback, CompleteService;
      if active.None? && servicePending && serviceTicksRemaining > 0 {
        serviceTicksRemaining := serviceTicksRemaining - 1;
        if serviceTicksRemaining == 0 {
          CompletePendingService();
        }
      }
      if posted.Some? && captureTicksRemaining > 0 {
        captureTicksRemaining := captureTicksRemaining - 1;
      }
      if active.Some? && callbackTicksRemaining > 0 {
        callbackTicksRemaining := callbackTicksRemaining - 1;
        if callbackTicksRemaining == 0 {
          CompleteActiveCallback();
        }
      }
    }

    method TickFiq(ticks: nat)
      modifies this, bank
      ensures View() == Ticks(device, old(View()), ticks) && count == old(count)
    {
      hide CallbackTick, CaptureTick, ServiceTick, Drain;
      var left := ticks;
      while left > 0
        invariant count == old(count) && Ticks(device, View(), left) == Ticks(device, old(View()), ticks)
      {
        CountDown();
        DrainZeroTimeTransitions();
        left := left - 1;
      }
    }

    method PostFiqEvent(address: nat, value: Byte, write: bool)
      requires Valid()
      modifies this, bank
      ensures View() == Post(device, old(View()), Event(address, value, write, |old(past.cycles)|)) && Valid()
    {
      hide Drain;
      var alreadyPending := posted.Some?;
      var e := Event(address, value, write, count);
      posted := Some(e);
      past := past.(cycles := past.cycles + [e]);
      count := count + 1;
      if !alreadyPending {
        captureTicksRemaining := device.timing.capture;
      }
      ghost var s := View();
      assert s == Enqueue(device, old(View()), e);
      DrainKeepsCycles(device, s);
      DrainZeroTimeTransitions();
      assert View().cycles == s.cycles;
    }

    /** One bus cycle: a read returns what is already published, and either kind rings the
        doorbell. */
    method BusAccess(address: nat, busValue: Byte, write: bool) returns (value: Byte)
      requires Valid()
      modifies this, bank
      ensures View() == Access(device, old(View()), Cycle(address, busValue, write)) && Valid()
      ensures value == Returned(old(bank.View()), device.mirror, Cycle(address, busValue, write))
    {
      hide Post, ReadValue;
      if write {
        value := busValue;
      } else {
        value := bank.Read(device.mirror, address, busValue);
      }
      PostFiqEvent(address, value, write);
    }
  }

  lemma StillIfNoMove<B>(d: Device<B>, s: State<B>)
    requires !Moves(d, s)
    ensures Pass(d, s) == s
  {
  }
}
