/** What a Pi1MHz callback does to the device: the service cursor, the JIM page window, the
    command register and the registers the bus can read back. No time passes here. */
module MailboxCore {
  import opened Bytes

  const JIM_SIZE := 0x300_0000
  const SERVICES_BASE := 0x100_0000
  const SET_SIZE := 0x100_0000

  ghost function BlankJim(): (jim: seq<Byte>)
    ensures |jim| == JIM_SIZE
  {
    seq(JIM_SIZE, _ => 0)
  }

  ghost function BlankPage(): (page: seq<Byte>)
    ensures |page| == 256
  {
    seq(256, _ => 0)
  }

  type Jim = jim: seq<Byte> | |jim| == JIM_SIZE ghost witness BlankJim()
  type Page = page: seq<Byte> | |page| == 256 ghost witness BlankPage()
  type Addr24 = a: int | 0 <= a < 0x100_0000

  /** The bytes the bus loop returns for the cursor, its data, the command and the JIM set. */
  datatype Registers = Registers(lo: Byte, mid: Byte, hi: Byte, data: Byte, command: Byte, set_: Byte)

  datatype Core<B> = Core(
    jim: Jim, cursor: Addr24, page: Addr24, regs: Registers, window: Page, driven: set<int>,
    result: Byte, selector: Byte, backend: B)

  const REG_ADDR_LO := 0xFCA6
  const REG_ADDR_MID := 0xFCA7
  const REG_ADDR_HI := 0xFCA8
  const REG_DATA := 0xFCA9
  const REG_COMMAND := 0xFCAA
  const REG_IRQ := 0xFCAB
  const REG_PAGE_HI := 0xFCFD
  const REG_PAGE_MID := 0xFCFE
  const REG_PAGE_LO := 0xFCFF
  const PAGE_BASE := 0xFD00
  const PAGE_END := 0xFDFF
  const BUSY: Byte := 0x80

  /** One bus cycle. `stamp` is its number in the run; the device never looks at it. */
  datatype Event = Event(address: nat, value: Byte, write: bool, stamp: nat)

  /** A dispatcher is any function of the backend, the selector, the command pointer and JIM. */
  type Dispatch<!B> = (B, Byte, nat, Jim) -> (B, Byte, Jim)

  // ----- the service cursor

  function WithLow(a: Addr24, v: Byte): Addr24 { a - a % 0x100 + v }

  function WithMid(a: Addr24, v: Byte): Addr24 { a - a % 0x1_0000 + 0x100 * v + a % 0x100 }

  function WithHigh(a: Addr24, v: Byte): Addr24 { 0x1_0000 * v + a % 0x1_0000 }

  function Next(a: Addr24): Addr24 { (a + 1) % 0x100_0000 }

  const CURSOR_REGISTERS := {REG_ADDR_LO, REG_ADDR_MID, REG_ADDR_HI, REG_DATA}

  /** Move the cursor and publish it with the byte it points at. */
  function MoveCursor<B>(c: Core<B>, to: Addr24): Core<B> {
    c.(cursor := to,
       regs := c.regs.(lo := to % 0x100, mid := to / 0x100 % 0x100, hi := to / 0x1_0000,
                       data := c.jim[SERVICES_BASE + to]),
       driven := c.driven + CURSOR_REGISTERS)
  }

  // ----- the JIM page window

  const LAST_SET: Byte := (JIM_SIZE - 1) / SET_SIZE

  /** The first byte of the selected page; a set that is not installed selects the last one. */
  function PageAddress(page: Addr24): (base: nat)
    ensures base + 256 <= JIM_SIZE && base % 256 == 0
  {
    var set_ := if page / 0x1_0000 * SET_SIZE >= JIM_SIZE then LAST_SET else page / 0x1_0000;
    set_ * SET_SIZE + page % 0x1_0000 * 0x100
  }

  predicate InPage(address: int) {
    PAGE_BASE <= address <= PAGE_END
  }

  function PageAddresses(): set<int> {
    set a | PAGE_BASE <= a <= PAGE_END && InPage(a)
  }

  /** Select a page and publish a copy of it. */
  function SelectPage<B>(c: Core<B>, page: Addr24, register: nat): Core<B> {
    var base := PageAddress(page);
    c.(page := page, window := c.jim[base..base + 256], driven := c.driven + PageAddresses() + {register})
  }

  function WritePage<B>(c: Core<B>, offset: Byte, value: Byte): Core<B> {
    c.(jim := c.jim[PageAddress(c.page) + offset := value],
       window := c.window[offset as int := value],
       driven := c.driven + {PAGE_BASE + offset})
  }

  // ----- callbacks and service

  /** Writing a selector of &F0 or more asks for a service. */
  predicate Accepts(e: Event) {
    e.write && e.address == REG_COMMAND && e.value >= 0xF0
  }

  /** Writing any smaller value withdraws one that is still waiting. */
  predicate Cancels(e: Event) {
    e.write && e.address == REG_COMMAND && e.value < 0xF0
  }

  function WriteCommand<B>(c: Core<B>, value: Byte): Core<B> {
    var d := c.driven + {REG_COMMAND};
    if value >= 0xF0 then
      c.(selector := value, result := BUSY, regs := c.regs.(command := BUSY), driven := d)
    else
      c.(result := value, regs := c.regs.(command := value), driven := d)
  }

  function Clamp(value: Byte): Byte {
    if value > LAST_SET then LAST_SET else value
  }

  /** The effect of one callback. */
  function Apply<B>(c: Core<B>, e: Event): Core<B> {
    var a, v := e.address, e.value;
    if !e.write then (if a == REG_DATA then MoveCursor(c, Next(c.cursor)) else c)
    else if a == REG_ADDR_LO then MoveCursor(c, WithLow(c.cursor, v))
    else if a == REG_ADDR_MID then MoveCursor(c, WithMid(c.cursor, v))
    else if a == REG_ADDR_HI then MoveCursor(c, WithHigh(c.cursor, v))
    else if a == REG_DATA then MoveCursor(c.(jim := c.jim[SERVICES_BASE + c.cursor := v]), Next(c.cursor))
    else if a == REG_COMMAND then WriteCommand(c, v)
    else if a == REG_PAGE_HI then
      SelectPage(c.(regs := c.regs.(set_ := Clamp(v))), WithHigh(c.page, Clamp(v)), REG_PAGE_HI)
    else if a == REG_PAGE_MID then SelectPage(c, WithMid(c.page, v), REG_PAGE_MID)
    else if a == REG_PAGE_LO then SelectPage(c, WithLow(c.page, v), REG_PAGE_LO)
    else if PAGE_BASE <= a <= PAGE_END then WritePage(c, a % 0x100, v)
    else c
  }

  /** Where a selector's command block lies. */
  function CommandPointer(selector: Byte): nat {
    SERVICES_BASE + 0xFF_0000 + 0x100 * selector
  }

  /** The foreground dispatcher runs and publishes its result. */
  function Serve<B>(c: Core<B>, dispatch: Dispatch<B>): Core<B> {
    var (backend, result, jim) := dispatch(c.backend, c.selector, CommandPointer(c.selector), c.jim);
    c.(backend := backend, result := result, jim := jim,
       regs := c.regs.(command := result), driven := c.driven + {REG_COMMAND})
  }

  /** A cycle and everything it causes, with no time in between. */
  function Atomic<B>(c: Core<B>, dispatch: Dispatch<B>, e: Event): Core<B> {
    if Accepts(e) then Serve(Apply(c, e), dispatch) else Apply(c, e)
  }

  /** The trampoline mirrored into every page. */
  datatype Mirror = Mirror(offset: Byte, bytes: seq<Byte>)

  /** What a read returns: state that is already published, never anything computed on demand. */
  function ReadValue<B>(c: Core<B>, mirror: Mirror, address: nat, floating: Byte): Byte {
    if PAGE_BASE <= address <= PAGE_END then
      var o := address % 0x100;
      if mirror.offset <= o < mirror.offset + |mirror.bytes| then mirror.bytes[o - mirror.offset]
      else c.window[o]
    else if address == REG_ADDR_LO then c.regs.lo
    else if address == REG_ADDR_MID then c.regs.mid
    else if address == REG_ADDR_HI then c.regs.hi
    else if address == REG_DATA then c.regs.data
    else if address == REG_COMMAND then c.regs.command
    else if address == REG_IRQ then 0
    else if address == REG_PAGE_HI then c.page / 0x1_0000
    else if address == REG_PAGE_MID then c.page / 0x100 % 0x100
    else if address == REG_PAGE_LO then c.page % 0x100
    else floating
  }

  /** A bus cycle that has no neighbours: what it returns and what it leaves. */
  datatype Cycle = Cycle(address: nat, value: Byte, write: bool)

  function Returned<B>(c: Core<B>, mirror: Mirror, y: Cycle): Byte {
    if y.write then y.value else ReadValue(c, mirror, y.address, y.value)
  }

  function EventOf<B>(c: Core<B>, mirror: Mirror, y: Cycle, stamp: nat): Event {
    Event(y.address, Returned(c, mirror, y), y.write, stamp)
  }

  /** The zero-latency device: every cycle is applied before the next. */
  function AtomicRun<B>(c: Core<B>, dispatch: Dispatch<B>, mirror: Mirror, cycles: seq<Cycle>, stamp: nat): (Core<B>, seq<Byte>)
    decreases |cycles|
  {
    if cycles == [] then (c, [])
    else
      var e := EventOf(c, mirror, cycles[0], stamp);
      var (last, got) := AtomicRun(Atomic(c, dispatch, e), dispatch, mirror, cycles[1..], stamp + 1);
      (last, [e.value] + got)
  }
}
