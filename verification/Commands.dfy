/** The command handlers that change flash memory or the configuration, and the choices made at boot. */
module Commands {
  import opened Bytes
  import opened Wrappers
  import opened Flash
  import opened Configuration
  import MessagePack
  import Crc32

  const APP_BEGIN: u32 := 0x0801_0000
  const APP_SIZE: nat := 0x7_0000
  const CONFIG1: u32 := 0x0800_8000
  const CONFIG2: u32 := 0x0800_C000

  const FLASH_ERASE_RETRIES: nat := 20

  const SUCCESS: byte := 1
  const TRUE: byte := 0xC3
  const FALSE: byte := 0xC2

  const ERASE_BEFORE_APP: byte := 10
  const ERASE_AFTER_APP: byte := 11
  const ERASE_CLASS_MISMATCH: byte := 12
  const ERASE_FAILED: byte := 13
  const WRITE_BEFORE_APP: byte := 20
  const WRITE_AFTER_APP: byte := 21
  const WRITE_CLASS_MISMATCH: byte := 22
  const WRITE_UNKNOWN_SIZE: byte := 23
  const WRITE_NOT_ERASED: byte := 24

  datatype Board = Board(flash: Flash, config: Config)

  /** The board after a command and its reply; `alive` is false once power has failed. */
  datatype Result = Result(board: Board, reply: seq<byte>, alive: bool)

  /** A 64-bit argument taken for a 32-bit pointer. */
  function Pointer(argument: nat): u32 {
    argument % 0x1_0000_0000
  }

  /** `strcmp` of the class received and the class configured. */
  predicate SameClass(received: seq<byte>, c: Config) {
    MessagePack.CStr(received) == MessagePack.CStr(c.deviceClass)
  }

  // ----- erase -----

  datatype Erasing = Erasing(flash: Flash, retry: nat, alive: bool)

  /** The do-while loop: `retry` is a `uint8_t` that wraps when the last test fails. Only the first `size` bytes are checked. */
  function EraseLoop(fl: Flash, address: u32, size: nat, outcomes: nat -> Outcome, beyond: bool, retry: nat): Erasing
    requires FLASH_BEGIN <= address < FLASH_END
    decreases retry
  {
    var fl' := PageErase(fl, address, outcomes(retry));
    if outcomes(retry).PowerLoss? then Erasing(fl', retry, false)
    else if PageIsErased(fl'.mem, address, size, beyond) then Erasing(fl', retry, true)
    else if retry > 0 then EraseLoop(fl', address, size, outcomes, beyond, retry - 1)
    else Erasing(fl', 0xFF, true)
  }

  function EraseFlashPage(b: Board, argument: nat, deviceClass: seq<byte>, outcomes: nat -> Outcome, beyond: bool): Result {
    var address := Pointer(argument);
    if address < APP_BEGIN then Result(b, [ERASE_BEFORE_APP], true)
    else if address >= APP_BEGIN + APP_SIZE then Result(b, [ERASE_AFTER_APP], true)
    else if !SameClass(deviceClass, b.config) then Result(b, [ERASE_CLASS_MISMATCH], true)
    else
      var e := EraseLoop(b.flash, address, |deviceClass|, outcomes, beyond, FLASH_ERASE_RETRIES);
      Result(b.(flash := e.flash), (if e.retry == 0 then [ERASE_FAILED] else []) + [SUCCESS], e.alive)
  }

  // ----- write -----

  function WriteFlash(b: Board, argument: nat, deviceClass: seq<byte>, data: Option<seq<byte>>, beyond: bool, outcome: Outcome): Result {
    var address := Pointer(argument);
    if address < APP_BEGIN then Result(b, [WRITE_BEFORE_APP], true)
    else if address >= APP_BEGIN + APP_SIZE then Result(b, [WRITE_AFTER_APP], true)
    else if !SameClass(deviceClass, b.config) then Result(b, [WRITE_CLASS_MISMATCH], true)
    else if data.None? then Result(b, [WRITE_UNKNOWN_SIZE], true)
    else if !PageIsErased(b.flash.mem, address, |data.value|, beyond) then Result(b, [WRITE_NOT_ERASED], true)
    else Result(b.(flash := PageWrite(b.flash, address, data.value, outcome)), [TRUE], !outcome.PowerLoss?)
  }

  // ----- configuration -----

  /** `otherwise` stands for the configuration left behind when a library read fails. */
  function ConfigUpdate(b: Board, arguments: seq<byte>, otherwise: Config): Result {
    match UpdateFromSerialized(b.config, arguments)
    case Updated(c, _) => Result(b.(config := c), [TRUE], true)
    case Unreadable => Result(b.(config := otherwise), [TRUE], true)
  }

  function PageAt(m: Memory, address: u32): (page: seq<byte>)
    requires FLASH_BEGIN <= address && address + CONFIG_PAGE_SIZE <= FLASH_END
    ensures |page| == CONFIG_PAGE_SIZE
  {
    m[Offset(address)..Offset(address) + CONFIG_PAGE_SIZE]
  }

  predicate Valid1(m: Memory) {
    ValidPage(PageAt(m, CONFIG1))
  }

  predicate Valid2(m: Memory) {
    ValidPage(PageAt(m, CONFIG2))
  }

  /** What the hardware does to one erase and the write after it. */
  datatype Attempt = Attempt(erase: Outcome, write: Outcome)

  datatype Saving = Saving(flash: Flash, success: bool, alive: bool)

  predicate IsConfigAddress(address: u32) {
    address == CONFIG1 || address == CONFIG2
  }

  function WriteAndVerify(fl: Flash, address: u32, page: seq<byte>, a: Attempt): Saving
    requires IsConfigAddress(address)
  {
    var fl1 := PageErase(fl, address, a.erase);
    if a.erase.PowerLoss? then Saving(fl1, false, false)
    else
      var fl2 := PageWrite(fl1, address, page, a.write);
      if a.write.PowerLoss? then Saving(fl2, false, false) else Saving(fl2, ValidPage(PageAt(fl2.mem, address)), true)
  }

  /** One page after the other, the second only if the first has been verified. */
  function Both(fl: Flash, first: u32, second: u32, page: seq<byte>, a: Attempt, b: Attempt): Saving
    requires IsConfigAddress(first) && IsConfigAddress(second)
  {
    var s := WriteAndVerify(fl, first, page, a);
    if s.success then WriteAndVerify(s.flash, second, page, b) else s
  }

  /** Both pages regardless of the first one's verification. */
  function Regardless(fl: Flash, page: seq<byte>, a: Attempt, b: Attempt): Saving {
    var s := WriteAndVerify(fl, CONFIG1, page, a);
    if !s.alive then s
    else
      var t := WriteAndVerify(s.flash, CONFIG2, page, b);
      t.(success := s.success && t.success)
  }

  function SavePage(fl: Flash, page: seq<byte>, a: Attempt, b: Attempt): Saving {
    if Valid2(fl.mem) then Both(fl, CONFIG1, CONFIG2, page, a, b)
    else if Valid1(fl.mem) then Both(fl, CONFIG2, CONFIG1, page, a, b)
    else Regardless(fl, page, a, b)
  }

  function Incremented(c: Config): Config {
    c.(updateCount := (c.updateCount + 1) % 0x1_0000_0000)
  }

  predicate Storable(c: Config) {
    WellFormed(c) && FitsPage(c)
  }

  function ConfigSave(b: Board, x: Attempt, y: Attempt): Result
    requires Storable(Incremented(b.config))
  {
    var c := Incremented(b.config);
    var s := SavePage(b.flash, Page(c), x, y);
    Result(Board(s.flash, c), [if s.success then TRUE else FALSE], s.alive)
  }

  // ----- boot -----

  /** The page the configuration is read from, if one is valid. */
  function BootPage(m: Memory): (page: Option<seq<byte>>)
    ensures page.Some? ==> |page.value| == CONFIG_PAGE_SIZE
  {
    if Valid1(m) then Some(PageAt(m, CONFIG1))
    else if Valid2(m) then Some(PageAt(m, CONFIG2))
    else None
  }

  /** The configuration in use after a reset: that of the first valid page, read into an uninitialised record, or the built-in
      default; the bootloader's own version strings are compiled in. */
  function Load(m: Memory, uninitialised: Config, default: Config, commit: seq<byte>, version: seq<byte>): Parsed {
    var parsed := match BootPage(m)
                  case Some(page) => ReadPage(uninitialised, page)
                  case None => Updated(default, []);
    match parsed
    case Unreadable => Unreadable
    case Updated(c, rest) => Updated(c.(commit := commit, version := version), rest)
  }

  datatype BootArg = StartApplication | StayInBootloader

  /** The application area; `beyond` answers for addresses past the memory. */
  function ApplicationByte(m: Memory, i: nat, beyond: nat -> byte): byte {
    if Offset(APP_BEGIN) + i < FLASH_SIZE then m[Offset(APP_BEGIN) + i] else beyond(i)
  }

  function ApplicationBytes(m: Memory, size: nat, beyond: nat -> byte): seq<byte> {
    seq(size, i requires 0 <= i => ApplicationByte(m, i, beyond))
  }

  function Jump(b: Board, beyond: nat -> byte): BootArg {
    if Crc32.Checksum(ApplicationBytes(b.flash.mem, b.config.applicationSize, beyond)) == b.config.applicationCrc
    then StartApplication
    else StayInBootloader
  }
}
