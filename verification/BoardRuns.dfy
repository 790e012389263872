/** What any run of commands, faults, power cuts and restarts can and cannot do to the memory. */
module BoardRuns {
  import opened Bytes
  import opened Wrappers
  import opened Flash
  import opened ErasedCache
  import opened Configuration
  import opened Commands
  import opened ConfigPages
  import MessagePack

  /** A command with what the hardware makes of it, or a restart, after which some configuration is in use. */
  datatype Command =
    | Erase(argument: nat, deviceClass: seq<byte>, outcomes: nat -> Outcome, beyond: bool)
    | Write(argument: nat, deviceClass: seq<byte>, data: Option<seq<byte>>, beyond: bool, outcome: Outcome)
    | Update(arguments: seq<byte>, otherwise: Config)
    | Save(first: Attempt, second: Attempt)
    | Restart(config: Config)

  /** The record holds C strings that fit it, and version strings that leave room for the map in its page. */
  predicate Proper(c: Config) {
    WellFormed(c) && |MessagePack.PutStr(c.commit)| + |MessagePack.PutStr(c.version)| <= 254
  }

  /** The data of a write lies in the node's input buffer. */
  predicate Possible(cmd: Command) {
    match cmd
    case Write(_, _, data, _, _) => data.Some? ==> |data.value| <= 0x8000
    case Update(_, otherwise) => Proper(otherwise)
    case Restart(c) => Proper(c)
    case _ => true
  }

  lemma {:induction false} ReadEntriesProper(c: Config, s: seq<byte>, n: nat)
    requires Proper(c)
    ensures ReadEntries(c, s, n).Updated? ==> Proper(ReadEntries(c, s, n).config)
    decreases n
  {
    hide ReadValue, MessagePack.GetStr, Proper;
    var key := MessagePack.GetStr(s, KEY_SIZE);
    if n > 0 && key.Got? {
      var r := ReadValue(c, key.value, key.rest);
      ReadValueProper(c, key.value, key.rest);
      if r.Updated? {
        ReadEntriesProper(r.config, r.rest, n - 1);
      }
    }
  }

  lemma ReadValueProper(c: Config, key: seq<byte>, s: seq<byte>)
    requires Proper(c)
    ensures ReadValue(c, key, s).Updated? ==> Proper(ReadValue(c, key, s).config)
  {
  }

  lemma IncrementedStorable(c: Config)
    requires Proper(c)
    ensures Proper(Incremented(c)) && Storable(Incremented(c))
  {
    PageIsLargeEnough(Incremented(c));
  }

  function Apply(b: Board, cmd: Command): (b': Board)
    requires Proper(b.config) && Possible(cmd)
    ensures Proper(b'.config)
  {
    match cmd
    case Erase(argument, deviceClass, outcomes, beyond) => EraseFlashPage(b, argument, deviceClass, outcomes, beyond).board
    case Write(argument, deviceClass, data, beyond, outcome) => WriteFlash(b, argument, deviceClass, data, beyond, outcome).board
    case Update(arguments, otherwise) =>
      UpdateProper(b.config, arguments);
      ConfigUpdate(b, arguments, otherwise).board
    case Save(x, y) =>
      IncrementedStorable(b.config);
      ConfigSave(b, x, y).board
    case Restart(c) => Board(Unflagged(b.flash.mem), c)
  }

  lemma UpdateProper(c: Config, s: seq<byte>)
    requires Proper(c)
    ensures UpdateFromSerialized(c, s).Updated? ==> Proper(UpdateFromSerialized(c, s).config)
  {
    if MessagePack.GetMap(s).Got? {
      ReadEntriesProper(c, MessagePack.GetMap(s).rest, MessagePack.GetMap(s).value);
    }
  }

  predicate AllPossible(cmds: seq<Command>) {
    forall i :: 0 <= i < |cmds| ==> Possible(cmds[i])
  }

  function Run(b: Board, cmds: seq<Command>): (b': Board)
    requires Proper(b.config) && AllPossible(cmds)
    ensures Proper(b'.config)
    decreases |cmds|
  {
    if cmds == [] then b else Apply(Run(b, cmds[..|cmds| - 1]), cmds[|cmds| - 1])
  }

  // ----- region isolation -----

  const APP_OFFSET := 0x1_0000
  const CONFIG_OFFSET := 0x8000

  lemma {:induction false} EraseLoopFrame(fl: Flash, address: u32, size: nat, outcomes: nat -> Outcome, beyond: bool, retry: nat, i: nat)
    requires APP_BEGIN <= address < FLASH_END && i < APP_OFFSET
    ensures EraseLoop(fl, address, size, outcomes, beyond, retry).flash.mem[i] == fl.mem[i]
    decreases retry
  {
    SectorOfAddress(address);
    EraseFrame(fl, address, outcomes(retry), i);
    hide PageErase, PageIsErased;
    if retry > 0 {
      EraseLoopFrame(PageErase(fl, address, outcomes(retry)), address, size, outcomes, beyond, retry - 1, i);
    }
  }

  /** One command: the bootloader's sectors never change, and the configuration's only in a save. */
  lemma ApplyFrame(b: Board, cmd: Command, i: nat)
    requires Proper(b.config) && Possible(cmd)
    requires i < CONFIG_OFFSET || (i < APP_OFFSET && !cmd.Save?)
    ensures Apply(b, cmd).flash.mem[i] == b.flash.mem[i]
  {
    hide EraseLoop, PageWrite, PageIsErased, WriteAndVerify, ValidPage, ReadEntries, SameClass, Page;
    match cmd {
      case Erase(argument, deviceClass, outcomes, beyond) =>
        var address := Pointer(argument);
        if APP_BEGIN <= address < FLASH_END {
          EraseLoopFrame(b.flash, address, |deviceClass|, outcomes, beyond, FLASH_ERASE_RETRIES, i);
        }
      case Write(argument, deviceClass, data, beyond, outcome) =>
        if data.Some? && APP_BEGIN <= Pointer(argument) {
          WriteFrame(b.flash, Pointer(argument), data.value, outcome, i);
        }
      case Save(x, y) =>
        IncrementedStorable(b.config);
        SaveFrame(b.flash, Page(Incremented(b.config)), x, y, i);
      case _ =>
    }
  }

  lemma SaveFrame(fl: Flash, page: seq<byte>, x: Attempt, y: Attempt, i: nat)
    requires IsPage(page) && i < FLASH_SIZE && (i < CONFIG_OFFSET || APP_OFFSET <= i)
    ensures SavePage(fl, page, x, y).flash.mem[i] == fl.mem[i]
  {
    hide WriteAndVerify, ValidPage;
    WriteAndVerifyFrame(fl, CONFIG1, page, x, i);
    WriteAndVerifyFrame(fl, CONFIG2, page, x, i);
    WriteAndVerifyFrame(WriteAndVerify(fl, CONFIG1, page, x).flash, CONFIG2, page, y, i);
    WriteAndVerifyFrame(WriteAndVerify(fl, CONFIG2, page, x).flash, CONFIG1, page, y, i);
  }

  /** Region isolation over every run. */
  lemma {:induction false} RegionIsolation(b: Board, cmds: seq<Command>, i: nat)
    requires Proper(b.config) && AllPossible(cmds)
    requires i < CONFIG_OFFSET || (i < APP_OFFSET && forall j :: 0 <= j < |cmds| ==> !cmds[j].Save?)
    ensures Run(b, cmds).flash.mem[i] == b.flash.mem[i]
    decreases |cmds|
  {
    hide Apply, Proper, Possible;
    if cmds != [] {
      RegionIsolation(b, cmds[..|cmds| - 1], i);
      ApplyFrame(Run(b, cmds[..|cmds| - 1]), cmds[|cmds| - 1], i);
    }
  }

  // ----- guards -----

  predicate InApplication(address: u32) {
    0x0801_0000 <= address < 0x0808_0000
  }

  /** The replies of a refused erase, and that it leaves the board alone; any other reply is a success or the failure code. */
  lemma EraseGuards(b: Board, argument: nat, deviceClass: seq<byte>, outcomes: nat -> Outcome, beyond: bool)
    ensures
      var r := EraseFlashPage(b, argument, deviceClass, outcomes, beyond);
      var address, same := argument % 0x1_0000_0000, MessagePack.CStr(deviceClass) == MessagePack.CStr(b.config.deviceClass);
      && (r.reply == [10] <==> address < 0x0801_0000)
      && (r.reply == [11] <==> 0x0808_0000 <= address)
      && (r.reply == [12] <==> InApplication(address) && !same)
      && (!InApplication(address) || !same ==> r.board == b && r.alive)
      && (InApplication(address) && same ==> r.reply == [1] || r.reply == [13, 1])
      && r.board.config == b.config
  {
    hide EraseLoop, MessagePack.CStr;
    assert [ERASE_FAILED] + [SUCCESS] == [13, 1] && [] + [SUCCESS] == [1];
  }

  /** The same for a write; the last refusal is for a target that is not erased. */
  lemma WriteGuards(b: Board, argument: nat, deviceClass: seq<byte>, data: Option<seq<byte>>, beyond: bool, outcome: Outcome)
    ensures
      var r := WriteFlash(b, argument, deviceClass, data, beyond, outcome);
      var address, same := argument % 0x1_0000_0000, MessagePack.CStr(deviceClass) == MessagePack.CStr(b.config.deviceClass);
      var open := InApplication(address) && same;
      && (r.reply == [20] <==> address < 0x0801_0000)
      && (r.reply == [21] <==> 0x0808_0000 <= address)
      && (r.reply == [22] <==> InApplication(address) && !same)
      && (r.reply == [23] <==> open && data.None?)
      && (r.reply == [24] <==> open && data.Some? && !AllErased(b.flash.mem, address, |data.value|, beyond))
      && (r.reply != [0xC3] ==> r.board == b && r.alive)
      && (r.reply == [0xC3] <==> open && data.Some? && AllErased(b.flash.mem, address, |data.value|, beyond))
      && r.board.config == b.config
  {
    hide PageWrite, PageIsErased, AllErased, MessagePack.CStr;
    if InApplication(Pointer(argument)) && data.Some? {
      AllErasedChecked(b.flash.mem, Pointer(argument), |data.value|, beyond);
    }
  }

  lemma AllErasedChecked(m: Memory, address: u32, size: nat, beyond: bool)
    requires 0x0800_0000 <= address
    ensures AllErased(m, address, size, beyond) <==> PageIsErased(m, address, size, beyond)
  {
  }

  /** Every byte of the range is erased, the ones past the memory included. */
  predicate AllErased(m: Memory, address: u32, size: nat, beyond: bool)
    requires 0x0800_0000 <= address
  {
    && (forall i :: 0 <= i < FLASH_SIZE && address <= 0x0800_0000 + i < address + size ==> m[i] == 0xFF)
    && (address + size > 0x0808_0000 ==> beyond)
  }

  /** An erase or a write for another class of boards than the configured one. */
  predicate Foreign(c: Config, cmd: Command) {
    match cmd
    case Erase(_, deviceClass, _, _) => MessagePack.CStr(deviceClass) != MessagePack.CStr(c.deviceClass)
    case Write(_, deviceClass, _, _, _) => MessagePack.CStr(deviceClass) != MessagePack.CStr(c.deviceClass)
    case _ => true
  }

  lemma ForeignFrame(b: Board, cmd: Command, i: nat)
    requires Proper(b.config) && Possible(cmd) && Foreign(b.config, cmd)
    requires i < FLASH_SIZE && (i < CONFIG_OFFSET || APP_OFFSET <= i || !cmd.Save?)
    ensures Apply(b, cmd).flash.mem[i] == b.flash.mem[i]
  {
    hide EraseFlashPage, WriteFlash, SavePage, ValidPage, ReadEntries, Page, MessagePack.CStr;
    match cmd {
      case Erase(argument, deviceClass, outcomes, beyond) => EraseGuards(b, argument, deviceClass, outcomes, beyond);
      case Write(argument, deviceClass, data, beyond, outcome) => WriteGuards(b, argument, deviceClass, data, beyond, outcome);
      case Save(x, y) =>
        IncrementedStorable(b.config);
        SaveFrame(b.flash, Page(Incremented(b.config)), x, y, i);
      case _ =>
    }
  }

  /** Boards of another class are spared: over every run in which each erase and write is for another class than the one
      configured at that time, no byte changes, except the configuration's in saves. */
  lemma {:induction false} ForeignCommandsInert(b: Board, cmds: seq<Command>, i: nat)
    requires Proper(b.config) && AllPossible(cmds) && i < FLASH_SIZE
    requires forall j :: 0 <= j < |cmds| ==> Foreign(Run(b, cmds[..j]).config, cmds[j])
    requires i < CONFIG_OFFSET || APP_OFFSET <= i || forall j :: 0 <= j < |cmds| ==> !cmds[j].Save?
    ensures Run(b, cmds).flash.mem[i] == b.flash.mem[i]
    decreases |cmds|
  {
    hide Apply, Proper, Possible, Foreign;
    if cmds != [] {
      var before := cmds[..|cmds| - 1];
      assert forall j :: 0 <= j < |before| ==> before[..j] == cmds[..j] && before[j] == cmds[j];
      ForeignCommandsInert(b, before, i);
      ForeignFrame(Run(b, before), cmds[|cmds| - 1], i);
    }
  }

  // ----- no bricking -----

  predicate OneValid(m: Memory) {
    Valid1(m) || Valid2(m)
  }

  lemma PagesFramed(m: Memory, m': Memory)
    requires forall i :: 0 <= i < APP_OFFSET ==> m[i] == m'[i]
    ensures PageAt(m, CONFIG1) == PageAt(m', CONFIG1) && PageAt(m, CONFIG2) == PageAt(m', CONFIG2)
  {
  }

  /** Once one configuration page is valid, one is valid at every point of every run of commands, faults, power cuts and
      restarts. */
  lemma {:induction false} NoBricking(b: Board, cmds: seq<Command>)
    requires Proper(b.config) && AllPossible(cmds)
    requires OneValid(b.flash.mem)
    ensures OneValid(Run(b, cmds).flash.mem)
    decreases |cmds|
  {
    hide Proper, Possible, ValidPage, Apply;
    if cmds != [] {
      NoBricking(b, cmds[..|cmds| - 1]);
      ApplyKeepsOneValid(Run(b, cmds[..|cmds| - 1]), cmds[|cmds| - 1]);
    }
  }

  lemma ApplyKeepsOneValid(b: Board, cmd: Command)
    requires Proper(b.config) && Possible(cmd)
    requires OneValid(b.flash.mem)
    ensures OneValid(Apply(b, cmd).flash.mem)
  {
    hide ValidPage;
    if cmd.Save? {
      IncrementedStorable(b.config);
      hide SavePage, Page;
      SaveKeepsOneValid(b.flash, Page(Incremented(b.config)), cmd.first, cmd.second);
    } else {
      hide Apply;
      forall i | 0 <= i < APP_OFFSET
        ensures Apply(b, cmd).flash.mem[i] == b.flash.mem[i]
      {
        ApplyFrame(b, cmd, i);
      }
      PagesFramed(b.flash.mem, Apply(b, cmd).flash.mem);
    }
  }

  // ----- the erase command's reply -----

  /** The flash after the first `n` attempts of an erase whose retry counter starts at `from`. */
  function Attempts(fl: Flash, address: u32, outcomes: nat -> Outcome, from: nat, n: nat): Flash
    requires FLASH_BEGIN <= address < FLASH_END && n <= from + 1
  {
    if n == 0 then fl else PageErase(Attempts(fl, address, outcomes, from, n - 1), address, outcomes(from - (n - 1)))
  }

  /** The check after attempt `n` succeeds. */
  predicate Passes(fl: Flash, address: u32, size: nat, outcomes: nat -> Outcome, beyond: bool, from: nat, n: nat)
    requires FLASH_BEGIN <= address < FLASH_END && n <= from + 1
  {
    PageIsErased(Attempts(fl, address, outcomes, from, n).mem, address, size, beyond)
  }

  lemma {:induction false} AttemptsShift(fl: Flash, address: u32, outcomes: nat -> Outcome, from: nat, n: nat)
    requires FLASH_BEGIN <= address < FLASH_END && 0 < from && n <= from
    ensures Attempts(PageErase(fl, address, outcomes(from)), address, outcomes, from - 1, n)
         == Attempts(fl, address, outcomes, from, n + 1)
  {
    hide PageErase;
    if n > 0 {
      AttemptsShift(fl, address, outcomes, from, n - 1);
    } else {
      assert Attempts(fl, address, outcomes, from, 0) == fl;
    }
  }

  /** The loop makes attempts until one passes. Its counter tells how many: it ends at 255 when all of them failed. */
  lemma {:induction false} EraseLoopCounter(fl: Flash, address: u32, size: nat, outcomes: nat -> Outcome, beyond: bool, retry: nat)
    requires FLASH_BEGIN <= address < FLASH_END && retry < 0xFF
    requires EraseLoop(fl, address, size, outcomes, beyond, retry).alive
    ensures
      var e := EraseLoop(fl, address, size, outcomes, beyond, retry);
      && (e.retry <= retry || e.retry == 0xFF)
      && (var n := if e.retry == 0xFF then retry + 1 else retry - e.retry + 1;
          && e.flash == Attempts(fl, address, outcomes, retry, n)
          && (e.retry != 0xFF <==> Passes(fl, address, size, outcomes, beyond, retry, n))
          && forall m :: 1 <= m < n ==> !Passes(fl, address, size, outcomes, beyond, retry, m))
    decreases retry
  {
    hide PageErase, PageIsErased;
    assert Attempts(fl, address, outcomes, retry, 0) == fl;
    var fl' := PageErase(fl, address, outcomes(retry));
    assert Attempts(fl, address, outcomes, retry, 1) == fl';
    if !PageIsErased(fl'.mem, address, size, beyond) && retry > 0 {
      EraseLoopCounter(fl', address, size, outcomes, beyond, retry - 1);
      var e := EraseLoop(fl, address, size, outcomes, beyond, retry);
      AttemptsShift(fl, address, outcomes, retry, if e.retry == 0xFF then retry else retry - e.retry);
      hide Attempts;
      forall m | 2 <= m <= retry + 1
        ensures Passes(fl, address, size, outcomes, beyond, retry, m) == Passes(fl', address, size, outcomes, beyond, retry - 1, m - 1)
      {
        AttemptsShift(fl, address, outcomes, retry, m - 1);
      }
    }
  }

  /** The erase reply, exactly: past the guards it reports failure only when twenty attempts failed and the twenty-first passed;
      otherwise, and so when every attempt fails, it is a plain success. */
  lemma EraseReply(b: Board, argument: nat, deviceClass: seq<byte>, outcomes: nat -> Outcome, beyond: bool)
    requires APP_BEGIN <= Pointer(argument) < FLASH_END && SameClass(deviceClass, b.config)
    requires EraseFlashPage(b, argument, deviceClass, outcomes, beyond).alive
    ensures
      var r := EraseFlashPage(b, argument, deviceClass, outcomes, beyond);
      var from, address, size := FLASH_ERASE_RETRIES, Pointer(argument), |deviceClass|;
      && (r.reply == [ERASE_FAILED, SUCCESS] <==>
            && Passes(b.flash, address, size, outcomes, beyond, from, from + 1)
            && forall n :: 1 <= n <= from ==> !Passes(b.flash, address, size, outcomes, beyond, from, n))
      && (r.reply != [ERASE_FAILED, SUCCESS] ==> r.reply == [SUCCESS])
  {
    EraseLoopCounter(b.flash, Pointer(argument), |deviceClass|, outcomes, beyond, FLASH_ERASE_RETRIES);
    hide EraseLoop, Passes, SameClass;
  }

  /** How many attempts a command makes that keeps power. */
  function AttemptsMade(b: Board, argument: nat, deviceClass: seq<byte>, outcomes: nat -> Outcome, beyond: bool): nat
    requires APP_BEGIN <= Pointer(argument) < FLASH_END
  {
    var e := EraseLoop(b.flash, Pointer(argument), |deviceClass|, outcomes, beyond, FLASH_ERASE_RETRIES);
    if e.retry <= FLASH_ERASE_RETRIES then FLASH_ERASE_RETRIES - e.retry + 1 else FLASH_ERASE_RETRIES + 1
  }

  /** One of the first `n` attempts is successful. */
  ghost predicate SomeSucceeds(outcomes: nat -> Outcome, from: nat, n: nat)
    requires n <= from + 1
  {
    exists i :: from - n < i <= from && outcomes(i).Done?
  }

  /** The residue of a failed erase happens to be an erased sector. */
  predicate LeavesErased(outcome: Outcome, k: nat)
    requires k < SECTOR_COUNT && !outcome.Done?
  {
    forall i :: SectorStart(k) <= i < SectorStart(k + 1) ==> outcome.residue(i) == 0xFF
  }

  lemma {:induction false} AttemptsSector(fl: Flash, address: u32, outcomes: nat -> Outcome, from: nat, n: nat)
    requires FLASH_BEGIN < address < FLASH_END && 1 <= n <= from + 1 && Sound(fl)
    ensures
      var k, fl' := AddressToSector(address), Attempts(fl, address, outcomes, from, n);
      && k < SECTOR_COUNT
      && Sound(fl')
      && (fl'.erased[k] <==> fl.erased[k] || SomeSucceeds(outcomes, from, n))
      && (!fl'.erased[k] ==> !outcomes(from - (n - 1)).Done?
                             && (SectorErased(fl'.mem, k) <==> LeavesErased(outcomes(from - (n - 1)), k)))
  {
    SectorOfAddress(address);
    var before := Attempts(fl, address, outcomes, from, n - 1);
    if n > 1 {
      AttemptsSector(fl, address, outcomes, from, n - 1);
    }
    var last := outcomes(from - (n - 1));
    hide Attempts, AddressToSector, Sound, LeavesErased;
    EraseSound(before, address, last);
    SectorAfterErase(before, address, last);
  }

  lemma AttemptsExactly(fl: Flash, address: u32, outcomes: nat -> Outcome, from: nat, n: nat)
    requires FLASH_BEGIN < address < FLASH_END && 1 <= n <= from + 1 && Sound(fl)
    ensures
      var k, last := AddressToSector(address), outcomes(from - (n - 1));
      && k < SECTOR_COUNT
      && (SectorErased(Attempts(fl, address, outcomes, from, n).mem, k) <==>
            || fl.erased[k]
            || SomeSucceeds(outcomes, from, n)
            || (!last.Done? && LeavesErased(last, k)))
  {
    AttemptsSector(fl, address, outcomes, from, n);
    hide Attempts, AddressToSector, LeavesErased, SectorErased, SomeSucceeds;
  }

  lemma SectorAfterErase(fl: Flash, address: u32, outcome: Outcome)
    requires FLASH_BEGIN < address < FLASH_END && AddressToSector(address) < SECTOR_COUNT
    ensures
      var k, fl' := AddressToSector(address), PageErase(fl, address, outcome);
      && fl'.erased[k] == (fl.erased[k] || outcome.Done?)
      && (!fl'.erased[k] ==> (SectorErased(fl'.mem, k) <==> LeavesErased(outcome, k)))
  {
    hide AddressToSector;
    var k, fl' := AddressToSector(address), PageErase(fl, address, outcome);
    if !fl'.erased[k] {
      assert forall i :: SectorStart(k) <= i < SectorStart(k + 1) ==> fl'.mem[i] == outcome.residue(i);
    }
  }

  /** What the reply leaves open, exactly: with sound flags, the sector is erased afterwards if and only if it was flagged, an
      attempt was successful, or the last failed attempt happened to leave it so. */
  lemma ErasedExactly(b: Board, argument: nat, deviceClass: seq<byte>, outcomes: nat -> Outcome, beyond: bool)
    requires APP_BEGIN <= Pointer(argument) < FLASH_END && SameClass(deviceClass, b.config) && Sound(b.flash)
    requires EraseFlashPage(b, argument, deviceClass, outcomes, beyond).alive
    ensures
      var r := EraseFlashPage(b, argument, deviceClass, outcomes, beyond);
      var k, n := AddressToSector(Pointer(argument)), AttemptsMade(b, argument, deviceClass, outcomes, beyond);
      var last := outcomes(FLASH_ERASE_RETRIES - (n - 1));
      && k < SECTOR_COUNT
      && (SectorErased(r.board.flash.mem, k) <==>
            || b.flash.erased[k]
            || SomeSucceeds(outcomes, FLASH_ERASE_RETRIES, n)
            || (!last.Done? && LeavesErased(last, k)))
  {
    var n := AttemptsMade(b, argument, deviceClass, outcomes, beyond);
    EraseLoopCounter(b.flash, Pointer(argument), |deviceClass|, outcomes, beyond, FLASH_ERASE_RETRIES);
    AttemptsExactly(b.flash, Pointer(argument), outcomes, FLASH_ERASE_RETRIES, n);
    hide EraseLoop, Attempts, AddressToSector, SameClass, LeavesErased, SectorErased, Passes, Sound, SomeSucceeds;
  }

  /** Only as many bytes are checked as the class name is long: whatever the flash holds, if its sector is not flagged, an erase
      can be reported as a success with the next byte not erased. */
  lemma UncheckedByte(b: Board, argument: nat, deviceClass: seq<byte>, beyond: bool)
    requires APP_BEGIN <= Pointer(argument) < FLASH_END && SameClass(deviceClass, b.config)
    requires
      var k := AddressToSector(Pointer(argument));
      k < SECTOR_COUNT && !b.flash.erased[k] && Offset(Pointer(argument)) + |deviceClass| < SectorStart(k + 1)
    ensures
      var at := Offset(Pointer(argument)) + |deviceClass|;
      var r := EraseFlashPage(b, argument, deviceClass, _ => Faulty(i => if i == at then 0 else 0xFF), beyond);
      r.alive && r.reply == [SUCCESS] && r.board.flash.mem[at] == 0
  {
    SectorOfAddress(Pointer(argument));
    hide AddressToSector, SameClass;
    var k, at := AddressToSector(Pointer(argument)), Offset(Pointer(argument)) + |deviceClass|;
    var outcome: Outcome := Faulty(i => if i == at then 0 else 0xFF);
    var fl' := PageErase(b.flash, Pointer(argument), outcome);
    assert fl'.mem[at] == 0;
    assert PageIsErased(fl'.mem, Pointer(argument), |deviceClass|, beyond);
  }

  /** And when every attempt fails and leaves zeros, the reply is a plain success all the same. */
  lemma FailureReportedAsSuccess(b: Board, argument: nat, deviceClass: seq<byte>, beyond: bool)
    requires APP_BEGIN <= Pointer(argument) < FLASH_END && SameClass(deviceClass, b.config) && deviceClass != []
    requires AddressToSector(Pointer(argument)) < SECTOR_COUNT && !b.flash.erased[AddressToSector(Pointer(argument))]
    ensures
      var r := EraseFlashPage(b, argument, deviceClass, _ => Faulty(_ => 0), beyond);
      r.alive && r.reply == [SUCCESS] && r.board.flash.mem[Offset(Pointer(argument))] == 0
  {
    ZerosNeverPass(b.flash, Pointer(argument), |deviceClass|, beyond, FLASH_ERASE_RETRIES);
    hide EraseLoop, AddressToSector, SameClass;
  }

  lemma {:induction false} ZerosNeverPass(fl: Flash, address: u32, size: nat, beyond: bool, retry: nat)
    requires FLASH_BEGIN < address < FLASH_END && 0 < size
    requires AddressToSector(address) < SECTOR_COUNT && !fl.erased[AddressToSector(address)]
    ensures
      var e := EraseLoop(fl, address, size, _ => Faulty(_ => 0), beyond, retry);
      e.alive && e.retry == 0xFF && e.flash.mem[Offset(address)] == 0
    decreases retry
  {
    SectorOfAddress(address);
    hide AddressToSector;
    var fl' := PageErase(fl, address, Faulty(_ => 0));
    assert fl'.mem[Offset(address)] == 0 && !PageIsErased(fl'.mem, address, size, beyond);
    if retry > 0 {
      ZerosNeverPass(fl', address, size, beyond, retry - 1);
    }
  }

  // ----- the flags over runs of commands -----

  /** If the command writes, the last sector of the write is accounted for. */
  predicate Accounted(b: Board, cmd: Command)
    requires Possible(cmd)
  {
    cmd.Write? && cmd.data.Some? ==>
      var page, len := Pointer(cmd.argument), |cmd.data.value|;
      AddressIsValid(page) && AddressIsValid(page + len) ==> LastAccounted(b.flash, page, len)
  }

  lemma {:induction false} EraseLoopSound(fl: Flash, address: u32, size: nat, outcomes: nat -> Outcome, beyond: bool, retry: nat)
    requires APP_BEGIN <= address < FLASH_END && Sound(fl)
    ensures Sound(EraseLoop(fl, address, size, outcomes, beyond, retry).flash)
    decreases retry
  {
    EraseSound(fl, address, outcomes(retry));
    hide PageErase, PageIsErased, Sound;
    if retry > 0 {
      EraseLoopSound(PageErase(fl, address, outcomes(retry)), address, size, outcomes, beyond, retry - 1);
    }
  }

  lemma SavePageSound(fl: Flash, page: seq<byte>, x: Attempt, y: Attempt)
    requires IsPage(page) && Sound(fl)
    ensures Sound(SavePage(fl, page, x, y).flash)
  {
    hide WriteAndVerify, ValidPage, Sound;
    WriteAndVerifySound(fl, CONFIG1, page, x);
    WriteAndVerifySound(fl, CONFIG2, page, x);
    WriteAndVerifySound(WriteAndVerify(fl, CONFIG1, page, x).flash, CONFIG2, page, y);
    WriteAndVerifySound(WriteAndVerify(fl, CONFIG2, page, x).flash, CONFIG1, page, y);
  }

  lemma ApplySound(b: Board, cmd: Command)
    requires Proper(b.config) && Possible(cmd) && Accounted(b, cmd) && Sound(b.flash)
    ensures Sound(Apply(b, cmd).flash)
  {
    hide EraseLoop, PageWrite, PageIsErased, SavePage, ValidPage, ReadEntries, SameClass, Page, Sound, LastAccounted;
    match cmd {
      case Erase(argument, deviceClass, outcomes, beyond) =>
        if APP_BEGIN <= Pointer(argument) < FLASH_END {
          EraseLoopSound(b.flash, Pointer(argument), |deviceClass|, outcomes, beyond, FLASH_ERASE_RETRIES);
        }
      case Write(argument, deviceClass, data, beyond, outcome) =>
        if data.Some? {
          WriteSound(b.flash, Pointer(argument), data.value, outcome);
        }
      case Save(x, y) =>
        IncrementedStorable(b.config);
        SavePageSound(b.flash, Page(Incremented(b.config)), x, y);
      case Restart(_) => NothingFlagged(b.flash.mem);
      case _ =>
    }
  }

  /** Over every run of commands, faults, power cuts and restarts in which each write's last sector is accounted for when it is
      written, a flagged sector is erased. */
  lemma {:induction false} FlagsStaySound(b: Board, cmds: seq<Command>)
    requires Proper(b.config) && AllPossible(cmds) && Sound(b.flash)
    requires forall i :: 0 <= i < |cmds| ==> Accounted(Run(b, cmds[..i]), cmds[i])
    ensures Sound(Run(b, cmds).flash)
    decreases |cmds|
  {
    hide Apply, Proper, Possible, Sound, Accounted;
    if cmds != [] {
      var before := cmds[..|cmds| - 1];
      assert forall i :: 0 <= i < |before| ==> before[..i] == cmds[..i] && before[i] == cmds[i];
      FlagsStaySound(b, before);
      ApplySound(Run(b, before), cmds[|cmds| - 1]);
    }
  }

  // ----- stale flags on a running board -----

  function Working(): nat -> Outcome {
    _ => Done
  }

  /** On working hardware an erase command erases the sector if it is not flagged, and reports success either way. */
  lemma WorkingErase(b: Board, argument: nat, deviceClass: seq<byte>, outcomes: nat -> Outcome, beyond: bool)
    requires APP_BEGIN <= Pointer(argument) < FLASH_END && SameClass(deviceClass, b.config)
    requires forall n :: outcomes(n) == Done
    ensures EraseFlashPage(b, argument, deviceClass, outcomes, beyond)
         == Result(b.(flash := PageErase(b.flash, Pointer(argument), Done)), [SUCCESS], true)
  {
    WorkingLoop(b.flash, Pointer(argument), |deviceClass|, outcomes, beyond, FLASH_ERASE_RETRIES);
    hide EraseLoop, PageErase, SameClass;
    assert [] + [SUCCESS] == [SUCCESS];
  }

  lemma {:induction false} WorkingLoop(fl: Flash, address: u32, size: nat, outcomes: nat -> Outcome, beyond: bool, retry: nat)
    requires FLASH_BEGIN < address < FLASH_END && forall n :: outcomes(n) == Done
    ensures
      var e := EraseLoop(fl, address, size, outcomes, beyond, retry);
      e.flash == PageErase(fl, address, Done) && e.alive && (e.retry > 0 || retry == 0)
    decreases retry
  {
    EraseTwice(fl, address);
    hide PageErase, PageIsErased;
    if retry > 0 {
      WorkingLoop(PageErase(fl, address, Done), address, size, outcomes, beyond, retry - 1);
    }
  }

  lemma EraseTwice(fl: Flash, address: u32)
    requires FLASH_BEGIN < address < FLASH_END
    ensures PageErase(PageErase(fl, address, Done), address, Done) == PageErase(fl, address, Done)
  {
  }

  /** An erase of a flagged sector does nothing, and reports success whatever the sector holds. */
  lemma FlaggedErase(b: Board, argument: nat, deviceClass: seq<byte>, beyond: bool)
    requires APP_BEGIN <= Pointer(argument) < FLASH_END && SameClass(deviceClass, b.config)
    requires AddressToSector(Pointer(argument)) < SECTOR_COUNT && b.flash.erased[AddressToSector(Pointer(argument))]
    ensures EraseFlashPage(b, argument, deviceClass, Working(), beyond) == Result(b, [SUCCESS], true)
  {
    WorkingErase(b, argument, deviceClass, Working(), beyond);
    hide EraseLoop, AddressToSector, SameClass;
  }

  function ZeroBytes(n: nat): seq<byte> {
    seq(n, _ => 0)
  }

  /** From any restarted board with any contents: two erases and one accepted write across their common boundary, all on working
      hardware, after which a flag lies, the next erase is reported as a success without erasing anything, and every later
      write to the sector's start is refused. */
  lemma StaleFlagReached(m: Memory, c: Config, data: seq<byte>)
    requires Proper(c) && data != []
    ensures
      var cls := c.deviceClass;
      var cmds := [EraseAt(0x0801_0000, cls), EraseAt(0x0802_0000, cls), ZerosAt(0x0801_FFFC, cls)];
      var b := Run(Board(Unflagged(m), c), cmds);
      && Sound(Unflagged(m)) && !Sound(b.flash)
      && EraseFlashPage(b, 0x0802_0000, cls, Working(), true) == Result(b, [SUCCESS], true)
      && WriteFlash(b, 0x0802_0000, cls, Some(data), true, Done) == Result(b, [WRITE_NOT_ERASED], true)
  {
    var b0, cls := Board(Unflagged(m), c), c.deviceClass;
    var erase4, erase5, write := EraseAt(0x0801_0000, cls), EraseAt(0x0802_0000, cls), ZerosAt(0x0801_FFFC, cls);
    NothingFlagged(m);
    SameClassItself(c);
    hide Proper, Sound, SameClass, Apply, EraseFlashPage, WriteFlash, Working;
    BothErased(b0, cls);
    var b2 := Apply(Apply(b0, erase4), erase5);
    ApplyZeros(b2, 0x0801_FFFC, cls);
    StaleAfter(b2, cls, data);
    hide Run;
    RunOfThree(b0, erase4, erase5, write);
  }

  function EraseAt(argument: nat, deviceClass: seq<byte>): (cmd: Command)
    ensures Possible(cmd)
  {
    Command.Erase(argument, deviceClass, Working(), true)
  }

  function ZerosAt(argument: nat, deviceClass: seq<byte>): (cmd: Command)
    ensures Possible(cmd)
  {
    Command.Write(argument, deviceClass, Some(ZeroBytes(8)), true, Done)
  }

  lemma ApplyZeros(b: Board, argument: nat, deviceClass: seq<byte>)
    requires Proper(b.config)
    ensures Apply(b, ZerosAt(argument, deviceClass)) == WriteFlash(b, argument, deviceClass, Some(ZeroBytes(8)), true, Done).board
  {
    hide Proper, WriteFlash;
  }

  lemma StaleAfter(b: Board, deviceClass: seq<byte>, data: seq<byte>)
    requires SameClass(deviceClass, b.config) && Sound(b.flash) && b.flash.erased[4] && b.flash.erased[5] && data != []
    ensures
      var b' := WriteFlash(b, 0x0801_FFFC, deviceClass, Some(ZeroBytes(8)), true, Done).board;
      && !Sound(b'.flash)
      && EraseFlashPage(b', 0x0802_0000, deviceClass, Working(), true) == Result(b', [SUCCESS], true)
      && WriteFlash(b', 0x0802_0000, deviceClass, Some(data), true, Done) == Result(b', [WRITE_NOT_ERASED], true)
  {
    SectorsOfStarts();
    hide SameClass, EraseFlashPage, WriteFlash, AddressToSector, Sound, Working;
    AcrossBoundary(b, deviceClass);
    var b' := WriteFlash(b, 0x0801_FFFC, deviceClass, Some(ZeroBytes(8)), true, Done).board;
    FlaggedErase(b', 0x0802_0000, deviceClass, true);
    ZeroRefused(b', deviceClass, data);
  }

  lemma SameClassItself(c: Config)
    requires Proper(c)
    ensures SameClass(c.deviceClass, c) && |c.deviceClass| <= 64
  {
  }

  lemma BothErased(b: Board, cls: seq<byte>)
    requires Proper(b.config) && cls == b.config.deviceClass && b.flash == Unflagged(b.flash.mem)
    ensures
      var b1 := Apply(b, EraseAt(0x0801_0000, cls));
      var b2 := Apply(b1, EraseAt(0x0802_0000, cls));
      b2.config == b.config && Sound(b2.flash) && b2.flash.erased[4] && b2.flash.erased[5]
  {
    SameClassItself(b.config);
    SectorsOfStarts();
    WorkingErase(b, 0x0801_0000, cls, Working(), true);
    var b1 := Apply(b, EraseAt(0x0801_0000, cls));
    WorkingErase(b1, 0x0802_0000, cls, Working(), true);
    hide SameClass, Proper, EraseFlashPage, AddressToSector, Sound;
    NothingFlagged(b.flash.mem);
    EraseSound(b.flash, 0x0801_0000, Done);
    EraseSound(b1.flash, 0x0802_0000, Done);
  }

  lemma RunOfThree(b: Board, x: Command, y: Command, z: Command)
    requires Proper(b.config) && Possible(x) && Possible(y) && Possible(z)
    ensures AllPossible([x, y, z])
    ensures Run(b, [x, y, z]) == Apply(Apply(Apply(b, x), y), z)
  {
    hide Apply, Proper, Possible;
    var all := [x, y, z];
    assert all[..2] == [x, y] && [x, y][..1] == [x] && [x][..0] == [];
    assert Run(b, []) == b && Run(b, [x]) == Apply(b, x) && Run(b, [x, y]) == Apply(Apply(b, x), y);
  }

  lemma SectorsOfStarts()
    ensures AddressToSector(0x0801_0000) == 4 && AddressToSector(0x0802_0000) == 5
  {
  }

  lemma ZeroRefused(b: Board, deviceClass: seq<byte>, data: seq<byte>)
    requires SameClass(deviceClass, b.config) && data != [] && b.flash.mem[0x2_0000] == 0
    ensures WriteFlash(b, 0x0802_0000, deviceClass, Some(data), true, Done) == Result(b, [WRITE_NOT_ERASED], true)
  {
    assert b.flash.mem[Offset(0x0802_0000)] == 0;
  }

  lemma AcrossBoundary(b: Board, deviceClass: seq<byte>)
    requires SameClass(deviceClass, b.config) && Sound(b.flash) && b.flash.erased[4] && b.flash.erased[5]
    ensures
      var r := WriteFlash(b, 0x0801_FFFC, deviceClass, Some(ZeroBytes(8)), true, Done);
      && r.alive && r.reply == [TRUE] && r.board.config == b.config
      && !Sound(r.board.flash) && r.board.flash.erased[5] && r.board.flash.mem[0x2_0000] == 0
  {
    assert SectorErased(b.flash.mem, 4) && SectorErased(b.flash.mem, 5);
    hide SameClass;
    StaleFlag(b.flash);
    assert ZeroBytes(8) == [0, 0, 0, 0, 0, 0, 0, 0];
    hide PageWrite, Sound, PageErase;
  }
}
