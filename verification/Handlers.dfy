/** The command handlers on the mutable flash writer, configuration record and page buffer. */
module Handlers {
  import opened Bytes
  import opened Wrappers
  import opened F = Flash
  import opened FlashWriter
  import opened Configuration
  import opened ConfigStore
  import opened C = Commands
  import MessagePack
  import Crc32

  class CommandHandlers {
    const flash: Writer
    const config: BootloaderConfig
    const configPageBuffer: array<byte>

    ghost predicate Valid()
      reads this, flash
    {
      && flash.Valid() && configPageBuffer.Length == CONFIG_PAGE_SIZE
      && configPageBuffer != flash.mem
    }

    ghost function View(): Board
      requires Valid()
      reads this, flash, flash.mem, flash.isErased, config
    {
      Board(flash.View(), config.View())
    }

    constructor (flash: Writer, config: BootloaderConfig)
      requires flash.Valid()
      ensures Valid() && this.flash == flash && this.config == config && fresh(configPageBuffer)
    {
      this.flash, this.config := flash, config;
      configPageBuffer := new byte[CONFIG_PAGE_SIZE];
    }

    method EraseFlashPage(argument: nat, deviceClass: seq<byte>, outcomes: nat -> Outcome, beyond: bool)
      returns (reply: seq<byte>, alive: bool)
      requires Valid()
      modifies flash.mem, flash.isErased
      ensures Valid() && Result(View(), reply, alive) == C.EraseFlashPage(old(View()), argument, deviceClass, outcomes, beyond)
    {
      hide EraseLoop, F.PageErase, F.PageIsErased;
      var address := Pointer(argument);
      if address < APP_BEGIN {
        return [ERASE_BEFORE_APP], true;
      }
      if address >= APP_BEGIN + APP_SIZE {
        return [ERASE_AFTER_APP], true;
      }
      if MessagePack.CStr(deviceClass) != MessagePack.CStr(config.deviceClass) {
        return [ERASE_CLASS_MISMATCH], true;
      }
      var retry;
      retry, alive := EraseWithRetries(address, |deviceClass|, outcomes, beyond);
      reply := [];
      if retry == 0 {
        reply := reply + [ERASE_FAILED];
      }
      reply := reply + [C.SUCCESS];
    }

    /** Erase, then check, until the check succeeds or the counter is used up. */
    method EraseWithRetries(address: u32, size: nat, outcomes: nat -> Outcome, beyond: bool) returns (retry: nat, alive: bool)
      requires Valid() && FLASH_BEGIN <= address < FLASH_END
      modifies flash.mem, flash.isErased
      ensures Valid()
      ensures Erasing(flash.View(), retry, alive)
           == EraseLoop(old(flash.View()), address, size, outcomes, beyond, FLASH_ERASE_RETRIES)
    {
      hide F.PageErase, F.PageIsErased;
      retry, alive := FLASH_ERASE_RETRIES, true;
      ghost var whole := EraseLoop(flash.View(), address, size, outcomes, beyond, retry);
      while true
        invariant Valid() && whole == EraseLoop(flash.View(), address, size, outcomes, beyond, retry)
        decreases retry
      {
        flash.PageErase(address, outcomes(retry));
        if outcomes(retry).PowerLoss? {
          return retry, false;
        }
        var erased := flash.PageIsErased(address, size, beyond);
        if erased {
          return retry, true;
        }
        if retry == 0 {
          return 0xFF, true;
        }
        retry := retry - 1;
      }
    }

    method WriteFlash(argument: nat, deviceClass: seq<byte>, data: Option<seq<byte>>, beyond: bool, outcome: Outcome)
      returns (reply: seq<byte>, alive: bool)
      requires Valid() && (data.Some? ==> |data.value| <= 0x8000)
      modifies flash.mem, flash.isErased
      ensures Valid() && Result(View(), reply, alive) == C.WriteFlash(old(View()), argument, deviceClass, data, beyond, outcome)
    {
      hide F.PageWrite, F.PageIsErased;
      var address := Pointer(argument);
      if address < APP_BEGIN {
        return [WRITE_BEFORE_APP], true;
      }
      if address >= APP_BEGIN + APP_SIZE {
        return [WRITE_AFTER_APP], true;
      }
      if MessagePack.CStr(deviceClass) != MessagePack.CStr(config.deviceClass) {
        return [WRITE_CLASS_MISMATCH], true;
      }
      if data.None? {
        return [WRITE_UNKNOWN_SIZE], true;
      }
      var erased := flash.PageIsErased(address, |data.value|, beyond);
      if !erased {
        return [WRITE_NOT_ERASED], true;
      }
      flash.PageWrite(address, data.value, outcome);
      return [TRUE], !outcome.PowerLoss?;
    }

    method ConfigUpdate(arguments: seq<byte>) returns (reply: seq<byte>)
      requires Valid()
      modifies config
      ensures Valid()
      ensures Result(View(), reply, true) == C.ConfigUpdate(old(View()), arguments, config.View())
    {
      hide UpdateFromSerialized;
      var ok, rest := config.UpdateFromMessagePack(arguments);
      reply := [TRUE];
    }

    method WriteAndVerify(address: u32, a: Attempt) returns (success: bool, alive: bool)
      requires Valid() && IsConfigAddress(address)
      modifies flash.mem, flash.isErased
      ensures Valid() && Saving(flash.View(), success, alive) == C.WriteAndVerify(old(flash.View()), address, configPageBuffer[..], a)
    {
      hide F.PageErase, F.PageWrite, ValidPage;
      flash.PageErase(address, a.erase);
      if a.erase.PowerLoss? {
        return false, false;
      }
      flash.PageWrite(address, configPageBuffer[..], a.write);
      if a.write.PowerLoss? {
        return false, false;
      }
      success := IsConfigValid(address);
      alive := true;
    }

    method IsConfigValid(address: u32) returns (valid: bool)
      requires Valid() && IsConfigAddress(address)
      ensures valid == ValidPage(PageAt(flash.mem[..], address))
    {
      hide Crc32.Checksum, FromBytes;
      var page := flash.mem[Offset(address)..Offset(address) + CONFIG_PAGE_SIZE];
      assert page == PageAt(flash.mem[..], address);
      valid := FromBytes(page[0], page[1], page[2], page[3]) == Crc32.Checksum(page[4..]);
    }

    method ConfigWriteToFlash(x: Attempt, y: Attempt) returns (reply: seq<byte>, alive: bool)
      requires Valid() && Storable(Incremented(config.View()))
      modifies flash.mem, flash.isErased, config, configPageBuffer
      ensures Valid() && Result(View(), reply, alive) == ConfigSave(old(View()), x, y)
    {
      hide C.WriteAndVerify, ValidPage, WellFormed, FitsPage, Page;
      config.updateCount := (config.updateCount + 1) % 0x1_0000_0000;
      forall i | 0 <= i < CONFIG_PAGE_SIZE {
        configPageBuffer[i] := 0;
      }
      config.WritePage(configPageBuffer);
      var success := false;
      var valid2 := IsConfigValid(CONFIG2);
      if valid2 {
        success, alive := WriteAndVerify(CONFIG1, x);
        if success {
          success, alive := WriteAndVerify(CONFIG2, y);
        }
      } else {
        var valid1 := IsConfigValid(CONFIG1);
        if valid1 {
          success, alive := WriteAndVerify(CONFIG2, x);
          if success {
            success, alive := WriteAndVerify(CONFIG1, y);
          }
        } else {
          success, alive := WriteAndVerify(CONFIG1, x);
          if alive {
            var first := success;
            success, alive := WriteAndVerify(CONFIG2, y);
            success := first && success;
          }
        }
      }
      reply := [if success then TRUE else FALSE];
    }

    /** The argument handed to the reset that follows. */
    method JumpToApplication(beyond: nat -> byte) returns (arg: BootArg)
      requires Valid()
      ensures arg == Jump(View(), beyond)
    {
      hide Crc32.Checksum;
      var mem: Memory := flash.mem[..];
      if Crc32.Checksum(ApplicationBytes(mem, config.applicationSize, beyond)) == config.applicationCrc {
        arg := StartApplication;
      } else {
        arg := StayInBootloader;
      }
    }

    /** The choice made at boot. */
    method LoadConfig(uninitialised: Config, default: Config, commit: seq<byte>, version: seq<byte>) returns (parsed: Parsed)
      requires Valid()
      ensures parsed == Load(flash.mem[..], uninitialised, default, commit, version)
    {
      hide ValidPage, UpdateFromSerialized;
      var mem: Memory := flash.mem[..];
      var valid1 := IsConfigValid(CONFIG1);
      if valid1 {
        parsed := ReadPage(uninitialised, PageAt(mem, CONFIG1));
      } else {
        var valid2 := IsConfigValid(CONFIG2);
        if valid2 {
          parsed := ReadPage(uninitialised, PageAt(mem, CONFIG2));
        } else {
          parsed := Updated(default, []);
        }
      }
      if parsed.Updated? {
        parsed := parsed.(config := parsed.config.(commit := commit, version := version));
      }
    }
  }
}
