/** The flash writer on the memory itself and the static array of flags. */
module FlashWriter {
  import opened Bytes
  import opened F = Flash

  class Writer {
    const mem: array<byte>
    const isErased: array<bool>

    ghost predicate Valid()
      reads this
    {
      mem.Length == FLASH_SIZE && isErased.Length == SECTOR_COUNT
    }

    ghost function View(): Flash
      requires Valid()
      reads this, mem, isErased
    {
      Flash(mem[..], isErased[..])
    }

    constructor (mem: array<byte>)
      requires mem.Length == FLASH_SIZE
      ensures Valid() && this.mem == mem && fresh(isErased) && View() == Unflagged(mem[..])
    {
      this.mem := mem;
      isErased := new bool[SECTOR_COUNT](_ => false);
    }

    /** The hardware's effect on a range of the memory. */
    method Change(from: nat, to: nat, f: nat -> byte)
      requires Valid() && from <= to <= FLASH_SIZE
      modifies mem
      ensures mem[..] == Patch(old(mem[..]), from, to, f)
    {
      forall i | from <= i < to {
        mem[i] := f(i);
      }
    }

    method PageErase(page: u32, outcome: Outcome)
      requires Valid() && page != FLASH_END
      modifies mem, isErased
      ensures View() == F.PageErase(old(View()), page, outcome)
    {
      if !AddressIsValid(page) {
        return;
      }
      SectorOfAddress(page);
      var sector := AddressToSector(page);
      if isErased[sector] {
        return;
      }
      match outcome {
        case Done =>
          Change(SectorStart(sector), SectorStart(sector + 1), _ => 0xFF);
          isErased[sector] := true;
        case Faulty(residue) =>
          Change(SectorStart(sector), SectorStart(sector + 1), residue);
        case PowerLoss(residue) =>
          Change(SectorStart(sector), SectorStart(sector + 1), residue);
      }
    }

    method PageWrite(page: u32, data: seq<byte>, outcome: Outcome)
      requires Valid() && |data| <= 0x8000
      modifies mem, isErased
      ensures View() == F.PageWrite(old(View()), page, data, outcome)
    {
      var end := (page + |data|) % 0x1_0000_0000;
      if !AddressIsValid(page) || !AddressIsValid(end) {
        return;
      }
      ghost var flags: Flags := isErased[..];
      var a := page;
      while a < end
        invariant AddressIsValid(a)
        invariant Mark(isErased[..], a, end) == Mark(flags, page, end)
        invariant mem[..] == old(mem[..])
      {
        var sector := AddressToSector(a);
        if sector >= SECTOR_COUNT {
          return;
        }
        isErased[sector] := false;
        a := a + SectorSize(a);
        if !AddressIsValid(a) {
          return;
        }
      }
      var at := Offset(page);
      match outcome {
        case Done =>
          var before: Memory := mem[..];
          Change(at, at + |data|, i => Programmed(before, at, data, i));
        case Faulty(residue) =>
          Change(at, at + |data|, residue);
        case PowerLoss(residue) =>
          Change(at, at + |data|, residue);
      }
    }

    /** Scans until the first byte that is not erased; `beyond` answers for addresses past the memory. */
    method PageIsErased(address: u32, size: nat, beyond: bool) returns (erased: bool)
      requires Valid() && FLASH_BEGIN <= address
      ensures erased == F.PageIsErased(mem[..], address, size, beyond)
    {
      var i := 0;
      while i < size && Offset(address) + i < FLASH_SIZE
        invariant i <= size
        invariant forall j :: Offset(address) <= j < Offset(address) + i && j < FLASH_SIZE ==> mem[j] == 0xFF
      {
        if mem[Offset(address) + i] != 0xFF {
          return false;
        }
        i := i + 1;
      }
      return address + size <= FLASH_END || beyond;
    }
  }
}
