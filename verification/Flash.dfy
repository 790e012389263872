/** Flash memory with its sectors, and the writer that remembers which sectors it has erased. */
module Flash {
  import opened Bytes

  // The F446 layout.
  const FLASH_BEGIN: u32 := 0x0800_0000
  const FLASH_END: u32 := 0x0808_0000
  const FLASH_SIZE: nat := 0x8_0000
  const SECTOR_COUNT: nat := 8
  const LAST_SECTOR: u32 := 0x0806_0000

  type Memory = m: seq<byte> | |m| == FLASH_SIZE witness seq(FLASH_SIZE, _ => 0xFF)

  /** The writer's flags, one per sector. */
  type Flags = f: seq<bool> | |f| == SECTOR_COUNT witness seq(SECTOR_COUNT, _ => false)

  datatype Flash = Flash(mem: Memory, erased: Flags)

  /** The memory as a restarted firmware finds it, with all flags cleared. */
  function Unflagged(mem: Memory): Flash {
    Flash(mem, [false, false, false, false, false, false, false, false])
  }

  /** What the hardware makes of an operation: it succeeds; it reports an error and leaves anything in the
      targeted bytes; or power fails meanwhile, with anything left there. */
  datatype Outcome = Done | Faulty(residue: nat -> byte) | PowerLoss(residue: nat -> byte)

  predicate AddressIsValid(a: int) {
    FLASH_BEGIN < a <= FLASH_END
  }

  function AddressToSector(a: u32): (k: nat)
    ensures k <= SECTOR_COUNT
  {
    if !AddressIsValid(a) then 0
    else
      var offset := a % 0x100_0000;
      if offset < 0x1_0000 then offset / 0x4000
      else if offset < 0x2_0000 then 3 + offset / 0x1_0000
      else 4 + offset / 0x2_0000
  }

  function SectorSize(a: u32): nat {
    if !AddressIsValid(a) then 0
    else if a < 0x0801_0000 then 0x4000
    else if a < 0x0802_0000 then 0x1_0000
    else 0x2_0000
  }

  /** The sector table of the reference manual: where sector `k` begins, as an offset into the memory. */
  function SectorStart(k: nat): nat
    requires k <= SECTOR_COUNT
  {
    if k <= 4 then k * 0x4000 else (k - 4) * 0x2_0000
  }

  function Offset(a: u32): nat
    requires FLASH_BEGIN <= a
  {
    a - FLASH_BEGIN
  }

  /** The address arithmetic agrees with the table at every address of the memory. */
  lemma SectorOfAddress(a: u32)
    requires FLASH_BEGIN <= a < FLASH_END
    ensures
      var k := AddressToSector(a);
      && k < SECTOR_COUNT
      && SectorStart(k) <= Offset(a) < SectorStart(k + 1)
      && (a != FLASH_BEGIN ==> SectorSize(a) == SectorStart(k + 1) - SectorStart(k))
  {
    assert a % 0x100_0000 == a - FLASH_BEGIN;
  }

  lemma SectorIsUnique(k: nat, i: nat, offset: nat)
    requires k < SECTOR_COUNT && i < SECTOR_COUNT
    requires SectorStart(k) <= offset < SectorStart(k + 1) && SectorStart(i) <= offset < SectorStart(i + 1)
    ensures k == i
  {
  }

  // ----- hardware -----

  /** The memory with the bytes from `from` up to `to` replaced. */
  function Patch(m: Memory, from: nat, to: nat, f: nat -> byte): Memory {
    seq(FLASH_SIZE, i requires 0 <= i < FLASH_SIZE => if from <= i < to then f(i) else m[i])
  }

  /** Bitwise and of two bytes: programming can only clear bits. */
  function And(a: nat, b: nat): (r: nat)
    ensures r <= a && r <= b
  {
    if a == 0 || b == 0 then 0 else 2 * And(a / 2, b / 2) + (if a % 2 == 1 && b % 2 == 1 then 1 else 0)
  }

  lemma AndErased(b: byte)
    ensures And(0xFF, b) == b
  {
    AndOnes(8, b);
  }

  function Ones(k: nat): nat {
    if k == 0 then 0 else 2 * Ones(k - 1) + 1
  }

  lemma {:induction false} AndOnes(k: nat, b: nat)
    requires b <= Ones(k)
    ensures And(Ones(k), b) == b
  {
    if k > 0 && b > 0 {
      assert Ones(k) / 2 == Ones(k - 1) && Ones(k) % 2 == 1;
      AndOnes(k - 1, b / 2);
      hide Ones;
      assert And(Ones(k), b) == 2 * And(Ones(k - 1), b / 2) + b % 2;
    }
  }

  function EraseSector(m: Memory, k: nat, outcome: Outcome): Memory
    requires k < SECTOR_COUNT
  {
    match outcome
    case Done => Patch(m, SectorStart(k), SectorStart(k + 1), _ => 0xFF)
    case Faulty(residue) => Patch(m, SectorStart(k), SectorStart(k + 1), residue)
    case PowerLoss(residue) => Patch(m, SectorStart(k), SectorStart(k + 1), residue)
  }

  function Programmed(m: Memory, at: nat, data: seq<byte>, i: nat): byte {
    if at <= i < at + |data| && i < FLASH_SIZE then And(m[i], data[i - at]) else 0xFF
  }

  function Program(m: Memory, at: nat, data: seq<byte>, outcome: Outcome): Memory {
    match outcome
    case Done => Patch(m, at, at + |data|, i => Programmed(m, at, data, i))
    case Faulty(residue) => Patch(m, at, at + |data|, residue)
    case PowerLoss(residue) => Patch(m, at, at + |data|, residue)
  }

  // ----- writer -----

  function PageErase(fl: Flash, page: u32, outcome: Outcome): Flash
    requires page != FLASH_END
  {
    if !AddressIsValid(page) then fl
    else
      SectorOfAddress(page);
      var k := AddressToSector(page);
      if fl.erased[k] then fl
      else
        var mem := EraseSector(fl.mem, k, outcome);
        if outcome.Done? then Flash(mem, fl.erased[k := true]) else fl.(mem := mem)
  }

  /** The flags after the marking loop, and whether it ran to its end. */
  datatype Marking = Marking(erased: Flags, completed: bool)

  /** Clears flags in steps of one sector size from `a` while below `end`. */
  function Mark(erased: Flags, a: u32, end: u32): Marking
    decreases end - a
  {
    if a >= end then Marking(erased, true)
    else
      var k := AddressToSector(a);
      if k >= SECTOR_COUNT then Marking(erased, false)
      else
        var next := a + SectorSize(a);
        if !AddressIsValid(next) then Marking(erased[k := false], false)
        else Mark(erased[k := false], next, end)
  }

  function PageWrite(fl: Flash, page: u32, data: seq<byte>, outcome: Outcome): Flash {
    var end := (page + |data|) % 0x1_0000_0000;
    if !AddressIsValid(page) || !AddressIsValid(end) then fl
    else
      var marking := Mark(fl.erased, page, end);
      if !marking.completed then fl.(erased := marking.erased)
      else Flash(Program(fl.mem, Offset(page), data, outcome), marking.erased)
  }

  /** Every byte of the range inside the memory is erased; `beyond` answers for addresses past its end. */
  predicate PageIsErased(m: Memory, address: u32, size: nat, beyond: bool)
    requires FLASH_BEGIN <= address
  {
    && (forall i :: Offset(address) <= i < Offset(address) + size && i < FLASH_SIZE ==> m[i] == 0xFF)
    && (address + size > FLASH_END ==> beyond)
  }
}
