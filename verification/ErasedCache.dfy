/** When the writer's "already erased" flags can be trusted, and which bytes an operation can change. */
module ErasedCache {
  import opened Bytes
  import opened Flash

  predicate SectorErased(m: Memory, k: nat)
    requires k < SECTOR_COUNT
  {
    forall i :: SectorStart(k) <= i < SectorStart(k + 1) ==> m[i] == 0xFF
  }

  /** The flag of this sector does not lie. */
  predicate Honest(fl: Flash, k: nat)
    requires k < SECTOR_COUNT
  {
    fl.erased[k] ==> SectorErased(fl.mem, k)
  }

  /** Every flagged sector is erased. */
  predicate Sound(fl: Flash) {
    forall k :: 0 <= k < SECTOR_COUNT && fl.erased[k] ==> SectorErased(fl.mem, k)
  }

  /** The sector has bytes of the `len` bytes at `page`. */
  predicate Overlaps(page: u32, len: nat, k: nat)
    requires FLASH_BEGIN <= page && k < SECTOR_COUNT
  {
    Offset(page) < SectorStart(k + 1) && SectorStart(k) < Offset(page) + len
  }

  /** What the memory must satisfy for the marking loop to see every sector of a write: it starts on a sector boundary,
      stays inside one sector, or reaches further into its last sector than it started into its first. */
  predicate MarksAll(page: u32, len: nat)
    requires FLASH_BEGIN <= page && page + len <= FLASH_END
  {
    len == 0 ||
    var first := AddressToSector(page);
    var last := AddressToSector(page + len - 1);
    var into := Offset(page) - SectorStart(first);
    first == last || into == 0 || Offset(page) + len - SectorStart(last) > into
  }

  // ----- the marking loop -----

  /** Marking never sets a flag. */
  lemma {:induction false} MarkOnlyClears(erased: Flags, a: u32, end: u32)
    ensures forall k :: 0 <= k < SECTOR_COUNT && Mark(erased, a, end).erased[k] ==> erased[k]
    decreases end - a
  {
    if a < end {
      var k, next := AddressToSector(a), a + SectorSize(a);
      if k < SECTOR_COUNT && AddressIsValid(next) {
        MarkOnlyClears(erased[k := false], next, end);
      }
    }
  }

  /** From offset `into` of sector `first`, the loop visits the same offset of the sectors after it, one by one: a sector
      before the last is always marked, the last one if the end lies beyond that offset. */
  lemma {:induction false} MarkVisits(erased: Flags, a: u32, end: u32, k: nat)
    requires FLASH_BEGIN < a < end <= FLASH_END && AddressToSector(a) <= k <= AddressToSector(end - 1)
    ensures
      var into := Offset(a) - SectorStart(AddressToSector(a));
      var reached := k == AddressToSector(a) || SectorStart(k) + into < Offset(end);
      && (reached ==> !Mark(erased, a, end).erased[k])
      && (!reached ==> Mark(erased, a, end).erased[k] == erased[k])
    decreases end - a
  {
    var first, next := AddressToSector(a), a + SectorSize(a);
    SectorOfAddress(a);
    SectorOfAddress(end - 1);
    var erased' := erased[first := false];
    if AddressIsValid(next) && next < end {
      SectorOfAddress(next);
      SectorIsUnique(AddressToSector(next), first + 1, Offset(next));
      if k == first {
        MarkOnlyClears(erased', next, end);
      } else {
        MarkVisits(erased', next, end, k);
      }
    }
  }

  /** The loop marks every sector of the write exactly under that condition. */
  lemma MarkedExactly(erased: Flags, page: u32, len: nat)
    requires FLASH_BEGIN < page && page + len <= FLASH_END
    requires forall k :: 0 <= k < SECTOR_COUNT ==> erased[k]
    ensures MarksAll(page, len) <==>
            forall k :: 0 <= k < SECTOR_COUNT && len > 0 && Overlaps(page, len, k) ==> !Mark(erased, page, page + len).erased[k]
  {
    if len > 0 {
      var last := AddressToSector(page + len - 1);
      SectorOfAddress(page);
      SectorOfAddress(page + len - 1);
      MarkVisits(erased, page, page + len, last);
      OverlapRange(page, len, last);
      if MarksAll(page, len) {
        OverlappedMarked(erased, page, len);
      }
    }
  }

  lemma OverlapRange(page: u32, len: nat, k: nat)
    requires FLASH_BEGIN < page && page + len <= FLASH_END && 0 < len && k < SECTOR_COUNT
    ensures Overlaps(page, len, k) <==> AddressToSector(page) <= k <= AddressToSector(page + len - 1)
  {
    SectorOfAddress(page);
    SectorOfAddress(page + len - 1);
  }

  lemma OverlappedMarked(erased: Flags, page: u32, len: nat)
    requires FLASH_BEGIN < page && page + len <= FLASH_END && 0 < len && MarksAll(page, len)
    ensures forall k :: 0 <= k < SECTOR_COUNT && Overlaps(page, len, k) ==> !Mark(erased, page, page + len).erased[k]
  {
    forall k | 0 <= k < SECTOR_COUNT && Overlaps(page, len, k)
      ensures !Mark(erased, page, page + len).erased[k]
    {
      OverlapRange(page, len, k);
      SectorOfAddress(page);
      SectorOfAddress(page + len - 1);
      MarkVisits(erased, page, page + len, k);
      if AddressToSector(page) < k {
        MiddleReached(page, len, k);
      }
    }
  }

  lemma MiddleReached(page: u32, len: nat, k: nat)
    requires FLASH_BEGIN < page && page + len <= FLASH_END && 0 < len && MarksAll(page, len)
    requires AddressToSector(page) < k <= AddressToSector(page + len - 1)
    ensures k < SECTOR_COUNT && SectorStart(k) + (Offset(page) - SectorStart(AddressToSector(page))) < Offset(page) + len
  {
    SectorOfAddress(page);
    SectorOfAddress(page + len - 1);
  }

  /** The loop runs to its end unless the write begins inside the last sector; then nothing is programmed. */
  lemma {:induction false} MarkCompletes(erased: Flags, a: u32, end: u32)
    requires FLASH_BEGIN < a && end <= FLASH_END && end <= a + 0x2_0000
    ensures Mark(erased, a, end).completed <==> a >= end || a <= LAST_SECTOR
    decreases end - a
  {
    if a < end {
      SectorOfAddress(a);
      var next := a + SectorSize(a);
      if AddressIsValid(next) && next < end {
        MarkCompletes(erased[AddressToSector(a) := false], next, end);
      }
    }
  }

  /** Every write takes the flag of its first sector; if it begins inside the last sector, that is all it does. */
  lemma FirstSectorUnflagged(fl: Flash, page: u32, data: seq<byte>, outcome: Outcome)
    requires FLASH_BEGIN < page && 0 < |data| <= 0x8000 && page + |data| <= FLASH_END
    ensures AddressToSector(page) < SECTOR_COUNT && !PageWrite(fl, page, data, outcome).erased[AddressToSector(page)]
    ensures LAST_SECTOR < page ==> PageWrite(fl, page, data, outcome) == fl.(erased := fl.erased[7 := false])
  {
    var end := page + |data|;
    SectorOfAddress(page);
    SectorOfAddress(end - 1);
    MarkVisits(fl.erased, page, end, AddressToSector(page));
    MarkCompletes(fl.erased, page, end);
    hide Program;
  }

  // ----- the flags over whole runs -----

  lemma EraseSound(fl: Flash, page: u32, outcome: Outcome)
    requires Sound(fl) && page != FLASH_END
    ensures Sound(PageErase(fl, page, outcome))
  {
    if AddressIsValid(page) {
      SectorOfAddress(page);
    }
  }

  /** The last sector of the write is marked, or was not flagged to begin with. */
  predicate LastAccounted(fl: Flash, page: u32, len: nat)
    requires FLASH_BEGIN < page && page + len <= FLASH_END
  {
    MarksAll(page, len) || !fl.erased[LastSector(page, len)]
  }

  function LastSector(page: u32, len: nat): (k: nat)
    requires FLASH_BEGIN < page && page + len <= FLASH_END
    ensures k < SECTOR_COUNT
  {
    if len == 0 then 0
    else
      SectorOfAddress(page + len - 1);
      AddressToSector(page + len - 1)
  }

  /** After the loop no sector of such a write is flagged. */
  lemma OverlappedUnflagged(fl: Flash, page: u32, len: nat, k: nat)
    requires FLASH_BEGIN < page && page + len <= FLASH_END && 0 < len && LastAccounted(fl, page, len)
    requires k < SECTOR_COUNT && Overlaps(page, len, k)
    ensures !Mark(fl.erased, page, page + len).erased[k]
  {
    hide Mark;
    if MarksAll(page, len) {
      OverlappedMarked(fl.erased, page, len);
    } else {
      OverlapRange(page, len, k);
      MarkOnlyClears(fl.erased, page, page + len);
      MarkVisits(fl.erased, page, page + len, k);
      if k != LastSector(page, len) {
        EarlierReached(page, len, k);
      }
    }
  }

  /** Sectors do not get smaller, so the loop can only step over the last one. */
  lemma EarlierReached(page: u32, len: nat, k: nat)
    requires FLASH_BEGIN < page && page + len <= FLASH_END && 0 < len
    requires AddressToSector(page) <= k < AddressToSector(page + len - 1)
    ensures k < SECTOR_COUNT && SectorStart(k) + (Offset(page) - SectorStart(AddressToSector(page))) < Offset(page) + len
  {
    SectorOfAddress(page);
    SectorOfAddress(page + len - 1);
  }

  /** A write whose last sector is accounted for keeps the flags sound, whatever the hardware does. */
  lemma WriteSound(fl: Flash, page: u32, data: seq<byte>, outcome: Outcome)
    requires Sound(fl) && |data| <= 0x8000
    requires AddressIsValid(page) && AddressIsValid(page + |data|) ==> LastAccounted(fl, page, |data|)
    ensures Sound(PageWrite(fl, page, data, outcome))
  {
    hide LastAccounted, AddressToSector;
    var fl' := PageWrite(fl, page, data, outcome);
    if AddressIsValid(page) && AddressIsValid(page + |data|) {
      MarkOnlyClears(fl.erased, page, page + |data|);
      forall k | 0 <= k < SECTOR_COUNT && fl'.erased[k]
        ensures SectorErased(fl'.mem, k)
      {
        assert SectorErased(fl.mem, k);
        if data != [] && Overlaps(page, |data|, k) {
          OverlappedUnflagged(fl, page, |data|, k);
        }
      }
    }
  }

  /** The condition is exact, from every state with sound flags: programming data whose last byte is not 0xFF keeps the flags
      sound if and only if the loop marks all its sectors or the last of them was not flagged. */
  lemma WriteSoundExactly(fl: Flash, page: u32, data: seq<byte>)
    requires Sound(fl)
    requires 0 < |data| <= 0x8000 && data[|data| - 1] != 0xFF
    requires AddressIsValid(page) && AddressIsValid(page + |data|) && page <= LAST_SECTOR
    ensures Sound(PageWrite(fl, page, data, Done))
       <==> MarksAll(page, |data|) || !fl.erased[AddressToSector(page + |data| - 1)]
  {
    hide PageWrite, MarksAll, Sound, AddressToSector;
    if LastAccounted(fl, page, |data|) {
      WriteSound(fl, page, data, Done);
    } else {
      MissedSectorStays(fl, page, data);
    }
  }

  lemma MissedSectorStays(fl: Flash, page: u32, data: seq<byte>)
    requires 0 < |data| <= 0x8000 && data[|data| - 1] != 0xFF
    requires AddressIsValid(page) && AddressIsValid(page + |data|) && page <= LAST_SECTOR
    requires !LastAccounted(fl, page, |data|)
    ensures !Sound(PageWrite(fl, page, data, Done))
  {
    hide Mark, AddressToSector, SectorSize;
    var end := page + |data|;
    MarkCompletes(fl.erased, page, end);
    var last := AddressToSector(end - 1);
    SectorOfAddress(end - 1);
    SectorOfAddress(page);
    MarkVisits(fl.erased, page, end, last);
    var fl' := PageWrite(fl, page, data, Done);
    var at := Offset(end - 1);
    assert fl'.mem[at] == And(fl.mem[at], data[|data| - 1]) <= data[|data| - 1];
    assert fl'.erased[last] && fl'.mem[at] != 0xFF;
  }

  datatype Operation = Erase(page: u32, outcome: Outcome) | Write(page: u32, data: seq<byte>, outcome: Outcome) | Reset

  /** `Reset` is a restart of the firmware, which clears the flags. */
  function Apply(fl: Flash, op: Operation): Flash {
    match op
    case Erase(page, outcome) => if page == FLASH_END then fl else PageErase(fl, page, outcome)
    case Write(page, data, outcome) => PageWrite(fl, page, data, outcome)
    case Reset => Unflagged(fl.mem)
  }

  function Run(fl: Flash, ops: seq<Operation>): Flash {
    if ops == [] then fl else Apply(Run(fl, ops[..|ops| - 1]), ops[|ops| - 1])
  }

  /** A write that starts on a sector boundary or stays inside a sector is such an operation in every state. */
  predicate Accounted(fl: Flash, op: Operation) {
    op.Write? ==>
      && |op.data| <= 0x8000
      && (AddressIsValid(op.page) && AddressIsValid(op.page + |op.data|) ==> LastAccounted(fl, op.page, |op.data|))
  }

  /** Erased-cache soundness over every run. */
  lemma {:induction false} RunSound(fl: Flash, ops: seq<Operation>)
    requires Sound(fl) && forall i :: 0 <= i < |ops| ==> Accounted(Run(fl, ops[..i]), ops[i])
    ensures Sound(Run(fl, ops))
  {
    if ops != [] {
      var before := ops[..|ops| - 1];
      var fl' := Run(fl, before);
      assert forall i :: 0 <= i < |before| ==> before[..i] == ops[..i] && before[i] == ops[i];
      hide Sound, LastAccounted, PageErase, PageWrite;
      RunSound(fl, before);
      match ops[|ops| - 1]
      case Erase(page, outcome) =>
        if page != FLASH_END {
          EraseSound(fl', page, outcome);
        }
      case Write(page, data, outcome) =>
        WriteSound(fl', page, data, outcome);
      case Reset => NothingFlagged(fl'.mem);
    }
  }

  lemma NothingFlagged(m: Memory)
    ensures Sound(Unflagged(m))
  {
  }

  /** The flags can lie otherwise: eight bytes across the boundary between the sectors at 0x08010000 and 0x08020000 leave the
      second one flagged though it has been written, and a later erase leaves it as it is. */
  lemma StaleFlag(fl: Flash)
    requires Sound(fl) && fl.erased[5]
    ensures
      var fl' := PageWrite(fl, 0x0801_FFFC, [0, 0, 0, 0, 0, 0, 0, 0], Done);
      && !Sound(fl') && fl'.erased[5]
      && fl'.mem[0x2_0000] == 0 && PageErase(fl', 0x0802_0000, Done) == fl'
  {
    var page, end := 0x0801_FFFC, 0x0802_0004;
    var data: seq<byte> := [0, 0, 0, 0, 0, 0, 0, 0];
    assert Mark(fl.erased, page, end) == Marking(fl.erased[4 := false], true);
    var fl' := PageWrite(fl, page, data, Done);
    assert fl'.mem[0x2_0000] == And(fl.mem[0x2_0000], 0) == 0;
    assert fl'.erased[5] && SectorStart(5) == 0x2_0000;
  }

  // ----- what a write does to the memory -----

  /** Erased memory takes the data as it is. */
  lemma ErasedTakesData(fl: Flash, page: u32, data: seq<byte>)
    requires FLASH_BEGIN < page <= LAST_SECTOR && |data| <= 0x8000 && page + |data| <= FLASH_END
    requires forall i :: Offset(page) <= i < Offset(page) + |data| ==> fl.mem[i] == 0xFF
    ensures PageWrite(fl, page, data, Done).mem[Offset(page)..Offset(page) + |data|] == data
  {
    MarkCompletes(fl.erased, page, page + |data|);
    hide Mark, And;
    var s := PageWrite(fl, page, data, Done).mem[Offset(page)..Offset(page) + |data|];
    forall i | 0 <= i < |data|
      ensures s[i] == data[i]
    {
      assert s[i] == And(0xFF, data[i]);
      AndErased(data[i]);
    }
  }

  /** An erase changes at most the sector its address lies in; a write at most its own bytes. */
  lemma EraseFrame(fl: Flash, page: u32, outcome: Outcome, i: nat)
    requires page != FLASH_END && i < FLASH_SIZE
    requires AddressIsValid(page) ==> var k := AddressToSector(page); k >= SECTOR_COUNT || i < SectorStart(k) || SectorStart(k + 1) <= i
    ensures PageErase(fl, page, outcome).mem[i] == fl.mem[i]
  {
  }

  lemma WriteFrame(fl: Flash, page: u32, data: seq<byte>, outcome: Outcome, i: nat)
    requires i < FLASH_SIZE && |data| <= 0x8000
    requires FLASH_BEGIN <= page ==> i < Offset(page) || Offset(page) + |data| <= i
    ensures PageWrite(fl, page, data, outcome).mem[i] == fl.mem[i]
  {
  }
}
