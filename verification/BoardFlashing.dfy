/** What an undisturbed flashing procedure does to one board: every page erased, every page written, the configuration saved. */
module BoardFlashing {
  import opened Bytes
  import opened Wrappers
  import opened Flash
  import opened Configuration
  import opened Commands
  import opened Network
  import opened ErasedCache
  import opened Undisturbed
  import BoardRuns
  import ConfigPages
  import MessagePack

  /** The board is of this class, and its flags do not lie. */
  predicate Flashable(b: Board, deviceClass: seq<byte>) {
    BoardRuns.Proper(b.config) && SameClass(deviceClass, b.config) && Sound(b.flash)
  }

  // ----- erasing -----

  function AfterErase(b: Board, address: u32): Board
    requires address < FLASH_END
  {
    b.(flash := PageErase(b.flash, address, Done))
  }

  lemma ErasePerforms(b: Board, address: u32, deviceClass: seq<byte>)
    requires BoardRuns.Proper(b.config) && SameClass(deviceClass, b.config) && APP_BEGIN <= address < FLASH_END
    ensures Performs(EraseRequest(address, deviceClass), b, AfterErase(b, address), [1])
  {
    hide BoardRuns.Proper, SameClass, EraseFlashPage, PageErase;
    forall hw | Working(hw)
      ensures Perform(b, EraseRequest(address, deviceClass), hw) == Result(AfterErase(b, address), [1], true)
    {
      BoardRuns.WorkingErase(b, address, deviceClass, hw.outcomes, hw.beyond);
    }
  }

  /** The flash after the first `k` pages of the given size, from `base` on, have been erased. */
  function EraseAll(fl: Flash, base: u32, pageSize: nat, k: nat): Flash
    requires k > 0 ==> base + (k - 1) * pageSize < FLASH_END
  {
    if k == 0 then fl
    else
      PreviousPage(k - 1, pageSize);
      PageErase(EraseAll(fl, base, pageSize, k - 1), base + (k - 1) * pageSize, Done)
  }

  lemma EraseAllNext(fl: Flash, base: u32, pageSize: nat, k: nat)
    requires base + k * pageSize < FLASH_END
    ensures (k > 0 ==> base + (k - 1) * pageSize < FLASH_END) && base + (k + 1 - 1) * pageSize < FLASH_END
    ensures EraseAll(fl, base, pageSize, k + 1) == PageErase(EraseAll(fl, base, pageSize, k), base + k * pageSize, Done)
  {
    PreviousPage(k, pageSize);
  }

  lemma PreviousPage(k: nat, pageSize: nat)
    ensures k > 0 ==> 0 <= (k - 1) * pageSize <= k * pageSize
    ensures 0 <= k * pageSize
  {
  }

  lemma PageOrder(i: nat, k: nat, pageSize: nat)
    ensures 0 <= i * pageSize && (i <= k ==> i * pageSize <= k * pageSize)
  {
  }

  lemma {:induction false} EraseAllSound(fl: Flash, base: u32, pageSize: nat, k: nat)
    requires APP_BEGIN <= base && Sound(fl) && (k > 0 ==> base + (k - 1) * pageSize < FLASH_END)
    ensures Sound(EraseAll(fl, base, pageSize, k))
  {
    if k > 0 {
      PreviousPage(k - 1, pageSize);
      EraseAllSound(fl, base, pageSize, k - 1);
      hide Sound, PageErase;
      EraseSound(EraseAll(fl, base, pageSize, k - 1), base + (k - 1) * pageSize, Done);
    }
  }

  /** The sector a page begins in has been erased. */
  lemma {:induction false} PageSectorFlagged(fl: Flash, base: u32, pageSize: nat, k: nat, i: nat, address: u32)
    requires APP_BEGIN <= base && i < k && base + (k - 1) * pageSize < FLASH_END
    requires address == base + i * pageSize && FLASH_BEGIN < address < FLASH_END && AddressToSector(address) < SECTOR_COUNT
    ensures EraseAll(fl, base, pageSize, k).erased[AddressToSector(address)]
  {
    hide AddressToSector, PageErase;
    PreviousPage(k - 1, pageSize);
    var last := base + (k - 1) * pageSize;
    SectorOfAddress(last);
    if i < k - 1 {
      PageSectorFlagged(fl, base, pageSize, k - 1, i, address);
    }
    FlagSet(EraseAll(fl, base, pageSize, k - 1), last);
  }

  lemma PageSectorErased(fl: Flash, base: u32, pageSize: nat, k: nat, i: nat)
    requires APP_BEGIN <= base && Sound(fl) && i < k && base + (k - 1) * pageSize < FLASH_END
    ensures i * pageSize <= (k - 1) * pageSize && AddressToSector(base + i * pageSize) < SECTOR_COUNT
    ensures
      var fl', s := EraseAll(fl, base, pageSize, k), AddressToSector(base + i * pageSize);
      fl'.erased[s] && SectorErased(fl'.mem, s)
  {
    PageOrder(i, k - 1, pageSize);
    var address := base + i * pageSize;
    SectorOfAddress(address);
    hide AddressToSector, SectorErased;
    EraseAllSound(fl, base, pageSize, k);
    PageSectorFlagged(fl, base, pageSize, k, i, address);
    hide EraseAll;
  }

  lemma FlagSet(fl: Flash, address: u32)
    requires FLASH_BEGIN < address < FLASH_END && AddressToSector(address) < SECTOR_COUNT
    ensures PageErase(fl, address, Done).erased == fl.erased[AddressToSector(address) := true]
  {
    hide AddressToSector, EraseSector;
  }

  /** The last byte lies in the sector in which the last page begins. */
  predicate LastPageInSector(base: u32, size: nat, pageSize: nat)
    requires 0 < size && 1 <= pageSize && base + size <= FLASH_END
  {
    LastStart(size, pageSize);
    AddressToSector(base + (size - 1) / pageSize * pageSize) == AddressToSector(base + size - 1)
  }

  lemma LastStart(size: nat, pageSize: nat)
    requires 0 < size && 1 <= pageSize
    ensures 0 <= (size - 1) / pageSize * pageSize <= size - 1 < (size - 1) / pageSize * pageSize + pageSize
  {
    var q := (size - 1) / pageSize;
    assert q * pageSize + (size - 1) % pageSize == size - 1;
  }

  /** Some page begins in the sector of each byte of the image. */
  lemma PageInSectorOf(base: u32, size: nat, pageSize: nat, j: nat) returns (i: nat)
    requires APP_BEGIN <= base && 0 < size && 1 <= pageSize <= 0x8000 && base + size <= FLASH_END && j < size
    requires LastPageInSector(base, size, pageSize)
    ensures i <= (size - 1) / pageSize && 0 <= i * pageSize <= (size - 1) / pageSize * pageSize
    ensures AddressToSector(base + i * pageSize) == AddressToSector(base + j)
  {
    var last := (size - 1) / pageSize;
    LastStart(size, pageSize);
    LastStart(j + 1, pageSize);
    i := j / pageSize;
    QuotientOrder(j, size - 1, pageSize);
    PageOrder(i, last, pageSize);
    PageOrder(i + 1, last, pageSize);
    NextStart(i, pageSize);
    var start := base + i * pageSize;
    NearestStart(start, base + j, base + (i + 1) * pageSize, base + last * pageSize, base + size - 1, i == last);
    hide AddressToSector, LastPageInSector;
    if AddressToSector(start) != AddressToSector(base + j) {
      i := i + 1;
    }
  }

  /** A byte's sector is that of its page's start, or of the next page's start if there is one. */
  lemma NearestStart(start: int, at: u32, next: int, last: int, end: u32, isLast: bool)
    requires APP_BEGIN <= start <= at <= end < FLASH_END && start <= last <= end
    requires AddressToSector(last) == AddressToSector(end)
    requires if isLast then start == last else at < next <= start + 0x8000 && next <= last
    ensures AddressToSector(start) == AddressToSector(at) || (!isLast && AddressToSector(next) == AddressToSector(at))
  {
    SectorsOrdered(start, at);
    SectorsOrdered(at, end);
    if !isLast && AddressToSector(start) != AddressToSector(at) {
      NextPageInSector(start, at, next);
    }
    hide AddressToSector;
  }

  lemma NextStart(k: nat, pageSize: nat)
    ensures (k + 1) * pageSize == k * pageSize + pageSize
  {
  }

  lemma QuotientOrder(a: nat, b: nat, d: nat)
    requires a <= b && 1 <= d
    ensures a / d <= b / d
  {
    LastStart(a + 1, d);
    LastStart(b + 1, d);
    PageOrder(b / d + 1, a / d, d);
    NextStart(b / d, d);
  }

  lemma SectorsOrdered(a: u32, b: u32)
    requires FLASH_BEGIN < a <= b < FLASH_END
    ensures AddressToSector(a) <= AddressToSector(b)
  {
  }

  /** The application's sectors are larger than any page, so a page that runs over a boundary is followed by one in that sector. */
  lemma NextPageInSector(start: u32, at: u32, next: u32)
    requires APP_BEGIN <= start <= at < next <= start + 0x8000 && next < FLASH_END
    requires AddressToSector(start) != AddressToSector(at)
    ensures AddressToSector(next) == AddressToSector(at)
  {
  }

  /** What the erase phase achieves on working hardware: with sound flags, whatever the flash held, every byte of the image's
      place is erased, if the last byte lies in the sector in which the last page begins. */
  lemma ImagePlaceErased(fl: Flash, base: u32, size: nat, pageSize: nat, i: nat)
    requires APP_BEGIN <= base && 0 < size && 1 <= pageSize <= 0x8000 && base + size <= FLASH_END && i < size
    requires Sound(fl) && LastPageInSector(base, size, pageSize)
    ensures (size - 1) / pageSize * pageSize <= size - 1
    ensures EraseAll(fl, base, pageSize, (size - 1) / pageSize + 1).mem[Offset(base) + i] == 0xFF
  {
    LastStart(size, pageSize);
    var j := PageInSectorOf(base, size, pageSize, i);
    PageSectorErased(fl, base, pageSize, (size - 1) / pageSize + 1, j);
    SectorOfAddress(base + i);
  }

  /** And not otherwise: a last byte in a later sector stays as it was. */
  lemma {:induction false} LastByteKept(fl: Flash, base: u32, size: nat, pageSize: nat, k: nat)
    requires APP_BEGIN <= base && 0 < size && 1 <= pageSize && base + size <= FLASH_END
    requires k <= (size - 1) / pageSize + 1 && !LastPageInSector(base, size, pageSize)
    ensures k > 0 ==> base + (k - 1) * pageSize < FLASH_END
    ensures EraseAll(fl, base, pageSize, k).mem[Offset(base) + size - 1] == fl.mem[Offset(base) + size - 1]
  {
    LastStart(size, pageSize);
    if k > 0 {
      PageOrder(k - 1, (size - 1) / pageSize, pageSize);
      LastByteKept(fl, base, size, pageSize, k - 1);
      var start, last := base + (k - 1) * pageSize, base + (size - 1) / pageSize * pageSize;
      hide LastPageInSector, PageErase;
      EarlierErase(EraseAll(fl, base, pageSize, k - 1), start, last, base + size - 1);
    }
  }

  lemma EarlierErase(fl: Flash, start: u32, last: u32, end: u32)
    requires FLASH_BEGIN < start <= last <= end < FLASH_END && AddressToSector(last) != AddressToSector(end)
    ensures PageErase(fl, start, Done).mem[Offset(end)] == fl.mem[Offset(end)]
  {
    SectorsOrdered(start, last);
    SectorsOrdered(last, end);
    SectorOfAddress(end);
    SectorOfAddress(start);
    hide AddressToSector, PageErase;
    EraseFrame(fl, start, Done, Offset(end));
  }

  // ----- writing -----

  predicate PlaceErased(m: Memory, address: int, size: nat) {
    FLASH_BEGIN <= address && forall i :: 0 <= i < FLASH_SIZE && address <= FLASH_BEGIN + i < address + size ==> m[i] == 0xFF
  }

  function AfterWrite(b: Board, address: u32, chunk: seq<byte>): Board {
    b.(flash := PageWrite(b.flash, address, chunk, Done))
  }

  lemma WritePerforms(b: Board, address: u32, deviceClass: seq<byte>, chunk: seq<byte>)
    requires BoardRuns.Proper(b.config) && SameClass(deviceClass, b.config) && APP_BEGIN <= address
    requires Programmable(address, chunk) && PlaceErased(b.flash.mem, address, |chunk|)
    ensures Performs(WriteRequest(address, deviceClass, chunk), b, AfterWrite(b, address, chunk), [0xC3])
  {
    hide BoardRuns.Proper, SameClass, PageWrite;
  }

  /** What a written page leaves erased behind it, and that it does not touch the configuration's sectors. */
  lemma WriteKeeps(b: Board, address: u32, chunk: seq<byte>, to: int)
    requires APP_BEGIN <= address && Programmable(address, chunk) && address + |chunk| <= to <= FLASH_END
    requires PlaceErased(b.flash.mem, address, to - address)
    ensures PlaceErased(AfterWrite(b, address, chunk).flash.mem, address + |chunk|, to - address - |chunk|)
    ensures ConfigPages.ConfigHonest(b.flash) ==> ConfigPages.ConfigHonest(AfterWrite(b, address, chunk).flash)
  {
    var fl' := PageWrite(b.flash, address, chunk, Done);
    hide Mark, PageWrite;
    forall i | 0 <= i < FLASH_SIZE && !(address <= FLASH_BEGIN + i < address + |chunk|)
      ensures fl'.mem[i] == b.flash.mem[i]
    {
      ErasedCache.WriteFrame(b.flash, address, chunk, Done, i);
    }
    WriteClears(b.flash, address, chunk);
  }

  lemma WriteClears(fl: Flash, address: u32, chunk: seq<byte>)
    ensures forall k :: 0 <= k < SECTOR_COUNT && PageWrite(fl, address, chunk, Done).erased[k] ==> fl.erased[k]
  {
    var end := (address + |chunk|) % 0x1_0000_0000;
    MarkOnlyClears(fl.erased, address, end);
  }

  // ----- the configuration -----

  function WithApplication(c: Config, size: u32, crc: u32): Config {
    c.(applicationSize := size, applicationCrc := crc)
  }

  function AfterUpdate(b: Board, size: u32, crc: u32): Board {
    b.(config := WithApplication(b.config, size, crc))
  }

  lemma UpdatePerforms(b: Board, size: u32, crc: u32)
    requires BoardRuns.Proper(b.config)
    ensures Performs(UpdateRequest(size, crc), b, AfterUpdate(b, size, crc), [0xC3])
    ensures BoardRuns.Proper(AfterUpdate(b, size, crc).config)
  {
    UpdateOnce(b, size, crc);
    BoardRuns.UpdateProper(b.config, UpdateArguments(size, crc));
    hide BoardRuns.Proper, UpdateFromSerialized, UpdateArguments, Configured;
  }

  function AfterSave(b: Board): Board
    requires BoardRuns.Proper(b.config)
  {
    BoardRuns.IncrementedStorable(b.config);
    ConfigSave(b, Attempt(Done, Done), Attempt(Done, Done)).board
  }

  /** Both pages hold the configuration in use. */
  predicate Stored(b: Board) {
    Storable(b.config) && PageAt(b.flash.mem, CONFIG1) == PageAt(b.flash.mem, CONFIG2) == Page(b.config)
  }

  lemma SavePerforms(b: Board)
    requires BoardRuns.Proper(b.config) && ConfigPages.ConfigHonest(b.flash)
    ensures Performs(SaveRequest, b, AfterSave(b), [0xC3])
  {
    BoardRuns.IncrementedStorable(b.config);
    hide BoardRuns.Proper, BootPage, WellFormed, FitsPage, CommitHarmless, ConfigPages.ConfigHonest, ConfigSave;
    ConfigPages.HealthySave(b, b.config);
  }

  lemma SaveStores(b: Board)
    requires BoardRuns.Proper(b.config) && ConfigPages.ConfigHonest(b.flash)
    ensures AfterSave(b).config == Incremented(b.config) && BoardRuns.Proper(AfterSave(b).config)
    ensures Stored(AfterSave(b)) && BootPage(AfterSave(b).flash.mem) == Some(Page(AfterSave(b).config))
    ensures forall i :: BoardRuns.APP_OFFSET <= i < FLASH_SIZE ==> AfterSave(b).flash.mem[i] == b.flash.mem[i]
  {
    BoardRuns.IncrementedStorable(b.config);
    hide BoardRuns.Proper, BootPage, WellFormed, FitsPage, CommitHarmless, ConfigPages.ConfigHonest, ConfigSave, Page;
    ConfigPages.HealthySave(b, b.config);
    SaveOnce(b, Attempt(Done, Done), Attempt(Done, Done));
  }

  /** Every save delivered to this board is carried out. */
  ghost predicate SavesWork(events: seq<BusEvent>, d: byte) {
    forall i :: 0 <= i < |events| && events[i].Deliver? && events[i].to == d ==>
      events[i].hw.first == Attempt(Done, Done) && events[i].hw.second == Attempt(Done, Done)
  }

  predicate SaveKept(net: Net, d: byte, took: bool) {
    d in net.boards && ConfigPages.ConfigHonest(net.boards[d].flash) && (took ==> Stored(net.boards[d]))
  }

  lemma SaveStoresStep(destinations: seq<byte>, o: Retry.Options, net: Net, ev: BusEvent, d: byte, took: bool)
    requires AllProper(net.boards) && SaveKept(net, d, took)
    requires ev.Deliver? && ev.to == d ==> ev.hw.first == Attempt(Done, Done) && ev.hw.second == Attempt(Done, Done)
    ensures SaveKept(NetStep(SaveRequest, destinations, o, net, ev), d, took || EffectiveDelivery(net, ev, d))
  {
    hide BoardRuns.Proper, Stored, ConfigPages.ConfigHonest, ConfigSave, Retry.Step;
    if ev.Deliver? && ev.to == d {
      SavePerforms(net.boards[d]);
      SaveStores(net.boards[d]);
      SaveAlive(net.boards[d]);
    }
  }

  lemma SaveAlive(b: Board)
    requires BoardRuns.Proper(b.config) && ConfigPages.ConfigHonest(b.flash)
    ensures Storable(Incremented(b.config)) && ConfigSave(b, Attempt(Done, Done), Attempt(Done, Done)).alive
    ensures ConfigPages.ConfigHonest(AfterSave(b).flash)
  {
    BoardRuns.IncrementedStorable(b.config);
    SaveOnce(b, Attempt(Done, Done), Attempt(Done, Done));
    hide BoardRuns.Proper, WellFormed, FitsPage, Page;
    ConfigPages.HealthySaveHonest(b.flash, Page(Incremented(b.config)));
  }

  /** After any run of a save request whose saves work, both pages of a board hold its configuration if a delivery took effect. */
  lemma {:induction false} SaveRequestStores(destinations: seq<byte>, o: Retry.Options, boards: map<byte, Board>, events: seq<BusEvent>, d: byte)
    requires AllProper(boards) && d in boards && ConfigPages.ConfigHonest(boards[d].flash) && SavesWork(events, d)
    ensures SaveKept(NetRun(SaveRequest, destinations, o, boards, events), d, TookEffect(SaveRequest, destinations, o, boards, events, d))
    decreases |events|
  {
    hide BoardRuns.Proper, NetStep, EffectiveDelivery, Stored, ConfigPages.ConfigHonest;
    if events != [] {
      var before, ev := events[..|events| - 1], events[|events| - 1];
      assert SavesWork(before, d);
      SaveRequestStores(destinations, o, boards, before, d);
      SaveStoresStep(destinations, o, NetRun(SaveRequest, destinations, o, boards, before), ev, d,
                     TookEffect(SaveRequest, destinations, o, boards, before, d));
    }
  }
}
