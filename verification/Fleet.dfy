/** Several boards at once, through a flashing procedure that nothing disturbs. */
module Fleet {
  import opened Bytes
  import opened Wrappers
  import opened Flash
  import opened Configuration
  import opened Commands
  import opened ErasedCache
  import opened Network
  import opened Rounds
  import opened Undisturbed
  import opened BoardFlashing
  import BoardRuns
  import ConfigPages
  import Retry

  type Boards = map<byte, Board>

  ghost predicate AllAnswered(scripts: seq<seq<BusEvent>>, first: nat, n: nat, destinations: seq<byte>, reply: seq<byte>) {
    first + n <= |scripts| && forall i :: first <= i < first + n ==> Answered(scripts[i], destinations, reply)
  }

  /** Every request of the whole procedure reaches every destination, whose hardware works, and every reply is heard. */
  ghost predicate NothingDisturbs(scripts: seq<seq<BusEvent>>, first: nat, pages: nat, destinations: seq<byte>) {
    && AllAnswered(scripts, first, pages, destinations, [1])
    && AllAnswered(scripts, first + pages, pages, destinations, [0xC3])
    && AllAnswered(scripts, first + pages + pages, 2, destinations, [0xC3])
  }

  /** There are such procedures for any destinations and any number of pages. */
  lemma SmoothProcedure(destinations: seq<byte>, hw: Hardware, pages: nat)
    requires Working(hw)
    ensures
      var erasing, other := seq<seq<BusEvent>>(pages, _ => Smooth(destinations, hw, [1])), Smooth(destinations, hw, [0xC3]);
      NothingDisturbs(erasing + seq<seq<BusEvent>>(pages + 2, _ => other), 0, pages, destinations)
  {
    SmoothIsAnswered(destinations, hw, [1]);
    SmoothIsAnswered(destinations, hw, [0xC3]);
    hide Smooth, Answered;
  }

  ghost predicate OfClass(boards: Boards, destinations: seq<byte>, deviceClass: seq<byte>) {
    AllProper(boards) && forall d :: d in destinations ==> d in boards && SameClass(deviceClass, boards[d].config)
  }

  ghost predicate AllFlashable(boards: Boards, destinations: seq<byte>, deviceClass: seq<byte>) {
    forall d :: d in destinations ==> d in boards && Flashable(boards[d], deviceClass)
  }

  /** The place of the image is erased on every destination, and the flags of the configuration's sectors do not lie. */
  ghost predicate PlacesErased(boards: Boards, destinations: seq<byte>, base: int, size: nat) {
    forall d :: d in destinations ==>
      d in boards && PlaceErased(boards[d].flash.mem, base, size) && ConfigPages.ConfigHonest(boards[d].flash)
  }

  /** Configured for the image, and both configuration pages say so. */
  ghost predicate AllStored(before: Boards, after: Boards, destinations: seq<byte>, size: u32, crc: u32) {
    forall d :: d in destinations ==>
      && d in before && d in after && after[d].config == Incremented(WithApplication(before[d].config, size, crc))
      && Stored(after[d]) && BootPage(after[d].flash.mem) == Some(Page(after[d].config))
  }

  function ErasedAt(boards: Boards, destinations: seq<byte>, address: u32): Boards
    requires address < FLASH_END
  {
    map d | d in boards :: if d in destinations then AfterErase(boards[d], address) else boards[d]
  }

  function ErasedTo(boards: Boards, destinations: seq<byte>, base: u32, pageSize: nat, k: nat): Boards
    requires k > 0 ==> base + (k - 1) * pageSize < FLASH_END
  {
    map d | d in boards ::
      if d in destinations then boards[d].(flash := EraseAll(boards[d].flash, base, pageSize, k)) else boards[d]
  }

  function WrittenAt(boards: Boards, destinations: seq<byte>, address: u32, chunk: seq<byte>): Boards {
    map d | d in boards :: if d in destinations then AfterWrite(boards[d], address, chunk) else boards[d]
  }

  lemma EraseAnswered(boards: Boards, destinations: seq<byte>, address: u32, deviceClass: seq<byte>, events: seq<BusEvent>)
    requires OfClass(boards, destinations, deviceClass) && Retry.Distinct(destinations)
    requires APP_BEGIN <= address < FLASH_END && Answered(events, destinations, [1])
    ensures
      var net := NetRun(EraseRequest(address, deviceClass), destinations, ERASE_OPTIONS, boards, events);
      && net.session.verdict == Retry.Complete && net.boards == ErasedAt(boards, destinations, address)
      && forall d :: d in net.session.answers ==> net.session.answers[d] == [1]
  {
    hide BoardRuns.Proper, SameClass, Performs, Answered, NetRun, AfterErase;
    forall d | d in destinations
      ensures Performs(EraseRequest(address, deviceClass), boards[d], AfterErase(boards[d], address), [1])
    {
      ErasePerforms(boards[d], address, deviceClass);
    }
    AnsweredCompletes(EraseRequest(address, deviceClass), destinations, ERASE_OPTIONS, boards,
                      ErasedAt(boards, destinations, address), [1], events);
  }

  lemma WriteAnswered(boards: Boards, destinations: seq<byte>, address: u32, deviceClass: seq<byte>, chunk: seq<byte>, events: seq<BusEvent>)
    requires OfClass(boards, destinations, deviceClass) && Retry.Distinct(destinations)
    requires APP_BEGIN <= address && Programmable(address, chunk) && Answered(events, destinations, [0xC3])
    requires forall d :: d in destinations ==> PlaceErased(boards[d].flash.mem, address, |chunk|)
    ensures
      var net := NetRun(WriteRequest(address, deviceClass, chunk), destinations, WRITE_OPTIONS, boards, events);
      && net.session.verdict == Retry.Complete && net.boards == WrittenAt(boards, destinations, address, chunk)
      && forall d :: d in net.session.answers ==> net.session.answers[d] == [0xC3]
  {
    hide BoardRuns.Proper, SameClass, Performs, Answered, NetRun, AfterWrite, PlaceErased, Programmable;
    var r := WriteRequest(address, deviceClass, chunk);
    forall d | d in destinations
      ensures Performs(r, boards[d], AfterWrite(boards[d], address, chunk), [0xC3])
    {
      WritePerforms(boards[d], address, deviceClass, chunk);
    }
    AnsweredCompletes(r, destinations, WRITE_OPTIONS, boards, WrittenAt(boards, destinations, address, chunk), [0xC3], events);
  }

  lemma UpdateAnswered(boards: Boards, destinations: seq<byte>, size: u32, crc: u32, events: seq<BusEvent>)
    requires AllProper(boards) && Retry.Distinct(destinations) && (forall d :: d in destinations ==> d in boards)
    requires Answered(events, destinations, [0xC3])
    ensures
      var net := NetRun(UpdateRequest(size, crc), destinations, CONFIG_OPTIONS, boards, events);
      && net.session.verdict == Retry.Complete && net.boards.Keys == boards.Keys
      && forall d :: d in destinations ==> net.boards[d] == AfterUpdate(boards[d], size, crc)
  {
    hide BoardRuns.Proper, Performs, Answered, NetRun, AfterUpdate;
    var r := UpdateRequest(size, crc);
    forall d | d in destinations
      ensures Performs(r, boards[d], AfterUpdate(boards[d], size, crc), [0xC3])
    {
      UpdatePerforms(boards[d], size, crc);
    }
    var after := map d | d in boards :: if d in destinations then AfterUpdate(boards[d], size, crc) else boards[d];
    AnsweredCompletes(r, destinations, CONFIG_OPTIONS, boards, after, [0xC3], events);
  }

  lemma SaveAnswered(boards: Boards, destinations: seq<byte>, events: seq<BusEvent>)
    requires AllProper(boards) && Retry.Distinct(destinations) && Answered(events, destinations, [0xC3])
    requires forall d :: d in destinations ==> d in boards && ConfigPages.ConfigHonest(boards[d].flash)
    ensures
      var net := NetRun(SaveRequest, destinations, CONFIG_OPTIONS, boards, events);
      && net.session.verdict == Retry.Complete && net.boards.Keys == boards.Keys
      && forall d :: d in destinations ==> net.boards[d] == AfterSave(boards[d])
  {
    hide BoardRuns.Proper, Performs, Answered, NetRun, AfterSave, ConfigPages.ConfigHonest;
    forall d | d in destinations
      ensures Performs(SaveRequest, boards[d], AfterSave(boards[d]), [0xC3])
    {
      SavePerforms(boards[d]);
    }
    var after := map d | d in boards :: if d in destinations then AfterSave(boards[d]) else boards[d];
    AnsweredCompletes(SaveRequest, destinations, CONFIG_OPTIONS, boards, after, [0xC3], events);
  }

  lemma GoodAnswers(answers: Answers, reply: seq<byte>)
    requires (forall d :: d in answers ==> answers[d] == reply) && (reply == [1] || reply == [0xC3])
    ensures !Garbled(answers) && !AnyFailed(answers)
  {
  }

  lemma StepErases(boards: Boards, destinations: seq<byte>, base: u32, pageSize: nat, k: nat)
    requires base + k * pageSize < FLASH_END
    ensures k > 0 ==> base + (k - 1) * pageSize < FLASH_END
    ensures ErasedAt(ErasedTo(boards, destinations, base, pageSize, k), destinations, base + k * pageSize)
         == ErasedTo(boards, destinations, base, pageSize, k + 1)
  {
    PreviousPage(k, pageSize);
    hide PageErase, EraseAll;
    forall d | d in boards && d in destinations
      ensures EraseAll(boards[d].flash, base, pageSize, k + 1)
           == PageErase(EraseAll(boards[d].flash, base, pageSize, k), base + k * pageSize, Done)
    {
      EraseAllNext(boards[d].flash, base, pageSize, k);
    }
  }

  lemma AllPlacesErased(boards: Boards, destinations: seq<byte>, deviceClass: seq<byte>, base: u32, size: nat, pageSize: nat)
    requires AllFlashable(boards, destinations, deviceClass) && APP_BEGIN <= base && 0 < size && 1 <= pageSize <= 0x8000
    requires base + size <= FLASH_END && LastPageInSector(base, size, pageSize)
    ensures 0 <= (size - 1) / pageSize * pageSize <= size - 1
    ensures PlacesErased(ErasedTo(boards, destinations, base, pageSize, (size - 1) / pageSize + 1), destinations, base, size)
  {
    LastStart(size, pageSize);
    hide EraseAll, LastPageInSector, BoardRuns.Proper, SameClass;
    var k := (size - 1) / pageSize + 1;
    forall d | d in destinations
      ensures
        var fl := EraseAll(boards[d].flash, base, pageSize, k);
        PlaceErased(fl.mem, base, size) && ConfigPages.ConfigHonest(fl)
    {
      EraseAllSound(boards[d].flash, base, pageSize, k);
      forall i | 0 <= i < FLASH_SIZE && base <= FLASH_BEGIN + i < base + size
        ensures EraseAll(boards[d].flash, base, pageSize, k).mem[i] == 0xFF
      {
        ImagePlaceErased(boards[d].flash, base, size, pageSize, i - Offset(base));
      }
    }
  }

  lemma NothingErased(boards: Boards, destinations: seq<byte>, base: u32, pageSize: nat)
    ensures ErasedTo(boards, destinations, base, pageSize, 0) == boards
  {
  }

  lemma ClassKept(boards: Boards, destinations: seq<byte>, deviceClass: seq<byte>, base: u32, pageSize: nat, k: nat)
    requires OfClass(boards, destinations, deviceClass) && (k > 0 ==> base + (k - 1) * pageSize < FLASH_END)
    ensures OfClass(ErasedTo(boards, destinations, base, pageSize, k), destinations, deviceClass)
  {
    hide EraseAll, SameClass, BoardRuns.Proper;
  }

  /** Every destination is of the class, and the place of what is still to be written is erased. */
  ghost predicate Awaiting(boards: Boards, destinations: seq<byte>, deviceClass: seq<byte>, address: int, size: nat) {
    OfClass(boards, destinations, deviceClass) && PlacesErased(boards, destinations, address, size)
  }

  ghost predicate SameConfigs(before: Boards, after: Boards, destinations: seq<byte>) {
    forall d :: d in destinations ==> d in before && d in after && after[d].config == before[d].config
  }

  lemma StepWrites(boards: Boards, destinations: seq<byte>, deviceClass: seq<byte>, address: u32, chunk: seq<byte>, size: nat)
    requires Awaiting(boards, destinations, deviceClass, address, size) && APP_BEGIN <= address && Programmable(address, chunk)
    requires |chunk| <= size && address + size <= FLASH_END
    ensures
      var after := WrittenAt(boards, destinations, address, chunk);
      && Awaiting(after, destinations, deviceClass, address + |chunk|, size - |chunk|) && SameConfigs(boards, after, destinations)
  {
    hide PageWrite, SameClass, BoardRuns.Proper, PlaceErased, ConfigPages.ConfigHonest, Programmable;
    forall d | d in destinations
      ensures
        var fl := AfterWrite(boards[d], address, chunk).flash;
        PlaceErased(fl.mem, address + |chunk|, size - |chunk|) && ConfigPages.ConfigHonest(fl)
    {
      WriteKeeps(boards[d], address, chunk, address + size);
    }
  }

  lemma PlaceShrinks(boards: Boards, destinations: seq<byte>, address: int, size: nat, n: nat)
    requires PlacesErased(boards, destinations, address, size) && n <= size
    ensures forall d :: d in destinations ==> PlaceErased(boards[d].flash.mem, address, n)
  {
  }

  lemma FlashableIsOfClass(boards: Boards, destinations: seq<byte>, deviceClass: seq<byte>)
    requires AllProper(boards) && AllFlashable(boards, destinations, deviceClass)
    ensures OfClass(boards, destinations, deviceClass)
  {
    hide SameClass, Sound;
  }

  lemma AnsweredNext(scripts: seq<seq<BusEvent>>, first: nat, n: nat, k: nat, destinations: seq<byte>, reply: seq<byte>)
    requires AllAnswered(scripts, first, n, destinations, reply) && k < n
    ensures AllAnswered(scripts, first + k, 1, destinations, reply)
  {
    hide Answered;
  }

  lemma AwaitingFirst(boards: Boards, destinations: seq<byte>, deviceClass: seq<byte>, address: int, size: nat, n: nat)
    requires Awaiting(boards, destinations, deviceClass, address, size) && n <= size
    ensures Awaiting(boards, destinations, deviceClass, address, n)
  {
    PlaceShrinks(boards, destinations, address, size, n);
    hide PlaceErased, OfClass;
  }

  ghost predicate AllConfigHonest(boards: Boards, destinations: seq<byte>) {
    forall d :: d in destinations ==> d in boards && ConfigPages.ConfigHonest(boards[d].flash)
  }

  lemma AwaitingHonest(boards: Boards, destinations: seq<byte>, deviceClass: seq<byte>, address: int, size: nat)
    requires Awaiting(boards, destinations, deviceClass, address, size)
    ensures AllConfigHonest(boards, destinations)
  {
    hide PlaceErased, OfClass, ConfigPages.ConfigHonest;
  }

  lemma SameConfigsAtFirst(boards: Boards, destinations: seq<byte>, deviceClass: seq<byte>, address: int, size: nat)
    requires Awaiting(boards, destinations, deviceClass, address, size)
    ensures SameConfigs(boards, boards, destinations)
  {
    hide PlaceErased, SameClass, ConfigPages.ConfigHonest;
  }

  lemma SameConfigsThen(first: Boards, before: Boards, after: Boards, destinations: seq<byte>)
    requires SameConfigs(first, before, destinations) && SameConfigs(before, after, destinations)
    ensures SameConfigs(first, after, destinations)
  {
  }

  lemma WriteAwaited(boards: Boards, destinations: seq<byte>, address: u32, deviceClass: seq<byte>, chunk: seq<byte>, events: seq<BusEvent>)
    requires Awaiting(boards, destinations, deviceClass, address, |chunk|) && Retry.Distinct(destinations)
    requires APP_BEGIN <= address && Programmable(address, chunk) && Answered(events, destinations, [0xC3])
    ensures AllProper(boards)
    ensures
      var net := NetRun(WriteRequest(address, deviceClass, chunk), destinations, WRITE_OPTIONS, boards, events);
      && net.session.verdict == Retry.Complete && net.boards == WrittenAt(boards, destinations, address, chunk)
      && forall d :: d in net.session.answers ==> net.session.answers[d] == [0xC3]
  {
    PlaceShrinks(boards, destinations, address, |chunk|, |chunk|);
    hide PlaceErased, SameClass, BoardRuns.Proper, NetRun, Answered, Programmable, WrittenAt;
    WriteAnswered(boards, destinations, address, deviceClass, chunk, events);
  }

  /** Update and save, undisturbed: both pages of every destination hold the configuration. */
  lemma SavedAll(before: Boards, updated: Boards, destinations: seq<byte>, size: u32, crc: u32, events: seq<BusEvent>)
    requires AllProper(before) && AllProper(updated) && AllConfigHonest(before, destinations) && Retry.Distinct(destinations)
    requires updated.Keys == before.Keys && forall d :: d in destinations ==> updated[d] == AfterUpdate(before[d], size, crc)
    requires Answered(events, destinations, [0xC3])
    ensures
      var net := NetRun(SaveRequest, destinations, CONFIG_OPTIONS, updated, events);
      net.session.verdict == Retry.Complete && AllStored(before, net.boards, destinations, size, crc)
  {
    hide BoardRuns.Proper, NetRun, Answered, ConfigPages.ConfigHonest, AfterSave, Stored, BootPage, Incremented, WellFormed, FitsPage, Page;
    SaveAnswered(updated, destinations, events);
    forall d | d in destinations
      ensures
        var b := AfterSave(updated[d]);
        Stored(b) && Storable(b.config) && b.config == Incremented(updated[d].config) && BootPage(b.flash.mem) == Some(Page(b.config))
    {
      SaveStores(updated[d]);
      StoredIsStorable(AfterSave(updated[d]));
    }
  }

  lemma StoredIsStorable(b: Board)
    requires Stored(b)
    ensures Storable(b.config)
  {
  }
}
