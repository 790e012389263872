/** Flashing an image onto several boards, and what it guarantees when it ends without reporting errors. */
module FlashImage {
  import opened Bytes
  import opened Wrappers
  import opened Flash
  import opened Configuration
  import opened Commands
  import opened Network
  import opened Rounds
  import opened Undisturbed
  import opened BoardFlashing
  import opened Fleet
  import BoardRuns
  import ConfigPages
  import Crc32
  import Retry

  // ----- pages -----

  function Slices(data: seq<byte>, pageSize: nat): (pages: seq<seq<byte>>)
    requires 1 <= pageSize
    decreases |data|
  {
    if |data| > pageSize then [data[..pageSize]] + Slices(data[pageSize..], pageSize) else [data]
  }

  method SliceIntoPages(data: seq<byte>, pageSize: nat) returns (pages: seq<seq<byte>>)
    requires 1 <= pageSize
    ensures pages == Slices(data, pageSize)
  {
    pages := [];
    var rest := data;
    while |rest| > pageSize
      invariant pages + Slices(rest, pageSize) == Slices(data, pageSize)
    {
      pages := pages + [rest[..pageSize]];
      rest := rest[pageSize..];
    }
    pages := pages + [rest];
  }

  lemma NextMultiple(k: nat, pageSize: nat)
    ensures (k + 1) * pageSize == k * pageSize + pageSize
  {
  }

  lemma SliceOfRest(data: seq<byte>, a: nat, from: nat, to: nat)
    requires a <= |data| && from <= to <= |data| - a
    ensures data[a..][from..to] == data[a + from..a + to]
  {
  }

  /** Page `k` begins at `k` times the page size; all pages but the last are full, and there is no gap. */
  lemma {:induction false} SliceAt(data: seq<byte>, pageSize: nat, k: nat)
    requires 1 <= pageSize && k < |Slices(data, pageSize)|
    ensures
      var pages := Slices(data, pageSize);
      && k * pageSize <= |data| && (data != [] ==> k * pageSize < |data|)
      && k * pageSize + |pages[k]| <= |data| && pages[k] == data[k * pageSize..k * pageSize + |pages[k]|]
      && |pages[k]| <= pageSize && (data != [] ==> pages[k] != [])
      && (k + 1 < |pages| ==> |pages[k]| == pageSize && (k + 1) * pageSize < |data|)
      && (k + 1 == |pages| ==> k * pageSize + |pages[k]| == |data|)
    decreases |data|
  {
    if |data| > pageSize {
      if k > 0 {
        SliceAt(data[pageSize..], pageSize, k - 1);
        NextMultiple(k - 1, pageSize);
        NextMultiple(k, pageSize);
        var from, n := (k - 1) * pageSize, |Slices(data, pageSize)[k]|;
        assert Slices(data, pageSize)[k] == Slices(data[pageSize..], pageSize)[k - 1];
        SliceOfRest(data, pageSize, from, from + n);
      } else {
        assert data[0..] == data;
      }
    }
  }

  // ----- the tool -----

  predicate AllHold(boards: Boards, destinations: seq<byte>, base: int, data: seq<byte>) {
    forall d :: d in destinations ==> d in boards && Holds(boards[d].flash.mem, base, data)
  }

  predicate InPlace(boards: Boards, destinations: seq<byte>, base: int, data: seq<byte>) {
    AllHold(boards, destinations, base, data) && (destinations != [] ==> APP_BEGIN <= base)
  }

  /** The part of the image in the pages before page `k`. */
  function Written(image: seq<byte>, pageSize: nat, k: nat): seq<byte> {
    if k * pageSize < |image| then image[..k * pageSize] else image
  }

  predicate Ready(boards: Boards, destinations: seq<byte>) {
    AllProper(boards) && forall d :: d in destinations ==> d in boards
  }

  predicate SameApplicationArea(b: Board, b': Board) {
    forall i :: BoardRuns.APP_OFFSET <= i < FLASH_SIZE ==> b'.flash.mem[i] == b.flash.mem[i]
  }

  /** No programming of a page fails; a board may lose power in one, if no page is blank. */
  predicate PagesProgrammed(scripts: seq<seq<BusEvent>>, image: seq<byte>, pageSize: nat)
    requires 1 <= pageSize
  {
    forall i, j, k :: 0 <= i < |scripts| && 0 <= j < |scripts[i]| && 0 <= k < |Slices(image, pageSize)| ==>
      Programs(scripts[i][j], Slices(image, pageSize)[k])
  }

  /** Between the update's announcement and the end of the procedure, a destination that is not cut off while saving has the size
      and checksum configured exactly if it had before or a delivery of the update took effect. */
  ghost predicate ConfiguredExactly(before: Boards, after: Boards, destinations: seq<byte>, size: u32, crc: u32,
                                    update: seq<BusEvent>, save: seq<BusEvent>)
    requires AllProper(before)
  {
    forall d :: d in destinations && KeepsPower(save, d) ==>
      && d in before && d in after
      && (Configured(after[d].config, size, crc) <==>
            || Configured(before[d].config, size, crc)
            || TookEffect(UpdateRequest(size, crc), destinations, CONFIG_OPTIONS, before, update, d))
  }

  /** Every destination has performed the save or complained. */
  ghost predicate SaveReached(before: Boards, destinations: seq<byte>, save: seq<BusEvent>)
    requires AllProper(before)
  {
    forall d :: d in destinations ==> TookEffect(SaveRequest, destinations, CONFIG_OPTIONS, before, save, d) || Complains(save, d)
  }

  /** Every destination that did not complain about the update and was not cut off while saving starts the application when told
      to, whatever lies beyond the memory. */
  ghost predicate AllStart(boards: Boards, destinations: seq<byte>, update: seq<BusEvent>, save: seq<BusEvent>) {
    forall d, beyond :: d in destinations && !Complains(update, d) && KeepsPower(save, d) ==>
      d in boards && Jump(boards[d], beyond) == StartApplication
  }

  function PageAddress(base: u32, pageSize: nat, k: nat): u32 {
    (base + k * pageSize) % 0x1_0000_0000
  }

  function EraseRequests(base: u32, deviceClass: seq<byte>, pageSize: nat): nat -> Request {
    (k: nat) => EraseRequest(PageAddress(base, pageSize, k), deviceClass)
  }

  function WriteRequests(image: seq<byte>, base: u32, deviceClass: seq<byte>, pageSize: nat): nat -> Request
    requires 1 <= pageSize
  {
    (k: nat) => if k < |Slices(image, pageSize)| then WriteRequest(PageAddress(base, pageSize, k), deviceClass, Slices(image, pageSize)[k])
         else SaveRequest
  }

  /** What the tool asks for, in every run: an erase of every page, in order, before the first write; a write of every page, in
      order, before the configuration; and how the answers decide about the rest. */
  ghost predicate Procedure(erasing: seq<PageLog>, writing: seq<PageLog>, configuring: seq<Exchange>, image: seq<byte>, base: u32,
                            deviceClass: seq<byte>, destinations: seq<byte>, pageSize: nat, status: Status, errors: bool)
    requires 1 <= pageSize && |image| < 0x1_0000_0000
  {
    var pages := |Slices(image, pageSize)|;
    && 1 <= |erasing| <= pages && |writing| <= pages && errors == (AnyErrors(erasing) || AnyErrors(writing))
    && Phase(erasing, EraseRequests(base, deviceClass, pageSize), destinations, Retry.Options(5, false, false), {10, 11, 12},
             if writing == [] then status else Finished)
    && Phase(writing, WriteRequests(image, base, deviceClass, pageSize), destinations, Retry.Options(0, false, true), {20, 21, 22, 24},
             if configuring == [] then status else Finished)
    && (writing == [] ==> status != Finished && configuring == [])
    && (writing != [] ==> |erasing| == pages)
    && (configuring == [] ==> status != Finished)
    && (configuring != [] ==> |writing| == pages && Configuring(configuring, |image|, Crc32.Checksum(image), destinations, status))
  }

  lemma StoppedErasing(erasing: seq<PageLog>, image: seq<byte>, base: u32, deviceClass: seq<byte>, destinations: seq<byte>,
                       pageSize: nat, status: Status, errors: bool)
    requires 1 <= pageSize && |image| < 0x1_0000_0000 && status != Finished && 1 <= |erasing| <= |Slices(image, pageSize)|
    requires errors == AnyErrors(erasing)
    requires Phase(erasing, EraseRequests(base, deviceClass, pageSize), destinations, Retry.Options(5, false, false), {10, 11, 12}, status)
    ensures Procedure(erasing, [], [], image, base, deviceClass, destinations, pageSize, status, errors)
  {
    NoPages(WriteRequests(image, base, deviceClass, pageSize), destinations, Retry.Options(0, false, true), {20, 21, 22, 24});
    hide Slices, EraseRequests, WriteRequests, PageRounds;
  }

  /** The number of pages, and which offsets the tool steps through. */
  lemma PageCount(data: seq<byte>, pageSize: nat, k: nat)
    requires data != [] && 1 <= pageSize
    ensures |Slices(data, pageSize)| == (|data| - 1) / pageSize + 1
    ensures k < |Slices(data, pageSize)| <==> k * pageSize < |data|
  {
    var n := |Slices(data, pageSize)|;
    WrittenAll(data, pageSize);
    SliceAt(data, pageSize, n - 1);
    LastStart(|data|, pageSize);
    NextMultiple(n - 1, pageSize);
    var q := (|data| - 1) / pageSize;
    NextMultiple(q, pageSize);
    MultiplyOrder(n, q, pageSize);
    MultiplyOrder(q + 1, n - 1, pageSize);
    MultiplyOrder(n, k, pageSize);
    MultiplyOrder(k, n - 1, pageSize);
  }

  /** `scripts` is what happens on the bus, one request after the other; the tool is interrupted when it runs out. `log` records
      what it has asked for. */
  class Client {
    var boards: Boards
    var scripts: seq<seq<BusEvent>>
    var next: nat
    ghost var log: seq<Exchange>

    constructor (boards: Boards, scripts: seq<seq<BusEvent>>)
      ensures this.boards == boards && this.scripts == scripts && next == 0 && log == []
    {
      this.boards, this.scripts, next, log := boards, scripts, 0, [];
    }

    /** One request with its retries. */
    method Send(r: Request, destinations: seq<byte>, o: Retry.Options) returns (verdict: Retry.Verdict, answers: Answers)
      requires AllProper(boards) && next <= |scripts|
      modifies `boards, `next, `log
      ensures AllProper(boards) && next <= |scripts| && log == old(log) + [Exchange(r, destinations, o, verdict, answers)]
      ensures old(next) == |scripts| ==> verdict == Retry.Waiting && next == old(next) && boards == old(boards)
      ensures old(next) < |scripts| ==>
                var net := NetRun(r, destinations, o, old(boards), scripts[old(next)]);
                next == old(next) + 1 && verdict == net.session.verdict && answers == net.session.answers && boards == net.boards
    {
      verdict, answers := Retry.Waiting, map[];
      if next < |scripts| {
        var net := NetRun(r, destinations, o, boards, scripts[next]);
        boards, next := net.boards, next + 1;
        verdict, answers := net.session.verdict, net.session.answers;
      }
      log := log + [Exchange(r, destinations, o, verdict, answers)];
    }

    /** The whole procedure; `announced` tells whether it got as far as announcing the configuration update.
        What it asks for in every run is `Procedure`. Whatever happens on the bus:
        If it announces the update without errors, every destination holds the image from then on, however update and saves go.
        If it then finishes, a destination has the image's size and checksum configured exactly if it had before or a delivery
        of the update took effect, saves permitting; and if the image lies where applications begin, every destination that did
        not complain about the update, and was not cut off while saving, starts it when told to.
        If nothing disturbs it, it finishes without errors, whatever the flash of the destinations held, and both configuration
        pages of each hold the new configuration. */
    method FlashImage(image: seq<byte>, base: u32, deviceClass: seq<byte>, destinations: seq<byte>, pageSize: nat)
      returns (status: Status, errors: bool, announced: bool, ghost flashed: Boards, ghost saving: Boards,
               ghost erasing: seq<PageLog>, ghost writing: seq<PageLog>, ghost configuring: seq<Exchange>)
      requires Ready(boards, destinations) && next <= |scripts| && Retry.Distinct(destinations)
      requires 0 < |image| && 1 <= pageSize <= 0x8000
      requires base + |image| <= FLASH_END && base + (|image| - 1) / pageSize * pageSize <= LAST_SECTOR
      requires PagesProgrammed(scripts, image, pageSize)
      modifies `boards, `next, `log
      ensures Ready(boards, destinations) && AllProper(flashed) && AllProper(saving)
      ensures log == old(log) + Joined(erasing) + Joined(writing) + configuring && announced == (configuring != [])
      ensures Procedure(erasing, writing, configuring, image, base, deviceClass, destinations, pageSize, status, errors)
      ensures announced && !errors ==> AllHold(boards, destinations, base, image) && AllHold(flashed, destinations, base, image)
      ensures status == Finished ==> announced && old(next) + 2 <= next <= |scripts|
      ensures status == Finished ==>
                && ConfiguredExactly(flashed, boards, destinations, |image|, Crc32.Checksum(image), scripts[next - 2], scripts[next - 1])
                && SaveReached(saving, destinations, scripts[next - 1])
                && (!errors && base == APP_BEGIN ==> AllStart(boards, destinations, scripts[next - 2], scripts[next - 1]))
      ensures NothingDisturbs(scripts, old(next), |Slices(image, pageSize)|, destinations)
              && AllFlashable(old(boards), destinations, deviceClass)
              && APP_BEGIN <= base && LastPageInSector(base, |image|, pageSize) ==>
                status == Finished && !errors && AllStored(old(boards), boards, destinations, |image|, Crc32.Checksum(image))
    {
      hide BoardRuns.Proper, Slices, Holds, Configured, Jump, PagesProgrammed, KeepsPower, Complains, TookEffect, SameApplicationArea,
           Crc32.Checksum, AllHold, AllAnswered, PlacesErased, AllFlashable, LastPageInSector, OfClass, Phase, Configuring, PageRounds,
           AllStored, ErasedTo, SameConfigs, Awaiting, InPlace, AnyErrors, EraseRequests, WriteRequests, ConfiguredExactly, SaveReached, AllStart,
           Joined;
      errors, announced, flashed, saving, erasing, writing, configuring := false, false, boards, boards, [], [], [];
      ghost var pages := |Slices(image, pageSize)|;
      ghost var calm := NothingDisturbs(scripts, next, pages, destinations) && AllFlashable(boards, destinations, deviceClass)
                        && APP_BEGIN <= base && LastPageInSector(base, |image|, pageSize);
      if calm {
        FlashableIsOfClass(boards, destinations, deviceClass);
      }
      status, errors, erasing := EraseImage(image, base, deviceClass, destinations, pageSize);
      NothingJoined();
      assert log + [] + [] == log;
      if status != Finished {
        StoppedErasing(erasing, image, base, deviceClass, destinations, pageSize, status, errors);
        return;
      }
      ghost var erased := boards;
      if calm {
        LastIndex(image, pageSize);
        PlacesAwait(old(boards), destinations, deviceClass, base, |image|, pageSize, pages - 1);
      }
      var failed;
      status, failed, writing := WriteImage(image, base, deviceClass, destinations, pageSize);
      errors := errors || failed;
      assert log + [] == log;
      if status != Finished {
        return;
      }
      announced, flashed := true, boards;
      if calm {
        AwaitingHonest(boards, destinations, deviceClass, base + |image|, 0);
      }
      status, saving, configuring := Configure(|image|, Crc32.Checksum(image), destinations);
      if !errors {
        InPlaceHolds(flashed, destinations, base, image);
        StaysInPlace(flashed, boards, destinations, base, image);
      }
      if calm {
        ErasedConfigs(old(boards), erased, flashed, boards, destinations, |image|, Crc32.Checksum(image));
      }
      if status == Finished && !errors && base == APP_BEGIN {
        ConfiguredStart(boards, destinations, image, scripts[next - 2], scripts[next - 1]);
      }
    }

    /** The erase phase: a page begins at each offset. If nothing disturbs it, every page's sector is erased on every destination. */
    method EraseImage(image: seq<byte>, base: u32, deviceClass: seq<byte>, destinations: seq<byte>, pageSize: nat)
      returns (status: Status, errors: bool, ghost pages: seq<PageLog>)
      requires Ready(boards, destinations) && next <= |scripts| && Retry.Distinct(destinations)
      requires 0 < |image| && 1 <= pageSize && base + |image| <= FLASH_END
      modifies `boards, `next, `log
      ensures Ready(boards, destinations) && old(next) <= next <= |scripts| && log == old(log) + Joined(pages)
      ensures 1 <= |pages| <= |Slices(image, pageSize)| && (status == Finished ==> |pages| == |Slices(image, pageSize)|)
      ensures Phase(pages, EraseRequests(base, deviceClass, pageSize), destinations, Retry.Options(5, false, false), {10, 11, 12}, status)
      ensures errors == AnyErrors(pages) && 0 <= (|Slices(image, pageSize)| - 1) * pageSize < |image|
      ensures AllAnswered(scripts, old(next), |Slices(image, pageSize)|, destinations, [1])
              && OfClass(old(boards), destinations, deviceClass) && APP_BEGIN <= base ==>
                && status == Finished && !errors && next == old(next) + |Slices(image, pageSize)|
                && boards == ErasedTo(old(boards), destinations, base, pageSize, |Slices(image, pageSize)|)
    {
      hide BoardRuns.Proper, Slices, ErasedAt, ErasedTo, AllAnswered, PageRounds, Phase, Joined, AnyErrors, OfClass, EraseRequests;
      status, errors, pages := Finished, false, [];
      ghost var count, requests := |Slices(image, pageSize)|, EraseRequests(base, deviceClass, pageSize);
      ghost var calm := AllAnswered(scripts, next, count, destinations, [1]) && OfClass(boards, destinations, deviceClass) && APP_BEGIN <= base;
      OffsetStep(image, base, pageSize, 0);
      NothingErased(boards, destinations, base, pageSize);
      NoPages(requests, destinations, ERASE_OPTIONS, ERASE_FATAL);
      var offset := 0;
      while offset < |image|
        invariant Ready(boards, destinations) && old(next) <= next <= |scripts| && log == old(log) + Joined(pages)
        invariant offset == |pages| * pageSize && |pages| <= count && status == Finished && (offset >= |image| ==> |pages| == count)
        invariant |pages| > 0 ==> base + (|pages| - 1) * pageSize < FLASH_END
        invariant Phase(pages, requests, destinations, ERASE_OPTIONS, ERASE_FATAL, Finished) && errors == AnyErrors(pages)
        invariant calm ==> !errors && next == old(next) + |pages| && boards == ErasedTo(old(boards), destinations, base, pageSize, |pages|)
      {
        ghost var n, rounds, before := |pages|, [], boards;
        OffsetStep(image, base, pageSize, n);
        if calm {
          EraseNext(old(boards), scripts, old(next), count, destinations, deviceClass, base, pageSize, n);
        }
        var failed;
        status, failed, rounds := ErasePage(base + offset, deviceClass, destinations);
        EraseRequestIs(base, deviceClass, pageSize, n);
        PhaseExtends(pages, PageLog(rounds, failed), requests, destinations, ERASE_OPTIONS, ERASE_FATAL, status);
        JoinedExtends(pages, PageLog(rounds, failed));
        pages := pages + [PageLog(rounds, failed)];
        errors := errors || failed;
        if status != Finished {
          return;
        }
        offset := offset + pageSize;
      }
    }

    /** The erase loop for one page. */
    method ErasePage(address: u32, deviceClass: seq<byte>, destinations: seq<byte>)
      returns (status: Status, errors: bool, ghost rounds: seq<Exchange>)
      requires Ready(boards, destinations) && next <= |scripts| && Retry.Distinct(destinations)
      modifies `boards, `next, `log
      ensures Ready(boards, destinations) && boards.Keys == old(boards).Keys && old(next) <= next <= |scripts|
      ensures log == old(log) + rounds
      ensures PageRounds(rounds, EraseRequest(address, deviceClass), destinations, Retry.Options(5, false, false), {10, 11, 12}, status, errors)
      ensures AllAnswered(scripts, old(next), 1, destinations, [1]) && OfClass(old(boards), destinations, deviceClass)
              && APP_BEGIN <= address < FLASH_END ==>
                status == Finished && !errors && next == old(next) + 1 && boards == ErasedAt(old(boards), destinations, address)
    {
      hide BoardRuns.Proper, ErasedAt, NetRun, AllAnswered, OfClass, RoundsSoFar, PageRounds, Garbled, AnyFailed, AnyCode;
      errors, rounds := false, [];
      var retry := true;
      ghost var r := EraseRequest(address, deviceClass);
      RoundsBegin(r, destinations, ERASE_OPTIONS, ERASE_FATAL);
      ghost var calm := AllAnswered(scripts, next, 1, destinations, [1]) && OfClass(boards, destinations, deviceClass)
                        && APP_BEGIN <= address < FLASH_END;
      while retry
        invariant Ready(boards, destinations) && boards.Keys == old(boards).Keys && old(next) <= next <= |scripts|
        invariant log == old(log) + rounds && RoundsSoFar(rounds, r, destinations, ERASE_OPTIONS, ERASE_FATAL, retry, errors) && (retry ==> !errors)
        invariant calm && retry ==> next == old(next) && boards == old(boards)
        invariant calm && !retry ==> !errors && next == old(next) + 1 && boards == ErasedAt(old(boards), destinations, address)
        decreases retry, |scripts| - next
      {
        retry := false;
        ghost var earlier := rounds;
        var verdict, answers := SendErase(address, deviceClass, destinations);
        ghost var e := Exchange(r, destinations, ERASE_OPTIONS, verdict, answers);
        rounds := rounds + [e];
        if verdict == Retry.Waiting {
          RoundInterrupted(earlier, e, ERASE_FATAL);
          return Interrupted, errors, rounds;
        }
        var raised, failed, again, fatal := Assess(answers, ERASE_FATAL);
        RoundEnds(earlier, e, ERASE_FATAL, raised, failed, again, fatal);
        if raised {
          return Raised, errors, rounds;
        }
        if failed {
          if fatal {
            return Exited, errors, rounds;
          }
          retry := again;
          if !retry {
            errors := true;
          }
        }
      }
      RoundsDone(rounds, r, destinations, ERASE_OPTIONS, ERASE_FATAL, errors);
      return Finished, errors, rounds;
    }

    method SendErase(address: u32, deviceClass: seq<byte>, destinations: seq<byte>) returns (verdict: Retry.Verdict, answers: Answers)
      requires Ready(boards, destinations) && next <= |scripts| && Retry.Distinct(destinations)
      modifies `boards, `next, `log
      ensures Ready(boards, destinations) && boards.Keys == old(boards).Keys && old(next) <= next <= |scripts|
      ensures verdict != Retry.Waiting ==> old(next) < next
      ensures log == old(log) + [Exchange(EraseRequest(address, deviceClass), destinations, ERASE_OPTIONS, verdict, answers)]
      ensures AllAnswered(scripts, old(next), 1, destinations, [1]) && OfClass(old(boards), destinations, deviceClass)
              && APP_BEGIN <= address < FLASH_END ==>
                && verdict == Retry.Complete && !Garbled(answers) && !AnyFailed(answers)
                && next == old(next) + 1 && boards == ErasedAt(old(boards), destinations, address)
    {
      hide BoardRuns.Proper, ErasedAt, NetRun, Answered, OfClass, Garbled, AnyFailed;
      ghost var i, before, r := next, boards, EraseRequest(address, deviceClass);
      verdict, answers := Send(EraseRequest(address, deviceClass), destinations, ERASE_OPTIONS);
      if i < |scripts| {
        NetShape(r, destinations, ERASE_OPTIONS, before, scripts[i]);
        if Answered(scripts[i], destinations, [1]) && OfClass(before, destinations, deviceClass) && APP_BEGIN <= address < FLASH_END {
          EraseAnswered(before, destinations, address, deviceClass, scripts[i]);
          GoodAnswers(answers, [1]);
        }
      }
    }

    /** The write phase: it ends without an error only when every destination holds the whole image. If the image's place is erased
        and nothing disturbs it, it does. */
    method WriteImage(image: seq<byte>, base: u32, deviceClass: seq<byte>, destinations: seq<byte>, pageSize: nat)
      returns (status: Status, errors: bool, ghost pages: seq<PageLog>)
      requires Ready(boards, destinations) && next <= |scripts| && Retry.Distinct(destinations)
      requires 0 < |image| && 1 <= pageSize <= 0x8000
      requires base + |image| <= FLASH_END && base + (|image| - 1) / pageSize * pageSize <= LAST_SECTOR
      requires PagesProgrammed(scripts, image, pageSize)
      modifies `boards, `next, `log
      ensures Ready(boards, destinations) && old(next) <= next <= |scripts| && log == old(log) + Joined(pages)
      ensures 1 <= |pages| <= |Slices(image, pageSize)| && (status == Finished ==> |pages| == |Slices(image, pageSize)|)
      ensures Phase(pages, WriteRequests(image, base, deviceClass, pageSize), destinations, Retry.Options(0, false, true),
                    {20, 21, 22, 24}, status)
      ensures errors == AnyErrors(pages)
      ensures status == Finished && !errors ==> InPlace(boards, destinations, base, image)
      ensures AllAnswered(scripts, old(next), |Slices(image, pageSize)|, destinations, [0xC3])
              && Awaiting(old(boards), destinations, deviceClass, base, |image|) && APP_BEGIN <= base ==>
                && status == Finished && !errors && next == old(next) + |Slices(image, pageSize)|
                && SameConfigs(old(boards), boards, destinations) && Awaiting(boards, destinations, deviceClass, base + |image|, 0)
    {
      hide BoardRuns.Proper, Slices, Written, Holds, Untouched, Programmable, Programs, Answered, Awaiting, PlacesErased, WrittenAt, SameClass,
           Phase, PageRounds, Joined, AnyErrors, SameConfigs, InPlace;
      status, errors, pages := Finished, false, [];
      var slices := SliceIntoPages(image, pageSize);
      ghost var calm := AllAnswered(scripts, next, |slices|, destinations, [0xC3])
                        && Awaiting(boards, destinations, deviceClass, base, |image|) && APP_BEGIN <= base;
      NoPages(WriteRequests(image, base, deviceClass, pageSize), destinations, WRITE_OPTIONS, WRITE_FATAL);
      NothingWritten(image, pageSize);
      if calm {
        SameConfigsAtFirst(boards, destinations, deviceClass, base, |image|);
      }
      var k := 0;
      while k < |slices|
        invariant |pages| == k <= |slices| && Ready(boards, destinations) && old(next) <= next <= |scripts| && status == Finished
        invariant log == old(log) + Joined(pages) && errors == AnyErrors(pages)
        invariant Phase(pages, WriteRequests(image, base, deviceClass, pageSize), destinations, WRITE_OPTIONS, WRITE_FATAL, Finished)
        invariant !errors && k > 0 ==> InPlace(boards, destinations, base, Written(image, pageSize, k))
        invariant |Written(image, pageSize, k)| <= |image|
        invariant calm ==>
                    && !errors && next == old(next) + k && SameConfigs(old(boards), boards, destinations)
                    && Awaiting(boards, destinations, deviceClass, base + |Written(image, pageSize, k)|, |image| - |Written(image, pageSize, k)|)
      {
        ghost var before, rounds := boards, [];
        PageInPlace(image, base, pageSize, k);
        WrittenNext(image, pageSize, k);
        PageRequest(image, base, deviceClass, pageSize, k);
        if calm {
          AnsweredNext(scripts, old(next), |slices|, k, destinations, [0xC3]);
          StepWrites(boards, destinations, deviceClass, base + k * pageSize, slices[k], |image| - k * pageSize);
          AwaitingFirst(boards, destinations, deviceClass, base + k * pageSize, |image| - k * pageSize, |slices[k]|);
        }
        var failed;
        status, failed, rounds := WritePage(base + k * pageSize, deviceClass, slices[k], destinations);
        PhaseExtends(pages, PageLog(rounds, failed), WriteRequests(image, base, deviceClass, pageSize), destinations, WRITE_OPTIONS, WRITE_FATAL,
                     status);
        JoinedExtends(pages, PageLog(rounds, failed));
        pages := pages + [PageLog(rounds, failed)];
        errors := errors || failed;
        if status != Finished {
          return;
        }
        if !errors {
          PageAdded(before, boards, destinations, image, base, pageSize, k);
        }
        if calm {
          SameConfigsThen(old(boards), before, boards, destinations);
        }
        k := k + 1;
      }
      WrittenAll(image, pageSize);
    }

    /** The write loop for one page: it ends without an error only when every destination holds the page. */
    method WritePage(address: u32, deviceClass: seq<byte>, chunk: seq<byte>, destinations: seq<byte>)
      returns (status: Status, errors: bool, ghost rounds: seq<Exchange>)
      requires Ready(boards, destinations) && next <= |scripts| && Retry.Distinct(destinations)
      requires Programmable(address, chunk)
      requires forall i, j :: 0 <= i < |scripts| && 0 <= j < |scripts[i]| ==> Programs(scripts[i][j], chunk)
      modifies `boards, `next, `log
      ensures Ready(boards, destinations) && old(next) <= next <= |scripts| && log == old(log) + rounds
      ensures PageRounds(rounds, WriteRequest(address, deviceClass, chunk), destinations, Retry.Options(0, false, true), {20, 21, 22, 24},
                         status, errors)
      ensures AllUntouched(old(boards), boards, address, chunk)
      ensures status == Finished && !errors ==> InPlace(boards, destinations, address, chunk)
      ensures AllAnswered(scripts, old(next), 1, destinations, [0xC3]) && Awaiting(old(boards), destinations, deviceClass, address, |chunk|)
              && APP_BEGIN <= address ==>
                status == Finished && !errors && next == old(next) + 1 && boards == WrittenAt(old(boards), destinations, address, chunk)
    {
      hide BoardRuns.Proper, InPlace, AllUntouched, NetRun, Programmable, Programs, AllAnswered, Awaiting, WrittenAt, RoundsSoFar, PageRounds,
           Garbled, AnyFailed, AnyCode;
      errors, rounds := false, [];
      var retry := true;
      ghost var r := WriteRequest(address, deviceClass, chunk);
      RoundsBegin(r, destinations, WRITE_OPTIONS, WRITE_FATAL);
      ghost var calm := AllAnswered(scripts, next, 1, destinations, [0xC3]) && Awaiting(boards, destinations, deviceClass, address, |chunk|)
                        && APP_BEGIN <= address;
      UntouchedByNothing(boards, address, chunk);
      while retry
        invariant Ready(boards, destinations) && old(next) <= next <= |scripts| && AllUntouched(old(boards), boards, address, chunk)
        invariant log == old(log) + rounds && RoundsSoFar(rounds, r, destinations, WRITE_OPTIONS, WRITE_FATAL, retry, errors) && (retry ==> !errors)
        invariant !retry && !errors ==> InPlace(boards, destinations, address, chunk)
        invariant calm && retry ==> next == old(next) && boards == old(boards)
        invariant calm && !retry ==> !errors && next == old(next) + 1 && boards == WrittenAt(old(boards), destinations, address, chunk)
        decreases retry, |scripts| - next
      {
        retry := false;
        ghost var before, earlier := boards, rounds;
        var verdict, answers := SendWrite(address, deviceClass, chunk, destinations);
        UntouchedSince(old(boards), before, boards, address, chunk);
        ghost var e := Exchange(r, destinations, WRITE_OPTIONS, verdict, answers);
        rounds := rounds + [e];
        if verdict == Retry.Waiting {
          RoundInterrupted(earlier, e, WRITE_FATAL);
          return Interrupted, errors, rounds;
        }
        var raised, failed, again, fatal := Assess(answers, WRITE_FATAL);
        RoundEnds(earlier, e, WRITE_FATAL, raised, failed, again, fatal);
        if raised {
          return Raised, errors, rounds;
        }
        if failed {
          if fatal {
            return Exited, errors, rounds;
          }
          retry := again;
          if !retry {
            errors := true;
          }
        }
      }
      RoundsDone(rounds, r, destinations, WRITE_OPTIONS, WRITE_FATAL, errors);
      return Finished, errors, rounds;
    }

    method SendWrite(address: u32, deviceClass: seq<byte>, chunk: seq<byte>, destinations: seq<byte>)
      returns (verdict: Retry.Verdict, answers: Answers)
      requires Ready(boards, destinations) && next <= |scripts| && Retry.Distinct(destinations)
      requires Programmable(address, chunk)
      requires forall i, j :: 0 <= i < |scripts| && 0 <= j < |scripts[i]| ==> Programs(scripts[i][j], chunk)
      modifies `boards, `next, `log
      ensures Ready(boards, destinations) && old(next) <= next <= |scripts| && AllUntouched(old(boards), boards, address, chunk)
      ensures verdict != Retry.Waiting ==> old(next) < next
      ensures log == old(log) + [Exchange(WriteRequest(address, deviceClass, chunk), destinations, WRITE_OPTIONS, verdict, answers)]
      ensures verdict != Retry.Waiting && !Garbled(answers) && !AnyFailed(answers) ==> InPlace(boards, destinations, address, chunk)
      ensures AllAnswered(scripts, old(next), 1, destinations, [0xC3]) && Awaiting(old(boards), destinations, deviceClass, address, |chunk|)
              && APP_BEGIN <= address ==>
                && verdict == Retry.Complete && !Garbled(answers) && !AnyFailed(answers)
                && next == old(next) + 1 && boards == WrittenAt(old(boards), destinations, address, chunk)
    {
      hide BoardRuns.Proper, Holds, Untouched, NetRun, Programmable, Programs, Answered, Awaiting, WrittenAt;
      ghost var i, before, r := next, boards, WriteRequest(address, deviceClass, chunk);
      UntouchedByNothing(boards, address, chunk);
      verdict, answers := Send(WriteRequest(address, deviceClass, chunk), destinations, WRITE_OPTIONS);
      if i < |scripts| {
        PageWritten(i, before, r, destinations);
        if verdict != Retry.Waiting {
          WriteCompletes(r, destinations, before, scripts[i]);
          AnsweredInPlace(boards, destinations, address, chunk, answers);
        }
        if Answered(scripts[i], destinations, [0xC3]) && Awaiting(before, destinations, deviceClass, address, |chunk|) && APP_BEGIN <= address {
          WriteAwaited(before, destinations, address, deviceClass, chunk, scripts[i]);
          GoodAnswers(answers, [0xC3]);
        }
      }
    }

    /** `config_update_and_save`; the answers to the update are not looked at. */
    method Configure(size: u32, crc: u32, destinations: seq<byte>)
      returns (status: Status, ghost saving: Boards, ghost exchanges: seq<Exchange>)
      requires Ready(boards, destinations) && next <= |scripts| && Retry.Distinct(destinations)
      modifies `boards, `next, `log
      ensures Ready(boards, destinations) && boards.Keys == old(boards).Keys && next <= |scripts| && AllProper(saving)
      ensures log == old(log) + exchanges && exchanges != [] && Configuring(exchanges, size, crc, destinations, status)
      ensures forall d :: d in boards ==> SameApplicationArea(old(boards)[d], boards[d])
      ensures status == Finished ==> next == old(next) + 2
      ensures status == Finished ==>
                && ConfiguredExactly(old(boards), boards, destinations, size, crc, scripts[next - 2], scripts[next - 1])
                && SaveReached(saving, destinations, scripts[next - 1])
      ensures status == Finished ==>
                forall d :: d in destinations && !Complains(scripts[next - 2], d) && KeepsPower(scripts[next - 1], d) ==>
                  Configured(boards[d].config, size, crc)
      ensures AllAnswered(scripts, old(next), 2, destinations, [0xC3]) && AllConfigHonest(old(boards), destinations) ==>
                status == Finished && AllStored(old(boards), boards, destinations, size, crc)
    {
      hide BoardRuns.Proper, Configured, NetRun, KeepsPower, Complains, SameApplicationArea, Answered, AllConfigHonest, AllStored,
           ConfiguredExactly, SaveReached;
      ghost var first, before := next, boards;
      var verdict, answers := Send(UpdateRequest(size, crc), destinations, CONFIG_OPTIONS);
      saving := boards;
      exchanges := [Exchange(UpdateRequest(size, crc), destinations, CONFIG_OPTIONS, verdict, answers)];
      Updated(first, before, saving, size, crc, destinations);
      if AllAnswered(scripts, first, 2, destinations, [0xC3]) && AllConfigHonest(before, destinations) {
        UpdateAnswered(before, destinations, size, crc, scripts[first]);
      }
      if verdict == Retry.Waiting {
        return Interrupted, saving, exchanges;
      }
      if verdict == Retry.Aborted {
        return Exited, saving, exchanges;
      }
      verdict, answers := Send(SaveRequest, destinations, CONFIG_OPTIONS);
      exchanges := exchanges + [Exchange(SaveRequest, destinations, CONFIG_OPTIONS, verdict, answers)];
      Saved(first + 1, before, saving, boards, size, crc, destinations);
      if AllAnswered(scripts, first, 2, destinations, [0xC3]) && AllConfigHonest(before, destinations) {
        SavedAll(before, saving, destinations, size, crc, scripts[first + 1]);
      }
      if verdict == Retry.Waiting {
        return Interrupted, saving, exchanges;
      }
      if verdict == Retry.Aborted {
        return Exited, saving, exchanges;
      }
      AllReached(before, saving, boards, destinations, size, crc, scripts[first], scripts[first + 1]);
      return Finished, saving, exchanges;
    }

    /** What the update request leaves, if the script for it has not run out. */
    lemma Updated(i: nat, before: Boards, after: Boards, size: u32, crc: u32, destinations: seq<byte>)
      requires AllProper(before) && i <= |scripts|
      requires i == |scripts| ==> after == before
      requires i < |scripts| ==> after == NetRun(UpdateRequest(size, crc), destinations, CONFIG_OPTIONS, before, scripts[i]).boards
      ensures after.Keys == before.Keys && forall d :: d in after ==> SameApplicationArea(before[d], after[d])
      ensures i < |scripts| ==>
                forall d :: d in after ==>
                  (Configured(after[d].config, size, crc) <==>
                    || Configured(before[d].config, size, crc)
                    || TookEffect(UpdateRequest(size, crc), destinations, CONFIG_OPTIONS, before, scripts[i], d))
    {
      hide BoardRuns.Proper, Configured, NetRun, Retry.Run, ClientView, TookEffect;
      if i < |scripts| {
        var update := UpdateRequest(size, crc);
        NetShape(update, destinations, CONFIG_OPTIONS, before, scripts[i]);
        forall d | d in after
          ensures UpdateInv(update, before[d], NetRun(update, destinations, CONFIG_OPTIONS, before, scripts[i]), d,
                            TookEffect(update, destinations, CONFIG_OPTIONS, before, scripts[i], d))
        {
          UpdateRequestConfigures(update, destinations, CONFIG_OPTIONS, before, scripts[i], d);
        }
      }
    }

    /** What a write request leaves. */
    lemma PageWritten(i: nat, before: Boards, r: Request, destinations: seq<byte>)
      requires AllProper(before) && r.WriteRequest? && Programmable(r.address, r.chunk)
      requires forall i, j :: 0 <= i < |scripts| && 0 <= j < |scripts[i]| ==> Programs(scripts[i][j], r.chunk)
      ensures i < |scripts| ==>
                var net := NetRun(r, destinations, WRITE_OPTIONS, before, scripts[i]);
                && net.boards.Keys == before.Keys
                && forall d :: d in net.boards ==>
                     && Untouched(before[d], net.boards[d], r.address, r.chunk)
                     && (d in net.session.answers && Code(net.session.answers[d]) == Some(1) ==>
                           APP_BEGIN <= r.address && Holds(net.boards[d].flash.mem, r.address, r.chunk))
    {
      hide BoardRuns.Proper, Holds, NetRun, Retry.Run, ClientView, Programmable, Programs;
      if i < |scripts| {
        NetShape(r, destinations, WRITE_OPTIONS, before, scripts[i]);
        var net := NetRun(r, destinations, WRITE_OPTIONS, before, scripts[i]);
        forall d | d in net.boards
          ensures WriteInv(r, before[d], net, d)
        {
          WriteRequestHolds(r, destinations, WRITE_OPTIONS, before, scripts[i], d);
        }
      }
    }

    /** What the save request leaves. */
    lemma Saved(i: nat, first: Boards, before: Boards, after: Boards, size: u32, crc: u32, destinations: seq<byte>)
      requires AllProper(before) && i <= |scripts|
      requires i == |scripts| ==> after == before
      requires i < |scripts| ==> after == NetRun(SaveRequest, destinations, CONFIG_OPTIONS, before, scripts[i]).boards
      requires first.Keys == before.Keys && forall d :: d in before ==> SameApplicationArea(first[d], before[d])
      ensures after.Keys == before.Keys && forall d :: d in after ==> SameApplicationArea(first[d], after[d])
      ensures i < |scripts| ==>
                forall d :: d in after && KeepsPower(scripts[i], d) ==>
                  (Configured(after[d].config, size, crc) <==> Configured(before[d].config, size, crc))
    {
      hide BoardRuns.Proper, NetRun, Retry.Run, ClientView, KeepsPower;
      if i < |scripts| {
        NetShape(SaveRequest, destinations, CONFIG_OPTIONS, before, scripts[i]);
        forall d | d in after
          ensures SaveInv(before[d], NetRun(SaveRequest, destinations, CONFIG_OPTIONS, before, scripts[i]), d, KeepsPower(scripts[i], d))
        {
          SaveRequestKeeps(destinations, CONFIG_OPTIONS, before, scripts[i], d);
        }
      }
    }
  }

  /** The offset after `n` pages, and whether it ends the loop. */
  lemma OffsetStep(image: seq<byte>, base: u32, pageSize: nat, n: nat)
    requires image != [] && 1 <= pageSize && base + |image| <= FLASH_END
    ensures (n + 1) * pageSize == n * pageSize + pageSize && 0 <= n * pageSize
    ensures n < |Slices(image, pageSize)| <==> n * pageSize < |image|
    ensures n + 1 < |Slices(image, pageSize)| <==> (n + 1) * pageSize < |image|
    ensures 1 <= |Slices(image, pageSize)| && 0 <= (|Slices(image, pageSize)| - 1) * pageSize < |image|
  {
    PageCount(image, pageSize, n);
    PageCount(image, pageSize, n + 1);
    PageCount(image, pageSize, |Slices(image, pageSize)| - 1);
    NextMultiple(n, pageSize);
  }

  lemma EraseRequestIs(base: u32, deviceClass: seq<byte>, pageSize: nat, k: nat)
    requires base + k * pageSize < 0x1_0000_0000
    ensures EraseRequests(base, deviceClass, pageSize)(k) == EraseRequest(base + k * pageSize, deviceClass)
  {
  }

  /** What the next undisturbed erase is asked of, and what it makes of it. */
  lemma EraseNext(first: Boards, scripts: seq<seq<BusEvent>>, start: nat, count: nat, destinations: seq<byte>, deviceClass: seq<byte>,
                  base: u32, pageSize: nat, n: nat)
    requires AllAnswered(scripts, start, count, destinations, [1]) && n < count && OfClass(first, destinations, deviceClass)
    requires base + n * pageSize < FLASH_END
    ensures n > 0 ==> base + (n - 1) * pageSize < FLASH_END
    ensures AllAnswered(scripts, start + n, 1, destinations, [1])
    ensures OfClass(ErasedTo(first, destinations, base, pageSize, n), destinations, deviceClass)
    ensures ErasedAt(ErasedTo(first, destinations, base, pageSize, n), destinations, base + n * pageSize)
         == ErasedTo(first, destinations, base, pageSize, n + 1)
  {
    PreviousPage(n, pageSize);
    hide ErasedTo, ErasedAt, OfClass, AllAnswered;
    AnsweredNext(scripts, start, count, n, destinations, [1]);
    ClassKept(first, destinations, deviceClass, base, pageSize, n);
    StepErases(first, destinations, base, pageSize, n);
  }

  /** What is known of every destination when both requests have been left normally. */
  lemma AllReached(before: Boards, saving: Boards, after: Boards, destinations: seq<byte>, size: u32, crc: u32,
                   update: seq<BusEvent>, save: seq<BusEvent>)
    requires AllProper(before) && AllProper(saving) && Retry.Distinct(destinations)
    requires before.Keys == saving.Keys == after.Keys && forall d :: d in destinations ==> d in before
    requires NetRun(UpdateRequest(size, crc), destinations, CONFIG_OPTIONS, before, update).session.verdict !in {Retry.Waiting, Retry.Aborted}
    requires NetRun(SaveRequest, destinations, CONFIG_OPTIONS, saving, save).session.verdict !in {Retry.Waiting, Retry.Aborted}
    requires forall d :: d in saving ==>
               (Configured(saving[d].config, size, crc) <==>
                 || Configured(before[d].config, size, crc)
                 || TookEffect(UpdateRequest(size, crc), destinations, CONFIG_OPTIONS, before, update, d))
    requires forall d :: d in after && KeepsPower(save, d) ==>
               (Configured(after[d].config, size, crc) <==> Configured(saving[d].config, size, crc))
    ensures ConfiguredExactly(before, after, destinations, size, crc, update, save) && SaveReached(saving, destinations, save)
    ensures forall d :: d in destinations && !Complains(update, d) && KeepsPower(save, d) ==> Configured(after[d].config, size, crc)
  {
    hide BoardRuns.Proper, Configured, NetRun, KeepsPower, Complains, TookEffect;
    forall d | d in destinations
      ensures TookEffect(UpdateRequest(size, crc), destinations, CONFIG_OPTIONS, before, update, d) || Complains(update, d)
      ensures TookEffect(SaveRequest, destinations, CONFIG_OPTIONS, saving, save, d) || Complains(save, d)
    {
      ExitRequestCompletes(UpdateRequest(size, crc), destinations, before, update, d);
      ExitRequestCompletes(SaveRequest, destinations, saving, save, d);
    }
  }

  lemma InPlaceHolds(boards: Boards, destinations: seq<byte>, base: int, image: seq<byte>)
    requires InPlace(boards, destinations, base, image)
    ensures AllHold(boards, destinations, base, image)
  {
  }

  lemma NothingWritten(image: seq<byte>, pageSize: nat)
    ensures Written(image, pageSize, 0) == (if image == [] then image else [])
  {
    assert image[..0] == [];
  }

  lemma PageRequest(image: seq<byte>, base: u32, deviceClass: seq<byte>, pageSize: nat, k: nat)
    requires 1 <= pageSize && k < |Slices(image, pageSize)| && base + k * pageSize < 0x1_0000_0000
    ensures WriteRequests(image, base, deviceClass, pageSize)(k) == WriteRequest(base + k * pageSize, deviceClass, Slices(image, pageSize)[k])
  {
  }

  lemma LastIndex(data: seq<byte>, pageSize: nat)
    requires data != [] && 1 <= pageSize
    ensures |Slices(data, pageSize)| >= 1 && |Slices(data, pageSize)| - 1 == (|data| - 1) / pageSize
  {
    PageCount(data, pageSize, 0);
  }

  /** After an undisturbed erase phase the image's place is erased on every destination. */
  lemma PlacesAwait(boards: Boards, destinations: seq<byte>, deviceClass: seq<byte>, base: u32, size: nat, pageSize: nat, last: nat)
    requires AllFlashable(boards, destinations, deviceClass) && AllProper(boards) && APP_BEGIN <= base && 0 < size && 1 <= pageSize <= 0x8000
    requires base + size <= FLASH_END && LastPageInSector(base, size, pageSize)
    requires last == (size - 1) / pageSize && 0 <= last * pageSize < size
    ensures
      var after := ErasedTo(boards, destinations, base, pageSize, last + 1);
      Awaiting(after, destinations, deviceClass, base, size) && SameConfigs(boards, after, destinations)
  {
    hide ErasedTo, AllFlashable, PlacesErased, OfClass, LastPageInSector, BoardRuns.Proper, SameConfigs;
    FlashableIsOfClass(boards, destinations, deviceClass);
    ClassKept(boards, destinations, deviceClass, base, pageSize, last + 1);
    AllPlacesErased(boards, destinations, deviceClass, base, size, pageSize);
    ErasedKeepsConfigs(boards, destinations, deviceClass, base, pageSize, last + 1);
  }

  lemma ErasedKeepsConfigs(boards: Boards, destinations: seq<byte>, deviceClass: seq<byte>, base: u32, pageSize: nat, k: nat)
    requires AllFlashable(boards, destinations, deviceClass) && (k > 0 ==> base + (k - 1) * pageSize < FLASH_END)
    ensures SameConfigs(boards, ErasedTo(boards, destinations, base, pageSize, k), destinations)
  {
    hide EraseAll, Flashable;
  }

  lemma ErasedConfigs(first: Boards, erased: Boards, flashed: Boards, after: Boards, destinations: seq<byte>, size: u32, crc: u32)
    requires SameConfigs(first, erased, destinations) && SameConfigs(erased, flashed, destinations)
    requires AllStored(flashed, after, destinations, size, crc)
    ensures AllStored(first, after, destinations, size, crc)
  {
    hide Stored, BootPage, Storable;
  }

  /** Every byte outside the chunk is the same. */
  predicate Untouched(b: Board, b': Board, address: u32, chunk: seq<byte>) {
    forall i :: 0 <= i < FLASH_SIZE && !(address <= FLASH_BEGIN + i < address + |chunk|) ==> b'.flash.mem[i] == b.flash.mem[i]
  }

  predicate AllUntouched(before: Boards, after: Boards, address: u32, chunk: seq<byte>) {
    after.Keys == before.Keys && forall d :: d in after ==> Untouched(before[d], after[d], address, chunk)
  }

  lemma UntouchedSince(first: Boards, before: Boards, after: Boards, address: u32, chunk: seq<byte>)
    requires AllUntouched(first, before, address, chunk) && AllUntouched(before, after, address, chunk)
    ensures AllUntouched(first, after, address, chunk)
  {
  }

  lemma UntouchedByNothing(boards: Boards, address: u32, chunk: seq<byte>)
    ensures AllUntouched(boards, boards, address, chunk)
  {
  }

  /** Only good answers, one from every destination: all of them hold the page. */
  lemma AnsweredInPlace(boards: Boards, destinations: seq<byte>, address: u32, chunk: seq<byte>, answers: Answers)
    requires answers.Keys == Retry.SetOf(destinations) && forall d :: d in destinations ==> d in boards
    requires forall d :: d in boards ==>
               d in answers && Code(answers[d]) == Some(1) ==> APP_BEGIN <= address && Holds(boards[d].flash.mem, address, chunk)
    ensures !Garbled(answers) && !AnyFailed(answers) ==> InPlace(boards, destinations, address, chunk)
  {
    hide Holds, Code;
    if destinations != [] {
      assert destinations[0] in answers;
    }
  }

  /** With unlimited retries the loop is left only with an answer from every destination. */
  lemma WriteCompletes(r: Request, destinations: seq<byte>, boards: Boards, events: seq<BusEvent>)
    requires AllProper(boards) && Retry.Distinct(destinations)
    requires NetRun(r, destinations, WRITE_OPTIONS, boards, events).session.verdict != Retry.Waiting
    ensures
      var session := NetRun(r, destinations, WRITE_OPTIONS, boards, events).session;
      session.verdict == Retry.Complete && session.answers.Keys == Retry.SetOf(destinations)
  {
    NetShape(r, destinations, WRITE_OPTIONS, boards, events);
    Retry.TransmissionBound(WRITE_OPTIONS, destinations, ClientView(r, destinations, WRITE_OPTIONS, boards, events));
    CompleteMeansAll(r, destinations, WRITE_OPTIONS, boards, events);
  }

  /** With an exit on exhausted retries, the loop is left normally only when every destination has performed the request or
      complained. */
  lemma ExitRequestCompletes(r: Request, destinations: seq<byte>, boards: Boards, events: seq<BusEvent>, d: byte)
    requires AllProper(boards) && Retry.Distinct(destinations) && d in destinations
    requires NetRun(r, destinations, CONFIG_OPTIONS, boards, events).session.verdict !in {Retry.Waiting, Retry.Aborted}
    ensures TookEffect(r, destinations, CONFIG_OPTIONS, boards, events, d) || Complains(events, d)
  {
    NetShape(r, destinations, CONFIG_OPTIONS, boards, events);
    Retry.NeverGivesUp(CONFIG_OPTIONS, destinations, ClientView(r, destinations, CONFIG_OPTIONS, boards, events));
    RequestCompletes(r, destinations, CONFIG_OPTIONS, boards, events, d);
  }

  // ----- the image, page by page -----

  lemma PageStart(n: nat, pageSize: nat, k: nat)
    requires 1 <= pageSize && k * pageSize < n
    ensures k * pageSize <= (n - 1) / pageSize * pageSize
  {
    var q := (n - 1) / pageSize;
    assert n - 1 < (q + 1) * pageSize;
    if q + 1 <= k {
      MultiplyOrder(q + 1, k, pageSize);
    }
    MultiplyOrder(k, q, pageSize);
  }

  lemma MultiplyOrder(a: nat, b: nat, c: nat)
    ensures a <= b ==> a * c <= b * c
  {
  }

  lemma PageInPlace(image: seq<byte>, base: u32, pageSize: nat, k: nat)
    requires 0 < |image| && 1 <= pageSize <= 0x8000 && k < |Slices(image, pageSize)|
    requires base + |image| <= FLASH_END && base + (|image| - 1) / pageSize * pageSize <= LAST_SECTOR
    ensures base + k * pageSize < 0x1_0000_0000
    ensures Programmable(base + k * pageSize, Slices(image, pageSize)[k])
  {
    SliceAt(image, pageSize, k);
    PageStart(|image|, pageSize, k);
  }

  lemma WrittenNext(image: seq<byte>, pageSize: nat, k: nat)
    requires 0 < |image| && 1 <= pageSize && k < |Slices(image, pageSize)|
    ensures
      var at, page := k * pageSize, Slices(image, pageSize)[k];
      && at < |image| && Written(image, pageSize, k) == image[..at]
      && at + |page| <= |image| && page == image[at..at + |page|]
      && Written(image, pageSize, k + 1) == image[..at + |page|]
  {
    SliceAt(image, pageSize, k);
    NextMultiple(k, pageSize);
    assert image[..|image|] == image;
  }

  lemma WrittenAll(image: seq<byte>, pageSize: nat)
    requires 0 < |image| && 1 <= pageSize
    ensures |Slices(image, pageSize)| > 0 && Written(image, pageSize, |Slices(image, pageSize)|) == image
  {
    var k := |Slices(image, pageSize)| - 1;
    SliceAt(image, pageSize, k);
    WrittenNext(image, pageSize, k);
    assert image[..|image|] == image;
  }

  /** A page written after the ones before it. */
  lemma PageAdded(before: Boards, after: Boards, destinations: seq<byte>, image: seq<byte>, base: u32, pageSize: nat, k: nat)
    requires 0 < |image| && 1 <= pageSize && k < |Slices(image, pageSize)| && base + |image| <= FLASH_END
    requires base + k * pageSize < 0x1_0000_0000
    requires AllUntouched(before, after, base + k * pageSize, Slices(image, pageSize)[k])
    requires k > 0 ==> InPlace(before, destinations, base, Written(image, pageSize, k))
    requires InPlace(after, destinations, base + k * pageSize, Slices(image, pageSize)[k])
    ensures InPlace(after, destinations, base, Written(image, pageSize, k + 1))
  {
    hide Slices, Written, Holds, Untouched;
    WrittenNext(image, pageSize, k);
    var at, page := k * pageSize, Slices(image, pageSize)[k];
    forall d | d in destinations
      ensures Holds(after[d].flash.mem, base, image[..at + |page|])
    {
      assert k > 0 ==> Holds(before[d].flash.mem, base, image[..at]);
      assert Holds(after[d].flash.mem, base + at, page);
      PartsHold(before[d], after[d], base, image, at, page);
    }
  }

  lemma PartsHold(b: Board, b': Board, base: u32, image: seq<byte>, at: nat, page: seq<byte>)
    requires FLASH_BEGIN <= base && base + |image| <= FLASH_END
    requires at + |page| <= |image| && page == image[at..at + |page|]
    requires at > 0 ==> Holds(b.flash.mem, base, image[..at])
    requires Holds(b'.flash.mem, base + at, page) && Untouched(b, b', base + at, page)
    ensures Holds(b'.flash.mem, base, image[..at + |page|])
  {
    hide Holds, Untouched;
    var m, whole := b'.flash.mem, image[..at + |page|];
    forall i | 0 <= i < |whole|
      ensures m[Offset(base) + i] == whole[i]
    {
      if i < at {
        OldPart(b, b', base, image, at, page, i);
      } else {
        NewPart(b', base, image, at, page, i);
      }
    }
    HoldsBytes(m, base, whole);
  }

  lemma OldPart(b: Board, b': Board, base: u32, image: seq<byte>, at: nat, page: seq<byte>, i: nat)
    requires FLASH_BEGIN <= base && base + |image| <= FLASH_END && i < at <= |image|
    requires Holds(b.flash.mem, base, image[..at]) && Untouched(b, b', base + at, page)
    ensures b'.flash.mem[Offset(base) + i] == image[i]
  {
    HoldsBytes(b.flash.mem, base, image[..at]);
    hide Holds;
    assert b.flash.mem[Offset(base) + i] == image[..at][i];
  }

  lemma NewPart(b': Board, base: u32, image: seq<byte>, at: nat, page: seq<byte>, i: nat)
    requires FLASH_BEGIN <= base && base + |image| <= FLASH_END
    requires at <= i < at + |page| <= |image| && page == image[at..at + |page|]
    requires Holds(b'.flash.mem, base + at, page)
    ensures b'.flash.mem[Offset(base) + i] == image[i]
  {
    HoldsBytes(b'.flash.mem, base + at, page);
    hide Holds;
    assert b'.flash.mem[Offset(base + at) + (i - at)] == page[i - at];
  }

  /** What lies in the application area is not affected by changes below it. */
  lemma StaysInPlace(before: Boards, after: Boards, destinations: seq<byte>, base: u32, image: seq<byte>)
    requires InPlace(before, destinations, base, image) && before.Keys == after.Keys
    requires forall d :: d in after ==> SameApplicationArea(before[d], after[d])
    ensures AllHold(after, destinations, base, image)
  {
    forall d | d in destinations
      ensures Holds(after[d].flash.mem, base, image)
    {
      HoldsBytes(before[d].flash.mem, base, image);
      HoldsBytes(after[d].flash.mem, base, image);
    }
  }

  // ----- starting the application -----

  /** A board that holds the image where applications begin, and has its size and checksum configured, starts it. */
  lemma ConfiguredStarts(b: Board, image: seq<byte>, beyond: nat -> byte)
    requires Holds(b.flash.mem, APP_BEGIN, image) && Configured(b.config, |image|, Crc32.Checksum(image))
    ensures Jump(b, beyond) == StartApplication
  {
    hide Crc32.Checksum;
    assert ApplicationBytes(b.flash.mem, |image|, beyond) == b.flash.mem[Offset(APP_BEGIN)..Offset(APP_BEGIN) + |image|];
  }

  lemma ConfiguredStart(boards: Boards, destinations: seq<byte>, image: seq<byte>, update: seq<BusEvent>, save: seq<BusEvent>)
    requires AllHold(boards, destinations, APP_BEGIN, image) && |image| < 0x1_0000_0000
    requires forall d :: d in destinations && !Complains(update, d) && KeepsPower(save, d) ==>
               Configured(boards[d].config, |image|, Crc32.Checksum(image))
    ensures AllStart(boards, destinations, update, save)
  {
    hide Complains, KeepsPower, Configured, Holds, Jump;
    forall d, beyond | d in destinations && !Complains(update, d) && KeepsPower(save, d)
      ensures Jump(boards[d], beyond) == StartApplication
    {
      ConfiguredStarts(boards[d], image, beyond);
    }
  }

  /** Up to four consecutive bytes changed in the application since its checksum was configured, and it is not started. */
  lemma DamagedApplicationStays(b: Board, pre: seq<byte>, s: seq<byte>, t: seq<byte>, post: seq<byte>, beyond: nat -> byte)
    requires |s| == |t| <= 4 && s != t
    requires Holds(b.flash.mem, APP_BEGIN, pre + t + post)
    requires Configured(b.config, |pre + s + post|, Crc32.Checksum(pre + s + post))
    ensures Jump(b, beyond) == StayInBootloader
  {
    Crc32.BurstDetected(pre, s, t, post);
    hide Crc32.Checksum;
    var image := pre + t + post;
    assert ApplicationBytes(b.flash.mem, |image|, beyond) == b.flash.mem[Offset(APP_BEGIN)..Offset(APP_BEGIN) + |image|];
  }

  /** A flashed board survives a reset: the configuration stored is in use again, whatever the uninitialised record held, and the
      application starts. */
  lemma StartsAfterReset(b: Board, image: seq<byte>, uninitialised: Config, default: Config, commit: seq<byte>, version: seq<byte>,
                         beyond: nat -> byte)
    requires Holds(b.flash.mem, APP_BEGIN, image) && Configured(b.config, |image|, Crc32.Checksum(image))
    requires Storable(b.config) && CommitHarmless(b.config) && BootPage(b.flash.mem) == Some(Page(b.config))
    ensures
      var parsed := Load(b.flash.mem, uninitialised, default, commit, version);
      parsed.Updated? && Jump(Board(Unflagged(b.flash.mem), parsed.config), beyond) == StartApplication
  {
    ConfigPages.PageReadBack(uninitialised, b.config);
    hide Page, ReadPage, BootPage, WellFormed, FitsPage, CommitHarmless, Jump, Holds, Crc32.Checksum;
    var parsed := Load(b.flash.mem, uninitialised, default, commit, version);
    ConfiguredStarts(Board(Unflagged(b.flash.mem), parsed.config), image, beyond);
  }
}
