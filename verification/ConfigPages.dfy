/** Power loss while the configuration is being saved: one page always stays valid, and which configuration is loaded next. */
module ConfigPages {
  import opened Bytes
  import opened Wrappers
  import opened Flash
  import opened Configuration
  import opened Commands
  import opened ErasedCache
  import Crc32

  predicate IsPage(page: seq<byte>) {
    |page| == CONFIG_PAGE_SIZE
  }

  function SectorOf(address: u32): nat
    requires IsConfigAddress(address)
  {
    if address == CONFIG1 then 2 else 3
  }

  /** Writing one page, whatever the outcome, leaves every byte outside its sector alone. */
  lemma WriteAndVerifyFrame(fl: Flash, address: u32, page: seq<byte>, a: Attempt, i: nat)
    requires IsConfigAddress(address) && IsPage(page) && i < FLASH_SIZE
    requires i < SectorStart(SectorOf(address)) || SectorStart(SectorOf(address) + 1) <= i
    ensures WriteAndVerify(fl, address, page, a).flash.mem[i] == fl.mem[i]
  {
    hide EraseSector, Program, Mark;
    var fl1 := PageErase(fl, address, a.erase);
    assert AddressToSector(address) == SectorOf(address);
    EraseFrame(fl, address, a.erase, i);
    WriteFrame(fl1, address, page, a.write, i);
  }

  lemma OtherPageKept(fl: Flash, address: u32, other: u32, page: seq<byte>, a: Attempt)
    requires IsConfigAddress(address) && IsConfigAddress(other) && address != other && IsPage(page)
    ensures PageAt(WriteAndVerify(fl, address, page, a).flash.mem, other) == PageAt(fl.mem, other)
  {
    hide WriteAndVerify;
    forall i | Offset(other) <= i < Offset(other) + CONFIG_PAGE_SIZE
      ensures WriteAndVerify(fl, address, page, a).flash.mem[i] == fl.mem[i]
    {
      WriteAndVerifyFrame(fl, address, page, a, i);
    }
  }

  lemma SuccessMeansValid(fl: Flash, address: u32, page: seq<byte>, a: Attempt)
    requires IsConfigAddress(address)
    ensures
      var s := WriteAndVerify(fl, address, page, a);
      && (s.success ==> s.alive && ValidPage(PageAt(s.flash.mem, address)))
      && (s.alive && !s.success ==> !ValidPage(PageAt(s.flash.mem, address)))
  {
    hide PageErase, PageWrite, ValidPage;
  }

  /** No bricking: with a valid page before, there is a valid page after every save, completed or cut off anywhere, for
      any effect of the operations within the sectors they target. */
  lemma SaveKeepsOneValid(fl: Flash, page: seq<byte>, a: Attempt, b: Attempt)
    requires IsPage(page) && (Valid1(fl.mem) || Valid2(fl.mem))
    ensures
      var m := SavePage(fl, page, a, b).flash.mem;
      Valid1(m) || Valid2(m)
  {
    hide WriteAndVerify, ValidPage;
    var first, second := if Valid2(fl.mem) then CONFIG1 else CONFIG2, if Valid2(fl.mem) then CONFIG2 else CONFIG1;
    OtherPageKept(fl, first, second, page, a);
    SuccessMeansValid(fl, first, page, a);
    OtherPageKept(WriteAndVerify(fl, first, page, a).flash, second, first, page, b);
  }

  // ----- crash atomicity -----

  /** What an attempt leaves in the page it targets is the old page, the new page, or something invalid. */
  predicate TornIsInvalid(fl: Flash, address: u32, page: seq<byte>, a: Attempt)
    requires IsConfigAddress(address)
  {
    var left := PageAt(WriteAndVerify(fl, address, page, a).flash.mem, address);
    left == PageAt(fl.mem, address) || left == page || !ValidPage(left)
  }

  function FirstWritten(m: Memory): u32 {
    if Valid2(m) || !Valid1(m) then CONFIG1 else CONFIG2
  }

  function SecondWritten(m: Memory): u32 {
    if Valid2(m) || !Valid1(m) then CONFIG2 else CONFIG1
  }

  predicate SaveTearsInvalid(fl: Flash, page: seq<byte>, a: Attempt, b: Attempt) {
    var first, second := FirstWritten(fl.mem), SecondWritten(fl.mem);
    && TornIsInvalid(fl, first, page, a)
    && TornIsInvalid(WriteAndVerify(fl, first, page, a).flash, second, page, b)
  }

  /** The pages agree, or at most one of them is valid. */
  predicate Agreeing(m: Memory) {
    Valid1(m) && Valid2(m) ==> PageAt(m, CONFIG1) == PageAt(m, CONFIG2)
  }

  /** Each of the two pages afterwards is old, new, or invalid; the second is touched only after the first is written. */
  lemma SavedPages(fl: Flash, page: seq<byte>, a: Attempt, b: Attempt)
    requires IsPage(page) && SaveTearsInvalid(fl, page, a, b)
    ensures
      var m := SavePage(fl, page, a, b).flash.mem;
      var first, second := FirstWritten(fl.mem), SecondWritten(fl.mem);
      var left1, left2 := PageAt(m, first), PageAt(m, second);
      && (left1 == PageAt(fl.mem, first) || left1 == page || !ValidPage(left1))
      && (left2 == PageAt(fl.mem, second) || left2 == page || !ValidPage(left2))
      && (ValidPage(left1) || left2 == PageAt(fl.mem, second) || (!Valid1(fl.mem) && !Valid2(fl.mem)))
  {
    hide WriteAndVerify, ValidPage;
    var first, second := FirstWritten(fl.mem), SecondWritten(fl.mem);
    OtherPageKept(fl, first, second, page, a);
    SuccessMeansValid(fl, first, page, a);
    OtherPageKept(WriteAndVerify(fl, first, page, a).flash, second, first, page, b);
  }

  /** Crash atomicity: if the pages agree before a save, then however it ends the next boot loads the old or the new one. */
  lemma CrashAtomic(fl: Flash, page: seq<byte>, a: Attempt, b: Attempt)
    requires IsPage(page) && SaveTearsInvalid(fl, page, a, b)
    requires Agreeing(fl.mem)
    ensures
      var after := BootPage(SavePage(fl, page, a, b).flash.mem);
      after == BootPage(fl.mem) || after == Some(page)
  {
    SavedPages(fl, page, a, b);
    hide SavePage, ValidPage;
  }

  /** The bytes of a page with the first one changed. */
  function Damaged(page: seq<byte>): (d: seq<byte>)
    requires IsPage(page)
    ensures IsPage(d)
  {
    [(page[0] as int + 1) % 0x100] + page[1..]
  }

  lemma DamagedIsInvalid(page: seq<byte>)
    requires IsPage(page) && ValidPage(page)
    ensures !ValidPage(Damaged(page))
  {
    hide BigEndian, FromBytes, Crc32.Checksum;
    var d := Damaged(page);
    assert d[4..] == page[4..];
    BigEndianFromBytes(page[0], page[1], page[2], page[3]);
    BigEndianFromBytes(d[0], d[1], d[2], d[3]);
  }

  /** Power fails while the first page is being programmed, leaving a damaged image of the new page. */
  function TearingAttempt(page: seq<byte>): Attempt
    requires IsPage(page)
  {
    Attempt(Done, PowerLoss((i: nat) =>
      if Offset(CONFIG1) <= i < Offset(CONFIG1) + CONFIG_PAGE_SIZE then Damaged(page)[i - Offset(CONFIG1)] else 0))
  }

  /** Agreement is what it takes: with two different valid pages, a save of a third one can be torn so that the next boot
      loads neither the old configuration nor the new one, but the stale page. */
  lemma StalePageLoaded(fl: Flash, page: seq<byte>, b: Attempt)
    requires IsPage(page) && ValidPage(page) && page != PageAt(fl.mem, CONFIG2)
    requires !Agreeing(fl.mem)
    ensures
      var a := TearingAttempt(page);
      var after := BootPage(SavePage(fl, page, a, b).flash.mem);
      && TornIsInvalid(fl, FirstWritten(fl.mem), page, a)
      && !SavePage(fl, page, a, b).alive
      && after == Some(PageAt(fl.mem, CONFIG2)) && after != BootPage(fl.mem) && after != Some(page)
  {
    var a := TearingAttempt(page);
    TornPageLeft(fl, page);
    DamagedIsInvalid(page);
    OtherPageKept(fl, CONFIG1, CONFIG2, page, a);
    hide WriteAndVerify, ValidPage, Damaged, TearingAttempt;
  }

  /** The next boot loads the old configuration or the new one. */
  predicate Atomic(fl: Flash, page: seq<byte>, a: Attempt, b: Attempt) {
    var after := BootPage(SavePage(fl, page, a, b).flash.mem);
    after == BootPage(fl.mem) || after == Some(page)
  }

  /** An attempt cut off before it changes anything. */
  function NoAttempt(m: Memory): Attempt {
    Attempt(PowerLoss((i: nat) => if i < FLASH_SIZE then m[i] else 0), Done)
  }

  lemma NoAttemptKeeps(fl: Flash, address: u32, page: seq<byte>)
    requires IsConfigAddress(address)
    ensures WriteAndVerify(fl, address, page, NoAttempt(fl.mem)).flash.mem == fl.mem
  {
  }

  /** Crash atomicity, exactly: for a valid new page other than the one in the second sector, saves are atomic under every
      possible tear if and only if the pages agree beforehand. */
  lemma CrashAtomicExactly(fl: Flash, page: seq<byte>)
    requires IsPage(page) && ValidPage(page) && page != PageAt(fl.mem, CONFIG2)
    ensures Agreeing(fl.mem) <==> forall a, b :: SaveTearsInvalid(fl, page, a, b) ==> Atomic(fl, page, a, b)
  {
    hide WriteAndVerify, ValidPage, SavePage, TearingAttempt, NoAttempt, BootPage;
    if Agreeing(fl.mem) {
      forall a, b | SaveTearsInvalid(fl, page, a, b)
        ensures Atomic(fl, page, a, b)
      {
        CrashAtomic(fl, page, a, b);
      }
    } else {
      var a := TearingAttempt(page);
      var fl1 := WriteAndVerify(fl, FirstWritten(fl.mem), page, a).flash;
      var b := NoAttempt(fl1.mem);
      StalePageLoaded(fl, page, b);
      NoAttemptKeeps(fl1, SecondWritten(fl.mem), page);
      assert SaveTearsInvalid(fl, page, a, b) && !Atomic(fl, page, a, b);
    }
  }

  lemma TornPageLeft(fl: Flash, page: seq<byte>)
    requires IsPage(page)
    ensures
      var s := WriteAndVerify(fl, CONFIG1, page, TearingAttempt(page));
      PageAt(s.flash.mem, CONFIG1) == Damaged(page) && !s.alive && !s.success
  {
    var fl1 := PageErase(fl, CONFIG1, Done);
    MarkCompletes(fl1.erased, CONFIG1, CONFIG1 + CONFIG_PAGE_SIZE);
    hide Mark, Damaged, PageErase, ValidPage;
    var m := WriteAndVerify(fl, CONFIG1, page, TearingAttempt(page)).flash.mem;
    assert forall i :: 0 <= i < CONFIG_PAGE_SIZE ==> m[Offset(CONFIG1) + i] == Damaged(page)[i];
  }

  // ----- many interrupted saves -----

  /** One save; `restart` tells whether the firmware starts again afterwards. */
  datatype Save = Save(page: seq<byte>, first: Attempt, second: Attempt, restart: bool)

  function AfterSave(fl: Flash, s: Save): Flash
    requires IsPage(s.page)
  {
    var fl' := SavePage(fl, s.page, s.first, s.second).flash;
    if s.restart then Unflagged(fl'.mem) else fl'
  }

  predicate ArePages(saves: seq<Save>) {
    forall i :: 0 <= i < |saves| ==> IsPage(saves[i].page)
  }

  function SaveAll(fl: Flash, saves: seq<Save>): Flash
    requires ArePages(saves)
    decreases |saves|
  {
    if saves == [] then fl else AfterSave(SaveAll(fl, saves[..|saves| - 1]), saves[|saves| - 1])
  }

  /** Every save in the run leaves only old, new or invalid pages. */
  predicate AllTearInvalid(fl: Flash, saves: seq<Save>)
    requires ArePages(saves)
    decreases |saves|
  {
    saves == [] ||
    var s := saves[|saves| - 1];
    && AllTearInvalid(fl, saves[..|saves| - 1])
    && SaveTearsInvalid(SaveAll(fl, saves[..|saves| - 1]), s.page, s.first, s.second)
  }

  predicate Known(page: seq<byte>, fl: Flash, saves: seq<Save>) {
    || page == PageAt(fl.mem, CONFIG1) || page == PageAt(fl.mem, CONFIG2)
    || exists i :: 0 <= i < |saves| && page == saves[i].page
  }

  /** Over any number of interrupted saves, a valid page is one stored initially or one submitted for saving. */
  lemma {:induction false} ValidPagesAreKnown(fl: Flash, saves: seq<Save>, address: u32)
    requires ArePages(saves) && AllTearInvalid(fl, saves) && IsConfigAddress(address)
    requires ValidPage(PageAt(SaveAll(fl, saves).mem, address))
    ensures Known(PageAt(SaveAll(fl, saves).mem, address), fl, saves)
    decreases |saves|
  {
    hide ValidPage, SavePage;
    if saves != [] {
      var before := saves[..|saves| - 1];
      var s := saves[|saves| - 1];
      var fl' := SaveAll(fl, before);
      SavedPages(fl', s.page, s.first, s.second);
      var left := PageAt(SaveAll(fl, saves).mem, address);
      if left != s.page {
        assert left == PageAt(fl'.mem, address);
        ValidPagesAreKnown(fl, before, address);
        if i :| 0 <= i < |before| && left == before[i].page {
          assert left == saves[i].page;
        }
      }
    }
  }

  /** So what is loaded at boot is always one of those. */
  lemma LoadedIsKnown(fl: Flash, saves: seq<Save>)
    requires ArePages(saves) && AllTearInvalid(fl, saves)
    ensures
      var loaded := BootPage(SaveAll(fl, saves).mem);
      loaded.Some? ==> Known(loaded.value, fl, saves)
  {
    hide ValidPage, Known;
    var m := SaveAll(fl, saves).mem;
    if Valid1(m) {
      ValidPagesAreKnown(fl, saves, CONFIG1);
    } else if Valid2(m) {
      ValidPagesAreKnown(fl, saves, CONFIG2);
    }
  }

  /** The page was written from one of these configurations. */
  ghost predicate IsPageOf(known: set<Config>, page: seq<byte>) {
    exists c :: c in known && Storable(c) && page == Page(c)
  }

  /** Every valid page initially stored, and every page submitted, was written from one of these configurations. */
  ghost predicate WrittenFrom(known: set<Config>, fl: Flash, saves: seq<Save>) {
    && (Valid1(fl.mem) ==> IsPageOf(known, PageAt(fl.mem, CONFIG1)))
    && (Valid2(fl.mem) ==> IsPageOf(known, PageAt(fl.mem, CONFIG2)))
    && forall i :: 0 <= i < |saves| ==> IsPageOf(known, saves[i].page)
  }

  /** In terms of configurations: over any number of saves, power cuts and restarts, the one in use after the next boot, whatever
      the uninitialised record held, is one stored initially or submitted, with the compiled-in version strings; or the default. */
  lemma LoadedConfigIsKnown(known: set<Config>, fl: Flash, saves: seq<Save>, uninitialised: Config, default: Config,
                            commit: seq<byte>, version: seq<byte>)
    requires ArePages(saves) && AllTearInvalid(fl, saves) && WrittenFrom(known, fl, saves)
    requires forall c :: c in known ==> CommitHarmless(c)
    ensures
      var m := SaveAll(fl, saves).mem;
      var parsed := Load(m, uninitialised, default, commit, version);
      && parsed.Updated?
      && (if Valid1(m) || Valid2(m) then exists c :: c in known && parsed.config == c.(commit := commit, version := version)
          else parsed.config == default.(commit := commit, version := version))
  {
    hide ValidPage, Page, ReadPage, SaveAll, AllTearInvalid, CommitHarmless, WellFormed, FitsPage;
    var m := SaveAll(fl, saves).mem;
    if Valid1(m) || Valid2(m) {
      ValidLoadedIsPageOf(known, fl, saves, if Valid1(m) then CONFIG1 else CONFIG2);
      var page := BootPage(m).value;
      var c :| c in known && Storable(c) && page == Page(c);
      PageReadBack(uninitialised, c);
      assert Restored(uninitialised, c).(commit := commit, version := version) == c.(commit := commit, version := version);
    }
  }

  lemma PageReadBack(into: Config, c: Config)
    requires Storable(c) && CommitHarmless(c)
    ensures ReadPage(into, Page(c)).Updated? && ReadPage(into, Page(c)).config == Restored(into, c)
  {
    PageRoundTrip(into, c);
  }

  lemma ValidLoadedIsPageOf(known: set<Config>, fl: Flash, saves: seq<Save>, address: u32)
    requires ArePages(saves) && AllTearInvalid(fl, saves) && IsConfigAddress(address) && WrittenFrom(known, fl, saves)
    requires ValidPage(PageAt(SaveAll(fl, saves).mem, address))
    ensures IsPageOf(known, PageAt(SaveAll(fl, saves).mem, address))
  {
    hide IsPageOf, SavePage;
    var page := PageAt(SaveAll(fl, saves).mem, address);
    ValidPagesAreKnown(fl, saves, address);
    if page == PageAt(fl.mem, CONFIG1) {
      assert Valid1(fl.mem);
    } else if page == PageAt(fl.mem, CONFIG2) {
      assert Valid2(fl.mem);
    } else {
      var i :| 0 <= i < |saves| && page == saves[i].page;
    }
  }

  // ----- a save on healthy hardware -----

  /** Erased memory takes the page as it is. */
  lemma HealthyContents(fl: Flash, address: u32, page: seq<byte>)
    requires IsConfigAddress(address) && IsPage(page) && SectorErased(fl.mem, SectorOf(address))
    ensures PageAt(PageWrite(fl, address, page, Done).mem, address) == page
  {
    hide PageWrite;
    ErasedTakesData(fl, address, page);
  }

  lemma PageWriteSound(fl: Flash, address: u32, page: seq<byte>, outcome: Outcome)
    requires IsConfigAddress(address) && IsPage(page) && Sound(fl)
    ensures Sound(PageWrite(fl, address, page, outcome))
  {
    assert AddressToSector(address) == AddressToSector(address + CONFIG_PAGE_SIZE - 1) == SectorOf(address);
    hide AddressToSector, Mark, PageWrite, Sound;
    WriteSound(fl, address, page, outcome);
  }

  /** The flags stay sound whatever becomes of the attempt. */
  lemma WriteAndVerifySound(fl: Flash, address: u32, page: seq<byte>, a: Attempt)
    requires IsConfigAddress(address) && IsPage(page) && Sound(fl)
    ensures Sound(WriteAndVerify(fl, address, page, a).flash)
  {
    EraseSound(fl, address, a.erase);
    hide PageErase, PageWrite, Sound, ValidPage;
    PageWriteSound(PageErase(fl, address, a.erase), address, page, a.write);
  }

  lemma HealthyWrite(fl: Flash, address: u32, page: seq<byte>)
    requires IsConfigAddress(address) && IsPage(page) && Honest(fl, SectorOf(address))
    ensures
      var s := WriteAndVerify(fl, address, page, Attempt(Done, Done));
      PageAt(s.flash.mem, address) == page && s.alive && s.success == ValidPage(page)
  {
    var fl1 := PageErase(fl, address, Done);
    ConfigSector(fl, address);
    hide PageErase, PageWrite, Honest, SectorErased, ValidPage;
    HealthyContents(fl1, address, page);
  }

  lemma ConfigSector(fl: Flash, address: u32)
    requires IsConfigAddress(address) && Honest(fl, SectorOf(address))
    ensures SectorErased(PageErase(fl, address, Done).mem, SectorOf(address))
  {
    assert AddressToSector(address) == SectorOf(address);
  }

  /** Writing one page leaves the other one's sector and flag alone. */
  lemma OtherFlagKept(fl: Flash, address: u32, other: u32, page: seq<byte>, a: Attempt)
    requires IsConfigAddress(address) && IsConfigAddress(other) && address != other && IsPage(page)
    ensures
      var k, fl' := SectorOf(other), WriteAndVerify(fl, address, page, a).flash;
      fl'.erased[k] == fl.erased[k] && (Honest(fl, k) ==> Honest(fl', k))
  {
    var k, fl' := SectorOf(other), WriteAndVerify(fl, address, page, a).flash;
    assert AddressToSector(address) == SectorOf(address);
    MarkOwnSector(PageErase(fl, address, a.erase).erased, address);
    hide Mark, EraseSector, Program, ValidPage;
    forall i | SectorStart(k) <= i < SectorStart(k + 1)
      ensures fl'.mem[i] == fl.mem[i]
    {
      WriteAndVerifyFrame(fl, address, page, a, i);
    }
  }

  lemma MarkOwnSector(erased: Flags, address: u32)
    requires IsConfigAddress(address)
    ensures Mark(erased, address, address + CONFIG_PAGE_SIZE).erased == erased[SectorOf(address) := false]
  {
    assert AddressToSector(address) == SectorOf(address);
    assert Mark(erased[SectorOf(address) := false], address + 0x4000, address + CONFIG_PAGE_SIZE)
        == Marking(erased[SectorOf(address) := false], true);
  }

  predicate ConfigHonest(fl: Flash) {
    Honest(fl, SectorOf(CONFIG1)) && Honest(fl, SectorOf(CONFIG2))
  }

  lemma HealthyPair(fl: Flash, first: u32, second: u32, page: seq<byte>)
    requires IsConfigAddress(first) && IsConfigAddress(second) && first != second
    requires IsPage(page) && ValidPage(page) && ConfigHonest(fl)
    ensures
      var ok := Attempt(Done, Done);
      var s := WriteAndVerify(fl, first, page, ok);
      var t := WriteAndVerify(s.flash, second, page, ok);
      && s.alive && s.success && t.alive && t.success
      && PageAt(t.flash.mem, CONFIG1) == PageAt(t.flash.mem, CONFIG2) == page
  {
    hide WriteAndVerify, ValidPage, Honest;
    HealthyWrite(fl, first, page);
    OtherFlagKept(fl, first, second, page, Attempt(Done, Done));
    var s := WriteAndVerify(fl, first, page, Attempt(Done, Done));
    HealthyWrite(s.flash, second, page);
    OtherPageKept(s.flash, second, first, page, Attempt(Done, Done));
  }

  lemma HealthySavePage(fl: Flash, page: seq<byte>)
    requires IsPage(page) && ValidPage(page) && ConfigHonest(fl)
    ensures
      var s := SavePage(fl, page, Attempt(Done, Done), Attempt(Done, Done));
      && s.success && s.alive && PageAt(s.flash.mem, CONFIG1) == PageAt(s.flash.mem, CONFIG2) == page
      && BootPage(s.flash.mem) == Some(page)
  {
    hide WriteAndVerify, ValidPage, Honest;
    HealthyPair(fl, CONFIG1, CONFIG2, page);
    HealthyPair(fl, CONFIG2, CONFIG1, page);
  }

  lemma HealthySaveHonest(fl: Flash, page: seq<byte>)
    requires IsPage(page) && ConfigHonest(fl)
    ensures ConfigHonest(SavePage(fl, page, Attempt(Done, Done), Attempt(Done, Done)).flash)
  {
    hide WriteAndVerify, ValidPage, Honest;
    var ok := Attempt(Done, Done);
    WriteKeepsHonest(fl, CONFIG1, page, ok);
    WriteKeepsHonest(fl, CONFIG2, page, ok);
    WriteKeepsHonest(WriteAndVerify(fl, CONFIG1, page, ok).flash, CONFIG2, page, ok);
    WriteKeepsHonest(WriteAndVerify(fl, CONFIG2, page, ok).flash, CONFIG1, page, ok);
  }

  lemma WriteKeepsHonest(fl: Flash, address: u32, page: seq<byte>, a: Attempt)
    requires IsConfigAddress(address) && IsPage(page) && ConfigHonest(fl)
    ensures ConfigHonest(WriteAndVerify(fl, address, page, a).flash)
  {
    OtherFlagKept(fl, address, if address == CONFIG1 then CONFIG2 else CONFIG1, page, a);
    OwnFlagHonest(fl, address, page, a);
    hide WriteAndVerify, Honest;
  }

  lemma OwnFlagHonest(fl: Flash, address: u32, page: seq<byte>, a: Attempt)
    requires IsConfigAddress(address) && IsPage(page) && Honest(fl, SectorOf(address))
    ensures Honest(WriteAndVerify(fl, address, page, a).flash, SectorOf(address))
  {
    assert AddressToSector(address) == SectorOf(address);
    var fl1 := PageErase(fl, address, a.erase);
    MarkOwnSector(fl1.erased, address);
    hide Mark, Program, ValidPage;
  }

  lemma SuccessExactly(fl: Flash, page: seq<byte>, x: Attempt, y: Attempt)
    requires IsPage(page) && SavePage(fl, page, x, y).alive
    ensures
      var s := SavePage(fl, page, x, y);
      s.success <==> Valid1(s.flash.mem) && Valid2(s.flash.mem)
  {
    hide WriteAndVerify, ValidPage;
    var first, second := FirstWritten(fl.mem), SecondWritten(fl.mem);
    SuccessMeansValid(fl, first, page, x);
    var fl1 := WriteAndVerify(fl, first, page, x).flash;
    SuccessMeansValid(fl1, second, page, y);
    OtherPageKept(fl1, second, first, page, y);
  }

  /** The save's reply, exactly, whatever becomes of its operations: true if both pages are valid afterwards, and false otherwise. */
  lemma SaveReply(b: Board, x: Attempt, y: Attempt)
    requires Storable(Incremented(b.config)) && ConfigSave(b, x, y).alive
    ensures
      var r := ConfigSave(b, x, y);
      && r.reply == [if Valid1(r.board.flash.mem) && Valid2(r.board.flash.mem) then 0xC3 else 0xC2]
      && r.board.config == b.config.(updateCount := (b.config.updateCount + 1) % 0x1_0000_0000)
  {
    SuccessExactly(b.flash, Page(Incremented(b.config)), x, y);
    hide SavePage, Valid1, Valid2, WellFormed, FitsPage, Page;
  }

  /** Both pages hold the saved configuration, the reply says so, and the next boot reads it, restoring it exactly if the commit
      is harmless. */
  lemma HealthySave(b: Board, into: Config)
    requires Storable(Incremented(b.config)) && ConfigHonest(b.flash)
    ensures
      var c := Incremented(b.config);
      var r := ConfigSave(b, Attempt(Done, Done), Attempt(Done, Done));
      && r.reply == [TRUE] && r.alive && r.board.config == c
      && r.board.flash.mem[0x8000..0x8200] == r.board.flash.mem[0xC000..0xC200] == Page(c)
      && BootPage(r.board.flash.mem) == Some(Page(c))
      && (ReadPage(into, Page(c)).Updated? && ReadPage(into, Page(c)).config == Restored(into, c) <==> CommitHarmless(b.config))
  {
    var c := Incremented(b.config);
    PageRoundTrip(into, c);
    hide SavePage, ValidPage, Page, Honest, ReadPage, BootPage, Serialized;
    HealthySavePage(b.flash, Page(c));
  }

  // ----- how the pages come to differ -----

  /** Power fails after the first page has been written and before the second is touched: both pages are then valid, and
      different. */
  lemma CutBetweenPages(fl: Flash, page: seq<byte>)
    requires IsPage(page) && ValidPage(page) && ConfigHonest(fl)
    requires Valid1(fl.mem) && Valid2(fl.mem) && page != PageAt(fl.mem, CONFIG2)
    ensures
      var ok := Attempt(Done, Done);
      var cut := NoAttempt(WriteAndVerify(fl, CONFIG1, page, ok).flash.mem);
      var s := SavePage(fl, page, ok, cut);
      && SaveTearsInvalid(fl, page, ok, cut) && !s.alive
      && PageAt(s.flash.mem, CONFIG1) == page && PageAt(s.flash.mem, CONFIG2) == PageAt(fl.mem, CONFIG2)
      && !Agreeing(s.flash.mem)
  {
    var ok := Attempt(Done, Done);
    var fl1 := WriteAndVerify(fl, CONFIG1, page, ok).flash;
    HealthyWrite(fl, CONFIG1, page);
    OtherPageKept(fl, CONFIG1, CONFIG2, page, ok);
    NoAttemptKeeps(fl1, CONFIG2, page);
    NoAttemptCuts(fl1, CONFIG2, page);
    hide WriteAndVerify, ValidPage, Honest, NoAttempt;
  }

  lemma NoAttemptCuts(fl: Flash, address: u32, page: seq<byte>)
    requires IsConfigAddress(address)
    ensures !WriteAndVerify(fl, address, page, NoAttempt(fl.mem)).alive
  {
  }

  /** From two agreeing pages, two interrupted saves bring an outdated configuration back: the first one is cut off between the
      pages, and its configuration is the next one loaded; the second one is torn, and the next boot loads the configuration from
      before both. */
  lemma OutdatedConfigReturns(fl: Flash, page1: seq<byte>, page2: seq<byte>, b: Attempt)
    requires ConfigHonest(fl) && Valid1(fl.mem) && PageAt(fl.mem, CONFIG1) == PageAt(fl.mem, CONFIG2)
    requires IsPage(page1) && ValidPage(page1) && page1 != PageAt(fl.mem, CONFIG1)
    requires IsPage(page2) && ValidPage(page2) && page2 != PageAt(fl.mem, CONFIG1)
    ensures
      var ok := Attempt(Done, Done);
      var cut := NoAttempt(WriteAndVerify(fl, CONFIG1, page1, ok).flash.mem);
      var fl1 := Unflagged(SavePage(fl, page1, ok, cut).flash.mem);
      && BootPage(fl1.mem) == Some(page1)
      && BootPage(SavePage(fl1, page2, TearingAttempt(page2), b).flash.mem) == BootPage(fl.mem) != Some(page1)
  {
    hide WriteAndVerify, ValidPage, Honest, NoAttempt, SavePage, TearingAttempt;
    CutBetweenPages(fl, page1);
    var ok := Attempt(Done, Done);
    var cut := NoAttempt(WriteAndVerify(fl, CONFIG1, page1, ok).flash.mem);
    var fl1 := Unflagged(SavePage(fl, page1, ok, cut).flash.mem);
    StalePageLoaded(fl1, page2, b);
  }
}
