/** The configuration record, its serialisation, and the checked page it is stored in. */
module Configuration {
  import opened Bytes
  import opened MessagePack
  import Crc32

  datatype Config = Config(
    id: byte,
    name: seq<byte>,
    deviceClass: seq<byte>,
    applicationCrc: u32,
    applicationSize: u32,
    updateCount: u32,
    commit: seq<byte>,
    version: seq<byte>)

  const KEY_ID := Ascii("ID")
  const KEY_NAME := Ascii("name")
  const KEY_DEVICE_CLASS := Ascii("device_class")
  const KEY_APPLICATION_CRC := Ascii("application_crc")
  const KEY_APPLICATION_SIZE := Ascii("application_size")
  const KEY_UPDATE_COUNT := Ascii("update_count")
  const KEY_COMMIT := Ascii("bootloader_commit")
  const KEY_VERSION := Ascii("bootloader_version")

  const KEY_SIZE := 64
  const STRING_SIZE := 65
  const CONFIG_PAGE_SIZE := 512

  /** A C string that fits a field of the record. */
  predicate IsField(s: seq<byte>) {
    |s| <= 64 && 0 !in s
  }

  predicate WellFormed(c: Config) {
    IsField(c.name) && IsField(c.deviceClass) && |c.commit| < 0x100 && 0 !in c.commit && |c.version| < 0x100 && 0 !in c.version
  }

  // ----- reading -----

  /** `Unreadable`: a library read fails; the firmware ignores that, and what it reads next is up to the library. */
  datatype Parsed = Unreadable | Updated(config: Config, rest: seq<byte>)

  function ReadString(s: seq<byte>, store: seq<byte> -> Config): Parsed {
    match GetStr(s, STRING_SIZE)
    case Fail => Unreadable
    case Got(v, rest) => Updated(store(v), rest)
  }

  function ReadNumber(s: seq<byte>, store: u32 -> Config): Parsed {
    match GetUint(s)
    case Fail => Unreadable
    case Got(v, rest) => Updated(store(v), rest)
  }

  /** The value of a recognised key goes into its field; the value of any other key is not skipped. */
  function ReadValue(c: Config, key: seq<byte>, s: seq<byte>): Parsed {
    if key == KEY_ID then
      match GetU8(s)
      case Fail => Unreadable
      case Got(v, rest) => Updated(c.(id := v), rest)
    else if key == KEY_NAME then ReadString(s, v => c.(name := v))
    else if key == KEY_DEVICE_CLASS then ReadString(s, v => c.(deviceClass := v))
    else if key == KEY_APPLICATION_CRC then ReadNumber(s, (v: u32) => c.(applicationCrc := v))
    else if key == KEY_APPLICATION_SIZE then ReadNumber(s, (v: u32) => c.(applicationSize := v))
    else if key == KEY_UPDATE_COUNT then ReadNumber(s, (v: u32) => c.(updateCount := v))
    else Updated(c, s)
  }

  function ReadEntries(c: Config, s: seq<byte>, keyCount: nat): Parsed
    decreases keyCount
  {
    if keyCount == 0 then Updated(c, s)
    else
      match GetStr(s, KEY_SIZE)
      case Fail => Unreadable
      case Got(key, rest) =>
        match ReadValue(c, key, rest)
        case Unreadable => Unreadable
        case Updated(c', rest') => ReadEntries(c', rest', keyCount - 1)
  }

  function UpdateFromSerialized(c: Config, s: seq<byte>): Parsed {
    match GetMap(s)
    case Fail => Unreadable
    case Got(n, rest) => ReadEntries(c, rest, n)
  }

  // ----- maps of entries -----

  /** One round of the reading loop: a recognised key with its value, or a string taken for an unknown key.
      `compact` is the client's shortest form of a small integer, the firmware always writes a `uint8`. */
  datatype Entry =
    | Id(b: byte, compact: bool)
    | Name(s: seq<byte>)
    | DeviceClass(s: seq<byte>)
    | ApplicationCrc(n: u32)
    | ApplicationSize(n: u32)
    | UpdateCount(n: u32)
    | Unknown(key: seq<byte>)

  predicate IsKey(key: seq<byte>) {
    || key == KEY_ID || key == KEY_NAME || key == KEY_DEVICE_CLASS
    || key == KEY_APPLICATION_CRC || key == KEY_APPLICATION_SIZE || key == KEY_UPDATE_COUNT
  }

  predicate Readable(e: Entry) {
    match e
    case Name(s) => IsField(s)
    case DeviceClass(s) => IsField(s)
    case Unknown(key) => |key| < 64 && 0 !in key && !IsKey(key)
    case _ => true
  }

  function PutEntry(e: Entry): seq<byte>
    requires Readable(e)
  {
    match e
    case Id(b, compact) => PutStr(KEY_ID) + if compact then PutUint(b) else PutU8(b)
    case Name(s) => PutStr(KEY_NAME) + PutStr(s)
    case DeviceClass(s) => PutStr(KEY_DEVICE_CLASS) + PutStr(s)
    case ApplicationCrc(n) => PutStr(KEY_APPLICATION_CRC) + PutUint(n)
    case ApplicationSize(n) => PutStr(KEY_APPLICATION_SIZE) + PutUint(n)
    case UpdateCount(n) => PutStr(KEY_UPDATE_COUNT) + PutUint(n)
    case Unknown(key) => PutStr(key)
  }

  function Apply(c: Config, e: Entry): Config {
    match e
    case Id(b, _) => c.(id := b)
    case Name(s) => c.(name := s)
    case DeviceClass(s) => c.(deviceClass := s)
    case ApplicationCrc(n) => c.(applicationCrc := n)
    case ApplicationSize(n) => c.(applicationSize := n)
    case UpdateCount(n) => c.(updateCount := n)
    case Unknown(_) => c
  }

  predicate AllReadable(es: seq<Entry>) {
    forall i :: 0 <= i < |es| ==> Readable(es[i])
  }

  function PutEntries(es: seq<Entry>): seq<byte>
    requires AllReadable(es)
  {
    if es == [] then [] else PutEntry(es[0]) + PutEntries(es[1..])
  }

  function ApplyAll(c: Config, es: seq<Entry>): Config
    decreases |es|
  {
    if es == [] then c else ApplyAll(Apply(c, es[0]), es[1..])
  }

  lemma NotZero(s: string)
    requires forall i :: 0 <= i < |s| ==> 0 < s[i] as int < 0x80
    ensures 0 !in Ascii(s)
  {
  }

  /** The keys are C strings and pairwise different. */
  lemma Keys()
    ensures 0 !in KEY_ID && 0 !in KEY_NAME && 0 !in KEY_DEVICE_CLASS && 0 !in KEY_APPLICATION_CRC
         && 0 !in KEY_APPLICATION_SIZE && 0 !in KEY_UPDATE_COUNT && 0 !in KEY_COMMIT && 0 !in KEY_VERSION
    ensures KEY_DEVICE_CLASS != KEY_UPDATE_COUNT
    ensures !IsKey(KEY_COMMIT)
  {
    NotZero("ID");
    NotZero("name");
    NotZero("device_class");
    NotZero("application_crc");
    NotZero("application_size");
    NotZero("update_count");
    NotZero("bootloader_commit");
    NotZero("bootloader_version");
    assert KEY_DEVICE_CLASS[0] == 'd' as int && KEY_UPDATE_COUNT[0] == 'u' as int;
    assert |KEY_COMMIT| == 17 && |KEY_APPLICATION_SIZE| == 16;
  }

  lemma ReadEntry(c: Config, e: Entry, rest: seq<byte>)
    requires Readable(e)
    ensures
      var key := GetStr(PutEntry(e) + rest, KEY_SIZE);
      key.Got? && ReadValue(c, key.value, key.rest) == Updated(Apply(c, e), rest)
  {
    Keys();
    match e {
      case Id(b, compact) =>
        ReadKey(KEY_ID, if compact then PutUint(b) else PutU8(b), rest);
        GetPutU8(b, rest);
      case Name(s) =>
        ReadKey(KEY_NAME, PutStr(s), rest);
        GetPutStr(s, rest, STRING_SIZE);
      case DeviceClass(s) =>
        ReadKey(KEY_DEVICE_CLASS, PutStr(s), rest);
        GetPutStr(s, rest, STRING_SIZE);
      case ApplicationCrc(n) =>
        ReadKey(KEY_APPLICATION_CRC, PutUint(n), rest);
        GetPutUint(n, rest);
      case ApplicationSize(n) =>
        ReadKey(KEY_APPLICATION_SIZE, PutUint(n), rest);
        GetPutUint(n, rest);
      case UpdateCount(n) =>
        ReadKey(KEY_UPDATE_COUNT, PutUint(n), rest);
        GetPutUint(n, rest);
      case Unknown(key) =>
        GetPutStr(key, rest, KEY_SIZE);
    }
  }

  lemma ReadKey(key: seq<byte>, value: seq<byte>, rest: seq<byte>)
    requires |key| < KEY_SIZE && 0 !in key
    ensures GetStr(PutStr(key) + value + rest, KEY_SIZE) == Got(key, value + rest)
  {
    GetPutStr(key, value + rest, KEY_SIZE);
    assert PutStr(key) + value + rest == PutStr(key) + (value + rest);
  }

  /** One round of the reading loop. */
  lemma ReadOne(c: Config, e: Entry, rest: seq<byte>, more: nat)
    requires Readable(e)
    ensures ReadEntries(c, PutEntry(e) + rest, more + 1) == ReadEntries(Apply(c, e), rest, more)
  {
    ReadEntry(c, e, rest);
    hide GetStr, PutEntry, ReadValue, Apply, Readable;
  }

  /** The entries are read one by one, and what follows them by the rest of the loop. */
  lemma {:induction false} ReadPutEntries(c: Config, es: seq<Entry>, rest: seq<byte>, more: nat)
    requires AllReadable(es)
    ensures ReadEntries(c, PutEntries(es) + rest, |es| + more) == ReadEntries(ApplyAll(c, es), rest, more)
    decreases |es|
  {
    hide ReadEntries, PutEntry, Apply, Readable;
    if es == [] {
      assert PutEntries(es) + rest == rest;
    } else {
      var rest' := PutEntries(es[1..]) + rest;
      assert PutEntries(es) + rest == PutEntry(es[0]) + rest';
      ReadOne(c, es[0], rest', |es| - 1 + more);
      ReadPutEntries(Apply(c, es[0]), es[1..], rest, more);
    }
  }

  lemma EntriesEnd(c: Config, s: seq<byte>)
    ensures ReadEntries(c, s, 0) == Updated(c, s)
  {
  }

  /** An update from a map of recognised entries changes exactly the fields they name, in order. */
  lemma UpdateAppliesEntries(c: Config, es: seq<Entry>, rest: seq<byte>)
    requires AllReadable(es) && |es| < 0x1_0000
    ensures UpdateFromSerialized(c, PutMap(|es|) + PutEntries(es) + rest) == Updated(ApplyAll(c, es), rest)
  {
    hide PutEntries, ApplyAll, PutMap, GetMap, ReadEntries, Readable;
    assert PutMap(|es|) + PutEntries(es) + rest == PutMap(|es|) + (PutEntries(es) + rest);
    GetPutMap(|es|, PutEntries(es) + rest);
    ReadPutEntries(c, es, rest, 0);
    EntriesEnd(ApplyAll(c, es), rest);
  }

  // ----- the stored map -----

  /** What the firmware writes: eight keys with their values. */
  function Serialized(c: Config): seq<byte>
    requires WellFormed(c)
  {
    PutMap(8)
    + (PutStr(KEY_ID) + PutU8(c.id))
    + (PutStr(KEY_NAME) + PutStr(c.name))
    + (PutStr(KEY_DEVICE_CLASS) + PutStr(c.deviceClass))
    + (PutStr(KEY_APPLICATION_CRC) + PutUint(c.applicationCrc))
    + (PutStr(KEY_APPLICATION_SIZE) + PutUint(c.applicationSize))
    + (PutStr(KEY_UPDATE_COUNT) + PutUint(c.updateCount))
    + (PutStr(KEY_COMMIT) + PutStr(c.commit))
    + VersionPair(c)
  }

  function VersionPair(c: Config): seq<byte>
    requires WellFormed(c)
  {
    PutStr(KEY_VERSION) + PutStr(c.version)
  }

  /** The map up to the commit: seven entries, the last one a key the reader does not know. */
  function StoredEntries(c: Config): (es: seq<Entry>)
    requires WellFormed(c)
    ensures |es| == 7
  {
    [Id(c.id, false), Name(c.name), DeviceClass(c.deviceClass), ApplicationCrc(c.applicationCrc),
     ApplicationSize(c.applicationSize), UpdateCount(c.updateCount), Unknown(KEY_COMMIT)]
  }

  lemma PutSeven(a0: Entry, a1: Entry, a2: Entry, a3: Entry, a4: Entry, a5: Entry, a6: Entry)
    requires Readable(a0) && Readable(a1) && Readable(a2) && Readable(a3) && Readable(a4) && Readable(a5) && Readable(a6)
    ensures AllReadable([a0, a1, a2, a3, a4, a5, a6])
    ensures PutEntries([a0, a1, a2, a3, a4, a5, a6])
         == PutEntry(a0) + PutEntry(a1) + PutEntry(a2) + PutEntry(a3) + PutEntry(a4) + PutEntry(a5) + PutEntry(a6)
  {
    hide Readable, PutEntry, PutEntries;
    PutThree(a4, a5, a6);
    PutTwo(a2, a3, [a4, a5, a6]);
    PutTwo(a0, a1, [a2, a3] + [a4, a5, a6]);
    assert [a0, a1] + ([a2, a3] + [a4, a5, a6]) == [a0, a1, a2, a3, a4, a5, a6];
    Flatten(PutEntry(a0) + PutEntry(a1), PutEntry(a2), PutEntry(a3), PutEntry(a4), PutEntry(a5), PutEntry(a6));
  }

  lemma Flatten(a: seq<byte>, b: seq<byte>, c: seq<byte>, d: seq<byte>, e: seq<byte>, f: seq<byte>)
    ensures a + (b + c + (d + e + f)) == a + b + c + d + e + f
  {
  }

  lemma PutThree(a: Entry, b: Entry, c: Entry)
    requires Readable(a) && Readable(b) && Readable(c)
    ensures AllReadable([a, b, c]) && PutEntries([a, b, c]) == PutEntry(a) + PutEntry(b) + PutEntry(c)
  {
    hide Readable, PutEntry;
    PutFirst(c, []);
    assert [c] + [] == [c];
    PutTwo(a, b, [c]);
    assert [a, b] + [c] == [a, b, c];
  }

  lemma PutTwo(a: Entry, b: Entry, es: seq<Entry>)
    requires Readable(a) && Readable(b) && AllReadable(es)
    ensures AllReadable([a, b] + es) && PutEntries([a, b] + es) == PutEntry(a) + PutEntry(b) + PutEntries(es)
  {
    hide Readable, PutEntry;
    PutFirst(b, es);
    PutFirst(a, [b] + es);
    assert [a] + ([b] + es) == [a, b] + es;
  }

  lemma PutFirst(e: Entry, es: seq<Entry>)
    requires Readable(e) && AllReadable(es)
    ensures AllReadable([e] + es) && PutEntries([e] + es) == PutEntry(e) + PutEntries(es)
  {
    assert ([e] + es)[1..] == es;
  }

  /** The six fields that survive storage; the bootloader's own version strings are compiled in. */
  function Restored(into: Config, c: Config): Config {
    into.(id := c.id, name := c.name, deviceClass := c.deviceClass, applicationCrc := c.applicationCrc,
          applicationSize := c.applicationSize, updateCount := c.updateCount)
  }

  lemma StoredEntriesApplied(into: Config, c: Config)
    requires WellFormed(c)
    ensures ApplyAll(into, StoredEntries(c)) == Restored(into, c)
  {
    ApplySeven(into, Id(c.id, false), Name(c.name), DeviceClass(c.deviceClass), ApplicationCrc(c.applicationCrc),
               ApplicationSize(c.applicationSize), UpdateCount(c.updateCount), Unknown(KEY_COMMIT));
  }

  lemma ApplySeven(c: Config, a0: Entry, a1: Entry, a2: Entry, a3: Entry, a4: Entry, a5: Entry, a6: Entry)
    ensures ApplyAll(c, [a0, a1, a2, a3, a4, a5, a6])
         == Apply(Apply(Apply(Apply(Apply(Apply(Apply(c, a0), a1), a2), a3), a4), a5), a6)
  {
    hide Apply;
    var c1 := Apply(c, a0);
    var c2 := Apply(c1, a1);
    var c3 := Apply(c2, a2);
    var c4 := Apply(c3, a3);
    var c5 := Apply(c4, a4);
    ApplyFirst(c, a0, [a1, a2, a3, a4, a5, a6]);
    ApplyFirst(c1, a1, [a2, a3, a4, a5, a6]);
    ApplyFirst(c2, a2, [a3, a4, a5, a6]);
    ApplyFirst(c3, a3, [a4, a5, a6]);
    ApplyFirst(c4, a4, [a5, a6]);
    ApplyFirst(c5, a5, [a6]);
    ApplyFirst(Apply(c5, a5), a6, []);
  }

  lemma ApplyFirst(c: Config, e: Entry, es: seq<Entry>)
    ensures ApplyAll(c, [e] + es) == ApplyAll(Apply(c, e), es)
  {
    assert ([e] + es)[1..] == es;
  }

  /** The commit key is unknown to the reader, which therefore takes the commit itself for the eighth and last key. */
  lemma CommitIsLastKey(into: Config, c: Config, rest: seq<byte>)
    requires WellFormed(c)
    ensures UpdateFromSerialized(into, Serialized(c) + rest)
         == ReadEntries(Restored(into, c), PutStr(c.commit) + (VersionPair(c) + rest), 1)
  {
    Keys();
    hide PutStr, PutU8, PutUint, PutMap, VersionPair, IsKey, ReadEntries;
    var es := StoredEntries(c);
    PutSeven(es[0], es[1], es[2], es[3], es[4], es[5], es[6]);
    var last := PutStr(c.commit) + (VersionPair(c) + rest);
    MapParts(PutMap(8), PutEntry(es[0]), PutEntry(es[1]), PutEntry(es[2]), PutEntry(es[3]), PutEntry(es[4]), PutEntry(es[5]),
             PutStr(KEY_COMMIT), PutStr(c.commit), VersionPair(c), rest);
    hide PutEntry, Serialized;
    assert Serialized(c) + rest == PutMap(8) + (PutEntries(es) + last);
    GetPutMap(8, PutEntries(es) + last);
    ReadPutEntries(into, es, last, 1);
    StoredEntriesApplied(into, c);
  }

  lemma MapParts(m: seq<byte>, a: seq<byte>, b: seq<byte>, c: seq<byte>, d: seq<byte>, e: seq<byte>, f: seq<byte>,
                 key: seq<byte>, commit: seq<byte>, version: seq<byte>, rest: seq<byte>)
    ensures m + a + b + c + d + e + f + (key + commit) + version + rest
         == m + ((a + b + c + d + e + f + key) + (commit + (version + rest)))
  {
  }

  lemma KeysDiffer()
    ensures |KEY_NAME| < KEY_SIZE && |KEY_DEVICE_CLASS| < KEY_SIZE && KEY_NAME != KEY_DEVICE_CLASS
    ensures |KEY_VERSION| < KEY_SIZE
    ensures IsKey(KEY_NAME) && IsKey(KEY_DEVICE_CLASS)
  {
    assert |KEY_NAME| == 4;
  }

  /** A short string that is no number or byte key is read as an entry, the version key after it being a name or a class if one
      is due; any other commit makes the read fail. */
  lemma CommitRead(c: Config, commit: seq<byte>, version: seq<byte>, rest: seq<byte>)
    requires |commit| < 0x100 && 0 !in commit && |version| < 0x100
    ensures
      var r := ReadEntries(c, PutStr(commit) + (PutStr(KEY_VERSION) + PutStr(version) + rest), 1);
      && (|commit| < KEY_SIZE && !IsKey(commit) ==> r == Updated(c, PutStr(KEY_VERSION) + PutStr(version) + rest))
      && (commit == KEY_NAME ==> r == Updated(c.(name := KEY_VERSION), PutStr(version) + rest))
      && (commit == KEY_DEVICE_CLASS ==> r == Updated(c.(deviceClass := KEY_VERSION), PutStr(version) + rest))
      && (|commit| >= KEY_SIZE || (IsKey(commit) && commit != KEY_NAME && commit != KEY_DEVICE_CLASS) ==> r.Unreadable?)
  {
    Keys();
    KeysDiffer();
    hide ReadEntries, IsKey, PutStr, Ascii, Apply;
    if |commit| < KEY_SIZE && !IsKey(commit) {
      CommitSkipped(c, commit, PutStr(KEY_VERSION) + PutStr(version) + rest);
    } else if commit == KEY_NAME {
      VersionKeyRead(c, Name(KEY_VERSION), KEY_NAME, version, rest);
    } else if commit == KEY_DEVICE_CLASS {
      VersionKeyRead(c, DeviceClass(KEY_VERSION), KEY_DEVICE_CLASS, version, rest);
    } else {
      NumberExpected(c, commit, version, rest);
    }
  }

  lemma CommitSkipped(c: Config, commit: seq<byte>, tail: seq<byte>)
    requires |commit| < KEY_SIZE && 0 !in commit && !IsKey(commit)
    ensures ReadEntries(c, PutStr(commit) + tail, 1) == Updated(c, tail)
  {
    hide ReadEntries, IsKey, PutStr, Ascii;
    ReadOne(c, Unknown(commit), tail, 0);
    EntriesEnd(c, tail);
  }

  lemma VersionKeyRead(c: Config, e: Entry, key: seq<byte>, version: seq<byte>, rest: seq<byte>)
    requires |version| < 0x100
    requires (e == Name(KEY_VERSION) && key == KEY_NAME) || (e == DeviceClass(KEY_VERSION) && key == KEY_DEVICE_CLASS)
    ensures |key| < 0x100
    ensures ReadEntries(c, PutStr(key) + (PutStr(KEY_VERSION) + PutStr(version) + rest), 1)
         == Updated(if e.Name? then c.(name := KEY_VERSION) else c.(deviceClass := KEY_VERSION), PutStr(version) + rest)
  {
    Keys();
    KeysDiffer();
    hide ReadEntries, PutStr, Ascii, IsKey;
    ReadOne(c, e, PutStr(version) + rest, 0);
    Regroup(PutStr(key), PutStr(KEY_VERSION), PutStr(version), rest);
    EntriesEnd(Apply(c, e), PutStr(version) + rest);
  }

  lemma Regroup(a: seq<byte>, b: seq<byte>, c: seq<byte>, d: seq<byte>)
    ensures a + (b + c + d) == a + b + (c + d)
  {
  }

  lemma NumberExpected(c: Config, commit: seq<byte>, version: seq<byte>, rest: seq<byte>)
    requires |commit| < 0x100 && 0 !in commit && |version| < 0x100
    requires |commit| >= KEY_SIZE || (IsKey(commit) && commit != KEY_NAME && commit != KEY_DEVICE_CLASS)
    ensures ReadEntries(c, PutStr(commit) + (PutStr(KEY_VERSION) + PutStr(version) + rest), 1).Unreadable?
  {
    var tail := PutStr(KEY_VERSION) + PutStr(version) + rest;
    assert tail[0] == 0xA0 + |KEY_VERSION|;
    GetPutStr(commit, tail, KEY_SIZE);
    hide GetStr, PutStr;
    if |commit| < KEY_SIZE {
      assert GetU8(tail) == Fail && GetUint(tail) == Fail;
      assert ReadValue(c, commit, tail) == Unreadable;
    }
  }

  /** What reading the stored map gives, by the commit string, whatever the record held before and whatever follows the map: the
      stored fields; a name or device class replaced by the version key; or a failing read. */
  lemma StoredConfigOutcome(into: Config, c: Config, rest: seq<byte>)
    requires WellFormed(c)
    ensures
      var r, restored := UpdateFromSerialized(into, Serialized(c) + rest), Restored(into, c);
      && (|c.commit| < 64 && !IsKey(c.commit) ==> r == Updated(restored, VersionPair(c) + rest))
      && (c.commit == KEY_NAME ==> r == Updated(restored.(name := KEY_VERSION), PutStr(c.version) + rest))
      && (c.commit == KEY_DEVICE_CLASS ==> r == Updated(restored.(deviceClass := KEY_VERSION), PutStr(c.version) + rest))
      && (r.Unreadable? <==> |c.commit| >= 64
                             || (IsKey(c.commit) && c.commit != KEY_NAME && c.commit != KEY_DEVICE_CLASS))
  {
    CommitIsLastKey(into, c, rest);
    CommitRead(Restored(into, c), c.commit, c.version, rest);
    hide UpdateFromSerialized, Serialized, ReadEntries, PutStr, IsKey;
    assert PutStr(KEY_VERSION) + PutStr(c.version) + rest == VersionPair(c) + rest;
    KeysDiffer();
  }

  /** The commit string is at most 63 bytes and no key, or happens to be the key of a field that holds the version key already. */
  predicate CommitHarmless(c: Config) {
    || (|c.commit| < 64 && !IsKey(c.commit))
    || (c.commit == KEY_NAME && c.name == KEY_VERSION)
    || (c.commit == KEY_DEVICE_CLASS && c.deviceClass == KEY_VERSION)
  }

  /** Config round trip, exactly: the commit string decides whether the six stored fields are restored. */
  lemma StoredConfigRestored(into: Config, c: Config, rest: seq<byte>)
    requires WellFormed(c)
    ensures
      var r := UpdateFromSerialized(into, Serialized(c) + rest);
      && (r == Updated(Restored(into, c), VersionPair(c) + rest) <==> |c.commit| < 64 && !IsKey(c.commit))
      && (r.Updated? && r.config == Restored(into, c) <==> CommitHarmless(c))
  {
    StoredConfigOutcome(into, c, rest);
    VersionKeyLength();
    hide UpdateFromSerialized, Serialized, PutStr, CommitHarmless, IsKey, WellFormed, Ascii;
    CommitDecides(c, Restored(into, c), UpdateFromSerialized(into, Serialized(c) + rest),
                  VersionPair(c) + rest, PutStr(c.version) + rest);
  }

  lemma CommitDecides(c: Config, restored: Config, r: Parsed, whole: seq<byte>, part: seq<byte>)
    requires |part| < |whole| && restored.name == c.name && restored.deviceClass == c.deviceClass
    requires |c.commit| < KEY_SIZE && !IsKey(c.commit) ==> r == Updated(restored, whole)
    requires c.commit == KEY_NAME ==> r == Updated(restored.(name := KEY_VERSION), part)
    requires c.commit == KEY_DEVICE_CLASS ==> r == Updated(restored.(deviceClass := KEY_VERSION), part)
    requires r.Unreadable? <==> |c.commit| >= KEY_SIZE
                                || (IsKey(c.commit) && c.commit != KEY_NAME && c.commit != KEY_DEVICE_CLASS)
    ensures r == Updated(restored, whole) <==> |c.commit| < KEY_SIZE && !IsKey(c.commit)
    ensures r.Updated? && r.config == restored <==> CommitHarmless(c)
  {
    hide IsKey, Ascii;
    KeysDiffer();
  }

  lemma VersionKeyLength()
    ensures |PutStr(KEY_VERSION)| == 19
  {
  }

  // ----- the page -----

  /** A page: the checksum of everything after it, then the map, then padding. */
  predicate ValidPage(page: seq<byte>)
    requires |page| == CONFIG_PAGE_SIZE
  {
    FromBytes(page[0], page[1], page[2], page[3]) == Crc32.Checksum(page[4..])
  }

  predicate FitsPage(c: Config)
    requires WellFormed(c)
  {
    |Serialized(c)| <= CONFIG_PAGE_SIZE - 4
  }

  /** The map fits when the version strings take at most 254 bytes together. */
  lemma PageIsLargeEnough(c: Config)
    requires WellFormed(c) && |PutStr(c.commit)| + |PutStr(c.version)| <= 254
    ensures FitsPage(c)
  {
    assert |PutUint(c.applicationCrc)| <= 5 && |PutUint(c.applicationSize)| <= 5 && |PutUint(c.updateCount)| <= 5;
    assert |PutStr(c.name)| <= 66 && |PutStr(c.deviceClass)| <= 66;
  }

  function Zeros(n: nat): seq<byte> {
    seq(n, _ => 0)
  }

  function Page(c: Config): (page: seq<byte>)
    requires WellFormed(c) && FitsPage(c)
    ensures |page| == CONFIG_PAGE_SIZE
  {
    var body := Serialized(c) + Zeros(CONFIG_PAGE_SIZE - 4 - |Serialized(c)|);
    BigEndian(Crc32.Checksum(body)) + body
  }

  function ReadPage(into: Config, page: seq<byte>): Parsed
    requires |page| == CONFIG_PAGE_SIZE
  {
    UpdateFromSerialized(into, page[4..])
  }

  /** A written page is valid, and reads back as the configuration it was written from exactly if the commit is harmless. */
  lemma PageRoundTrip(into: Config, c: Config)
    requires WellFormed(c) && FitsPage(c)
    ensures ValidPage(Page(c))
    ensures ReadPage(into, Page(c)).Updated? && ReadPage(into, Page(c)).config == Restored(into, c) <==> CommitHarmless(c)
  {
    PageIsValid(c);
    hide Serialized, UpdateFromSerialized, CommitHarmless;
    var body := Serialized(c) + Zeros(CONFIG_PAGE_SIZE - 4 - |Serialized(c)|);
    assert Page(c)[4..] == body;
    StoredConfigRestored(into, c, Zeros(CONFIG_PAGE_SIZE - 4 - |Serialized(c)|));
  }

  lemma PageIsValid(c: Config)
    requires WellFormed(c) && FitsPage(c)
    ensures ValidPage(Page(c))
  {
    hide Serialized, BigEndian, Crc32.Checksum;
    var body := Serialized(c) + Zeros(CONFIG_PAGE_SIZE - 4 - |Serialized(c)|);
    var crc := Crc32.Checksum(body);
    FromBigEndian(crc);
    assert Page(c)[4..] == body;
    var page, head := Page(c), BigEndian(crc);
    assert page[0] == head[0] && page[1] == head[1] && page[2] == head[2] && page[3] == head[3];
  }

  /** A change confined to four consecutive bytes of the covered area makes a valid page invalid. */
  lemma DamagedPageInvalid(head: seq<byte>, pre: seq<byte>, s: seq<byte>, t: seq<byte>, post: seq<byte>)
    requires |head| == 4 && |head + pre + s + post| == CONFIG_PAGE_SIZE
    requires |s| == |t| <= 4 && s != t
    requires ValidPage(head + pre + s + post)
    ensures !ValidPage(head + pre + t + post)
  {
    var p, q := head + pre + s + post, head + pre + t + post;
    assert p[4..] == pre + s + post && q[4..] == pre + t + post;
    assert p[..4] == head && q[..4] == head;
    Crc32.BurstDetected(pre, s, t, post);
  }
}
