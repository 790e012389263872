/** How the client writes a command into a datagram's data, and what the node makes of such data. */
module CommandWire {
  import opened Bytes
  import opened Wrappers
  import opened MessagePack
  import opened Flash
  import opened Configuration
  import opened Commands
  import opened Network
  import BoardRuns

  const COMMAND_SET_VERSION: nat := 3

  const INDEX_ERASE: nat := 3
  const INDEX_WRITE: nat := 4
  const INDEX_UPDATE: nat := 7
  const INDEX_SAVE: nat := 8
  const COMMAND_COUNT: nat := 10

  const ERR_INVALID_COMMAND := 3
  const ERR_COMMAND_NOT_FOUND := 4
  const ERR_INVALID_COMMAND_SET_VERSION := 5

  // ----- client -----

  /** The class is a C string that fits the node's buffer, and the chunk leaves room for the command around it. */
  predicate Encodable(r: Request) {
    match r
    case EraseRequest(_, deviceClass) => |deviceClass| < 64 && 0 !in deviceClass
    case WriteRequest(_, deviceClass, chunk) => |deviceClass| < 64 && 0 !in deviceClass && |chunk| < 0x1_0000
    case _ => true
  }

  function Index(r: Request): nat {
    match r
    case EraseRequest(_, _) => INDEX_ERASE
    case WriteRequest(_, _, _) => INDEX_WRITE
    case UpdateRequest(_, _) => INDEX_UPDATE
    case SaveRequest => INDEX_SAVE
  }

  function Arguments(r: Request): seq<byte>
    requires Encodable(r)
  {
    match r
    case EraseRequest(address, deviceClass) => PutUint(address) + PutStr(deviceClass)
    case WriteRequest(address, deviceClass, chunk) => PutUint(address) + (PutStr(deviceClass) + PutBin(chunk))
    case UpdateRequest(size, crc) => UpdateArguments(size, crc)
    case SaveRequest => []
  }

  function ArgumentCount(r: Request): nat {
    match r
    case EraseRequest(_, _) => 2
    case WriteRequest(_, _, _) => 3
    case UpdateRequest(_, _) => 1
    case SaveRequest => 0
  }

  /** `encode_command` */
  function EncodeCommand(r: Request): seq<byte>
    requires Encodable(r)
  {
    PutUint(COMMAND_SET_VERSION) + (PutUint(Index(r)) + (PutArray(ArgumentCount(r)) + Arguments(r)))
  }

  // ----- node -----

  /** `Failed`: the error whose negation is returned. `Unspecified`: the node goes on after a failing library read.
      `Other`: a command that changes neither flash nor configuration. */
  datatype Dispatched = Handled(result: Result) | Failed(error: nat) | Other | Unspecified

  predicate InApplication(address: u32) {
    APP_BEGIN <= address < APP_BEGIN + APP_SIZE
  }

  /** The address is checked before the class is read. */
  function DispatchErase(b: Board, args: seq<byte>, hw: Hardware): Dispatched {
    match GetUint(args)
    case Fail => Unspecified
    case Got(address, rest) =>
      match GetStr(rest, 64)
      case Fail => if InApplication(address) then Unspecified else Handled(EraseFlashPage(b, address, [], hw.outcomes, hw.beyond))
      case Got(deviceClass, _) => Handled(EraseFlashPage(b, address, deviceClass, hw.outcomes, hw.beyond))
  }

  function DispatchWrite(b: Board, args: seq<byte>, hw: Hardware): Dispatched {
    match GetUint(args)
    case Fail => Unspecified
    case Got(address, rest) =>
      match GetStr(rest, 64)
      case Fail => if InApplication(address) then Unspecified else Handled(WriteFlash(b, address, [], None, hw.beyond, hw.write))
      case Got(deviceClass, rest') =>
        match GetBinSize(rest')
        case Fail => Handled(WriteFlash(b, address, deviceClass, None, hw.beyond, hw.write))
        case Got(size, data) =>
          if |data| < size then Unspecified
          else Handled(WriteFlash(b, address, deviceClass, Some(data[..size]), hw.beyond, hw.write))
  }

  /** `execute_datagram_commands`: version, command index, argument list. */
  function Dispatch(b: Board, payload: seq<byte>, hw: Hardware): Dispatched
    requires BoardRuns.Proper(b.config)
  {
    match GetUint(payload)
    case Fail => Unspecified
    case Got(version, rest) =>
      if version != COMMAND_SET_VERSION then Failed(ERR_INVALID_COMMAND_SET_VERSION)
      else
        match GetUint(rest)
        case Fail => Failed(ERR_INVALID_COMMAND)
        case Got(index, rest') =>
          if index < 1 || index > COMMAND_COUNT then Failed(ERR_COMMAND_NOT_FOUND)
          else if index == INDEX_SAVE then
            BoardRuns.IncrementedStorable(b.config);
            Handled(ConfigSave(b, hw.first, hw.second))
          else
            match GetArray(rest')
            case Fail => Unspecified
            case Got(_, args) =>
              if index == INDEX_ERASE then DispatchErase(b, args, hw)
              else if index == INDEX_WRITE then DispatchWrite(b, args, hw)
              else if index == INDEX_UPDATE then
                if UpdateFromSerialized(b.config, args).Unreadable? then Unspecified else Handled(ConfigUpdate(b, args, b.config))
              else Other
  }

  function TargetBytes(address: u32): seq<byte> {
    [0xCE, address / 0x100_0000, address / 0x1_0000 % 0x100, address / 0x100 % 0x100, address % 0x100]
  }

  lemma AddressBytes(address: u32)
    requires 0x1_0000 <= address
    ensures PutUint(address) == TargetBytes(address)
  {
    BigEndianDigits(address);
  }

  /** The bytes of an erase request, for addresses that take 32 bits. */
  lemma EncodedErase(address: u32, deviceClass: seq<byte>)
    requires 0x1_0000 <= address && |deviceClass| < 32 && 0 !in deviceClass
    ensures EncodeCommand(EraseRequest(address, deviceClass))
         == [3, 3, 0x92] + (TargetBytes(address) + ([0xA0 + |deviceClass|] + deviceClass))
  {
    AddressBytes(address);
    Prefix(EraseRequest(address, deviceClass));
    hide EncodeCommand, PutUint, TargetBytes;
  }

  /** And of a write request, for chunks whose length takes 16 bits. */
  lemma EncodedWrite(address: u32, deviceClass: seq<byte>, chunk: seq<byte>)
    requires 0x1_0000 <= address && |deviceClass| < 32 && 0 !in deviceClass && 0x100 <= |chunk| < 0x1_0000
    ensures EncodeCommand(WriteRequest(address, deviceClass, chunk))
         == [3, 4, 0x93] + (TargetBytes(address) + (([0xA0 + |deviceClass|] + deviceClass)
                            + ([0xC5, |chunk| / 0x100, |chunk| % 0x100] + chunk)))
  {
    AddressBytes(address);
    Prefix(WriteRequest(address, deviceClass, chunk));
    hide EncodeCommand, PutUint, TargetBytes;
  }

  lemma EncodedConfigBytes(size: u32, crc: u32)
    ensures EncodeCommand(UpdateRequest(size, crc)) == [3, 7, 0x91] + UpdateArguments(size, crc)
    ensures EncodeCommand(SaveRequest) == [3, 8, 0x90]
  {
    hide UpdateArguments, EncodeCommand;
    Prefix(UpdateRequest(size, crc));
    Prefix(SaveRequest);
  }

  lemma Prefix(r: Request)
    requires Encodable(r)
    ensures EncodeCommand(r) == [3, Index(r), 0x90 + ArgumentCount(r)] + Arguments(r)
  {
    hide Arguments, Encodable;
  }

  lemma EncodedUpdate(size: u32, crc: u32)
    ensures UpdateArguments(size, crc)
         == [0x82] + (([0xB0] + MessagePack.Ascii("application_size") + PutUint(size))
                      + ([0xAF] + MessagePack.Ascii("application_crc") + PutUint(crc)))
  {
    var es := UpdateEntries(size, crc);
    var first, second := PutEntry(es[0]), PutEntry(es[1]);
    hide PutUint, MessagePack.Ascii;
    assert first == [0xB0] + MessagePack.Ascii("application_size") + PutUint(size);
    assert second == [0xAF] + MessagePack.Ascii("application_crc") + PutUint(crc);
    TwoEntries(es);
    hide PutEntry, PutEntries, UpdateEntries;
  }

  lemma TwoEntries(es: seq<Entry>)
    requires AllReadable(es) && |es| == 2
    ensures PutEntries(es) == PutEntry(es[0]) + PutEntry(es[1])
  {
    hide PutEntry, Readable;
    var rest := es[1..];
    assert rest[1..] == [] && PutEntries(rest) == PutEntry(rest[0]) + PutEntries([]);
    assert PutEntries(es) == PutEntry(es[0]) + PutEntries(rest);
  }

  // ----- what the node does with what the client writes -----

  lemma DispatchEraseRequest(b: Board, r: Request, hw: Hardware)
    requires BoardRuns.Proper(b.config) && r.EraseRequest? && Encodable(r)
    ensures DispatchErase(b, Arguments(r), hw) == Handled(Perform(b, r, hw))
  {
    hide EraseFlashPage, PutUint, GetUint, PutStr, GetStr;
    GetPutUint(r.address, PutStr(r.deviceClass));
    GetPutStr(r.deviceClass, [], 64);
    assert PutStr(r.deviceClass) + [] == PutStr(r.deviceClass);
  }

  lemma DispatchWriteRequest(b: Board, r: Request, hw: Hardware)
    requires BoardRuns.Proper(b.config) && r.WriteRequest? && Encodable(r)
    ensures DispatchWrite(b, Arguments(r), hw) == Handled(Perform(b, r, hw))
  {
    hide WriteFlash, PutUint, GetUint, PutStr, GetStr, PutBin, GetBinSize;
    GetPutUint(r.address, PutStr(r.deviceClass) + PutBin(r.chunk));
    GetPutStr(r.deviceClass, PutBin(r.chunk), 64);
    GetPutBin(r.chunk, []);
    assert PutBin(r.chunk) + [] == PutBin(r.chunk) && r.chunk + [] == r.chunk;
    assert r.chunk[..|r.chunk|] == r.chunk;
  }

  /** The node performs exactly the command the client encoded. */
  lemma DispatchEncoded(b: Board, r: Request, hw: Hardware)
    requires BoardRuns.Proper(b.config) && Encodable(r)
    ensures Dispatch(b, EncodeCommand(r), hw) == Handled(Perform(b, r, hw))
  {
    hide EraseFlashPage, WriteFlash, ConfigUpdate, ConfigSave, DispatchErase, DispatchWrite, Arguments, Encodable, UpdateFromSerialized,
         PutUint, GetUint, PutArray, GetArray, UpdateArguments, BoardRuns.Proper;
    var args := PutArray(ArgumentCount(r)) + Arguments(r);
    GetPutUint(COMMAND_SET_VERSION, PutUint(Index(r)) + args);
    GetPutUint(Index(r), args);
    GetPutArray(ArgumentCount(r), Arguments(r));
    match r
    case EraseRequest(_, _) => DispatchEraseRequest(b, r, hw);
    case WriteRequest(_, _, _) => DispatchWriteRequest(b, r, hw);
    case UpdateRequest(size, crc) =>
      UpdateIsArguments(size, crc);
      UpdateOnce(b, size, crc);
    case SaveRequest =>
  }

  lemma UpdateIsArguments(size: u32, crc: u32)
    ensures Encodable(UpdateRequest(size, crc)) && Arguments(UpdateRequest(size, crc)) == UpdateArguments(size, crc)
  {
  }

  /** The refusals of the dispatcher: the protocol version is looked at first, then the index. */
  lemma DispatchRefuses(b: Board, version: u32, index: u32, args: seq<byte>, hw: Hardware)
    requires BoardRuns.Proper(b.config)
    ensures
      var d := Dispatch(b, PutUint(version) + (PutUint(index) + args), hw);
      && (d == Failed(5) <==> version != 3)
      && (d == Failed(4) <==> version == 3 && !(1 <= index <= 10))
      && (d.Failed? ==> d == Failed(5) || d == Failed(4))
    ensures GetUint(args).Fail? ==> Dispatch(b, PutUint(3) + args, hw) == Failed(3)
  {
    hide EraseFlashPage, WriteFlash, ConfigUpdate, ConfigSave, UpdateFromSerialized, PutUint, GetUint, GetArray, BoardRuns.Proper,
         DispatchErase, DispatchWrite;
    GetPutUint(version, PutUint(index) + args);
    GetPutUint(index, args);
    GetPutUint(3, args);
    match GetArray(args)
    case Fail =>
    case Got(_, rest) => DispatchHandles(b, rest, hw);
  }

  lemma DispatchHandles(b: Board, args: seq<byte>, hw: Hardware)
    ensures !DispatchErase(b, args, hw).Failed? && !DispatchWrite(b, args, hw).Failed?
  {
    hide EraseFlashPage, WriteFlash, GetUint, GetStr, GetBinSize;
  }

  /** A write without a readable chunk reaches the command as one without data, which `BoardRuns.WriteGuards` says is refused. */
  lemma WriteWithoutChunk(b: Board, address: u32, deviceClass: seq<byte>, rest: seq<byte>, hw: Hardware)
    requires |deviceClass| < 64 && 0 !in deviceClass && GetBinSize(rest).Fail?
    ensures DispatchWrite(b, PutUint(address) + (PutStr(deviceClass) + rest), hw)
         == Handled(WriteFlash(b, address, deviceClass, None, hw.beyond, hw.write))
  {
    GetPutUint(address, PutStr(deviceClass) + rest);
    GetPutStr(deviceClass, rest, 64);
    hide PutUint, GetUint, PutStr, GetStr, GetBinSize, WriteFlash;
  }
}
