/** Serialising and parsing the configuration record in place. */
module ConfigStore {
  import opened Bytes
  import opened MessagePack
  import opened Configuration
  import Crc32

  /** A MessagePack context writing into a buffer from `start` on. */
  class Context {
    const buf: array<byte>
    const start: nat
    var pos: nat

    ghost predicate Valid()
      reads this
    {
      start <= pos <= buf.Length
    }

    ghost function Written(): seq<byte>
      requires Valid()
      reads this, buf
    {
      buf[start..pos]
    }

    constructor (buf: array<byte>, start: nat)
      requires start <= buf.Length
      ensures Valid() && this.buf == buf && this.start == start && Written() == []
    {
      this.buf, this.start, pos := buf, start, start;
    }

    method Write(s: seq<byte>)
      requires Valid() && pos + |s| <= buf.Length
      modifies buf, `pos
      ensures Valid() && Written() == old(Written()) + s
      ensures forall i :: 0 <= i < start || pos <= i < buf.Length ==> buf[i] == old(buf[i])
      ensures pos == old(pos) + |s|
    {
      forall i | 0 <= i < |s| {
        buf[pos + i] := s[i];
      }
      pos := pos + |s|;
      assert buf[start..pos] == old(buf[start..pos]) + s;
    }

    /** A key and its value. */
    method WritePair(key: seq<byte>, value: seq<byte>)
      requires Valid() && pos + |key| + |value| <= buf.Length
      modifies buf, `pos
      ensures Valid() && Written() == old(Written()) + (key + value)
      ensures forall i :: 0 <= i < start || pos <= i < buf.Length ==> buf[i] == old(buf[i])
      ensures pos == old(pos) + |key| + |value|
    {
      Write(key);
      Write(value);
    }
  }

  class BootloaderConfig {
    var id: byte
    var name: seq<byte>
    var deviceClass: seq<byte>
    var applicationCrc: u32
    var applicationSize: u32
    var updateCount: u32
    var commit: seq<byte>
    var version: seq<byte>

    ghost function View(): Config
      reads this
    {
      Config(id, name, deviceClass, applicationCrc, applicationSize, updateCount, commit, version)
    }

    constructor (c: Config)
      ensures View() == c
    {
      id, name, deviceClass := c.id, c.name, c.deviceClass;
      applicationCrc, applicationSize, updateCount := c.applicationCrc, c.applicationSize, c.updateCount;
      commit, version := c.commit, c.version;
    }

    method WriteMessagePack(out: Context)
      requires WellFormed(View()) && out.Valid() && out.pos + |Serialized(View())| <= out.buf.Length
      requires out.Written() == []
      modifies out.buf, out`pos
      ensures out.Valid() && out.Written() == Serialized(View())
      ensures out.pos == old(out.pos) + |Serialized(View())|
      ensures forall i :: 0 <= i < out.start || out.pos <= i < out.buf.Length ==> out.buf[i] == old(out.buf[i])
    {
      hide PutStr, PutUint, PutU8, PutMap;
      Keys();
      assert out.Written() + PutMap(8) == PutMap(8);
      out.Write(PutMap(8));
      out.WritePair(PutStr(KEY_ID), PutU8(id));
      out.WritePair(PutStr(KEY_NAME), PutStr(name));
      out.WritePair(PutStr(KEY_DEVICE_CLASS), PutStr(deviceClass));
      out.WritePair(PutStr(KEY_APPLICATION_CRC), PutUint(applicationCrc));
      out.WritePair(PutStr(KEY_APPLICATION_SIZE), PutUint(applicationSize));
      out.WritePair(PutStr(KEY_UPDATE_COUNT), PutUint(updateCount));
      out.WritePair(PutStr(KEY_COMMIT), PutStr(commit));
      out.WritePair(PutStr(KEY_VERSION), PutStr(version));
    }

    /** A page buffer that holds a map after its first four bytes, and zeros behind it. */
    static lemma Padded(s: seq<byte>, written: seq<byte>)
      requires |s| == CONFIG_PAGE_SIZE && |written| <= CONFIG_PAGE_SIZE - 4 && s[4..4 + |written|] == written
      requires forall i :: 4 + |written| <= i < CONFIG_PAGE_SIZE ==> s[i] == 0
      ensures s[4..] == written + Zeros(CONFIG_PAGE_SIZE - 4 - |written|)
    {
      assert s[4..] == s[4..4 + |written|] + s[4 + |written|..];
      assert s[4 + |written|..] == Zeros(CONFIG_PAGE_SIZE - 4 - |written|);
    }

    /** `config_write`: the map after the first four bytes, then the checksum of everything behind them. */
    method WritePage(buffer: array<byte>)
      requires WellFormed(View()) && FitsPage(View())
      requires buffer.Length == CONFIG_PAGE_SIZE && forall i :: 0 <= i < CONFIG_PAGE_SIZE ==> buffer[i] == 0
      modifies buffer
      ensures buffer[..] == Page(View())
    {
      hide Serialized, Crc32.Checksum, BigEndian;
      ghost var written := Serialized(View());
      var context := new Context(buffer, 4);
      WriteMessagePack(context);
      Padded(buffer[..], written);
      assert buffer[4..] == buffer[..][4..];
      var crc := BigEndian(Crc32.Checksum(buffer[4..]));
      ghost var body := buffer[4..];
      buffer[0], buffer[1], buffer[2], buffer[3] := crc[0], crc[1], crc[2], crc[3];
      assert buffer[4..] == body && buffer[..4] == crc;
      assert buffer[..] == buffer[..4] + buffer[4..];
    }

    method UpdateFromMessagePack(s: seq<byte>) returns (ok: bool, rest: seq<byte>)
      modifies this
      ensures UpdateFromSerialized(old(View()), s) == if ok then Updated(View(), rest) else Unreadable
    {
      ok, rest := true, s;
      var header := GetMap(s);
      if header.Fail? {
        return false, rest;
      }
      var keyCount := header.value;
      rest := header.rest;
      ghost var c0 := View();
      while keyCount > 0
        invariant ReadEntries(c0, header.rest, header.value) == ReadEntries(View(), rest, keyCount)
      {
        hide GetStr, GetU8, GetUint, IsKey, ReadValue;
        var key := GetStr(rest, KEY_SIZE);
        if key.Fail? {
          return false, rest;
        }
        ghost var parsed := ReadValue(View(), key.value, key.rest);
        var read, next := UpdateValue(key.value, key.rest);
        if !read {
          return false, rest;
        }
        rest, keyCount := next, keyCount - 1;
      }
    }

    /** The chain of key comparisons. */
    method UpdateValue(key: seq<byte>, s: seq<byte>) returns (ok: bool, rest: seq<byte>)
      modifies this
      ensures ReadValue(old(View()), key, s) == if ok then Updated(View(), rest) else Unreadable
    {
      hide GetStr, GetU8, GetUint;
      Keys();
      ok, rest := true, s;
      if key == KEY_ID {
        match GetU8(s) {
          case Fail => ok := false;
          case Got(v, r) => id, rest := v, r;
        }
      }
      if key == KEY_NAME {
        match GetStr(s, STRING_SIZE) {
          case Fail => ok := false;
          case Got(v, r) => name, rest := v, r;
        }
      }
      if key == KEY_DEVICE_CLASS {
        match GetStr(s, STRING_SIZE) {
          case Fail => ok := false;
          case Got(v, r) => deviceClass, rest := v, r;
        }
      }
      if key == KEY_APPLICATION_CRC {
        match GetUint(s) {
          case Fail => ok := false;
          case Got(v, r) => applicationCrc, rest := v, r;
        }
      }
      if key == KEY_APPLICATION_SIZE {
        match GetUint(s) {
          case Fail => ok := false;
          case Got(v, r) => applicationSize, rest := v, r;
        }
      }
      if key == KEY_UPDATE_COUNT {
        match GetUint(s) {
          case Fail => ok := false;
          case Got(v, r) => updateCount, rest := v, r;
        }
      }
    }
  }
}
