/** The firmware's `can_datagram_t`, updated in place. */
module DatagramBuffers {
  import opened Bytes
  import opened CanDatagrams
  import Crc32
  import Datagrams

  class CanDatagram {
    var version: byte
    var crc: u32
    var dstLen: byte
    const address: array<byte>
    var dataLen: u32
    const data: array<byte>
    const capacity: nat

    var crcRead: nat
    var lenRead: nat
    var dstRead: nat
    var dataRead: nat
    var readerPhase: Phase

    var crcWritten: nat
    var lenWritten: nat
    var dstWritten: nat
    var dataWritten: nat
    var writerPhase: Phase

    /** The read counters stay inside the buffers while the announced destinations do. */
    ghost predicate Valid()
      reads this
    {
      && address != data
      && 1 <= capacity <= data.Length
      && dstRead <= address.Length && dataRead <= data.Length
      && (readerPhase in {ProtocolVersion, Crc, DstLen} ==> dstRead == 0)
      && (readerPhase == Dst ==> dstRead < Max(dstLen, 1) <= address.Length)
      && (readerPhase in {ProtocolVersion, Crc, DstLen, Dst, DataLen} ==> dataRead == 0)
      && (readerPhase == Data ==> dataRead < capacity)
    }

    /** The reader's abstract state: only the bytes read since the restart count as received. */
    ghost function View(): Reader
      requires Valid()
      reads this, address, data
    {
      Reader(readerPhase, version, crc, crcRead, dstLen, address[..dstRead], dataLen, lenRead, data[..dataRead])
    }

    ghost function Sent(): Fields
      requires dstLen <= address.Length && dataLen <= data.Length
      reads this, address, data
    {
      Fields(version, crc, address[..dstLen], data[..dataLen])
    }

    ghost function WriterView(): Writer
      reads this
    {
      Writer(writerPhase, crcWritten, dstWritten, lenWritten, dataWritten)
    }

    constructor (address: array<byte>, data: array<byte>, capacity: nat)
      requires address != data && 1 <= address.Length && 1 <= capacity <= data.Length
      ensures Valid() && this.address == address && this.data == data && this.capacity == capacity
      ensures View() == Reader(ProtocolVersion, Datagrams.VERSION, 0, 0, 0, [], 0, 0, [])
      ensures WriterView() == Writer(ProtocolVersion, 0, 0, 0, 0)
      ensures dstLen == 0 && dataLen == 0 && version == Datagrams.VERSION
    {
      this.address, this.data, this.capacity := address, data, capacity;
      version, crc, dstLen, dataLen := Datagrams.VERSION, 0, 0, 0;
      crcRead, lenRead, dstRead, dataRead, readerPhase := 0, 0, 0, 0, ProtocolVersion;
      crcWritten, lenWritten, dstWritten, dataWritten, writerPhase := 0, 0, 0, 0, ProtocolVersion;
    }

    method Start()
      requires Valid()
      modifies this
      ensures Valid() && View() == Restart(old(View()))
    {
      readerPhase, crc := ProtocolVersion, CRC_SEED;
      crcRead, dstRead, lenRead, dataRead := 0, 0, 0, 0;
    }

    method InputByte(val: byte)
      requires Valid()
      requires readerPhase == DstLen ==> Max(val, 1) <= address.Length
      modifies this, address, data
      ensures Valid() && View() == Input(old(View()), capacity, val)
    {
      hide ShiftIn;
      match readerPhase {
        case ProtocolVersion =>
          version, readerPhase := val, Crc;
        case Crc =>
          crc := ShiftIn(crc, val);
          crcRead := crcRead + 1;
          if crcRead >= 4 {
            readerPhase := DstLen;
          }
        case DstLen =>
          dstLen, readerPhase := val, Dst;
        case Dst =>
          address[dstRead] := val;
          dstRead := dstRead + 1;
          if dstRead >= dstLen {
            readerPhase := DataLen;
          }
        case DataLen =>
          dataLen := ShiftIn(dataLen, val);
          lenRead := lenRead + 1;
          if lenRead >= 4 {
            readerPhase := Data;
          }
        case Data =>
          data[dataRead] := val;
          dataRead := dataRead + 1;
          if dataRead >= dataLen {
            readerPhase := Trailing;
          }
          if dataRead >= capacity {
            readerPhase := Trailing;
          }
        case Trailing =>
      }
    }

    method ComputeCrc() returns (c: u32)
      requires dstLen <= address.Length && dataLen <= data.Length
      ensures c == Crc32.Checksum(Datagrams.Covered(Datagrams.Datagram(address[..dstLen], data[..dataLen])))
    {
      hide Crc32.Update, Octet;
      c := Crc32.Update(0, [dstLen]);
      c := Crc32.Update(c, address[..dstLen]);
      var tmp := [Octet(dataLen, 0), Octet(dataLen, 1), Octet(dataLen, 2), Octet(dataLen, 3)];
      c := Crc32.Update(c, tmp);
      c := Crc32.Update(c, data[..dataLen]);
      BigEndianOctets(dataLen);
      ChainOfFour([dstLen], address[..dstLen], tmp, data[..dataLen]);
    }

    method IsDatagramValid() returns (valid: bool)
      requires Valid()
      requires readerPhase == Trailing ==> Fits(View())
      ensures valid <==> IsValid(View())
    {
      if readerPhase != Trailing {
        return false;
      }
      hide Crc32.Checksum, Datagrams.Covered;
      assert address[..dstLen] == View().dst[..dstLen];
      assert data[..dataLen] == View().data[..dataLen];
      var c := ComputeCrc();
      valid := c == crc && version == Datagrams.VERSION;
    }

    /** One pass through the writer's switch: the byte to emit, if there is one. */
    method NextByte() returns (emitted: bool, b: byte)
      requires dstLen <= address.Length && dataLen <= data.Length
      requires Writable(Sent()) && Coherent(Sent(), WriterView())
      modifies `writerPhase, `crcWritten, `lenWritten, `dstWritten, `dataWritten
      ensures Emission(if emitted then [b] else [], WriterView()) == Emit(Sent(), old(WriterView()))
    {
      emitted, b := true, 0;
      match writerPhase {
        case ProtocolVersion =>
          b := version;
          writerPhase, crcWritten := Crc, 0;
        case Crc =>
          b := Octet(crc, crcWritten);
          crcWritten := crcWritten + 1;
          if crcWritten >= 4 {
            writerPhase := DstLen;
          }
        case DstLen =>
          b := dstLen;
          writerPhase, dstWritten := Dst, 0;
        case Dst =>
          b := address[dstWritten];
          dstWritten := dstWritten + 1;
          if dstWritten >= dstLen {
            writerPhase, lenWritten := DataLen, 0;
          }
        case DataLen =>
          b := Octet(dataLen, lenWritten);
          lenWritten := lenWritten + 1;
          if lenWritten >= 4 {
            writerPhase, dataWritten := Data, 0;
          }
        case Data =>
          if dataWritten >= dataLen {
            writerPhase, emitted := Trailing, false;
          } else {
            b := data[dataWritten];
            dataWritten := dataWritten + 1;
          }
        case Trailing =>
          emitted := false;
      }
    }

    /** Fills `buffer` with the next bytes of the encoding; returns how many there were. */
    method OutputBytes(buffer: array<byte>) returns (count: nat)
      requires dstLen <= address.Length && dataLen <= data.Length
      requires Writable(Sent()) && Coherent(Sent(), WriterView())
      requires buffer != address && buffer != data
      modifies buffer, `writerPhase, `crcWritten, `lenWritten, `dstWritten, `dataWritten
      ensures Coherent(Sent(), WriterView())
      ensures count <= buffer.Length
      ensures Emission(buffer[..count], WriterView()) == Output(Sent(), old(WriterView()), buffer.Length)
    {
      hide Emit, Coherent, Writable;
      ghost var f, w0 := Sent(), WriterView();
      var i := 0;
      while i < buffer.Length
        invariant i <= buffer.Length && Sent() == f && Coherent(f, WriterView())
        invariant Output(f, w0, buffer.Length) == After(buffer[..i], Output(f, WriterView(), buffer.Length - i))
      {
        EmitIsNextByte(f, WriterView());
        OutputUnfolds(f, WriterView(), buffer.Length - i, buffer[..i]);
        var emitted, b := NextByte();
        if !emitted {
          return i;
        }
        ghost var before := buffer[..i];
        buffer[i] := b;
        assert buffer[..i + 1] == before + [b];
        i := i + 1;
      }
      assert buffer[..i] + [] == buffer[..i];
      return buffer.Length;
    }
  }

  function After(out: seq<byte>, e: Emission): Emission {
    e.(out := out + e.out)
  }

  lemma OutputUnfolds(f: Fields, w: Writer, n: nat, before: seq<byte>)
    requires Writable(f) && Coherent(f, w) && n > 0
    ensures
      var e := Emit(f, w);
      && Coherent(f, e.writer)
      && After(before, Output(f, w, n)) ==
         if e.out == [] then Emission(before, e.writer) else After(before + e.out, Output(f, e.writer, n - 1))
  {
    EmitIsNextByte(f, w);
  }

  lemma BigEndianOctets(n: u32)
    ensures [Octet(n, 0), Octet(n, 1), Octet(n, 2), Octet(n, 3)] == BigEndian(n)
  {
    OctetOfBigEndian(n, 0);
    OctetOfBigEndian(n, 1);
    OctetOfBigEndian(n, 2);
    OctetOfBigEndian(n, 3);
  }

  /** The firmware's four chained updates give the checksum of the concatenation. */
  lemma ChainOfFour(a: seq<byte>, b: seq<byte>, c: seq<byte>, d: seq<byte>)
    ensures Crc32.Update(Crc32.Update(Crc32.Update(Crc32.Update(0, a), b), c), d) == Crc32.Checksum(a + b + c + d)
  {
    Crc32.UpdateConcat(0, a, b);
    Crc32.UpdateConcat(0, a + b, c);
    Crc32.UpdateConcat(0, a + b + c, d);
  }
}
