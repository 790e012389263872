/** The firmware's resumable datagram reader and chunked writer. */
module CanDatagrams {
  import opened Bytes
  import Crc32
  import Datagrams

  datatype Phase = ProtocolVersion | Crc | DstLen | Dst | DataLen | Data | Trailing

  // ----- reader -----

  /** What the reader knows: the fields read so far, and how far it got in each. */
  datatype Reader = Reader(
    phase: Phase,
    version: byte,
    crc: u32,
    crcRead: nat,
    dstLen: byte,
    dst: seq<byte>,
    dataLen: u32,
    lenRead: nat,
    data: seq<byte>)

  const CRC_SEED: u32 := 0x1122_3344

  function Restart(r: Reader): Reader {
    r.(phase := ProtocolVersion, crc := CRC_SEED, crcRead := 0, dst := [], lenRead := 0, data := [])
  }

  /** One byte; `capacity` is the size of the data buffer. */
  function Input(r: Reader, capacity: nat, b: byte): Reader {
    match r.phase
    case ProtocolVersion => r.(version := b, phase := Crc)
    case Crc =>
      r.(crc := ShiftIn(r.crc, b), crcRead := r.crcRead + 1, phase := if r.crcRead + 1 >= 4 then DstLen else Crc)
    case DstLen => r.(dstLen := b, phase := Dst)
    case Dst => r.(dst := r.dst + [b], phase := if |r.dst| + 1 >= r.dstLen then DataLen else Dst)
    case DataLen =>
      r.(dataLen := ShiftIn(r.dataLen, b), lenRead := r.lenRead + 1, phase := if r.lenRead + 1 >= 4 then Data else DataLen)
    case Data =>
      r.(data := r.data + [b],
         phase := if |r.data| + 1 >= r.dataLen || |r.data| + 1 >= capacity then Trailing else Data)
    case Trailing => r
  }

  function InputAll(r: Reader, capacity: nat, s: seq<byte>): Reader {
    if s == [] then r else Input(InputAll(r, capacity, s[..|s| - 1]), capacity, s[|s| - 1])
  }

  predicate IsComplete(r: Reader) {
    r.phase == Trailing
  }

  /** The received fields as a datagram; the buffers may hold one byte more than a length of zero announces. */
  function Received(r: Reader): Datagrams.Datagram
    requires r.dstLen <= |r.dst| && r.dataLen <= |r.data|
  {
    Datagrams.Datagram(r.dst[..r.dstLen], r.data[..r.dataLen])
  }

  /** The announced lengths are covered by what was stored. */
  predicate Fits(r: Reader) {
    r.dstLen <= |r.dst| && r.dataLen <= |r.data|
  }

  predicate IsValid(r: Reader) {
    && IsComplete(r)
    && Fits(r)
    && Crc32.Checksum(Datagrams.Covered(Received(r))) == r.crc
    && r.version == Datagrams.VERSION
  }

  function Max(m: int, n: int): int {
    if m < n then n else m
  }

  function Min(m: int, n: int): int {
    if m < n then m else n
  }

  /** Reference definition: the reader's state as a function of all the bytes since the restart. At least one
      destination byte and one data byte are consumed, whatever was announced. */
  function Parse(r: Reader, capacity: nat, s: seq<byte>): Reader {
    var r0 := Restart(r);
    if |s| == 0 then r0
    else
      var r1 := r0.(version := s[0], phase := Crc);
      if |s| < 5 then r1.(crc := ShiftInAll(CRC_SEED, s[1..]), crcRead := |s| - 1)
      else
        var r2 := r1.(crc := ShiftInAll(CRC_SEED, s[1..5]), crcRead := 4, phase := DstLen);
        if |s| == 5 then r2
        else ParseLists(r2.(dstLen := s[5], phase := Dst), capacity, s[6..])
  }

  function ParseLists(r: Reader, capacity: nat, s: seq<byte>): Reader {
    var m := Max(r.dstLen, 1);
    if |s| < m then r.(dst := s)
    else if |s| < m + 4 then
      r.(dst := s[..m], dataLen := ShiftInAll(r.dataLen, s[m..]), lenRead := |s| - m, phase := DataLen)
    else
      ParseData(r.(dst := s[..m], dataLen := ShiftInAll(r.dataLen, s[m..m + 4]), lenRead := 4, phase := Data),
                capacity, s[m + 4..])
  }

  function ParseData(r: Reader, capacity: nat, s: seq<byte>): Reader {
    var k := Max(Min(r.dataLen, capacity), 1);
    if |s| < k then r.(data := s) else r.(data := s[..k], phase := Trailing)
  }

  /** Feeding bytes one at a time after a restart agrees with the reference definition. */
  lemma {:induction false} InputAllIsParse(r: Reader, capacity: nat, s: seq<byte>)
    ensures InputAll(Restart(r), capacity, s) == Parse(r, capacity, s)
  {
    if s != [] {
      var t := s[..|s| - 1];
      InputAllIsParse(r, capacity, t);
      if |s| < 6 {
        ParseHead(r, capacity, s);
      } else {
        assert t[1..] == s[1..|s| - 1];
        if |s| > 6 {
          assert t[1..5] == s[1..5] && t[6..] == s[6..][..|s[6..]| - 1];
          var r2 := Restart(r).(version := s[0], crc := ShiftInAll(CRC_SEED, s[1..5]), crcRead := 4,
                                dstLen := s[5], phase := Dst);
          ParseListsStep(r2, capacity, s[6..]);
        } else {
          assert t[1..5] == s[1..5];
        }
      }
    }
  }

  lemma ParseHead(r: Reader, capacity: nat, s: seq<byte>)
    requires 0 < |s| < 6
    ensures Parse(r, capacity, s) == Input(Parse(r, capacity, s[..|s| - 1]), capacity, s[|s| - 1])
  {
    var t := s[..|s| - 1];
    if |s| > 1 {
      assert t[1..] == s[1..][..|s[1..]| - 1];
      assert |s| == 5 ==> s[1..] == s[1..5];
    }
  }

  lemma ParseListsStep(r: Reader, capacity: nat, s: seq<byte>)
    requires s != [] && r.phase == Dst && r.dst == [] && r.lenRead == 0 && r.data == []
    ensures ParseLists(r, capacity, s) == Input(ParseLists(r, capacity, s[..|s| - 1]), capacity, s[|s| - 1])
  {
    var t := s[..|s| - 1];
    var m := Max(r.dstLen, 1);
    if m + 4 < |s| {
      assert t[..m] == s[..m] && t[m..m + 4] == s[m..m + 4];
      assert t[m + 4..] == s[m + 4..][..|s[m + 4..]| - 1];
      hide Max, ShiftInAll, BigEndian;
      var r' := r.(dst := s[..m], dataLen := ShiftInAll(r.dataLen, s[m..m + 4]), lenRead := 4, phase := Data);
      ParseDataStep(r', capacity, s[m + 4..]);
    } else {
      ParseLengthStep(r, capacity, s);
    }
  }

  lemma ParseLengthStep(r: Reader, capacity: nat, s: seq<byte>)
    requires s != [] && r.phase == Dst && r.dst == [] && r.lenRead == 0 && r.data == []
    requires |s| <= Max(r.dstLen, 1) + 4
    ensures ParseLists(r, capacity, s) == Input(ParseLists(r, capacity, s[..|s| - 1]), capacity, s[|s| - 1])
  {
    var t := s[..|s| - 1];
    var m := Max(r.dstLen, 1);
    if |s| == m {
      assert s[..m] == s && s[m..] == [];
    } else if m < |s| {
      assert t[..m] == s[..m] && t[m..] == s[m..][..|s[m..]| - 1];
      if |s| == m + 4 {
        assert s[m..] == s[m..m + 4];
      }
    }
  }

  lemma ParseDataStep(r: Reader, capacity: nat, s: seq<byte>)
    requires s != [] && r.phase == Data && r.data == []
    ensures ParseData(r, capacity, s) == Input(ParseData(r, capacity, s[..|s| - 1]), capacity, s[|s| - 1])
  {
    var k := Max(Min(r.dataLen, capacity), 1);
    if k < |s| {
      assert s[..|s| - 1][..k] == s[..k];
    }
  }

  /** Reader restart: from any state, a restart followed by a wire image with at least one destination and one
      data byte is complete exactly from its last byte on, and then holds exactly its fields. */
  lemma ReaderRestart(r: Reader, capacity: nat, version: byte, crc: u32, dst: seq<byte>, data: seq<byte>, extra: seq<byte>, k: nat)
    requires 1 <= |dst| < 0x100 && 1 <= |data| < 0x1_0000_0000 && |data| <= capacity
    requires k <= |Datagrams.Wire(version, crc, dst, |data|, data) + extra|
    ensures
      var w := Datagrams.Wire(version, crc, dst, |data|, data);
      var r' := InputAll(Restart(r), capacity, (w + extra)[..k]);
      && (IsComplete(r') <==> |w| <= k)
      && (IsComplete(r') ==> r' == Reader(Trailing, version, crc, 4, |dst|, dst, |data|, 4, data))
  {
    var s := (Datagrams.Wire(version, crc, dst, |data|, data) + extra)[..k];
    InputAllIsParse(r, capacity, s);
    WireSize(version, crc, dst, data);
    hide InputAll, BigEndian, ShiftInAll, ParseLists, Datagrams.Wire, IsComplete;
    if k < 6 {
      HeadIncomplete(r, capacity, s);
    } else {
      WirePrefix(version, crc, dst, data, extra, k);
      ShiftInBigEndian(CRC_SEED, crc);
      ParseListsOfWire(Restart(r).(version := version, crc := crc, crcRead := 4, dstLen := |dst|, phase := Dst),
                       capacity, dst, data, extra, k - 6);
    }
  }

  lemma WireSize(version: byte, crc: u32, dst: seq<byte>, data: seq<byte>)
    requires |dst| < 0x100 && |data| < 0x1_0000_0000
    ensures |Datagrams.Wire(version, crc, dst, |data|, data)| == 10 + |dst| + |data|
  {
  }

  lemma HeadIncomplete(r: Reader, capacity: nat, s: seq<byte>)
    requires |s| < 6
    ensures !IsComplete(Parse(r, capacity, s))
  {
  }

  lemma WirePrefix(version: byte, crc: u32, dst: seq<byte>, data: seq<byte>, extra: seq<byte>, k: nat)
    requires |dst| < 0x100 && |data| < 0x1_0000_0000
    requires 6 <= k <= |Datagrams.Wire(version, crc, dst, |data|, data) + extra|
    ensures
      var s := (Datagrams.Wire(version, crc, dst, |data|, data) + extra)[..k];
      && s[0] == version && s[1..5] == BigEndian(crc) && s[5] == |dst|
      && k - 6 <= |dst + BigEndian(|data|) + data + extra|
      && s[6..] == (dst + BigEndian(|data|) + data + extra)[..k - 6]
  {
    hide BigEndian;
    var lists := dst + BigEndian(|data|) + data + extra;
    var head := [version] + BigEndian(crc) + [|dst|];
    assert Datagrams.Wire(version, crc, dst, |data|, data) + extra == head + lists;
    DropOfTake(head + lists, k, 6);
    assert (head + lists)[6..] == lists;
    assert (head + lists)[..k][1..5] == head[1..5] == BigEndian(crc);
  }

  lemma DropOfTake(s: seq<byte>, k: nat, a: nat)
    requires a <= k <= |s|
    ensures s[..k][a..] == s[a..][..k - a]
  {
  }

  lemma ParseListsOfWire(r: Reader, capacity: nat, dst: seq<byte>, data: seq<byte>, extra: seq<byte>, k: nat)
    requires 1 <= |dst| < 0x100 && 1 <= |data| < 0x1_0000_0000 && |data| <= capacity
    requires r.phase == Dst && r.dstLen == |dst| && k <= |dst| + 4 + |data| + |extra|
    ensures
      var r' := ParseLists(r, capacity, (dst + BigEndian(|data|) + data + extra)[..k]);
      && (IsComplete(r') <==> |dst| + 4 + |data| <= k)
      && (IsComplete(r') ==> r' == r.(phase := Trailing, dst := dst, dataLen := |data|, lenRead := 4, data := data))
  {
    hide BigEndian, ShiftInAll;
    var s := (dst + BigEndian(|data|) + data + extra)[..k];
    if |dst| + 4 <= k {
      ListParts(dst, BigEndian(|data|), data, extra, k);
      ShiftInBigEndian(r.dataLen, |data|);
    }
  }

  lemma ListParts(dst: seq<byte>, len: seq<byte>, data: seq<byte>, extra: seq<byte>, k: nat)
    requires |len| == 4 && |dst| + 4 <= k <= |dst| + 4 + |data| + |extra|
    ensures
      var s, n := (dst + len + data + extra)[..k], |dst|;
      && |s| == k && s[..n] == dst && s[n..n + 4] == len && |s[n + 4..]| == k - n - 4
      && (n + 4 + |data| <= k ==> s[n + 4..][..|data|] == data)
  {
    var front, tail := dst + len, data + extra;
    var all, n := front + tail, |dst|;
    assert dst + len + data + extra == all;
    Appended(front, tail);
    Appended(dst, len);
    Appended(data, extra);
    assert all[..k][..n] == front[..n] && all[..k][n..n + 4] == front[n..];
    DropOfTake(all, k, n + 4);
    if n + 4 + |data| <= k {
      assert tail[..k - n - 4][..|data|] == tail[..|data|];
    }
  }

  lemma Appended(a: seq<byte>, b: seq<byte>)
    ensures (a + b)[..|a|] == a && (a + b)[|a|..] == b
  {
  }

  /** The converse: whenever a restarted reader is complete and its lengths fit, the bytes since the restart begin
      with the wire image of the fields it holds. */
  lemma CompleteIsWire(r: Reader, capacity: nat, s: seq<byte>)
    ensures
      var r' := InputAll(Restart(r), capacity, s);
      IsComplete(r') && Fits(r') && r'.dstLen >= 1 ==>
        Datagrams.Wire(r'.version, r'.crc, Received(r').destinations, r'.dataLen, Received(r').data) <= s
  {
    InputAllIsParse(r, capacity, s);
    hide InputAll;
    var r' := Parse(r, capacity, s);
    if IsComplete(r') && Fits(r') && r'.dstLen >= 1 {
      hide BigEndian, ShiftInAll, Restart;
      var lists := s[6..];
      var n: nat := r'.dstLen;
      BigEndianShiftIn(CRC_SEED, s[1..5]);
      BigEndianShiftIn(r.dataLen, lists[n..n + 4]);
      assert Received(r').destinations == lists[..n];
      assert Received(r').data == lists[n + 4..][..r'.dataLen];
      WirePieces(s, n, r'.dataLen);
    }
  }

  lemma WirePieces(s: seq<byte>, n: nat, k: nat)
    requires 10 + n + k <= |s|
    ensures
      var lists := s[6..];
      [s[0]] + s[1..5] + [s[5]] + lists[..n] + lists[n..n + 4] + lists[n + 4..][..k] <= s
  {
    var lists := s[6..];
    assert [s[0]] + s[1..5] + [s[5]] == s[..6];
    assert lists[..n] + lists[n..n + 4] == lists[..n + 4];
    assert lists[..n + 4] + lists[n + 4..][..k] == lists[..n + 4 + k];
    assert s[..6] + lists[..n + 4 + k] == s[..10 + n + k];
    assert s[..6] + lists[..n] + lists[n..n + 4] + lists[n + 4..][..k]
        == s[..6] + (lists[..n] + lists[n..n + 4] + lists[n + 4..][..k]);
  }

  /** A received datagram with up to four consecutive data bytes changed is not valid. */
  lemma DamagedReaderInvalid(r: Reader, pre: seq<byte>, s: seq<byte>, t: seq<byte>, post: seq<byte>)
    requires |s| == |t| <= 4 && s != t
    requires r.data == pre + s + post && r.dataLen == |r.data| && IsValid(r)
    ensures !IsValid(r.(data := pre + t + post))
  {
    hide Crc32.Checksum, Datagrams.Covered;
    var dst := r.dst[..r.dstLen];
    assert r.data[..r.dataLen] == pre + s + post;
    assert (pre + t + post)[..r.dataLen] == pre + t + post;
    Datagrams.DamageChangesChecksum(dst, pre, s, t, post);
  }

  /** A completed reader ignores whatever follows. */
  lemma {:induction false} TrailingIgnored(r: Reader, capacity: nat, s: seq<byte>)
    requires IsComplete(r)
    ensures InputAll(r, capacity, s) == r
  {
    if s != [] {
      TrailingIgnored(r, capacity, s[..|s| - 1]);
    }
  }

  lemma {:induction false} InputAllConcat(r: Reader, capacity: nat, s: seq<byte>, t: seq<byte>)
    ensures InputAll(r, capacity, s + t) == InputAll(InputAll(r, capacity, s), capacity, t)
  {
    hide Input;
    if t == [] {
      assert s + t == s;
    } else {
      InputAllConcat(r, capacity, s, t[..|t| - 1]);
      assert (s + t)[..|s + t| - 1] == s + t[..|t| - 1];
    }
  }

  // ----- writer -----

  /** The fields to send; the announced lengths are those of the lists. */
  datatype Fields = Fields(version: byte, crc: u32, dst: seq<byte>, data: seq<byte>)

  /** The writer emits a destination byte before it looks at the count, so there must be one. */
  predicate Writable(f: Fields) {
    1 <= |f.dst| < 0x100 && |f.data| < 0x1_0000_0000
  }

  function WireOf(f: Fields): seq<byte>
    requires Writable(f)
  {
    Datagrams.Wire(f.version, f.crc, f.dst, |f.data|, f.data)
  }

  datatype Writer = Writer(phase: Phase, crcWritten: nat, dstWritten: nat, lenWritten: nat, dataWritten: nat)

  /** The counter of the current phase lies inside the field being written. */
  predicate Coherent(f: Fields, w: Writer) {
    match w.phase
    case Crc => w.crcWritten < 4
    case Dst => w.dstWritten < |f.dst|
    case DataLen => w.lenWritten < 4
    case Data => w.dataWritten <= |f.data|
    case _ => true
  }

  /** The number of bytes already written. */
  function Position(f: Fields, w: Writer): nat {
    match w.phase
    case ProtocolVersion => 0
    case Crc => 1 + w.crcWritten
    case DstLen => 5
    case Dst => 6 + w.dstWritten
    case DataLen => 6 + |f.dst| + w.lenWritten
    case Data => 10 + |f.dst| + w.dataWritten
    case Trailing => 10 + |f.dst| + |f.data|
  }

  function ShiftRight8(n: nat, times: nat): nat {
    if times == 0 then n else ShiftRight8(n, times - 1) / 0x100
  }

  /** Byte `i` of a word, most significant first: `n >> (24 - 8 * i)`, truncated. */
  function Octet(n: u32, i: nat): byte
    requires i < 4
  {
    ShiftRight8(n, 3 - i) % 0x100
  }

  lemma OctetOfBigEndian(n: u32, i: nat)
    requires i < 4
    ensures Octet(n, i) == BigEndian(n)[i]
  {
    assert ShiftRight8(n, 1) == n / 0x100;
    assert ShiftRight8(n, 2) == ShiftRight8(n, 1) / 0x100;
    assert ShiftRight8(n, 3) == ShiftRight8(n, 2) / 0x100;
  }

  /** At most one byte, and the writer after it. */
  datatype Emission = Emission(out: seq<byte>, writer: Writer)

  function Emit(f: Fields, w: Writer): Emission
    requires Writable(f) && Coherent(f, w)
  {
    match w.phase
    case ProtocolVersion => Emission([f.version], w.(phase := Crc, crcWritten := 0))
    case Crc =>
      Emission([Octet(f.crc, w.crcWritten)],
               w.(crcWritten := w.crcWritten + 1, phase := if w.crcWritten + 1 >= 4 then DstLen else Crc))
    case DstLen => Emission([|f.dst|], w.(phase := Dst, dstWritten := 0))
    case Dst =>
      var w' := w.(dstWritten := w.dstWritten + 1);
      Emission([f.dst[w.dstWritten]],
               if w'.dstWritten >= |f.dst| then w'.(phase := DataLen, lenWritten := 0) else w')
    case DataLen =>
      var w' := w.(lenWritten := w.lenWritten + 1);
      Emission([Octet(|f.data|, w.lenWritten)],
               if w'.lenWritten >= 4 then w'.(phase := Data, dataWritten := 0) else w')
    case Data =>
      if w.dataWritten >= |f.data| then Emission([], w.(phase := Trailing))
      else Emission([f.data[w.dataWritten]], w.(dataWritten := w.dataWritten + 1))
    case Trailing => Emission([], w)
  }

  /** Each step emits the byte of the encoding at the current position, and none at its end. */
  lemma EmitIsNextByte(f: Fields, w: Writer)
    requires Writable(f) && Coherent(f, w)
    ensures
      var e := Emit(f, w);
      var p := Position(f, w);
      && Coherent(f, e.writer)
      && p <= |WireOf(f)|
      && (if p < |WireOf(f)| then e.out == [WireOf(f)[p]] && Position(f, e.writer) == p + 1
          else e.out == [] && Position(f, e.writer) == p)
  {
    WireLength(f);
    var p := Position(f, w);
    if p < |WireOf(f)| {
      WireAt(f, p);
    }
    hide WireOf, BigEndian, Octet, ShiftRight8;
    match w.phase
    case Crc => OctetOfBigEndian(f.crc, w.crcWritten);
    case DataLen => OctetOfBigEndian(|f.data|, w.lenWritten);
    case _ =>
  }

  lemma WireLength(f: Fields)
    requires Writable(f)
    ensures |WireOf(f)| == 10 + |f.dst| + |f.data|
  {
  }

  /** Which field a byte of the encoding belongs to. */
  lemma WireAt(f: Fields, p: nat)
    requires Writable(f) && p < |WireOf(f)|
    ensures |WireOf(f)| == 10 + |f.dst| + |f.data|
    ensures WireOf(f)[p] ==
      if p == 0 then f.version
      else if p < 5 then BigEndian(f.crc)[p - 1]
      else if p == 5 then |f.dst|
      else if p < 6 + |f.dst| then f.dst[p - 6]
      else if p < 10 + |f.dst| then BigEndian(|f.data|)[p - 6 - |f.dst|]
      else f.data[p - 10 - |f.dst|]
  {
    hide BigEndian;
  }

  /** One call with a buffer of `n` bytes. */
  function Output(f: Fields, w: Writer, n: nat): Emission
    requires Writable(f) && Coherent(f, w)
    decreases n
  {
    if n == 0 then Emission([], w)
    else
      EmitIsNextByte(f, w);
      var e := Emit(f, w);
      if e.out == [] then e
      else
        var rest := Output(f, e.writer, n - 1);
        Emission(e.out + rest.out, rest.writer)
  }

  /** A call returns the next `n` bytes of the encoding, or what is left of it. */
  lemma {:induction false} OutputIsSlice(f: Fields, w: Writer, n: nat)
    requires Writable(f) && Coherent(f, w)
    ensures
      var o := Output(f, w, n);
      var p := Position(f, w);
      var p' := Min(p + n, |WireOf(f)|);
      && Coherent(f, o.writer)
      && p <= p' && o.out == WireOf(f)[p..p'] && Position(f, o.writer) == p'
    decreases n
  {
    hide Emit, WireOf, Position, Coherent;
    EmitIsNextByte(f, w);
    if n > 0 {
      var e := Emit(f, w);
      if e.out != [] {
        OutputIsSlice(f, e.writer, n - 1);
      }
    }
  }

  /** The outputs of successive calls with these buffer sizes. */
  function Chunks(f: Fields, w: Writer, sizes: seq<nat>): (chunks: seq<seq<byte>>)
    requires Writable(f) && Coherent(f, w)
    ensures |chunks| == |sizes|
    decreases |sizes|
  {
    if sizes == [] then []
    else
      OutputIsSlice(f, w, sizes[0]);
      var o := Output(f, w, sizes[0]);
      [o.out] + Chunks(f, o.writer, sizes[1..])
  }

  function Concat(chunks: seq<seq<byte>>): seq<byte> {
    if chunks == [] then [] else chunks[0] + Concat(chunks[1..])
  }

  function Sum(sizes: seq<nat>): nat {
    if sizes == [] then 0 else sizes[0] + Sum(sizes[1..])
  }

  /** Chunk independence: whatever the buffer sizes, the concatenated outputs are the stretch of the one encoding
      that starts where the writer stands and has the total size asked for, cut off at its end. */
  lemma {:induction false} ChunkIndependence(f: Fields, w: Writer, sizes: seq<nat>)
    requires Writable(f) && Coherent(f, w)
    ensures
      var p := Position(f, w);
      var p' := Min(p + Sum(sizes), |WireOf(f)|);
      p <= p' && Concat(Chunks(f, w, sizes)) == WireOf(f)[p..p']
    decreases |sizes|
  {
    hide WireOf, Position;
    if sizes == [] {
      OutputIsSlice(f, w, 0);
    } else {
      OutputIsSlice(f, w, sizes[0]);
      var o := Output(f, w, sizes[0]);
      ChunkIndependence(f, o.writer, sizes[1..]);
    }
  }

  /** Once the whole encoding is out, every further call returns nothing. */
  lemma NothingAfterTheEnd(f: Fields, w: Writer, sizes: seq<nat>, n: nat)
    requires Writable(f) && Coherent(f, w)
    requires Position(f, w) + Sum(sizes) >= |WireOf(f)|
    ensures Concat(Chunks(f, w, sizes + [n])) == Concat(Chunks(f, w, sizes))
  {
    ChunkIndependence(f, w, sizes);
    ChunkIndependence(f, w, sizes + [n]);
    SumSnoc(sizes, n);
  }

  lemma {:induction false} SumSnoc(sizes: seq<nat>, n: nat)
    ensures Sum(sizes + [n]) == Sum(sizes) + n
  {
    if sizes != [] {
      SumSnoc(sizes[1..], n);
      assert (sizes + [n])[1..] == sizes[1..] + [n];
    }
  }
}
