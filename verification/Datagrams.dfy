/** The datagram format and its Python encoder, decoder and framer. */
module Datagrams {
  import opened Bytes
  import Crc32

  const VERSION: byte := 1

  const START_OF_DATAGRAM_MASK := 0x80

  datatype Datagram = Datagram(destinations: seq<byte>, data: seq<byte>)

  /** A standard or extended CAN frame; `data` is the payload up to its data length. */
  datatype Frame = Frame(id: nat, data: seq<byte>, extended: bool)

  predicate IsStart(id: nat) {
    id / START_OF_DATAGRAM_MASK % 2 == 1
  }

  /** `id | START_OF_DATAGRAM_MASK` */
  function WithStart(id: byte): byte {
    if IsStart(id) then id else id + START_OF_DATAGRAM_MASK
  }

  /** The counts fit the one-byte and four-byte length fields. */
  predicate Encodable(d: Datagram) {
    |d.destinations| < 0x100 && |d.data| < 0x1_0000_0000
  }

  /** The part of a datagram its checksum covers. */
  function Covered(d: Datagram): seq<byte>
    requires Encodable(d)
  {
    [|d.destinations|] + d.destinations + BigEndian(|d.data|) + d.data
  }

  /** Header, checksum `crc`, destination list, announced data length and data, in wire order. */
  function Wire(version: byte, crc: u32, destinations: seq<byte>, announced: u32, data: seq<byte>): seq<byte>
    requires |destinations| < 0x100
  {
    [version] + BigEndian(crc) + [|destinations|] + destinations + BigEndian(announced) + data
  }

  function Encode(d: Datagram): seq<byte>
    requires Encodable(d)
  {
    Wire(VERSION, Crc32.Checksum(Covered(d)), d.destinations, |d.data|, d.data)
  }

  /** `IndexError` is the exception an empty buffer raises; every other failure returns `None`. */
  datatype Result = Nothing | Decoded(datagram: Datagram) | IndexError

  function Decode(s: seq<byte>): Result {
    if s == [] then IndexError
    else if s[0] != VERSION then Nothing
    else if |s| < 6 then Nothing
    else
      var crc := FromBytes(s[1], s[2], s[3], s[4]);
      var n: nat := s[5];
      var rest := s[6..];
      if |rest| < n then Nothing
      else if |rest| < n + 4 then Nothing
      else
        var destinations := rest[..n];
        var announced := FromBytes(rest[n], rest[n + 1], rest[n + 2], rest[n + 3]);
        var data := rest[n + 4..];
        if |data| < announced then Nothing
        else if |data| >= 0x1_0000_0000 then Nothing
        else if Crc32.Checksum(Covered(Datagram(destinations, data))) != crc then Nothing
        else Decoded(Datagram(destinations, data))
  }

  /** The fields `Decode` reads from wire bytes are the ones written. */
  lemma WireFields(version: byte, crc: u32, destinations: seq<byte>, announced: u32, data: seq<byte>)
    requires |destinations| < 0x100
    ensures
      var s := Wire(version, crc, destinations, announced, data);
      var n := |destinations|;
      && |s| == 10 + n + |data|
      && s[0] == version && FromBytes(s[1], s[2], s[3], s[4]) == crc && s[5] == n
      && s[6..][..n] == destinations
      && FromBytes(s[6..][n], s[6..][n + 1], s[6..][n + 2], s[6..][n + 3]) == announced
      && s[6..][n + 4..] == data
  {
    hide BigEndian, FromBytes;
    var s := Wire(version, crc, destinations, announced, data);
    var n := |destinations|;
    FromBigEndian(crc);
    FromBigEndian(announced);
    assert s[1..5] == BigEndian(crc);
    assert s[1] == s[1..5][0] && s[2] == s[1..5][1] && s[3] == s[1..5][2] && s[4] == s[1..5][3];
    var rest := s[6..];
    assert rest == destinations + BigEndian(announced) + data;
    var len := rest[n..n + 4];
    assert len == BigEndian(announced);
    assert rest[n] == len[0] && rest[n + 1] == len[1] && rest[n + 2] == len[2] && rest[n + 3] == len[3];
  }

  /** Where the bytes of an encoding stand. */
  lemma EncodedLayout(d: Datagram)
    requires Encodable(d)
    ensures
      var s, n, len := Encode(d), |d.destinations|, |d.data|;
      var crc := Crc32.Checksum(s[5..]);
      && |s| == 10 + n + len && s[0] == 1
      && s[1..5] == [crc / 0x100_0000, crc / 0x1_0000 % 0x100, crc / 0x100 % 0x100, crc % 0x100]
      && s[5] == n && s[6..6 + n] == d.destinations
      && s[6 + n..10 + n] == [len / 0x100_0000, len / 0x1_0000 % 0x100, len / 0x100 % 0x100, len % 0x100]
      && s[10 + n..] == d.data
  {
    WireSlices(VERSION, Crc32.Checksum(Covered(d)), d.destinations, |d.data|, d.data);
    BigEndianDigits(|d.data|);
    BigEndianDigits(Crc32.Checksum(Covered(d)));
    hide Crc32.Checksum, BigEndian, Wire;
  }

  lemma WireSlices(version: byte, crc: u32, destinations: seq<byte>, announced: u32, data: seq<byte>)
    requires |destinations| < 0x100
    ensures
      var s, n := Wire(version, crc, destinations, announced, data), |destinations|;
      && |s| == 10 + n + |data| && s[0] == version && s[1..5] == BigEndian(crc) && s[5] == n && s[6..6 + n] == destinations
      && s[6 + n..10 + n] == BigEndian(announced) && s[10 + n..] == data
      && s[5..] == [n] + destinations + BigEndian(announced) + data
  {
    hide BigEndian;
  }

  /** Decoding inverts encoding. */
  lemma DecodeEncode(d: Datagram)
    requires Encodable(d)
    ensures Decode(Encode(d)) == Decoded(d)
  {
    WireFields(VERSION, Crc32.Checksum(Covered(d)), d.destinations, |d.data|, d.data);
  }

  /** A datagram still in transmission is never taken for a complete one. */
  lemma DecodeStrictPrefix(d: Datagram, k: nat)
    requires Encodable(d) && 0 < k < |Encode(d)|
    ensures Decode(Encode(d)[..k]) == Nothing
  {
    var s := Encode(d);
    WireFields(VERSION, Crc32.Checksum(Covered(d)), d.destinations, |d.data|, d.data);
    if 6 <= k {
      assert s[..k][6..] == s[6..][..k - 6];
    }
  }

  /** `s` is the wire form of `d`, except that the announced length may be smaller than the data present:
      the decoder computes the checksum over the number of data bytes it holds. */
  ghost predicate WellFormed(s: seq<byte>, d: Datagram) {
    && Encodable(d)
    && exists announced: u32 ::
         && announced <= |d.data|
         && s == Wire(VERSION, Crc32.Checksum(Covered(d)), d.destinations, announced, d.data)
  }

  lemma DecodedIsWellFormed(s: seq<byte>, d: Datagram)
    requires Decode(s) == Decoded(d)
    ensures WellFormed(s, d)
  {
    var n := |d.destinations|;
    var rest := s[6..];
    var announced := FromBytes(rest[n], rest[n + 1], rest[n + 2], rest[n + 3]);
    BigEndianFromBytes(s[1], s[2], s[3], s[4]);
    BigEndianFromBytes(rest[n], rest[n + 1], rest[n + 2], rest[n + 3]);
    hide BigEndian, FromBytes, Crc32.Checksum, Covered;
    BytesSplit(s, n);
    assert s == Wire(VERSION, Crc32.Checksum(Covered(d)), d.destinations, announced, d.data);
  }

  lemma BytesSplit(s: seq<byte>, n: nat)
    requires 10 + n <= |s|
    ensures
      var rest := s[6..];
      s == [s[0]] + [s[1], s[2], s[3], s[4]] + [s[5]] + rest[..n] + [rest[n], rest[n + 1], rest[n + 2], rest[n + 3]] + rest[n + 4..]
  {
    var rest := s[6..];
    var head, len := [s[0]] + [s[1], s[2], s[3], s[4]] + [s[5]], [rest[n], rest[n + 1], rest[n + 2], rest[n + 3]];
    assert s[..6] == head;
    assert rest[n..n + 4] == len;
    assert rest == rest[..n] + rest[n..n + 4] + rest[n + 4..];
    assert s == s[..6] + rest;
    Regroup(head, rest[..n], len, rest[n + 4..]);
  }

  lemma Regroup(a: seq<byte>, b: seq<byte>, c: seq<byte>, d: seq<byte>)
    ensures a + (b + c + d) == a + b + c + d
  {
  }

  /** Decoding succeeds on exactly the well-formed byte strings. */
  lemma DecodeExactly(s: seq<byte>, d: Datagram)
    ensures Decode(s) == Decoded(d) <==> WellFormed(s, d)
    ensures Decode(s).IndexError? <==> s == []
  {
    if Decode(s) == Decoded(d) {
      DecodedIsWellFormed(s, d);
    }
    if WellFormed(s, d) {
      hide Crc32.Checksum, Covered;
      var announced: u32 :| announced <= |d.data|
                         && s == Wire(VERSION, Crc32.Checksum(Covered(d)), d.destinations, announced, d.data);
      WireFields(VERSION, Crc32.Checksum(Covered(d)), d.destinations, announced, d.data);
    }
  }

  /** A transmission error confined to four consecutive data bytes is never decoded. */
  lemma DamagedDataRejected(destinations: seq<byte>, pre: seq<byte>, sent: seq<byte>, got: seq<byte>, post: seq<byte>)
    requires Encodable(Datagram(destinations, pre + sent + post))
    requires |sent| == |got| <= 4 && sent != got
    ensures
      var crc := Crc32.Checksum(Covered(Datagram(destinations, pre + sent + post)));
      Decode(Wire(VERSION, crc, destinations, |pre + sent + post|, pre + got + post)) == Nothing
  {
    var crc := Crc32.Checksum(Covered(Datagram(destinations, pre + sent + post)));
    WireFields(VERSION, crc, destinations, |pre + sent + post|, pre + got + post);
    DamageChangesChecksum(destinations, pre, sent, got, post);
  }

  lemma DamageChangesChecksum(destinations: seq<byte>, pre: seq<byte>, sent: seq<byte>, got: seq<byte>, post: seq<byte>)
    requires Encodable(Datagram(destinations, pre + sent + post))
    requires |sent| == |got| <= 4 && sent != got
    ensures Crc32.Checksum(Covered(Datagram(destinations, pre + sent + post)))
         != Crc32.Checksum(Covered(Datagram(destinations, pre + got + post)))
  {
    var head := [|destinations|] + destinations + BigEndian(|pre + sent + post|) + pre;
    assert Covered(Datagram(destinations, pre + sent + post)) == head + sent + post;
    assert Covered(Datagram(destinations, pre + got + post)) == head + got + post;
    Crc32.BurstDetected(head, sent, got, post);
  }

  /** The frames for the bytes `s`; only the first of a datagram carries the start bit. */
  function FramesFrom(s: seq<byte>, start: bool, source: nat): (frames: seq<Frame>) {
    var id := (if start then START_OF_DATAGRAM_MASK else 0) + source;
    if |s| > 8 then [Frame(id, s[..8], false)] + FramesFrom(s[8..], false, source) else [Frame(id, s, false)]
  }

  function Frames(s: seq<byte>, source: nat): seq<Frame> {
    FramesFrom(s, true, source)
  }

  method DatagramToFrames(datagram: seq<byte>, source: nat) returns (frames: seq<Frame>)
    ensures frames == Frames(datagram, source)
  {
    hide FramesFrom;
    frames := [];
    FramesUnfold(frames, datagram, true, source);
    var rest, startBit := datagram, START_OF_DATAGRAM_MASK;
    while |rest| > 8
      invariant startBit == START_OF_DATAGRAM_MASK || startBit == 0
      invariant frames + FramesFrom(rest, startBit == START_OF_DATAGRAM_MASK, source) == Frames(datagram, source)
    {
      FramesUnfold(frames, rest, startBit == START_OF_DATAGRAM_MASK, source);
      frames := frames + [Frame(startBit + source, rest[..8], false)];
      rest, startBit := rest[8..], 0;
    }
    FramesUnfold(frames, rest, startBit == START_OF_DATAGRAM_MASK, source);
    frames := frames + [Frame(startBit + source, rest, false)];
  }

  lemma FramesUnfold(before: seq<Frame>, s: seq<byte>, start: bool, source: nat)
    ensures
      var id := (if start then START_OF_DATAGRAM_MASK else 0) + source;
      before + FramesFrom(s, start, source) ==
        if |s| > 8 then before + [Frame(id, s[..8], false)] + FramesFrom(s[8..], false, source)
        else before + [Frame(id, s, false)]
    ensures [] + FramesFrom(s, start, source) == FramesFrom(s, start, source)
  {
  }

  function FrameCount(n: nat): nat {
    if n <= 8 then 1 else (n + 7) / 8
  }

  /** Frame `k` holds bytes 8k to 8k+8, and the identifiers differ only in the start bit of the first. */
  lemma {:induction false} FrameAt(s: seq<byte>, start: bool, source: nat, k: nat)
    ensures |FramesFrom(s, start, source)| == FrameCount(|s|)
    ensures k < FrameCount(|s|) ==>
              var f := FramesFrom(s, start, source)[k];
              && f.id == (if start && k == 0 then START_OF_DATAGRAM_MASK else 0) + source
              && !f.extended
              && 8 * k <= |s|
              && f.data == (if k + 1 < FrameCount(|s|) then s[8 * k..8 * k + 8] else s[8 * k..])
              && (k + 1 < FrameCount(|s|) ==> 8 * k + 8 < |s|)
              && (k + 1 == FrameCount(|s|) ==> |f.data| <= 8)
  {
    if |s| > 8 {
      FrameAt(s[8..], false, source, if k == 0 then 0 else k - 1);
      assert FrameCount(|s|) == 1 + FrameCount(|s[8..]|);
      if 0 < k < FrameCount(|s|) {
        var j := k - 1;
        assert FramesFrom(s, start, source)[k] == FramesFrom(s[8..], false, source)[j];
        assert s[8..][8 * j..] == s[8 * k..];
        if k + 1 < FrameCount(|s|) {
          assert s[8..][8 * j..8 * j + 8] == s[8 * k..8 * k + 8];
        }
      }
    }
  }
}
