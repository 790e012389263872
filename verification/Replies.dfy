/** Sending a reply datagram from a node, and what the client makes of it. */
module Replies {
  import opened Bytes
  import opened Datagrams
  import opened CanDatagrams
  import opened DatagramBuffers
  import Crc32
  import Reassembly

  /** The bound on the send loop of `return_datagram`. */
  const TRANSMISSION_COUNT := 100

  function SliceAt(s: seq<byte>, k: nat): seq<byte>
    requires 8 * k <= |s|
  {
    s[8 * k..Min(8 * k + 8, |s|)]
  }

  function ReplyFrame(s: seq<byte>, source: byte, k: nat): Frame
    requires 8 * k <= |s|
  {
    Frame(if k == 0 then WithStart(source) else source, SliceAt(s, k), false)
  }

  /** The first `n` frames of the bytes `s` as the node sends them. */
  function ReplyFrames(s: seq<byte>, source: byte, n: nat): (frames: seq<Frame>)
    requires n <= FrameCount(|s|) && 0 < |s|
    ensures |frames| == n
  {
    seq(n, k requires 0 <= k < n => ReplyFrame(s, source, k))
  }

  /** How many of `n` transmissions happen, if the loop stops at the first one that fails. */
  function Successes(link: nat -> bool, n: nat): (k: nat)
    ensures k <= n
    ensures forall i :: 0 <= i < k ==> link(i)
    ensures k < n ==> !link(k)
  {
    if n == 0 then 0
    else
      var k := Successes(link, n - 1);
      if k == n - 1 && link(k) then n else k
  }

  function ReplyDatagram(dest: byte, data: seq<byte>): Datagram {
    Datagram([dest], data)
  }

  /** `link(k)` tells whether transmission `k` succeeds. */
  method ReturnDatagram(source: byte, dest: byte, data: array<byte>, len: nat, link: nat -> bool)
    returns (sent: seq<Frame>)
    requires 1 <= len <= data.Length && len < 0x1_0000_0000
    ensures
      var s := Encode(ReplyDatagram(dest, data[..len]));
      sent == ReplyFrames(s, source, Successes(link, Min(TRANSMISSION_COUNT, FrameCount(|s|))))
  {
    hide Encode, WireOf, Coherent, Position, Writable, WithStart, FrameCount, ReplyFrames;
    var buf := new byte[8];
    var dt := NewReply(dest, data, len);
    ghost var f, s := dt.Sent(), Encode(ReplyDatagram(dest, data[..len]));
    EncodedLength(dest, data[..len]);
    ReplyFramesEmpty(s, source);

    sent := [];
    var startOfDatagram := true;
    var transmissionCount := TRANSMISSION_COUNT;
    while transmissionCount > 0
      invariant 0 <= transmissionCount && transmissionCount + |sent| == TRANSMISSION_COUNT
      invariant |sent| <= FrameCount(|s|) && sent == ReplyFrames(s, source, |sent|)
      invariant forall i :: 0 <= i < |sent| ==> link(i)
      invariant startOfDatagram == (|sent| == 0)
      invariant dt.dstLen == 1 && dt.dataLen == len && dt.Sent() == f
      invariant Coherent(f, dt.WriterView()) && Position(f, dt.WriterView()) == Min(8 * |sent|, |s|)
    {
      var dlc := NextFrame(dt, buf, f, s, |sent|);
      if dlc == 0 {
        break;
      }
      ReplyFramesSnoc(s, source, |sent|);
      transmissionCount := transmissionCount - 1;
      var id := if startOfDatagram then WithStart(source) else source;
      if !link(|sent|) {
        break;
      }
      sent := sent + [Frame(id, buf[..dlc], false)];
      startOfDatagram := false;
    }
    SuccessesIs(link, Min(TRANSMISSION_COUNT, FrameCount(|s|)), |sent|);
  }

  /** The outgoing datagram: one destination, the reply as data, and its checksum. */
  method NewReply(dest: byte, data: array<byte>, len: nat) returns (dt: CanDatagram)
    requires 1 <= len <= data.Length && len < 0x1_0000_0000
    ensures fresh(dt) && fresh(dt.address) && dt.data == data
    ensures dt.dstLen == 1 <= dt.address.Length && dt.dataLen == len <= dt.data.Length
    ensures Writable(dt.Sent()) && WireOf(dt.Sent()) == Encode(ReplyDatagram(dest, data[..len]))
    ensures Coherent(dt.Sent(), dt.WriterView()) && Position(dt.Sent(), dt.WriterView()) == 0
  {
    hide Crc32.Checksum, Covered;
    var destNodes := new byte[1];
    dt := new CanDatagram(destNodes, data, len);
    destNodes[0] := dest;
    dt.dstLen := 1;
    dt.dataLen := len;
    dt.crc := dt.ComputeCrc();
    assert destNodes[..1] == [dest];
  }

  lemma ReplyFramesEmpty(s: seq<byte>, source: byte)
    ensures 0 < |s| ==> FrameCount(|s|) >= 1 && ReplyFrames(s, source, 0) == []
  {
  }

  lemma ReplyFramesSnoc(s: seq<byte>, source: byte, k: nat)
    requires k < FrameCount(|s|) && 0 < |s|
    ensures 8 * k < |s|
    ensures ReplyFrames(s, source, k) + [Frame(if k == 0 then WithStart(source) else source, SliceAt(s, k), false)]
         == ReplyFrames(s, source, k + 1)
  {
  }

  /** One call of the writer with an eight-byte buffer: the payload of frame `k`, if there is one. */
  method NextFrame(dt: CanDatagram, buf: array<byte>, ghost f: Fields, ghost s: seq<byte>, ghost k: nat) returns (dlc: nat)
    requires dt.dstLen <= dt.address.Length && dt.dataLen <= dt.data.Length
    requires dt.Sent() == f && Writable(f) && WireOf(f) == s && Coherent(f, dt.WriterView())
    requires Position(f, dt.WriterView()) == Min(8 * k, |s|) && k <= FrameCount(|s|) && 0 < |s|
    requires buf.Length == 8 && buf != dt.address && buf != dt.data
    modifies buf, dt`writerPhase, dt`crcWritten, dt`lenWritten, dt`dstWritten, dt`dataWritten
    ensures Coherent(f, dt.WriterView())
    ensures dlc == 0 <==> k == FrameCount(|s|)
    ensures dlc > 0 ==> 8 * k < |s| && dlc <= 8 && buf[..dlc] == SliceAt(s, k)
    ensures Position(f, dt.WriterView()) == Min(8 * k + 8, |s|)
  {
    hide WireOf, Output, Coherent, Position, Writable;
    OutputIsSlice(f, dt.WriterView(), 8);
    dlc := dt.OutputBytes(buf);
  }

  lemma {:induction false} SuccessesIs(link: nat -> bool, n: nat, k: nat)
    requires k <= n && (forall i :: 0 <= i < k ==> link(i)) && (k < n ==> !link(k))
    ensures Successes(link, n) == k
  {
  }

  // ----- what the client makes of it -----

  lemma EncodedLength(dest: byte, data: seq<byte>)
    requires |data| < 0x1_0000_0000
    ensures |Encode(ReplyDatagram(dest, data))| == 11 + |data|
  {
  }

  /** The bound lets whole replies of up to 789 bytes through, and no longer ones. */
  lemma WholeReplyFits(dest: byte, data: seq<byte>)
    requires |data| < 0x1_0000_0000
    ensures FrameCount(|Encode(ReplyDatagram(dest, data))|) <= TRANSMISSION_COUNT <==> |data| <= 789
  {
    EncodedLength(dest, data);
  }

  /** The node's framing is the client's framing, for node identifiers as the protocol assigns them. */
  lemma ReplyFramesAreFrames(s: seq<byte>, source: byte)
    requires 0 < |s| && source < 0x80
    ensures ReplyFrames(s, source, FrameCount(|s|)) == Frames(s, source)
  {
    FrameAt(s, true, source, 0);
    forall k: nat | k < FrameCount(|s|)
      ensures ReplyFrames(s, source, FrameCount(|s|))[k] == Frames(s, source)[k]
    {
      FrameAt(s, true, source, k);
    }
  }

  /** Reply path: over a working link the client, with any buffer contents and any interleaved timeouts, gets
      exactly the reply if it has at most 789 bytes, and nothing from this node if it is longer. */
  lemma ReplyReachesClient(source: byte, dest: byte, data: seq<byte>, buf: Reassembly.Buffers, events: seq<Reassembly.Event>)
    requires source < 0x80 && |data| < 0x1_0000_0000
    requires
      var s := Encode(ReplyDatagram(dest, data));
      var sent := ReplyFrames(s, source, Min(TRANSMISSION_COUNT, FrameCount(|s|)));
      forall id: nat :: Reassembly.Projection(events, id) == if id == source then sent else []
    ensures
      var trace := Reassembly.Run({}, buf, events);
      && !trace.raised
      && Reassembly.From(trace.output, source) == (if |data| <= 789 then [ReplyDatagram(dest, data)] else [])
      && forall id: nat | id != source :: Reassembly.From(trace.output, id) == []
  {
    var d := ReplyDatagram(dest, data);
    var s := Encode(d);
    EncodedLength(dest, data);
    hide Encode, FrameCount;
    WholeReplyFits(dest, data);
    ReplyFramesAreFrames(s, source);
    var n := Min(TRANSMISSION_COUNT, FrameCount(|s|));
    if |data| <= 789 {
      Reassembly.LaneOfStream(Reassembly.Part(buf, source), [d], source);
      assert Reassembly.Stream([d], source) == Frames(s, source) + [] == Frames(s, source);
    } else {
      PrefixYieldsNothing(Reassembly.Part(buf, source), d, source, 0, n);
      assert ReplyFrames(s, source, n) == Frames(s, source)[0..n];
    }
    Reassembly.RunIsLanes({}, buf, events);
  }

  /** A datagram cut off before its last frame is never handed out. */
  lemma {:induction false} PrefixYieldsNothing(part: seq<byte>, d: Datagram, source: nat, k: nat, n: nat)
    requires Encodable(d) && source < 0x80
    requires k <= n < |Frames(Encode(d), source)|
    requires k > 0 ==> 8 * k < |Encode(d)| && part == Encode(d)[..8 * k]
    ensures
      var lane := Reassembly.RunLane(part, Frames(Encode(d), source)[k..n]);
      lane.datagrams == [] && !lane.raised
    decreases n - k
  {
    hide Encode, Decode, Frames, Reassembly.Append;
    if k < n {
      var frames := Frames(Encode(d), source);
      Reassembly.FrameCollected(part, d, source, k);
      assert frames[k..n][0] == frames[k] && frames[k..n][1..] == frames[k + 1..n];
      PrefixYieldsNothing(Reassembly.Append(part, frames[k]), d, source, k + 1, n);
    }
  }
}
