/** One request and its answers, frame by frame: from the client's encoder through the node's receive loop to the board, and back
    through the node's framing to the client's reassembly. */
module RoundTrip {
  import opened Bytes
  import opened Wrappers
  import opened Datagrams
  import opened Commands
  import opened CommandWire
  import N = Network
  import Node
  import Replies
  import Reassembly
  import CanDatagrams
  import BoardRuns

  function Buffer(reply: seq<byte>): Node.OutputBuffer
    requires |reply| <= Node.OUTPUT_BUFFER_SIZE
  {
    reply + seq(Node.OUTPUT_BUFFER_SIZE - |reply|, _ => 0)
  }

  /** The command interpreter of a board, as the receive loop sees it; `otherwise` is what commands come to that are not modelled. */
  function Executor(b: Board, hw: N.Hardware, otherwise: Node.Outcome): Node.Handler
    requires BoardRuns.Proper(b.config)
  {
    (id: byte, payload: seq<byte>) =>
      match Dispatch(b, payload, hw)
      case Handled(r) => if |r.reply| <= Node.OUTPUT_BUFFER_SIZE then Node.Outcome(|r.reply|, Buffer(r.reply), r.board.config.id) else otherwise
      case Failed(error) => Node.Outcome(-(error as int), Buffer([]), b.config.id)
      case _ => otherwise
  }

  function RequestDatagram(r: N.Request, destinations: seq<byte>): Datagram
    requires CommandWire.Encodable(r)
  {
    Datagram(destinations, EncodeCommand(r))
  }

  /** A node with this identifier receives, among frames for other nodes and without a timeout, the frames of a request, the last
      one at last. */
  predicate Arrives(r: N.Request, destinations: seq<byte>, id: byte, polls: seq<Node.Poll>, last: Node.Poll)
    requires CommandWire.Encodable(r)
  {
    && Node.Sendable(RequestDatagram(r, destinations))
    && (forall p | p in polls :: Node.Quiet(p))
    && Node.Quiet(last) && last.frame.Some? && Node.Hears(id, last.frame.value)
    && Node.Heard(id, polls + [last]) == Frames(Encode(RequestDatagram(r, destinations)), 0)
  }

  /** The standard frames the client receives are these, in order, all from one node. */
  ghost predicate Receives(events: seq<Reassembly.Event>, source: nat, frames: seq<Frame>) {
    forall id: nat :: Reassembly.Projection(events, id) == if id == source then frames else []
  }

  /** What a command answers is a byte or two, and it leaves the board its identifier. */
  lemma ReplyIsShort(b: Board, r: N.Request, hw: N.Hardware)
    requires BoardRuns.Proper(b.config)
    ensures 1 <= |N.Perform(b, r, hw).reply| <= 2 && N.Perform(b, r, hw).board.config.id == b.config.id
  {
    hide EraseLoop, SavePage, ConfigUpdate, BoardRuns.Proper;
    match r
    case UpdateRequest(size, crc) => N.UpdateOnce(b, size, crc);
    case SaveRequest => BoardRuns.IncrementedStorable(b.config);
    case _ =>
  }

  /** The node's side: the frames of a request, among any frames for other nodes, make each listed node perform it once, on the
      last frame, and answer the client with the command's reply. */
  lemma RequestPerformed(b: Board, hw: N.Hardware, otherwise: Node.Outcome, r: N.Request, destinations: seq<byte>,
                         n: Node.State, polls: seq<Node.Poll>, last: Node.Poll)
    requires BoardRuns.Proper(b.config) && CommandWire.Encodable(r) && n.id == b.config.id && !n.rebooted
    requires Arrives(r, destinations, n.id, polls, last)
    ensures
      var exec := Executor(b, hw, otherwise);
      && Node.Run(n, exec, polls).log == n.log
      && Node.Run(n, exec, polls + [last]).log
         == n.log + (if n.id in destinations
                     then [Node.Executed(EncodeCommand(r)), Node.Replied(n.id, 0, N.Perform(b, r, hw).reply)] else [])
  {
    hide Node.Run, Node.Hears, Node.Heard, Encode, Frames, EncodeCommand, N.Perform, Dispatch, CommandWire.Encodable,
         BoardRuns.Proper, Node.Answer;
    var exec, d := Executor(b, hw, otherwise), RequestDatagram(r, destinations);
    Node.ExactlyOnce(n, exec, d, 0, polls, last);
    assert polls[..|polls|] == polls;
    DispatchEncoded(b, r, hw);
    ReplyIsShort(b, r, hw);
    LastFrameId(n.id, polls, last, Encode(d));
    WholeAnswer(N.Perform(b, r, hw).reply, n.id, last.frame.value.id % 0x100);
  }

  lemma WholeAnswer(reply: seq<byte>, id: byte, frameId: byte)
    requires 1 <= |reply| <= 255 && frameId % START_OF_DATAGRAM_MASK == 0
    ensures Node.Answer(Node.Outcome(|reply|, Buffer(reply), id), frameId) == Node.Replied(id, 0, reply)
  {
    assert Buffer(reply)[..|reply|] == reply;
  }

  /** The client sends as node 0. */
  lemma LastFrameId(id: byte, polls: seq<Node.Poll>, last: Node.Poll, s: seq<byte>)
    requires last.frame.Some? && Node.Hears(id, last.frame.value)
    requires Node.Heard(id, polls + [last]) == Frames(s, 0)
    ensures last.frame.value.id % 0x100 % START_OF_DATAGRAM_MASK == 0
  {
    var k := FrameCount(|s|) - 1;
    FrameAt(s, true, 0, k);
    assert (polls + [last])[..|polls|] == polls;
    assert Frames(s, 0)[k] == last.frame.value;
  }

  /** End to end on the wire. The frames of a request reach a listed node among frames for other nodes; its reply's frames reach
      the client among timeouts and extended frames, whatever either side has in its buffers. The client is handed exactly the
      reply of the board that has performed the request, once. */
  lemma RequestAnswered(b: Board, hw: N.Hardware, otherwise: Node.Outcome, r: N.Request, destinations: seq<byte>,
                        n: Node.State, polls: seq<Node.Poll>, last: Node.Poll,
                        buf: Reassembly.Buffers, events: seq<Reassembly.Event>)
    requires BoardRuns.Proper(b.config) && CommandWire.Encodable(r) && n.id == b.config.id < 0x80 && !n.rebooted
    requires Arrives(r, destinations, n.id, polls, last) && n.id in destinations
    requires Receives(events, n.id, SentFrames(Node.Run(n, Executor(b, hw, otherwise), polls + [last]).log))
    ensures
      var trace := Reassembly.Run({}, buf, events);
      && !trace.raised
      && Reassembly.From(trace.output, n.id) == [Datagram([0], N.Perform(b, r, hw).reply)]
      && forall id: nat | id != n.id :: Reassembly.From(trace.output, id) == []
  {
    hide Node.Run, Node.Hears, Node.Heard, Encode, Frames, EncodeCommand, N.Perform, Executor, CommandWire.Encodable,
         BoardRuns.Proper, Reassembly.Run, Reassembly.Projection, Reassembly.From, Replies.ReplyFrames;
    RequestPerformed(b, hw, otherwise, r, destinations, n, polls, last);
    ReplyIsShort(b, r, hw);
    var reply := N.Perform(b, r, hw).reply;
    Replies.ReplyReachesClient(n.id, 0, reply, buf, events);
  }

  /** The frames of the reply a node has last decided to send, up to the bound on transmissions. */
  function SentFrames(log: seq<Node.Action>): seq<Frame> {
    if log == [] || !log[|log| - 1].Replied? || |log[|log| - 1].data| >= 0x1_0000 then []
    else
      var reply := log[|log| - 1];
      var s := Encode(Replies.ReplyDatagram(reply.dest, reply.data));
      Replies.ReplyFrames(s, reply.source, CanDatagrams.Min(Replies.TRANSMISSION_COUNT, FrameCount(|s|)))
  }

  /** So one exchange on the wire is what the bus of the retry loop takes it for: the board is the one after a delivery, and what
      the client hears is a reply in the inbox. */
  lemma ExchangeIsDelivery(net: N.Net, hw: N.Hardware, otherwise: Node.Outcome, r: N.Request, destinations: seq<byte>, d: byte,
                           n: Node.State, polls: seq<Node.Poll>, last: Node.Poll,
                           buf: Reassembly.Buffers, events: seq<Reassembly.Event>)
    requires N.AllProper(net.boards) && BoardRuns.Proper(hw.restart)
    requires d in net.boards && d in net.pending && net.boards[d].config.id == d < 0x80
    requires CommandWire.Encodable(r) && n.id == d && !n.rebooted
    requires Arrives(r, destinations, d, polls, last) && d in destinations
    requires N.Perform(net.boards[d], r, hw).alive
    requires Receives(events, d, SentFrames(Node.Run(n, Executor(net.boards[d], hw, otherwise), polls + [last]).log))
    ensures
      var net', heard := N.DeliverTo(r, net, d, hw), Reassembly.From(Reassembly.Run({}, buf, events).output, d);
      && Dispatch(net.boards[d], EncodeCommand(r), hw) == Handled(N.Perform(net.boards[d], r, hw))
      && net'.boards[d] == N.Perform(net.boards[d], r, hw).board
      && |heard| == 1 && heard[0].destinations == [0] && (d, heard[0].data) in net'.inbox
  {
    hide Node.Run, Node.Hears, Node.Heard, Encode, Frames, EncodeCommand, N.Perform, Executor, CommandWire.Encodable,
         BoardRuns.Proper, Reassembly.Run, Receives, Reassembly.From, SentFrames, Dispatch, Arrives;
    RequestAnswered(net.boards[d], hw, otherwise, r, destinations, n, polls, last, buf, events);
    DispatchEncoded(net.boards[d], r, hw);
  }
}
