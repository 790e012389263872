/** The node's receive loop: which frames it takes, when it executes a payload, and what it answers. */
module Node {
  import opened Bytes
  import opened Wrappers
  import opened Datagrams
  import opened CanDatagrams
  import Crc32
  import Reassembly

  const INPUT_BUFFER_SIZE := 32768
  const OUTPUT_BUFFER_SIZE := 8192
  const ADDRESS_BUFFER_SIZE := 128

  const ERROR_CORRUPT_DATAGRAM: byte := 2
  const ERROR_DATAGRAM_TIMEOUT: byte := 6

  type OutputBuffer = b: seq<byte> | |b| == OUTPUT_BUFFER_SIZE witness seq(OUTPUT_BUFFER_SIZE, _ => 0)

  /** What executing a payload leaves behind: the handler's result, the output buffer, and the node's
      identifier, which a configuration update may have changed. */
  datatype Outcome = Outcome(result: int, output: OutputBuffer, id: byte)

  /** `execute_datagram_commands` for a node with this identifier. */
  type Handler = (byte, seq<byte>) -> Outcome

  /** One iteration of the loop: the state of the two timers, and the frame received, if any. */
  datatype Poll = Poll(jumpDue: bool, datagramDue: bool, frame: Option<Frame>)

  /** `Replied` holds the arguments of `return_datagram`. */
  datatype Action = Jumped | Executed(payload: seq<byte>) | Replied(source: byte, dest: byte, data: seq<byte>)

  /** `fed` records the bytes given to the reader since it was last restarted. */
  datatype State = State(
    id: byte,
    reader: Reader,
    fed: seq<byte>,
    jumpEnabled: bool,
    waiting: bool,
    rebooted: bool,
    log: seq<Action>)

  predicate ForMe(id: byte, f: Frame) {
    f.id == START_OF_DATAGRAM_MASK || f.id == 0 || f.id == WithStart(id) || f.id == id
  }

  /** `return_error_datagram`: a one-byte MessagePack integer, sent to the client. */
  function Complaint(id: byte, code: byte): Action {
    Replied(id % START_OF_DATAGRAM_MASK, 0, [code])
  }

  function Restarted(n: State): State {
    n.(reader := Restart(n.reader), fed := [])
  }

  predicate Addressed(n: State)
    requires IsValid(n.reader)
  {
    n.id in Received(n.reader).destinations
  }

  /** The answer to an executed payload; the length is kept in a `uint8_t`, and zero counts as an error. */
  function Answer(o: Outcome, frameId: byte): (a: Action)
    ensures a.Replied?
  {
    var replyLength := o.result % 0x100;
    if replyLength > 0 then Replied(o.id, frameId % START_OF_DATAGRAM_MASK, o.output[..replyLength])
    else Complaint(o.id, 0)
  }

  function Execute(n: State, exec: Handler, payload: seq<byte>, frameId: byte): State {
    var o := exec(n.id, payload);
    n.(id := o.id, jumpEnabled := false, log := n.log + [Executed(payload), Answer(o, frameId)])
  }

  function Conclude(n: State, exec: Handler, frameId: byte): State {
    if IsValid(n.reader) then
      if Addressed(n) then Execute(n, exec, Received(n.reader).data, frameId) else n
    else n.(log := n.log + [Complaint(n.id, ERROR_CORRUPT_DATAGRAM)])
  }

  /** The state once the bytes of a frame have been given to the reader. */
  function Fed(n: State, f: Frame): State {
    var n1 := if IsStart(f.id) then Restarted(n).(waiting := true) else n;
    n1.(reader := InputAll(n1.reader, INPUT_BUFFER_SIZE, f.data), fed := n1.fed + f.data)
  }

  function TakeFrame(n: State, exec: Handler, f: Frame): State {
    if !ForMe(n.id, f) then n
    else
      var n1 := Fed(n, f);
      if IsComplete(n1.reader) || |f.data| < 8 then Restarted(Conclude(n1, exec, f.id % 0x100)).(waiting := false) else n1
  }

  function DatagramTimer(n: State, due: bool): State {
    if n.waiting && due then
      Restarted(n.(log := n.log + [Complaint(n.id, ERROR_DATAGRAM_TIMEOUT)], waiting := false))
    else n
  }

  function Step(n: State, exec: Handler, p: Poll): State {
    if n.rebooted then n
    else if n.jumpEnabled && p.jumpDue then n.(rebooted := true, log := n.log + [Jumped])
    else
      var n1 := DatagramTimer(n, p.datagramDue);
      if p.frame.None? then n1 else TakeFrame(n1, exec, p.frame.value)
  }

  function Run(n: State, exec: Handler, polls: seq<Poll>): State {
    if polls == [] then n else Step(Run(n, exec, polls[..|polls| - 1]), exec, polls[|polls| - 1])
  }

  // ----- replies and the length that holds them -----

  /** A reply goes out whole exactly when its length is 1 to 255: the length variable has eight bits. */
  lemma AnswerIsWhole(o: Outcome, frameId: byte)
    requires 0 <= o.result <= OUTPUT_BUFFER_SIZE
    ensures Answer(o, frameId) == Replied(o.id, frameId % START_OF_DATAGRAM_MASK, o.output[..o.result])
       <==> 1 <= o.result <= 255
  {
    assert o.result >= 256 ==> o.result % 0x100 != o.result;
  }

  /** So an error code, which a handler returns negated, is not reported: the node sends stale output bytes instead. */
  lemma ErrorCodeLost(o: Outcome, frameId: byte)
    requires -0x100 < o.result < 0
    ensures Answer(o, frameId) == Replied(o.id, frameId % START_OF_DATAGRAM_MASK, o.output[..0x100 + o.result])
  {
    assert o.result % 0x100 == 0x100 + o.result;
  }

  /** An empty reply, or one whose length is a multiple of 256, is taken for an error: a complaint with code 0. */
  lemma EmptyReply(o: Outcome, frameId: byte)
    requires o.result % 0x100 == 0
    ensures Answer(o, frameId) == Replied(o.id % 0x80, 0, [0])
  {
  }

  // ----- exactly-once execution -----

  predicate Quiet(p: Poll) {
    !p.jumpDue && !p.datagramDue
  }

  /** The frames a node with this identifier takes, in order of arrival. */
  function Accepted(id: byte, polls: seq<Poll>): seq<Frame> {
    if polls == [] then []
    else
      var p := polls[|polls| - 1];
      var before := Accepted(id, polls[..|polls| - 1]);
      if p.frame.Some? && ForMe(id, p.frame.value) then before + [p.frame.value] else before
  }

  /** The frames meant for a node: the client's, which is node 0, and those sent under the node's own identifier. */
  predicate Hears(id: byte, f: Frame) {
    f.id < 0x100 && (Reassembly.Source(f) == 0 || Reassembly.Source(f) == id || f.id == id)
  }

  /** The frames meant for a node among those on the bus, in order of arrival. */
  function Heard(id: byte, polls: seq<Poll>): seq<Frame> {
    if polls == [] then []
    else
      var p, before := polls[|polls| - 1], Heard(id, polls[..|polls| - 1]);
      if p.frame.Some? && Hears(id, p.frame.value) then before + [p.frame.value] else before
  }

  /** A node takes exactly the frames meant for it; for identifiers as the protocol assigns them, those with source 0 or its own. */
  lemma ForMeExactly(id: byte, f: Frame)
    ensures ForMe(id, f) <==> Hears(id, f)
    ensures id < 0x80 ==> (ForMe(id, f) <==> f.id < 0x100 && Reassembly.Source(f) in {0, id as nat})
  {
  }

  lemma {:induction false} AcceptedIsHeard(id: byte, polls: seq<Poll>)
    ensures Accepted(id, polls) == Heard(id, polls)
  {
    if polls != [] {
      AcceptedIsHeard(id, polls[..|polls| - 1]);
      if polls[|polls| - 1].frame.Some? {
        ForMeExactly(id, polls[|polls| - 1].frame.value);
      }
    }
  }

  /** No frame of the client's is missed by any node. */
  lemma ClientHeard(id: byte, s: seq<byte>, k: nat)
    requires k < |Frames(s, 0)|
    ensures ForMe(id, Frames(s, 0)[k])
  {
    FrameAt(s, true, 0, k);
  }

  predicate Sendable(d: Datagram) {
    1 <= |d.destinations| <= ADDRESS_BUFFER_SIZE && 1 <= |d.data| <= INPUT_BUFFER_SIZE
  }

  /** A datagram as it arrives, with whatever version and checksum its header carries. */
  datatype Message = Message(version: byte, crc: u32, datagram: Datagram)

  function Image(msg: Message): seq<byte>
    requires Sendable(msg.datagram)
  {
    Wire(msg.version, msg.crc, msg.datagram.destinations, |msg.datagram.data|, msg.datagram.data)
  }

  predicate Intact(msg: Message)
    requires Sendable(msg.datagram)
  {
    msg.version == VERSION && msg.crc == Crc32.Checksum(Covered(msg.datagram))
  }

  /** The node in the middle of a datagram: `k` of its frames taken, nothing else changed. */
  predicate Midway(n: State, n': State, msg: Message, k: nat)
    requires Sendable(msg.datagram)
  {
    if k == 0 then n' == n
    else
      && 8 * k < |Image(msg)|
      && n' == n.(reader := InputAll(Restart(n.reader), INPUT_BUFFER_SIZE, Image(msg)[..8 * k]),
                  fed := Image(msg)[..8 * k],
                  waiting := true)
  }

  lemma ReaderOfDatagram(r: Reader, msg: Message, k: nat)
    requires Sendable(msg.datagram) && k <= |Image(msg)|
    ensures
      var r' := InputAll(Restart(r), INPUT_BUFFER_SIZE, Image(msg)[..k]);
      && (IsComplete(r') <==> k == |Image(msg)|)
      && (IsComplete(r') ==> (IsValid(r') <==> Intact(msg)) && Fits(r') && Received(r') == msg.datagram)
  {
    hide InputAll, Crc32.Checksum, Covered;
    var d, w := msg.datagram, Image(msg);
    assert w + [] == w;
    ReaderRestart(r, INPUT_BUFFER_SIZE, msg.version, msg.crc, d.destinations, d.data, [], k);
    assert d.destinations[..|d.destinations|] == d.destinations && d.data[..|d.data|] == d.data;
  }

  lemma FramePayload(s: seq<byte>, source: nat, k: nat)
    requires k < |Frames(s, source)| && source < 0x80
    ensures
      var f := Frames(s, source)[k];
      var end := if k + 1 < |Frames(s, source)| then 8 * (k + 1) else |s|;
      && 8 * k <= end <= |s| && s[..8 * k] + f.data == s[..end]
      && IsStart(f.id) == (k == 0)
      && (k + 1 < |Frames(s, source)| ==> |f.data| == 8 && end < |s|)
  {
    FrameAt(s, true, source, k);
  }

  /** Taking frame `k` of a datagram, the first `k` having been taken. */
  lemma FedMidway(n: State, n': State, msg: Message, source: nat, k: nat)
    requires Sendable(msg.datagram) && k < |Frames(Image(msg), source)| && source < 0x80
    requires Midway(n, n', msg, k)
    ensures
      var f := Frames(Image(msg), source)[k];
      var end := if k + 1 < |Frames(Image(msg), source)| then 8 * (k + 1) else |Image(msg)|;
      && end <= |Image(msg)|
      && Fed(n', f) == n.(reader := InputAll(Restart(n.reader), INPUT_BUFFER_SIZE, Image(msg)[..end]),
                          fed := Image(msg)[..end],
                          waiting := true)
      && (k + 1 < |Frames(Image(msg), source)| ==> |f.data| == 8 && end < |Image(msg)|)
  {
    var s := Image(msg);
    hide Image, InputAll, Restart, Frames, IsStart;
    FramePayload(s, source, k);
    var f := Frames(s, source)[k];
    if k > 0 {
      InputAllConcat(Restart(n.reader), INPUT_BUFFER_SIZE, s[..8 * k], f.data);
    }
  }

  lemma TakeMiddleFrame(n: State, n': State, exec: Handler, msg: Message, source: nat, k: nat)
    requires Sendable(msg.datagram) && k + 1 < |Frames(Image(msg), source)| && source < 0x80
    requires Midway(n, n', msg, k)
    requires ForMe(n.id, Frames(Image(msg), source)[k])
    ensures Midway(n, TakeFrame(n', exec, Frames(Image(msg), source)[k]), msg, k + 1)
  {
    hide Image, Frames, InputAll, Restart, Fed, Conclude, ForMe;
    FedMidway(n, n', msg, source, k);
    ReaderOfDatagram(n.reader, msg, 8 * (k + 1));
  }

  /** What the end of a datagram brings about: a complaint if it is damaged, and otherwise its execution if it lists the node. */
  function Response(n: State, exec: Handler, msg: Message, frameId: byte): seq<Action>
    requires Sendable(msg.datagram)
  {
    if !Intact(msg) then [Complaint(n.id, ERROR_CORRUPT_DATAGRAM)]
    else if n.id !in msg.datagram.destinations then []
    else [Executed(msg.datagram.data), Answer(exec(n.id, msg.datagram.data), frameId)]
  }

  lemma TakeLastFrame(n: State, n': State, exec: Handler, msg: Message, source: nat)
    requires Sendable(msg.datagram) && source < 0x80
    requires
      var k := |Frames(Image(msg), source)| - 1;
      k >= 0 && Midway(n, n', msg, k) && ForMe(n.id, Frames(Image(msg), source)[k])
    ensures
      var f := Frames(Image(msg), source)[|Frames(Image(msg), source)| - 1];
      var n'' := TakeFrame(n', exec, f);
      && n''.log == n.log + Response(n, exec, msg, f.id % 0x100)
      && n''.id == (if Intact(msg) && n.id in msg.datagram.destinations then exec(n.id, msg.datagram.data).id else n.id)
      && n''.reader == Restart(n''.reader) && n''.fed == [] && !n''.waiting && n''.rebooted == n.rebooted
  {
    hide Image, Frames, InputAll, Fed, ForMe, IsValid, Answer, Complaint, Intact;
    FedMidway(n, n', msg, source, |Frames(Image(msg), source)| - 1);
    ReaderOfDatagram(n.reader, msg, |Image(msg)|);
    assert Image(msg)[..|Image(msg)|] == Image(msg);
  }

  lemma QuietStep(n: State, exec: Handler, p: Poll)
    requires !n.rebooted && Quiet(p)
    ensures Step(n, exec, p) == if p.frame.None? then n else TakeFrame(n, exec, p.frame.value)
  {
    hide TakeFrame;
  }

  /** Before its last frame a datagram has no visible effect, whatever other frames come in between. */
  lemma {:induction false} NoEffectBeforeLastFrame(n: State, exec: Handler, msg: Message, source: nat, polls: seq<Poll>, k: nat)
    requires !n.rebooted && Sendable(msg.datagram) && source < 0x80
    requires forall p | p in polls :: Quiet(p)
    requires k < |Frames(Image(msg), source)| && Accepted(n.id, polls) == Frames(Image(msg), source)[..k]
    ensures Midway(n, Run(n, exec, polls), msg, k)
    decreases |polls|
  {
    if polls != [] {
      hide Image, Frames, InputAll, ForMe, Step;
      var frames := Frames(Image(msg), source);
      var p, before := polls[|polls| - 1], polls[..|polls| - 1];
      var n' := Run(n, exec, before);
      if p.frame.Some? && ForMe(n.id, p.frame.value) {
        assert frames[..k][..k - 1] == frames[..k - 1];
        assert Accepted(n.id, before) == frames[..k - 1] && p.frame.value == frames[k - 1];
        NoEffectBeforeLastFrame(n, exec, msg, source, before, k - 1);
        TakeMiddleFrame(n, n', exec, msg, source, k - 1);
      } else {
        NoEffectBeforeLastFrame(n, exec, msg, source, before, k);
      }
      QuietStep(n', exec, p);
    }
  }

  /** From any state, the frames of a datagram, interleaved with any frames for other nodes, bring about its response once, on
      the last frame, and nothing before; the reader is left restarted. */
  lemma DatagramOutcome(n: State, exec: Handler, msg: Message, source: nat, polls: seq<Poll>, last: Poll)
    requires !n.rebooted && Sendable(msg.datagram) && source < 0x80
    requires forall p | p in polls :: Quiet(p)
    requires Quiet(last)
    requires Heard(n.id, polls + [last]) == Frames(Image(msg), source)
    requires last.frame.Some? && Hears(n.id, last.frame.value)
    ensures forall m: nat | m <= |polls| :: Run(n, exec, polls[..m]).log == n.log
    ensures
      var n' := Run(n, exec, polls + [last]);
      && n'.log == n.log + Response(n, exec, msg, last.frame.value.id % 0x100)
      && n'.id == (if Intact(msg) && n.id in msg.datagram.destinations then exec(n.id, msg.datagram.data).id else n.id)
      && n'.reader == Restart(n'.reader) && n'.fed == [] && !n'.waiting && !n'.rebooted
  {
    AcceptedIsHeard(n.id, polls + [last]);
    ForMeExactly(n.id, last.frame.value);
    hide Image, Frames, InputAll, ForMe, Step, TakeFrame, Midway, Answer, Response, Intact;
    var frames := Frames(Image(msg), source);
    var k := |frames| - 1;
    var all := polls + [last];
    assert all[..|all| - 1] == polls;
    assert Accepted(n.id, polls) == frames[..k] && last.frame.value == frames[k];
    forall m: nat | m <= |polls|
      ensures Run(n, exec, polls[..m]).log == n.log
    {
      var j := AcceptedPrefix(n.id, polls, m);
      assert frames[..k][..j] == frames[..j];
      NoEffectBeforeLastFrame(n, exec, msg, source, polls[..m], j);
      MidwayUnchanged(n, Run(n, exec, polls[..m]), msg, j);
    }
    NoEffectBeforeLastFrame(n, exec, msg, source, polls, k);
    var n' := Run(n, exec, polls);
    MidwayUnchanged(n, n', msg, k);
    QuietStep(n', exec, last);
    TakeLastFrame(n, n', exec, msg, source);
  }

  /** Exactly-once execution: the client's frames for a datagram make the node execute the payload once, on the last frame,
      if and only if the node is listed. */
  lemma ExactlyOnce(n: State, exec: Handler, d: Datagram, source: nat, polls: seq<Poll>, last: Poll)
    requires !n.rebooted && Sendable(d) && source < 0x80
    requires forall p | p in polls :: Quiet(p)
    requires Quiet(last)
    requires Heard(n.id, polls + [last]) == Frames(Encode(d), source)
    requires last.frame.Some? && Hears(n.id, last.frame.value)
    ensures forall m: nat | m <= |polls| :: Run(n, exec, polls[..m]).log == n.log
    ensures
      var n' := Run(n, exec, polls + [last]);
      && n'.log == n.log + (if n.id in d.destinations
                            then [Executed(d.data), Answer(exec(n.id, d.data), last.frame.value.id % 0x100)] else [])
      && n'.id == (if n.id in d.destinations then exec(n.id, d.data).id else n.id)
      && n'.reader == Restart(n'.reader) && n'.fed == [] && !n'.waiting && !n'.rebooted
  {
    hide Run, Frames, Hears, Answer, Crc32.Checksum, Covered, Wire, Heard;
    var msg := Message(VERSION, Crc32.Checksum(Covered(d)), d);
    assert Image(msg) == Encode(d);
    DatagramOutcome(n, exec, msg, source, polls, last);
  }

  /** A datagram with up to four consecutive data bytes changed on the way is not executed by anyone, and answered once. */
  lemma DamagedNotExecuted(n: State, exec: Handler, destinations: seq<byte>, pre: seq<byte>, sent: seq<byte>, got: seq<byte>,
                           post: seq<byte>, source: nat, polls: seq<Poll>, last: Poll)
    requires !n.rebooted && source < 0x80 && |sent| == |got| <= 4 && sent != got
    requires Sendable(Datagram(destinations, pre + sent + post)) && Sendable(Datagram(destinations, pre + got + post))
    requires forall p | p in polls :: Quiet(p)
    requires Quiet(last)
    requires
      var crc := Crc32.Checksum(Covered(Datagram(destinations, pre + sent + post)));
      Heard(n.id, polls + [last]) == Frames(Image(Message(VERSION, crc, Datagram(destinations, pre + got + post))), source)
    requires last.frame.Some? && Hears(n.id, last.frame.value)
    ensures Run(n, exec, polls + [last]).log == n.log + [Replied(n.id % 0x80, 0, [2])]
  {
    hide Run, Frames, Hears, Crc32.Checksum, Covered, Image, Heard, Answer, Complaint;
    DamageChangesChecksum(destinations, pre, sent, got, post);
    var crc := Crc32.Checksum(Covered(Datagram(destinations, pre + sent + post)));
    DatagramOutcome(n, exec, Message(VERSION, crc, Datagram(destinations, pre + got + post)), source, polls, last);
    ComplaintIs(n.id, ERROR_CORRUPT_DATAGRAM);
  }

  /** A complaint is a one-byte code for the client. */
  lemma ComplaintIs(id: byte, code: byte)
    ensures Complaint(id, code) == Replied(id % 0x80, 0, [code])
  {
  }

  lemma MidwayUnchanged(n: State, n': State, msg: Message, k: nat)
    requires Sendable(msg.datagram) && Midway(n, n', msg, k)
    ensures n'.log == n.log && n'.id == n.id && n'.rebooted == n.rebooted
  {
  }

  lemma {:induction false} AcceptedPrefix(id: byte, polls: seq<Poll>, m: nat) returns (j: nat)
    requires m <= |polls|
    ensures j <= |Accepted(id, polls)| && Accepted(id, polls[..m]) == Accepted(id, polls)[..j]
    decreases |polls|
  {
    if m == |polls| {
      j := |Accepted(id, polls)|;
      assert polls[..m] == polls;
    } else {
      j := AcceptedPrefix(id, polls[..|polls| - 1], m);
      assert polls[..|polls| - 1][..m] == polls[..m];
    }
  }

  // ----- datagrams that do not arrive whole -----

  /** The frames of a part of the bytes are those of all of them, but for the length of the last one. */
  lemma FramesOfPrefix(s: seq<byte>, m: nat, source: nat)
    requires 0 < m < |s| && source < 0x80
    ensures
      var k := FrameCount(m) - 1;
      && |Frames(s[..m], source)| == k + 1 <= |Frames(s, source)| && 8 * k < m
      && Frames(s[..m], source)[..k] == Frames(s, source)[..k]
      && (m % 8 == 0 ==> Frames(s[..m], source) == Frames(s, source)[..k + 1] && k + 1 < |Frames(s, source)|)
      && Frames(s[..m], source)[k].data == s[8 * k..m]
      && IsStart(Frames(s[..m], source)[k].id) == (k == 0)
      && 8 * k < m <= 8 * k + 8
  {
    var k := FrameCount(m) - 1;
    FrameAt(s[..m], true, source, k);
    FrameAt(s, true, source, k);
    forall i | 0 <= i < k
      ensures Frames(s[..m], source)[i] == Frames(s, source)[i]
    {
      FrameAt(s[..m], true, source, i);
      FrameAt(s, true, source, i);
    }
    assert Frames(s[..m], source)[k].data == s[..m][8 * k..];
    if m % 8 == 0 {
      assert Frames(s[..m], source) == Frames(s[..m], source)[..k] + [Frames(s[..m], source)[k]];
    }
  }

  /** A datagram that is cut short brings a complaint with its last frame, and is forgotten, exactly if that frame is short;
      otherwise the node goes on waiting. */
  lemma CutShort(n: State, exec: Handler, msg: Message, m: nat, source: nat, polls: seq<Poll>, last: Poll)
    requires !n.rebooted && Sendable(msg.datagram) && source < 0x80 && 0 < m < |Image(msg)|
    requires forall p | p in polls :: Quiet(p)
    requires Quiet(last) && last.frame.Some? && Hears(n.id, last.frame.value)
    requires Heard(n.id, polls + [last]) == Frames(Image(msg)[..m], source)
    ensures
      var n' := Run(n, exec, polls + [last]);
      && n'.id == n.id && !n'.rebooted
      && n'.log == (if m % 8 == 0 then n.log else n.log + [Replied(n.id % 0x80, 0, [2])])
      && n'.waiting == (m % 8 == 0)
      && (m % 8 != 0 ==> n'.reader == Restart(n'.reader) && n'.fed == [])
  {
    AcceptedIsHeard(n.id, polls + [last]);
    ForMeExactly(n.id, last.frame.value);
    FramesOfPrefix(Image(msg), m, source);
    hide Image, Frames, InputAll, ForMe, Hears, Heard, Run, FrameCount, Restart, Accepted, IsStart;
    if m % 8 == 0 {
      CutBetweenFrames(n, exec, msg, source, polls + [last], FrameCount(m));
    } else {
      CutInsideFrame(n, exec, msg, Frames(Image(msg)[..m], source), FrameCount(m) - 1, m, source, polls, last);
    }
  }

  lemma CutBetweenFrames(n: State, exec: Handler, msg: Message, source: nat, polls: seq<Poll>, k: nat)
    requires !n.rebooted && Sendable(msg.datagram) && source < 0x80
    requires forall p | p in polls :: Quiet(p)
    requires 0 < k < |Frames(Image(msg), source)| && Accepted(n.id, polls) == Frames(Image(msg), source)[..k]
    ensures var n' := Run(n, exec, polls); n'.log == n.log && n'.id == n.id && !n'.rebooted && n'.waiting
  {
    hide Image, Frames, Run, Accepted;
    NoEffectBeforeLastFrame(n, exec, msg, source, polls, k);
    StillWaiting(n, Run(n, exec, polls), msg, k);
  }

  lemma CutInsideFrame(n: State, exec: Handler, msg: Message, frames: seq<Frame>, k: nat, m: nat, source: nat,
                       polls: seq<Poll>, last: Poll)
    requires !n.rebooted && Sendable(msg.datagram) && source < 0x80
    requires forall p | p in polls :: Quiet(p)
    requires Quiet(last) && last.frame.Some? && ForMe(n.id, last.frame.value)
    requires k < |Frames(Image(msg), source)| && 8 * k < m < 8 * k + 8 && m < |Image(msg)|
    requires Accepted(n.id, polls + [last]) == frames && |frames| == k + 1 && frames[..k] == Frames(Image(msg), source)[..k]
    requires frames[k].data == Image(msg)[8 * k..m] && IsStart(frames[k].id) == (k == 0)
    ensures
      var n' := Run(n, exec, polls + [last]);
      && n'.id == n.id && !n'.rebooted && !n'.waiting && n'.reader == Restart(n'.reader) && n'.fed == []
      && n'.log == n.log + [Replied(n.id % 0x80, 0, [2])]
  {
    hide Image, Frames, ForMe, Step, TakeFrame, Midway, Restart, IsStart;
    var all := polls + [last];
    assert all[..|all| - 1] == polls;
    var n' := Run(n, exec, polls);
    NoEffectBeforeLastFrame(n, exec, msg, source, polls, k);
    MidwayUnchanged(n, n', msg, k);
    QuietStep(n', exec, last);
    TakeShortFrame(n, n', exec, msg, k, m, last.frame.value);
  }

  lemma StillWaiting(n: State, n': State, msg: Message, k: nat)
    requires Sendable(msg.datagram) && 0 < k && Midway(n, n', msg, k)
    ensures n'.log == n.log && n'.id == n.id && n'.rebooted == n.rebooted && n'.waiting
  {
  }

  lemma TakeShortFrame(n: State, n': State, exec: Handler, msg: Message, k: nat, m: nat, f: Frame)
    requires Sendable(msg.datagram) && 8 * k < m < 8 * k + 8 && m < |Image(msg)|
    requires Midway(n, n', msg, k) && ForMe(n.id, f)
    requires f.data == Image(msg)[8 * k..m] && IsStart(f.id) == (k == 0)
    ensures
      var n'' := TakeFrame(n', exec, f);
      && n''.log == n.log + [Replied(n.id % 0x80, 0, [2])]
      && n''.id == n.id && n''.rebooted == n.rebooted && !n''.waiting && n''.reader == Restart(n''.reader) && n''.fed == []
  {
    MidwayUnchanged(n, n', msg, k);
    FedPart(n, n', msg, k, f, m);
    ReaderOfDatagram(n.reader, msg, m);
    hide Image, InputAll, IsStart, Fed, ForMe, Midway;
    ShortFrameConcludes(n', exec, f);
  }

  lemma ShortFrameConcludes(n: State, exec: Handler, f: Frame)
    requires ForMe(n.id, f) && |f.data| < 8 && !IsComplete(Fed(n, f).reader) && Fed(n, f).id == n.id
    ensures
      var n2 := Fed(n, f);
      var reader := Restart(n2.reader);
      TakeFrame(n, exec, f)
      == n2.(log := n2.log + [Replied(n.id % 0x80, 0, [2])], reader := reader, fed := [], waiting := false)
      && reader == Restart(reader)
  {
    hide Fed, ForMe;
    RestartTwice(Fed(n, f).reader);
  }

  lemma FedPart(n: State, n': State, msg: Message, k: nat, f: Frame, m: nat)
    requires Sendable(msg.datagram) && Midway(n, n', msg, k) && 8 * k <= m <= |Image(msg)|
    requires f.data == Image(msg)[8 * k..m] && IsStart(f.id) == (k == 0)
    ensures Fed(n', f) == n.(reader := InputAll(Restart(n.reader), INPUT_BUFFER_SIZE, Image(msg)[..m]),
                             fed := Image(msg)[..m],
                             waiting := true)
  {
    var s := Image(msg);
    hide Image, InputAll, Restart, IsStart;
    assert s[..8 * k] + s[8 * k..m] == s[..m];
    if k > 0 {
      InputAllConcat(Restart(n.reader), INPUT_BUFFER_SIZE, s[..8 * k], f.data);
    }
  }

  lemma RestartTwice(r: Reader)
    ensures Restart(Restart(r)) == Restart(r)
  {
  }

  /** A datagram that stops coming is complained about once the timer runs out, and forgotten; nothing happens without one. */
  lemma TimeoutComplains(n: State, exec: Handler, msg: Message, source: nat, polls: seq<Poll>, k: nat)
    requires !n.rebooted && Sendable(msg.datagram) && source < 0x80
    requires forall p | p in polls :: Quiet(p)
    requires k < |Frames(Image(msg), source)| && Heard(n.id, polls) == Frames(Image(msg), source)[..k]
    ensures
      var n' := Run(n, exec, polls + [Poll(false, true, None)]);
      && n'.id == n.id && !n'.rebooted && !n'.waiting && n'.jumpEnabled == n.jumpEnabled
      && (k > 0 || n.waiting ==>
            n'.log == n.log + [Replied(n.id % 0x80, 0, [6])] && n'.reader == Restart(n'.reader) && n'.fed == [])
      && (k == 0 && !n.waiting ==> n' == n)
  {
    var due := Poll(false, true, None);
    var all := polls + [due];
    AcceptedIsHeard(n.id, polls);
    hide Frames, InputAll, ForMe, Hears, TakeFrame, Image;
    assert all[..|all| - 1] == polls;
    NoEffectBeforeLastFrame(n, exec, msg, source, polls, k);
    RestartTwice(Run(n, exec, polls).reader);
    hide Restart;
  }

  // ----- the jump at the end of the bootloader's time -----

  /** Some payload has been executed since the log had this length. */
  ghost predicate ExecutedSince(log: seq<Action>, since: nat) {
    exists i :: since <= i < |log| && log[i].Executed?
  }

  lemma StepJump(n: State, exec: Handler, p: Poll, since: nat)
    requires !n.rebooted && since <= |n.log| && n.jumpEnabled == !ExecutedSince(n.log, since)
    ensures
      var n' := Step(n, exec, p);
      && since <= |n'.log|
      && n'.rebooted == (n.jumpEnabled && p.jumpDue)
      && (n'.rebooted ==> n' == n.(rebooted := true, log := n.log + [Jumped]))
      && (!n'.rebooted ==> n'.jumpEnabled == !ExecutedSince(n'.log, since))
  {
    hide InputAll, Restart, ForMe, Answer, Crc32.Checksum, Covered;
    if !(n.jumpEnabled && p.jumpDue) {
      var n1 := DatagramTimer(n, p.datagramDue);
      TimerLog(n, p.datagramDue);
      assert n1.jumpEnabled == n.jumpEnabled && !n1.rebooted;
      assert ExecutedSince(n1.log, since) == ExecutedSince(n.log, since) by {
        NoExecution(n.log, n1.log, since);
      }
      if p.frame.Some? {
        TakeFrameJump(n1, exec, p.frame.value, since);
      }
    }
  }

  lemma NoExecution(log: seq<Action>, log': seq<Action>, since: nat)
    requires since <= |log| && (log' == log || exists a: Action :: !a.Executed? && log' == log + [a])
    ensures ExecutedSince(log', since) == ExecutedSince(log, since)
  {
    if ExecutedSince(log, since) {
      var i :| since <= i < |log| && log[i].Executed?;
      assert log'[i] == log[i];
    }
  }

  lemma TakeFrameJump(n: State, exec: Handler, f: Frame, since: nat)
    requires !n.rebooted && since <= |n.log| && n.jumpEnabled == !ExecutedSince(n.log, since)
    ensures
      var n' := TakeFrame(n, exec, f);
      !n'.rebooted && since <= |n'.log| && n'.jumpEnabled == !ExecutedSince(n'.log, since)
  {
    hide InputAll, Crc32.Checksum, Covered, Restart, ForMe, Answer, ExecutedSince;
    var n2 := Fed(n, f);
    assert n2.log == n.log && n2.jumpEnabled == n.jumpEnabled && !n2.rebooted;
    if IsValid(n2.reader) && Addressed(n2) {
      var payload := Received(n2.reader).data;
      var a := Answer(exec(n2.id, payload), f.id % 0x100);
      ExecutionSeen(n.log, payload, a, since);
    } else {
      NoExecution(n.log, Conclude(n2, exec, f.id % 0x100).log, since);
    }
  }

  lemma ExecutionSeen(log: seq<Action>, payload: seq<byte>, a: Action, since: nat)
    requires since <= |log|
    ensures ExecutedSince(log + [Executed(payload), a], since)
  {
    assert (log + [Executed(payload), a])[|log|].Executed?;
  }

  lemma RebootedStays(n: State, exec: Handler, polls: seq<Poll>)
    requires n.rebooted
    ensures Run(n, exec, polls) == n
    decreases |polls|
  {
    if polls != [] {
      RebootedStays(n, exec, polls[..|polls| - 1]);
    }
  }

  /** The node leaves for the application exactly if its time runs out before it has executed anything; it does nothing after. */
  lemma {:induction false} JumpsExactly(n: State, exec: Handler, polls: seq<Poll>)
    requires !n.rebooted && n.jumpEnabled
    ensures
      var n' := Run(n, exec, polls);
      && |n.log| <= |n'.log|
      && (n'.rebooted <==> exists i :: 0 <= i < |polls| && polls[i].jumpDue && !ExecutedSince(Run(n, exec, polls[..i]).log, |n.log|))
      && (n'.rebooted ==> n'.log != [] && n'.log[|n'.log| - 1] == Jumped && !ExecutedSince(n'.log, |n.log|))
      && (!n'.rebooted ==> n'.jumpEnabled == !ExecutedSince(n'.log, |n.log|))
  {
    hide ExecutedSince, Step;
    if polls == [] {
      NothingYet(n.log);
    } else {
      var before, p := polls[..|polls| - 1], polls[|polls| - 1];
      JumpsExactly(n, exec, before);
      assert forall i :: 0 <= i < |before| ==> before[..i] == polls[..i] && before[i] == polls[i];
      var n1 := Run(n, exec, before);
      if n1.rebooted {
        RebootedStays(n1, exec, [p]);
        assert [p][..0] == [];
        assert Run(n1, exec, [p]) == Step(n1, exec, p);
      } else {
        StepJump(n1, exec, p, |n.log|);
        if Step(n1, exec, p).rebooted {
          NoExecution(n1.log, n1.log + [Jumped], |n.log|);
        }
      }
    }
  }

  lemma NothingYet(log: seq<Action>)
    ensures !ExecutedSince(log, |log|)
  {
  }

  // ----- execution soundness -----

  /** The reader's state is accounted for by the bytes since its last restart. */
  ghost predicate Tracks(n: State) {
    exists r: Reader :: n.reader == InputAll(Restart(r), INPUT_BUFFER_SIZE, n.fed)
  }

  lemma RestartedTracks(n: State)
    ensures Tracks(Restarted(n))
  {
    assert Restarted(n).reader == InputAll(Restart(n.reader), INPUT_BUFFER_SIZE, []);
  }

  lemma FedTracks(n: State, f: Frame)
    requires Tracks(n)
    ensures Tracks(Fed(n, f))
  {
    var n1 := if IsStart(f.id) then Restarted(n) else n;
    RestartedTracks(n);
    var r: Reader :| n1.reader == InputAll(Restart(r), INPUT_BUFFER_SIZE, n1.fed);
    InputAllConcat(Restart(r), INPUT_BUFFER_SIZE, n1.fed, f.data);
    assert Fed(n, f).reader == InputAll(Restart(r), INPUT_BUFFER_SIZE, n1.fed + f.data);
  }

  lemma TimerTracks(n: State, due: bool)
    requires Tracks(n)
    ensures Tracks(DatagramTimer(n, due))
  {
    hide InputAll, Restart;
    RestartedTracks(n.(log := n.log + [Complaint(n.id, ERROR_DATAGRAM_TIMEOUT)], waiting := false));
  }

  lemma StepTracks(n: State, exec: Handler, p: Poll)
    requires Tracks(n)
    ensures Tracks(Step(n, exec, p))
  {
    hide InputAll, Restart;
    var n1 := DatagramTimer(n, p.datagramDue);
    TimerTracks(n, p.datagramDue);
    if p.frame.Some? {
      var f := p.frame.value;
      FedTracks(n1, f);
      RestartedTracks(Conclude(Fed(n1, f), exec, f.id % 0x100));
    }
  }

  lemma {:induction false} RunTracks(n: State, exec: Handler, polls: seq<Poll>)
    requires Tracks(n)
    ensures Tracks(Run(n, exec, polls))
  {
    if polls != [] {
      RunTracks(n, exec, polls[..|polls| - 1]);
      StepTracks(Run(n, exec, polls[..|polls| - 1]), exec, polls[|polls| - 1]);
    }
  }

  /** The bytes given to the reader since its last restart, once this poll's frame is in. */
  function SinceRestart(n: State, p: Poll): seq<byte>
    requires p.frame.Some?
  {
    Fed(DatagramTimer(n, p.datagramDue), p.frame.value).fed
  }

  lemma TimerLog(n: State, due: bool)
    ensures
      var n1 := DatagramTimer(n, due);
      n1.id == n.id && (n1.log == n.log || n1.log == n.log + [Complaint(n.id, ERROR_DATAGRAM_TIMEOUT)])
  {
    hide Restart;
  }

  /** What taking a frame adds to the log: nothing, a complaint, or the execution of the valid datagram it completes. */
  lemma TakeFrameLog(n: State, exec: Handler, f: Frame)
    ensures
      var n2, log := Fed(n, f), TakeFrame(n, exec, f).log;
      && n2.id == n.id
      && (|| log == n.log
          || log == n.log + [Complaint(n.id, ERROR_CORRUPT_DATAGRAM)]
          || (&& IsValid(n2.reader) && Addressed(n2)
              && exists a: Action :: a.Replied? && log == n.log + [Executed(Received(n2.reader).data), a]))
  {
    hide InputAll, Crc32.Checksum, Covered, Restart, ForMe, Answer;
    var n2 := Fed(n, f);
    assert n2.log == n.log;
    if IsValid(n2.reader) && Addressed(n2) {
      var a := Answer(exec(n2.id, Received(n2.reader).data), f.id % 0x100);
      assert Conclude(n2, exec, f.id % 0x100).log == n.log + [Executed(Received(n2.reader).data), a];
    }
  }

  /** A step executes a payload only if its frame completes a valid datagram that lists the node. */
  lemma StepExecutes(n: State, exec: Handler, p: Poll, payload: seq<byte>)
    requires |n.log| < |Step(n, exec, p).log| && Executed(payload) in Step(n, exec, p).log[|n.log|..]
    ensures p.frame.Some?
    ensures
      var n2 := Fed(DatagramTimer(n, p.datagramDue), p.frame.value);
      n2.id == n.id && IsValid(n2.reader) && Addressed(n2) && payload == Received(n2.reader).data
  {
    hide InputAll, IsValid, Restart, ForMe, Fed, TakeFrame, DatagramTimer;
    var n1 := DatagramTimer(n, p.datagramDue);
    TimerLog(n, p.datagramDue);
    assert p.frame.Some?;
    TakeFrameLog(n1, exec, p.frame.value);
  }

  /** Execution soundness: in every run, a payload is executed only if the bytes since the last restart begin with the
      encoding, version and checksum included, of a datagram with that payload whose destinations include the node. */
  lemma ExecutionSound(n0: State, exec: Handler, polls: seq<Poll>, p: Poll, payload: seq<byte>)
    requires Tracks(n0)
    requires
      var n := Run(n0, exec, polls);
      |n.log| < |Step(n, exec, p).log| && Executed(payload) in Step(n, exec, p).log[|n.log|..]
    ensures p.frame.Some?
    ensures exists dst ::
              && Run(n0, exec, polls).id in dst && Encodable(Datagram(dst, payload))
              && Encode(Datagram(dst, payload)) <= SinceRestart(Run(n0, exec, polls), p)
  {
    hide Run, InputAll, Encode, Fed, DatagramTimer, IsValid, Step;
    var n := Run(n0, exec, polls);
    RunTracks(n0, exec, polls);
    StepExecutes(n, exec, p, payload);
    var f := p.frame.value;
    var n1 := DatagramTimer(n, p.datagramDue);
    var n2 := Fed(n1, f);
    TimerTracks(n, p.datagramDue);
    FedTracks(n1, f);
    var r: Reader :| n2.reader == InputAll(Restart(r), INPUT_BUFFER_SIZE, n2.fed);
    ValidIsEncoding(r, n2.fed);
  }

  /** A valid restarted reader with a destination: the bytes begin with the encoding of what it received. */
  lemma ValidIsEncoding(r: Reader, s: seq<byte>)
    requires IsValid(InputAll(Restart(r), INPUT_BUFFER_SIZE, s))
    requires Received(InputAll(Restart(r), INPUT_BUFFER_SIZE, s)).destinations != []
    ensures
      var d := Received(InputAll(Restart(r), INPUT_BUFFER_SIZE, s));
      Encodable(d) && Encode(d) <= s
  {
    hide InputAll, Crc32.Checksum;
    CompleteIsWire(r, INPUT_BUFFER_SIZE, s);
  }
}
