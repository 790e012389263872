/** The client's request to several boards over a bus that may lose any request or reply. */
module Network {
  import opened Bytes
  import opened Wrappers
  import opened Flash
  import opened Configuration
  import opened Commands
  import BoardRuns
  import ErasedCache
  import ConfigPages
  import MessagePack
  import Retry

  datatype Request =
    | EraseRequest(address: u32, deviceClass: seq<byte>)
    | WriteRequest(address: u32, deviceClass: seq<byte>, chunk: seq<byte>)
    | UpdateRequest(size: u32, crc: u32)
    | SaveRequest

  /** What a board's hardware makes of a command: of the attempts of an erase, of a write, of the two halves of a save; and the
      configuration it restarts with if power fails meanwhile. */
  datatype Hardware = Hardware(outcomes: nat -> Outcome, beyond: bool, write: Outcome, first: Attempt, second: Attempt, restart: Config)

  /** The map the client sends to set the application's size and checksum. */
  function UpdateEntries(size: u32, crc: u32): seq<Entry> {
    [ApplicationSize(size), ApplicationCrc(crc)]
  }

  function UpdateArguments(size: u32, crc: u32): seq<byte> {
    MessagePack.PutMap(2) + PutEntries(UpdateEntries(size, crc))
  }

  function Perform(b: Board, r: Request, hw: Hardware): Result
    requires BoardRuns.Proper(b.config)
  {
    match r
    case EraseRequest(address, deviceClass) => EraseFlashPage(b, address, deviceClass, hw.outcomes, hw.beyond)
    case WriteRequest(address, deviceClass, chunk) => WriteFlash(b, address, deviceClass, Some(chunk), hw.beyond, hw.write)
    case UpdateRequest(size, crc) => ConfigUpdate(b, UpdateArguments(size, crc), b.config)
    case SaveRequest =>
      BoardRuns.IncrementedStorable(b.config);
      ConfigSave(b, hw.first, hw.second)
  }

  /** The board after the command; if power failed it has restarted. */
  function BoardAfter(b: Board, r: Request, hw: Hardware): (b': Board)
    requires BoardRuns.Proper(b.config) && BoardRuns.Proper(hw.restart)
    ensures BoardRuns.Proper(b'.config)
  {
    var result := Perform(b, r, hw);
    PerformProper(b, r, hw);
    if result.alive then result.board else Board(Unflagged(result.board.flash.mem), hw.restart)
  }

  lemma PerformProper(b: Board, r: Request, hw: Hardware)
    requires BoardRuns.Proper(b.config)
    ensures BoardRuns.Proper(Perform(b, r, hw).board.config)
  {
    hide BoardRuns.Proper, EraseLoop, PageIsErased, PageWrite, SavePage, UpdateFromSerialized, SameClass;
    match r
    case UpdateRequest(size, crc) => BoardRuns.UpdateProper(b.config, UpdateArguments(size, crc));
    case SaveRequest => BoardRuns.IncrementedStorable(b.config);
    case _ =>
  }

  // ----- the bus -----

  /** `Deliver`: a pending request reaches a board, which performs it; its reply may be heard later, or never.
      `Complain`: a requested board answers that the datagram was corrupt or timed out, without performing it.
      `Hear`: the client receives a reply that was sent. `Silence`: its receive timeout expires. */
  datatype BusEvent =
    | Deliver(to: byte, hw: Hardware)
    | Complain(from: byte, code: byte)
    | Hear(from: byte, data: seq<byte>)
    | Silence

  /** `inbox`: the replies sent during this request; `pending`: the boards the last transmission may still reach. */
  datatype Net = Net(boards: map<byte, Board>, inbox: set<(byte, seq<byte>)>, pending: set<byte>, session: Retry.Session)

  predicate Complaint(code: byte) {
    code == 2 || code == 6
  }

  function Begin(boards: map<byte, Board>, destinations: seq<byte>): Net {
    Net(boards, {}, Retry.SetOf(destinations), Retry.Start(destinations))
  }

  predicate AllProper(boards: map<byte, Board>) {
    forall d :: d in boards ==> BoardRuns.Proper(boards[d].config)
  }

  function DeliverTo(r: Request, net: Net, to: byte, hw: Hardware): Net
    requires AllProper(net.boards)
  {
    if to !in net.pending || to !in net.boards || !BoardRuns.Proper(hw.restart) then net
    else
      var b := net.boards[to];
      var result := Perform(b, r, hw);
      Net(net.boards[to := BoardAfter(b, r, hw)],
          if result.alive then net.inbox + {(to, result.reply)} else net.inbox,
          net.pending - {to},
          net.session)
  }

  function NetStep(r: Request, destinations: seq<byte>, o: Retry.Options, net: Net, ev: BusEvent): Net
    requires AllProper(net.boards)
  {
    match ev
    case Deliver(to, hw) => DeliverTo(r, net, to, hw)
    case Complain(from, code) =>
      if from in Retry.SetOf(destinations) && Complaint(code) then net.(inbox := net.inbox + {(from, [code])}) else net
    case Hear(from, data) =>
      if (from, data) in net.inbox then
        net.(session := Retry.Step(o, destinations, net.session, Retry.Answer(from, data)))
      else net
    case Silence =>
      var session := Retry.Step(o, destinations, net.session, Retry.Silence);
      net.(session := session,
           pending := if |session.sent| > |net.session.sent| then session.sent[|session.sent| - 1] else net.pending)
  }

  function NetRun(r: Request, destinations: seq<byte>, o: Retry.Options, boards: map<byte, Board>, events: seq<BusEvent>): (net: Net)
    requires AllProper(boards)
    ensures AllProper(net.boards)
    decreases |events|
  {
    if events == [] then Begin(boards, destinations)
    else
      var net := NetRun(r, destinations, o, boards, events[..|events| - 1]);
      StepProper(r, destinations, o, net, events[|events| - 1]);
      NetStep(r, destinations, o, net, events[|events| - 1])
  }

  lemma StepProper(r: Request, destinations: seq<byte>, o: Retry.Options, net: Net, ev: BusEvent)
    requires AllProper(net.boards)
    ensures AllProper(NetStep(r, destinations, o, net, ev).boards)
  {
    hide BoardRuns.Proper, Perform, BoardAfter;
  }

  /** A retransmission goes to exactly the destinations still unanswered: each of them may perform the request then. */
  lemma Retransmitted(r: Request, destinations: seq<byte>, o: Retry.Options, boards: map<byte, Board>, events: seq<BusEvent>)
    requires AllProper(boards)
    ensures
      var net, net' := NetRun(r, destinations, o, boards, events), NetRun(r, destinations, o, boards, events + [Silence]);
      var unanswered := Retry.SetOf(destinations) - net.session.answers.Keys;
      && net'.boards == net.boards && net'.inbox == net.inbox
      && (net'.session.verdict == Retry.Waiting && unanswered != {} ==> net'.pending == unanswered)
      && (net'.session.verdict != Retry.Waiting || unanswered == {} ==> net'.pending == net.pending)
  {
    hide BoardRuns.Proper, DeliverTo;
    var all := events + [Silence];
    assert all[..|all| - 1] == events;
    var net := NetRun(r, destinations, o, boards, events);
    assert NetRun(r, destinations, o, boards, all) == NetStep(r, destinations, o, net, Silence);
    hide NetRun, Retry.SetOf;
  }

  /** The retry loop's own view of the run. */
  function ClientView(r: Request, destinations: seq<byte>, o: Retry.Options, boards: map<byte, Board>, events: seq<BusEvent>): seq<Retry.Event>
    requires AllProper(boards)
    decreases |events|
  {
    if events == [] then []
    else
      var before := events[..|events| - 1];
      var seen := ClientView(r, destinations, o, boards, before);
      match events[|events| - 1]
      case Hear(from, data) =>
        if (from, data) in NetRun(r, destinations, o, boards, before).inbox then seen + [Retry.Answer(from, data)] else seen
      case Silence => seen + [Retry.Silence]
      case _ => seen
  }

  /** Only requested boards answer, every answer is a reply sent during this request, and the session is the retry loop's. */
  lemma {:induction false} NetShape(r: Request, destinations: seq<byte>, o: Retry.Options, boards: map<byte, Board>, events: seq<BusEvent>)
    requires AllProper(boards)
    ensures
      var net := NetRun(r, destinations, o, boards, events);
      && net.boards.Keys == boards.Keys
      && Shaped(destinations, net)
      && net.session == Retry.Run(o, destinations, ClientView(r, destinations, o, boards, events))
    decreases |events|
  {
    hide BoardRuns.Proper, Perform, BoardAfter;
    if events != [] {
      var before, ev := events[..|events| - 1], events[|events| - 1];
      NetShape(r, destinations, o, boards, before);
      var net := NetRun(r, destinations, o, boards, before);
      var seen := ClientView(r, destinations, o, boards, before);
      var all := ClientView(r, destinations, o, boards, events);
      assert all == seen || all[..|all| - 1] == seen;
      assert net.session == Retry.Run(o, destinations, seen);
      hide Retry.Run;
      StepShape(r, destinations, o, net, ev);
      match ev {
        case Hear(from, data) =>
          if (from, data) in net.inbox {
            Retry.RunSnoc(o, destinations, seen, Retry.Answer(from, data));
          }
        case Silence => Retry.RunSnoc(o, destinations, seen, Retry.Silence);
        case _ =>
      }
    }
  }

  predicate Shaped(destinations: seq<byte>, net: Net) {
    && net.pending <= Retry.SetOf(destinations)
    && (forall e :: e in net.inbox ==> e.0 in Retry.SetOf(destinations))
    && (forall d :: d in net.session.answers ==> (d, net.session.answers[d]) in net.inbox)
  }

  lemma StepShape(r: Request, destinations: seq<byte>, o: Retry.Options, net: Net, ev: BusEvent)
    requires AllProper(net.boards) && Shaped(destinations, net)
    ensures
      var net' := NetStep(r, destinations, o, net, ev);
      net'.boards.Keys == net.boards.Keys && Shaped(destinations, net')
  {
    hide BoardRuns.Proper, Perform, BoardAfter;
  }

  /** A complaint counts as an answer: a request can be over without any board having performed it. */
  lemma ComplaintCompletes(r: Request, d: byte, o: Retry.Options, boards: map<byte, Board>, code: byte)
    requires AllProper(boards) && Complaint(code)
    ensures
      var net := NetRun(r, [d], o, boards, [Complain(d, code), Hear(d, [code])]);
      net.session.verdict == Retry.Complete && net.session.answers == map[d := [code]] && net.boards == boards
  {
    hide BoardRuns.Proper, DeliverTo;
    var first, second := Complain(d, code), Hear(d, [code]);
    var one, two := [first], [first, second];
    assert one[..|one| - 1] == [] && two[..|two| - 1] == one;
    assert d in Retry.SetOf([d]);
    var start := Begin(boards, [d]);
    assert NetRun(r, [d], o, boards, []) == start;
    var net := NetRun(r, [d], o, boards, one);
    assert net == NetStep(r, [d], o, start, first) == start.(inbox := {(d, [code])});
    var answers: map<byte, seq<byte>> := map[d := [code]];
    assert answers.Keys == {d} && |answers| == |answers.Keys|;
    assert net.session == Retry.Session(Retry.Waiting, map[], 0, [Retry.SetOf([d])]);
    assert map[][d := [code]] == answers;
  }

  /** When the retry loop is left normally, every destination has answered. */
  lemma CompleteMeansAll(r: Request, destinations: seq<byte>, o: Retry.Options, boards: map<byte, Board>, events: seq<BusEvent>)
    requires AllProper(boards) && Retry.Distinct(destinations)
    requires NetRun(r, destinations, o, boards, events).session.verdict == Retry.Complete
    ensures NetRun(r, destinations, o, boards, events).session.answers.Keys == Retry.SetOf(destinations)
  {
    NetShape(r, destinations, o, boards, events);
    Retry.OnlyDestinations(o, destinations, ClientView(r, destinations, o, boards, events));
  }

  // ----- writing a chunk -----

  /** The memory holds the data at the address. */
  predicate Holds(m: Memory, address: int, data: seq<byte>) {
    FLASH_BEGIN <= address && address + |data| <= FLASH_END && m[address - FLASH_BEGIN..address - FLASH_BEGIN + |data|] == data
  }

  /** Writing inside the memory, not from inside its last sector. */
  predicate Programmable(address: u32, chunk: seq<byte>) {
    0 < |chunk| <= 0x8000 && address + |chunk| <= FLASH_END && address <= LAST_SECTOR
  }

  /** What a board can answer to a write. */
  predicate WriteReply(reply: seq<byte>) {
    reply == [TRUE] || (|reply| == 1 && reply[0] in {2, 6, WRITE_BEFORE_APP, WRITE_AFTER_APP, WRITE_CLASS_MISMATCH, WRITE_NOT_ERASED})
  }

  lemma ProgramErased(fl: Flash, address: u32, chunk: seq<byte>)
    requires Programmable(address, chunk) && FLASH_BEGIN < address
    requires PageIsErased(fl.mem, address, |chunk|, true)
    ensures Holds(PageWrite(fl, address, chunk, Done).mem, address, chunk)
  {
    hide PageWrite;
    ErasedCache.ErasedTakesData(fl, address, chunk);
  }

  lemma HoldsBytes(m: Memory, address: u32, data: seq<byte>)
    requires FLASH_BEGIN <= address && address + |data| <= FLASH_END
    ensures Holds(m, address, data) <==> forall i :: 0 <= i < |data| ==> m[Offset(address) + i] == data[i]
  {
    var s := m[Offset(address)..Offset(address) + |data|];
    assert forall i :: 0 <= i < |data| ==> s[i] == m[Offset(address) + i];
  }

  /** Some byte of the chunk differs from erased memory. */
  predicate HasContent(chunk: seq<byte>) {
    exists i :: 0 <= i < |chunk| && chunk[i] != 0xFF
  }

  /** The write is carried out, or cut off by a power failure while something other than erased bytes was to be written. */
  predicate Dependable(outcome: Outcome, chunk: seq<byte>) {
    outcome.Done? || (outcome.PowerLoss? && HasContent(chunk))
  }

  lemma ContentNotErased(m: Memory, address: u32, chunk: seq<byte>, beyond: bool)
    requires Holds(m, address, chunk) && HasContent(chunk)
    ensures !PageIsErased(m, address, |chunk|, beyond)
  {
    var i :| 0 <= i < |chunk| && chunk[i] != 0xFF;
    HoldsBytes(m, address, chunk);
    assert m[Offset(address) + i] == chunk[i];
  }

  /** One execution of a write, whatever the hardware does: only the chunk's bytes can change. */
  lemma WriteFrame(b: Board, address: u32, deviceClass: seq<byte>, chunk: seq<byte>, beyond: bool, outcome: Outcome)
    requires Programmable(address, chunk)
    ensures
      var r := WriteFlash(b, address, deviceClass, Some(chunk), beyond, outcome);
      && r.board.config == b.config && WriteReply(r.reply)
      && (forall i :: 0 <= i < FLASH_SIZE && !(address <= FLASH_BEGIN + i < address + |chunk|) ==>
            r.board.flash.mem[i] == b.flash.mem[i])
  {
    hide PageWrite, SameClass, PageIsErased;
    var r := WriteFlash(b, address, deviceClass, Some(chunk), beyond, outcome);
    if r.board != b {
      forall i | 0 <= i < FLASH_SIZE && !(address <= FLASH_BEGIN + i < address + |chunk|)
        ensures r.board.flash.mem[i] == b.flash.mem[i]
      {
        ErasedCache.WriteFrame(b.flash, address, chunk, outcome, i);
      }
    }
  }

  /** One execution of a write that does not go wrong: acknowledged only if the chunk is now there; a chunk that was there stays. */
  lemma WriteOnce(b: Board, address: u32, deviceClass: seq<byte>, chunk: seq<byte>, beyond: bool, outcome: Outcome)
    requires Programmable(address, chunk) && Dependable(outcome, chunk)
    ensures
      var r := WriteFlash(b, address, deviceClass, Some(chunk), beyond, outcome);
      && (outcome.Done? ==> r.alive)
      && (r.alive && r.reply == [TRUE] ==> APP_BEGIN <= address && Holds(r.board.flash.mem, address, chunk))
      && (Holds(b.flash.mem, address, chunk) ==> Holds(r.board.flash.mem, address, chunk))
  {
    hide PageWrite, SameClass, Holds, HasContent;
    var r := WriteFlash(b, address, deviceClass, Some(chunk), beyond, outcome);
    if r.reply == [TRUE] && outcome.Done? {
      ProgramErased(b.flash, address, chunk);
    }
    if Holds(b.flash.mem, address, chunk) && outcome.PowerLoss? {
      ContentNotErased(b.flash.mem, address, chunk, beyond);
    }
  }

  lemma ProgramFaulty(fl: Flash, address: u32, chunk: seq<byte>, residue: nat -> byte)
    requires Programmable(address, chunk) && FLASH_BEGIN < address
    ensures
      var m := PageWrite(fl, address, chunk, Faulty(residue)).mem;
      forall i :: Offset(address) <= i < Offset(address) + |chunk| ==> m[i] == residue(i)
  {
    hide Mark, AddressToSector;
    ErasedCache.MarkCompletes(fl.erased, address, address + |chunk|);
  }

  /** A failed programming operation is acknowledged all the same, whatever it leaves. */
  lemma FaultyWriteAcknowledged(b: Board, address: u32, deviceClass: seq<byte>, chunk: seq<byte>, residue: nat -> byte)
    requires Programmable(address, chunk) && APP_BEGIN <= address && SameClass(deviceClass, b.config)
    requires PageIsErased(b.flash.mem, address, |chunk|, true)
    ensures
      var r := WriteFlash(b, address, deviceClass, Some(chunk), true, Faulty(residue));
      && r.alive && r.reply == [TRUE]
      && (Holds(r.board.flash.mem, address, chunk) <==> forall i :: 0 <= i < |chunk| ==> residue(Offset(address) + i) == chunk[i])
  {
    ProgramFaulty(b.flash, address, chunk, residue);
    hide PageWrite, SameClass, PageIsErased;
    var m := WriteFlash(b, address, deviceClass, Some(chunk), true, Faulty(residue)).board.flash.mem;
    HoldsBytes(m, address, chunk);
    var s := m[Offset(address)..Offset(address) + |chunk|];
    assert forall i :: 0 <= i < |chunk| ==> s[i] == residue(Offset(address) + i);
  }

  /** A chunk that has been written survives a retransmission of the same write, whatever the hardware does then, if and only if
      it is not blank: a blank chunk is programmed again. */
  lemma RewriteExactly(b: Board, address: u32, deviceClass: seq<byte>, chunk: seq<byte>)
    requires Programmable(address, chunk) && APP_BEGIN <= address && SameClass(deviceClass, b.config)
    requires Holds(b.flash.mem, address, chunk)
    ensures HasContent(chunk)
       <==> forall outcome :: Holds(WriteFlash(b, address, deviceClass, Some(chunk), true, outcome).board.flash.mem, address, chunk)
  {
    hide Holds, HasContent, PageWrite, SameClass;
    if HasContent(chunk) {
      ContentNotErased(b.flash.mem, address, chunk, true);
    } else {
      BlankRewritten(b, address, deviceClass, chunk);
      var outcome: Outcome := Faulty(_ => 0);
      assert !Holds(WriteFlash(b, address, deviceClass, Some(chunk), true, outcome).board.flash.mem, address, chunk);
    }
  }

  lemma BlankRewritten(b: Board, address: u32, deviceClass: seq<byte>, chunk: seq<byte>)
    requires Programmable(address, chunk) && APP_BEGIN <= address && SameClass(deviceClass, b.config)
    requires Holds(b.flash.mem, address, chunk) && !HasContent(chunk)
    ensures !Holds(WriteFlash(b, address, deviceClass, Some(chunk), true, Faulty(_ => 0)).board.flash.mem, address, chunk)
  {
    HoldsBytes(b.flash.mem, address, chunk);
    hide Holds, WriteFlash, SameClass;
    forall i | Offset(address) <= i < Offset(address) + |chunk|
      ensures b.flash.mem[i] == 0xFF
    {
      assert b.flash.mem[Offset(address) + (i - Offset(address))] == chunk[i - Offset(address)];
    }
    FaultyWriteAcknowledged(b, address, deviceClass, chunk, _ => 0);
    assert chunk[0] == 0xFF;
  }

  /** A board that has acknowledged the write holds the chunk; no byte outside it has changed. */
  ghost predicate WriteInv(r: Request, b0: Board, net: Net, d: byte)
    requires r.WriteRequest?
  {
    && d in net.boards
    && ((d, [TRUE]) in net.inbox ==> APP_BEGIN <= r.address && Holds(net.boards[d].flash.mem, r.address, r.chunk))
    && (forall data :: (d, data) in net.inbox ==> WriteReply(data))
    && (forall i :: 0 <= i < FLASH_SIZE && !(r.address <= FLASH_BEGIN + i < r.address + |r.chunk|) ==>
          net.boards[d].flash.mem[i] == b0.flash.mem[i])
  }

  /** The hardware does not fail to program this chunk; it may lose power. */
  predicate Programs(ev: BusEvent, chunk: seq<byte>) {
    ev.Deliver? ==> Dependable(ev.hw.write, chunk)
  }

  lemma WriteStep(r: Request, destinations: seq<byte>, o: Retry.Options, net: Net, ev: BusEvent, d: byte, b0: Board)
    requires AllProper(net.boards) && r.WriteRequest? && Programmable(r.address, r.chunk) && WriteInv(r, b0, net, d)
    requires Programs(ev, r.chunk)
    ensures WriteInv(r, b0, NetStep(r, destinations, o, net, ev), d)
  {
    hide BoardRuns.Proper, WriteFlash, Holds, Programmable, Dependable, Retry.Step;
    if ev.Deliver? {
      WriteOnce(net.boards[d], r.address, r.deviceClass, r.chunk, ev.hw.beyond, ev.hw.write);
      WriteFrame(net.boards[d], r.address, r.deviceClass, r.chunk, ev.hw.beyond, ev.hw.write);
    }
  }

  /** Throughout a write request, over every loss, complaint, retransmission and power failure. */
  lemma {:induction false} WriteRequestHolds(r: Request, destinations: seq<byte>, o: Retry.Options, boards: map<byte, Board>,
                                             events: seq<BusEvent>, d: byte)
    requires AllProper(boards) && d in boards
    requires r.WriteRequest? && Programmable(r.address, r.chunk)
    requires forall i :: 0 <= i < |events| ==> Programs(events[i], r.chunk)
    ensures WriteInv(r, boards[d], NetRun(r, destinations, o, boards, events), d)
    decreases |events|
  {
    hide BoardRuns.Proper, Programmable, Programs, NetStep, Holds;
    if events != [] {
      var before, ev := events[..|events| - 1], events[|events| - 1];
      WriteRequestHolds(r, destinations, o, boards, before, d);
      WriteStep(r, destinations, o, NetRun(r, destinations, o, boards, before), ev, d, boards[d]);
    }
  }

  lemma NothingProgrammed(fl: Flash, address: u32, chunk: seq<byte>)
    requires 0 < |chunk| <= 0x8000 && LAST_SECTOR < address && address + |chunk| <= FLASH_END
    ensures PageWrite(fl, address, chunk, Done).mem == fl.mem
  {
    ErasedCache.MarkCompletes(fl.erased, address, address + |chunk|);
  }

  lemma LastSectorWrite(b: Board, address: u32, deviceClass: seq<byte>, chunk: seq<byte>, i: nat)
    requires 0 < |chunk| <= 0x8000 && LAST_SECTOR < address && address + |chunk| <= FLASH_END
    requires i < |chunk| && chunk[i] != 0xFF
    requires WriteFlash(b, address, deviceClass, Some(chunk), true, Done).reply == [TRUE]
    ensures !Holds(WriteFlash(b, address, deviceClass, Some(chunk), true, Done).board.flash.mem, address, chunk)
  {
    NothingProgrammed(b.flash, address, chunk);
    hide PageWrite, SameClass;
    assert b.flash.mem[Offset(address) + i] == 0xFF;
    var s := b.flash.mem[Offset(address)..Offset(address) + |chunk|];
    assert s[i] == b.flash.mem[Offset(address) + i];
  }

  /** A write starting inside the last sector is acknowledged but not programmed; elsewhere in the memory acknowledgement
      and contents agree. */
  lemma AcknowledgedExactly(b: Board, address: u32, deviceClass: seq<byte>, chunk: seq<byte>, i: nat)
    requires 0 < |chunk| <= 0x8000 && address + |chunk| <= FLASH_END
    requires i < |chunk| && chunk[i] != 0xFF
    requires WriteFlash(b, address, deviceClass, Some(chunk), true, Done).reply == [TRUE]
    ensures Holds(WriteFlash(b, address, deviceClass, Some(chunk), true, Done).board.flash.mem, address, chunk)
       <==> address <= LAST_SECTOR
  {
    hide WriteFlash, Holds;
    if address <= LAST_SECTOR {
      WriteOnce(b, address, deviceClass, chunk, true, Done);
    } else {
      LastSectorWrite(b, address, deviceClass, chunk, i);
    }
  }

  // ----- configuring the application -----

  /** The size and checksum of an image are configured. */
  predicate Configured(c: Config, size: u32, crc: u32) {
    c.applicationSize == size && c.applicationCrc == crc
  }

  lemma UpdateOnce(b: Board, size: u32, crc: u32)
    ensures
      var r := ConfigUpdate(b, UpdateArguments(size, crc), b.config);
      && UpdateFromSerialized(b.config, UpdateArguments(size, crc)).Updated?
      && r.alive && r.reply == [TRUE] && r.board.flash == b.flash && Configured(r.board.config, size, crc)
      && r.board.config == b.config.(applicationSize := size, applicationCrc := crc)
  {
    var es := UpdateEntries(size, crc);
    hide PutEntries, UpdateFromSerialized;
    assert UpdateArguments(size, crc) + [] == UpdateArguments(size, crc);
    UpdateAppliesEntries(b.config, es, []);
    var c1 := b.config.(applicationSize := size);
    assert es[1..] == [ApplicationCrc(crc)] && [ApplicationCrc(crc)][1..] == [];
    assert ApplyAll(c1, [ApplicationCrc(crc)]) == Apply(c1, ApplicationCrc(crc));
    assert ApplyAll(b.config, es) == ApplyAll(c1, es[1..]);
    assert ApplyAll(b.config, es) == b.config.(applicationSize := size, applicationCrc := crc);
  }

  /** A delivery of the request to this board took effect: it was pending there. */
  ghost predicate TookEffect(r: Request, destinations: seq<byte>, o: Retry.Options, boards: map<byte, Board>, events: seq<BusEvent>, d: byte)
    requires AllProper(boards)
    decreases |events|
  {
    events != [] &&
    var before, ev := events[..|events| - 1], events[|events| - 1];
    || TookEffect(r, destinations, o, boards, before, d)
    || EffectiveDelivery(NetRun(r, destinations, o, boards, before), ev, d)
  }

  predicate EffectiveDelivery(net: Net, ev: BusEvent, d: byte) {
    ev.Deliver? && ev.to == d && d in net.pending && d in net.boards && BoardRuns.Proper(ev.hw.restart)
  }

  /** The board complains about a corrupt or late datagram. */
  predicate Complains(events: seq<BusEvent>, d: byte) {
    exists i :: 0 <= i < |events| && events[i].Complain? && events[i].from == d && Complaint(events[i].code)
  }

  /** Whatever a board has sent during a request is the reply of a delivery that took effect, or a complaint. */
  ghost predicate Explained(net: Net, d: byte, took: bool, complained: bool) {
    forall data :: (d, data) in net.inbox ==> took || complained
  }

  lemma ExplainedStep(r: Request, destinations: seq<byte>, o: Retry.Options, net: Net, ev: BusEvent, d: byte, took: bool, complained: bool)
    requires AllProper(net.boards) && Explained(net, d, took, complained)
    ensures Explained(NetStep(r, destinations, o, net, ev), d,
                      took || EffectiveDelivery(net, ev, d),
                      complained || (ev.Complain? && ev.from == d && Complaint(ev.code)))
  {
    hide BoardRuns.Proper, Perform, BoardAfter, Retry.Step;
  }

  lemma {:induction false} RepliesExplained(r: Request, destinations: seq<byte>, o: Retry.Options, boards: map<byte, Board>,
                                            events: seq<BusEvent>, d: byte)
    requires AllProper(boards)
    ensures Explained(NetRun(r, destinations, o, boards, events), d,
                      TookEffect(r, destinations, o, boards, events, d), Complains(events, d))
    decreases |events|
  {
    hide BoardRuns.Proper, NetStep, Complains, EffectiveDelivery, Explained;
    if events == [] {
      NothingSent(boards, destinations, d, Complains(events, d));
    } else {
      var before, ev := events[..|events| - 1], events[|events| - 1];
      RepliesExplained(r, destinations, o, boards, before, d);
      ComplainsSnoc(events, d);
      ExplainedStep(r, destinations, o, NetRun(r, destinations, o, boards, before), ev, d,
                    TookEffect(r, destinations, o, boards, before, d), Complains(before, d));
    }
  }

  lemma NothingSent(boards: map<byte, Board>, destinations: seq<byte>, d: byte, complained: bool)
    ensures Explained(Begin(boards, destinations), d, false, complained)
  {
    hide Retry.Start;
  }

  /** When the retry loop is left normally, every destination has performed the request or complained. */
  lemma RequestCompletes(r: Request, destinations: seq<byte>, o: Retry.Options, boards: map<byte, Board>, events: seq<BusEvent>, d: byte)
    requires AllProper(boards) && Retry.Distinct(destinations) && d in destinations
    requires NetRun(r, destinations, o, boards, events).session.verdict == Retry.Complete
    ensures TookEffect(r, destinations, o, boards, events, d) || Complains(events, d)
  {
    NetShape(r, destinations, o, boards, events);
    CompleteMeansAll(r, destinations, o, boards, events);
    RepliesExplained(r, destinations, o, boards, events, d);
    hide BoardRuns.Proper, NetRun, TookEffect, Complains;
    var net := NetRun(r, destinations, o, boards, events);
    assert d in net.session.answers && (d, net.session.answers[d]) in net.inbox;
  }

  /** A board is configured if it was before or has performed the update. Its memory is as before. */
  predicate UpdateInv(r: Request, b0: Board, net: Net, d: byte, took: bool)
    requires r.UpdateRequest?
  {
    && d in net.boards && net.boards[d].flash == b0.flash
    && (Configured(net.boards[d].config, r.size, r.crc) <==> Configured(b0.config, r.size, r.crc) || took)
  }

  lemma UpdateStep(r: Request, destinations: seq<byte>, o: Retry.Options, net: Net, ev: BusEvent, d: byte, b0: Board, took: bool)
    requires AllProper(net.boards) && r.UpdateRequest? && UpdateInv(r, b0, net, d, took)
    ensures UpdateInv(r, b0, NetStep(r, destinations, o, net, ev), d, took || EffectiveDelivery(net, ev, d))
  {
    hide BoardRuns.Proper, ConfigUpdate, Configured, UpdateFromSerialized, UpdateArguments, Retry.Step;
    if ev.Deliver? {
      UpdateOnce(net.boards[d], r.size, r.crc);
    }
  }

  lemma ComplainsSnoc(events: seq<BusEvent>, d: byte)
    requires events != []
    ensures
      var ev := events[|events| - 1];
      Complains(events, d) <==> Complains(events[..|events| - 1], d) || (ev.Complain? && ev.from == d && Complaint(ev.code))
  {
    hide Complaint;
    var before, ev := events[..|events| - 1], events[|events| - 1];
    if Complains(events, d) {
      var i :| 0 <= i < |events| && events[i].Complain? && events[i].from == d && Complaint(events[i].code);
      assert i < |before| ==> before[i] == events[i];
    }
    if Complains(before, d) {
      var i :| 0 <= i < |before| && before[i].Complain? && before[i].from == d && Complaint(before[i].code);
      assert events[i] == before[i];
    }
  }

  /** After any run of an update request, a board is configured exactly if it was before or a delivery to it took effect. */
  lemma {:induction false} UpdateRequestConfigures(r: Request, destinations: seq<byte>, o: Retry.Options, boards: map<byte, Board>,
                                                   events: seq<BusEvent>, d: byte)
    requires AllProper(boards) && d in boards && r.UpdateRequest?
    ensures UpdateInv(r, boards[d], NetRun(r, destinations, o, boards, events), d, TookEffect(r, destinations, o, boards, events, d))
    decreases |events|
  {
    hide BoardRuns.Proper, Configured, NetStep, EffectiveDelivery;
    if events != [] {
      var before, ev := events[..|events| - 1], events[|events| - 1];
      UpdateRequestConfigures(r, destinations, o, boards, before, d);
      UpdateStep(r, destinations, o, NetRun(r, destinations, o, boards, before), ev, d, boards[d],
                 TookEffect(r, destinations, o, boards, before, d));
    }
  }

  /** No save delivered to this board is cut off by a power failure. */
  predicate KeepsPower(events: seq<BusEvent>, d: byte) {
    forall i :: 0 <= i < |events| && events[i].Deliver? && events[i].to == d ==> Powered(events[i].hw)
  }

  predicate Powered(hw: Hardware) {
    !hw.first.erase.PowerLoss? && !hw.first.write.PowerLoss? && !hw.second.erase.PowerLoss? && !hw.second.write.PowerLoss?
  }

  lemma SaveOnce(b: Board, x: Attempt, y: Attempt)
    requires BoardRuns.Proper(b.config) && Storable(Incremented(b.config))
    ensures
      var r := ConfigSave(b, x, y);
      && r.board.config == Incremented(b.config)
      && (!x.erase.PowerLoss? && !x.write.PowerLoss? && !y.erase.PowerLoss? && !y.write.PowerLoss? ==> r.alive)
      && forall i :: BoardRuns.APP_OFFSET <= i < FLASH_SIZE ==> r.board.flash.mem[i] == b.flash.mem[i]
  {
    hide PageErase, PageWrite, ValidPage, Page, BoardRuns.Proper;
    var page := Page(Incremented(b.config));
    forall i | BoardRuns.APP_OFFSET <= i < FLASH_SIZE
      ensures ConfigSave(b, x, y).board.flash.mem[i] == b.flash.mem[i]
    {
      BoardRuns.SaveFrame(b.flash, page, x, y, i);
    }
  }

  /** The application area is as before; while power is kept, the configured size and checksum are too. */
  predicate SaveInv(b0: Board, net: Net, d: byte, powered: bool) {
    && d in net.boards
    && (powered ==> net.boards[d].config.applicationSize == b0.config.applicationSize
                    && net.boards[d].config.applicationCrc == b0.config.applicationCrc)
    && forall i :: BoardRuns.APP_OFFSET <= i < FLASH_SIZE ==> net.boards[d].flash.mem[i] == b0.flash.mem[i]
  }

  lemma SaveStep(destinations: seq<byte>, o: Retry.Options, net: Net, ev: BusEvent, d: byte, b0: Board, powered: bool)
    requires AllProper(net.boards) && SaveInv(b0, net, d, powered)
    ensures SaveInv(b0, NetStep(SaveRequest, destinations, o, net, ev), d, powered && (ev.Deliver? && ev.to == d ==> Powered(ev.hw)))
  {
    hide BoardRuns.Proper, ConfigSave, Retry.Step;
    if ev.Deliver? {
      BoardRuns.IncrementedStorable(net.boards[d].config);
      SaveOnce(net.boards[d], ev.hw.first, ev.hw.second);
    }
  }

  /** Throughout a save request, whatever the hardware makes of the saves. */
  lemma {:induction false} SaveRequestKeeps(destinations: seq<byte>, o: Retry.Options, boards: map<byte, Board>,
                                            events: seq<BusEvent>, d: byte)
    requires AllProper(boards) && d in boards
    ensures SaveInv(boards[d], NetRun(SaveRequest, destinations, o, boards, events), d, KeepsPower(events, d))
    decreases |events|
  {
    hide BoardRuns.Proper, NetStep, Powered;
    if events != [] {
      var before, ev := events[..|events| - 1], events[|events| - 1];
      SaveRequestKeeps(destinations, o, boards, before, d);
      assert KeepsPower(events, d) ==> KeepsPower(before, d) && (ev.Deliver? && ev.to == d ==> Powered(ev.hw));
      SaveStep(destinations, o, NetRun(SaveRequest, destinations, o, boards, before), ev, d, boards[d], KeepsPower(before, d));
    }
  }
}
