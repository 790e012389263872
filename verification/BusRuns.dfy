/** Whatever happens on the bus, each board goes through a run of commands and restarts, so the laws of such runs hold. */
module BusRuns {
  import opened Bytes
  import opened Wrappers
  import opened Flash
  import opened Commands
  import Configuration
  import opened BoardRuns
  import Network
  import Retry

  type Request = Network.Request
  type Hardware = Network.Hardware

  /** The data of a write lies in the node's input buffer. */
  predicate Bounded(r: Request) {
    r.WriteRequest? ==> |r.chunk| <= 0x8000
  }

  function CommandOf(r: Request, hw: Hardware, otherwise: Configuration.Config): (cmd: Command)
    requires Bounded(r) && Proper(otherwise)
    ensures Possible(cmd)
  {
    match r
    case EraseRequest(address, deviceClass) => Erase(address, deviceClass, hw.outcomes, hw.beyond)
    case WriteRequest(address, deviceClass, chunk) => Write(address, deviceClass, Some(chunk), hw.beyond, hw.write)
    case UpdateRequest(size, crc) => Update(Network.UpdateArguments(size, crc), otherwise)
    case SaveRequest => Save(hw.first, hw.second)
  }

  /** One execution of a request: the command, and a restart if the power failed. */
  function CommandsOf(b: Board, r: Request, hw: Hardware): (cmds: seq<Command>)
    requires Bounded(r) && Proper(b.config) && Proper(hw.restart)
    ensures AllPossible(cmds)
  {
    [CommandOf(r, hw, b.config)] + (if Network.Perform(b, r, hw).alive then [] else [Restart(hw.restart)])
  }

  lemma BoardAfterIsRun(b: Board, r: Request, hw: Hardware)
    requires Bounded(r) && Proper(b.config) && Proper(hw.restart)
    ensures Network.BoardAfter(b, r, hw) == Run(b, CommandsOf(b, r, hw))
  {
    var cmd := CommandOf(r, hw, b.config);
    PerformIsApply(b, r, hw);
    OneCommand(b, cmd);
    RestartLast(b, cmd, hw.restart);
    hide CommandOf, Network.Perform, Proper, Possible, Run, Apply;
  }

  lemma RestartLast(b: Board, cmd: Command, c: Configuration.Config)
    requires Proper(b.config) && Possible(cmd) && Proper(c)
    ensures Run(b, [cmd] + [Restart(c)]) == Board(Unflagged(Apply(b, cmd).flash.mem), c)
  {
    OneCommand(b, cmd);
    RunLast(b, [cmd], Restart(c));
    hide Proper, Possible, Run;
  }

  lemma RunLast(b: Board, cmds: seq<Command>, cmd: Command)
    requires Proper(b.config) && AllPossible(cmds) && Possible(cmd)
    ensures Run(b, cmds + [cmd]) == Apply(Run(b, cmds), cmd)
  {
    hide Proper, Possible, Apply;
    assert (cmds + [cmd])[..|cmds|] == cmds;
  }

  lemma OneCommand(b: Board, cmd: Command)
    requires Proper(b.config) && Possible(cmd)
    ensures Run(b, [cmd]) == Apply(b, cmd)
  {
    hide Apply, Proper, Possible;
    assert [cmd][..0] == [];
  }

  lemma PerformIsApply(b: Board, r: Request, hw: Hardware)
    requires Bounded(r) && Proper(b.config)
    ensures Network.Perform(b, r, hw).board == Apply(b, CommandOf(r, hw, b.config))
  {
    hide Proper, EraseFlashPage, WriteFlash, ConfigUpdate, ConfigSave;
  }

  ghost predicate Reaches(b: Board, b': Board)
    requires Proper(b.config)
  {
    exists cmds :: AllPossible(cmds) && Run(b, cmds) == b'
  }

  lemma {:induction false} RunConcat(b: Board, x: seq<Command>, y: seq<Command>)
    requires Proper(b.config) && AllPossible(x) && AllPossible(y)
    ensures Run(b, x + y) == Run(Run(b, x), y)
    decreases |y|
  {
    hide Apply, Proper, Possible;
    if y == [] {
      assert x + y == x;
    } else {
      var n := |y| - 1;
      RunConcat(b, x, y[..n]);
      assert (x + y)[..|x + y| - 1] == x + y[..n];
    }
  }

  lemma ReachesFurther(b: Board, b': Board, cmds: seq<Command>)
    requires Proper(b.config) && Proper(b'.config) && Reaches(b, b') && AllPossible(cmds)
    ensures Reaches(b, Run(b', cmds))
  {
    var before :| AllPossible(before) && Run(b, before) == b';
    RunConcat(b, before, cmds);
    hide Run, Possible;
    assert AllPossible(before + cmds);
  }

  /** Through any losses, retransmissions, complaints, faults and power failures, a request takes each board through a run of commands. */
  lemma {:induction false} RequestIsRun(r: Request, destinations: seq<byte>, o: Retry.Options, boards: map<byte, Board>,
                                        events: seq<Network.BusEvent>, d: byte)
    requires Network.AllProper(boards) && d in boards && Bounded(r)
    ensures d in Network.NetRun(r, destinations, o, boards, events).boards
    ensures Reaches(boards[d], Network.NetRun(r, destinations, o, boards, events).boards[d])
    decreases |events|
  {
    hide Proper, Reaches, Network.BoardAfter, CommandsOf;
    if events == [] {
      assert Reaches(boards[d], Run(boards[d], [])) by {
        assert AllPossible([]);
        RunReaches(boards[d], []);
      }
    } else {
      var net := Network.NetRun(r, destinations, o, boards, events[..|events| - 1]);
      var ev := events[|events| - 1];
      RequestIsRun(r, destinations, o, boards, events[..|events| - 1], d);
      if ev.Deliver? && ev.to == d && d in net.pending && Proper(ev.hw.restart) {
        BoardAfterIsRun(net.boards[d], r, ev.hw);
        ReachesFurther(boards[d], net.boards[d], CommandsOf(net.boards[d], r, ev.hw));
      }
    }
  }

  lemma RunReaches(b: Board, cmds: seq<Command>)
    requires Proper(b.config) && AllPossible(cmds)
    ensures Reaches(b, Run(b, cmds))
  {
  }

  /** So no request changes a byte of any board's bootloader, or loses its configuration. */
  lemma RequestKeeps(r: Request, destinations: seq<byte>, o: Retry.Options, boards: map<byte, Board>,
                     events: seq<Network.BusEvent>, d: byte, i: nat)
    requires Network.AllProper(boards) && d in boards && Bounded(r) && i < 0x8000
    ensures
      var net := Network.NetRun(r, destinations, o, boards, events);
      && d in net.boards && net.boards[d].flash.mem[i] == boards[d].flash.mem[i]
      && (OneValid(boards[d].flash.mem) ==> OneValid(net.boards[d].flash.mem))
  {
    RequestIsRun(r, destinations, o, boards, events, d);
    var net := Network.NetRun(r, destinations, o, boards, events);
    var cmds :| AllPossible(cmds) && Run(boards[d], cmds) == net.boards[d];
    hide Run, AllPossible, OneValid;
    RegionIsolation(boards[d], cmds, i);
    if OneValid(boards[d].flash.mem) {
      NoBricking(boards[d], cmds);
    }
  }
}
