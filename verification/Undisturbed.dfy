/** Requests that nothing disturbs: every board is reached, its hardware works, and its reply is heard. */
module Undisturbed {
  import opened Bytes
  import opened Wrappers
  import opened Flash
  import opened Configuration
  import opened Commands
  import opened Network
  import opened ErasedCache
  import BoardRuns
  import ConfigPages
  import MessagePack
  import Retry

  ghost predicate Working(hw: Hardware) {
    && (forall n :: hw.outcomes(n) == Done) && hw.write == Done
    && hw.first == Attempt(Done, Done) && hw.second == Attempt(Done, Done)
    && BoardRuns.Proper(hw.restart)
  }

  /** Some delivery to the board. */
  ghost predicate Delivered(events: seq<BusEvent>, d: byte) {
    exists i :: 0 <= i < |events| && events[i].Deliver? && events[i].to == d
  }

  /** A delivery to the board, and after it this reply of the board reaches the client. */
  ghost predicate Exchanged(events: seq<BusEvent>, d: byte, reply: seq<byte>) {
    exists j :: 0 <= j < |events| && events[j] == Hear(d, reply) && Delivered(events[..j], d)
  }

  predicate Calm(ev: BusEvent) {
    ev.Deliver? || ev.Hear?
  }

  /** No timeout and no complaint, working hardware, and every destination answers with this reply. */
  ghost predicate Answered(events: seq<BusEvent>, destinations: seq<byte>, reply: seq<byte>) {
    && (forall i :: 0 <= i < |events| ==> Calm(events[i]) && (events[i].Deliver? ==> Working(events[i].hw)))
    && forall d :: d in destinations ==> Exchanged(events, d, reply)
  }

  /** The plainest such events: destination by destination, the request arrives, and then the reply. */
  function Smooth(destinations: seq<byte>, hw: Hardware, reply: seq<byte>): seq<BusEvent> {
    if destinations == [] then []
    else
      var d := destinations[|destinations| - 1];
      Smooth(destinations[..|destinations| - 1], hw, reply) + [Deliver(d, hw), Hear(d, reply)]
  }

  lemma SmoothIsAnswered(destinations: seq<byte>, hw: Hardware, reply: seq<byte>)
    requires Working(hw)
    ensures Answered(Smooth(destinations, hw, reply), destinations, reply)
  {
    SmoothEvents(destinations, hw, reply);
    hide Smooth, Exchanged, Working;
    forall d | d in destinations
      ensures Exchanged(Smooth(destinations, hw, reply), d, reply)
    {
      SmoothExchanges(destinations, hw, reply, d);
    }
  }

  lemma {:induction false} SmoothEvents(destinations: seq<byte>, hw: Hardware, reply: seq<byte>)
    ensures forall ev :: ev in Smooth(destinations, hw, reply) ==> ev.Hear? || (ev.Deliver? && ev.hw == hw)
  {
    if destinations != [] {
      SmoothEvents(destinations[..|destinations| - 1], hw, reply);
    }
  }

  lemma {:induction false} SmoothExchanges(destinations: seq<byte>, hw: Hardware, reply: seq<byte>, d: byte)
    requires d in destinations
    ensures Exchanged(Smooth(destinations, hw, reply), d, reply)
  {
    hide Exchanged;
    var n := |destinations| - 1;
    var last, before := destinations[n], Smooth(destinations[..n], hw, reply);
    if d in destinations[..n] {
      SmoothExchanges(destinations[..n], hw, reply, d);
      StillExchanged(before, [Deliver(last, hw), Hear(last, reply)], d, reply);
    } else {
      NowExchanged(before, last, hw, reply);
    }
  }

  lemma StillExchanged(before: seq<BusEvent>, more: seq<BusEvent>, d: byte, reply: seq<byte>)
    requires Exchanged(before, d, reply)
    ensures Exchanged(before + more, d, reply)
  {
    var j :| 0 <= j < |before| && before[j] == Hear(d, reply) && Delivered(before[..j], d);
    var events := before + more;
    hide Delivered;
    assert events[j] == before[j] && events[..j] == before[..j];
  }

  lemma NowExchanged(before: seq<BusEvent>, d: byte, hw: Hardware, reply: seq<byte>)
    ensures Exchanged(before + [Deliver(d, hw), Hear(d, reply)], d, reply)
  {
    var events, k := before + [Deliver(d, hw), Hear(d, reply)], |before|;
    var earlier := events[..k + 1];
    assert earlier[k] == Deliver(d, hw);
    assert Delivered(earlier, d);
    hide Delivered;
    assert events[k + 1] == Hear(d, reply);
  }

  /** What the request does to a board on working hardware. */
  ghost predicate Performs(r: Request, b: Board, after: Board, reply: seq<byte>)
    requires BoardRuns.Proper(b.config)
  {
    forall hw :: Working(hw) ==> Perform(b, r, hw) == Result(after, reply, true)
  }

  /** Midway through such a request, for one board: once it is no longer pending it has performed the request and replied, once. */
  ghost predicate Midway(b: Board, after: Board, reply: seq<byte>, net: Net, d: byte) {
    && d in net.boards
    && net.boards[d] == (if d in net.pending then b else after)
    && (d in net.pending || (d, reply) in net.inbox)
    && (forall data :: (d, data) in net.inbox ==> data == reply && d !in net.pending)
    && (d in net.session.answers ==> net.session.answers[d] == reply && d !in net.pending)
  }

  lemma MidwayStep(r: Request, destinations: seq<byte>, o: Retry.Options, b: Board, after: Board, reply: seq<byte>,
                   net: Net, ev: BusEvent, d: byte)
    requires BoardRuns.Proper(b.config) && AllProper(net.boards) && Performs(r, b, after, reply)
    requires Midway(b, after, reply, net, d) && Calm(ev) && (ev.Deliver? ==> Working(ev.hw))
    ensures
      var net' := NetStep(r, destinations, o, net, ev);
      && Midway(b, after, reply, net', d)
      && (d in net'.pending <==> d in net.pending && !(ev.Deliver? && ev.to == d))
      && (net.session.verdict == Retry.Complete ==> net'.session == net.session)
      && (d in net.session.answers ==> d in net'.session.answers)
      && (ev == Hear(d, reply) && d !in net.pending ==> d in net'.session.answers || net.session.verdict != Retry.Waiting)
  {
    hide BoardRuns.Proper, Perform, Working, Retry.OnSilence;
    if ev.Deliver? {
      WorkingRestarts(ev.hw);
      if ev.to == d && d in net.pending {
        assert Perform(b, r, ev.hw) == Result(after, reply, true);
      }
    }
  }

  /** A board that is not asked is left alone. */
  lemma BystanderStep(r: Request, destinations: seq<byte>, o: Retry.Options, net: Net, ev: BusEvent, d: byte)
    requires AllProper(net.boards) && Calm(ev) && d in net.boards && d !in net.pending
    ensures
      var net' := NetStep(r, destinations, o, net, ev);
      d in net'.boards && net'.boards[d] == net.boards[d] && d !in net'.pending
  {
    hide BoardRuns.Proper, Perform, BoardAfter;
  }

  lemma WorkingRestarts(hw: Hardware)
    requires Working(hw)
    ensures BoardRuns.Proper(hw.restart)
  {
  }

  lemma DeliveredSnoc(events: seq<BusEvent>, d: byte)
    requires events != []
    ensures
      var ev := events[|events| - 1];
      Delivered(events, d) <==> Delivered(events[..|events| - 1], d) || (ev.Deliver? && ev.to == d)
  {
    var before := events[..|events| - 1];
    if Delivered(events, d) {
      var i :| 0 <= i < |events| && events[i].Deliver? && events[i].to == d;
      assert i < |before| ==> before[i] == events[i];
    }
    if Delivered(before, d) {
      var i :| 0 <= i < |before| && before[i].Deliver? && before[i].to == d;
      assert events[i] == before[i];
    }
  }

  lemma ExchangedSnoc(events: seq<BusEvent>, d: byte, reply: seq<byte>)
    requires events != [] && Exchanged(events, d, reply)
    ensures
      var before := events[..|events| - 1];
      Exchanged(before, d, reply) || (events[|events| - 1] == Hear(d, reply) && Delivered(before, d))
  {
    hide Delivered;
    var before := events[..|events| - 1];
    var j :| 0 <= j < |events| && events[j] == Hear(d, reply) && Delivered(events[..j], d);
    if j < |before| {
      assert before[..j] == events[..j] && before[j] == events[j];
    }
  }

  lemma {:induction false} MidwayRun(r: Request, destinations: seq<byte>, o: Retry.Options, boards: map<byte, Board>,
                                     after: Board, reply: seq<byte>, events: seq<BusEvent>, d: byte)
    requires AllProper(boards) && d in boards && d in destinations && Performs(r, boards[d], after, reply)
    requires forall i :: 0 <= i < |events| ==> Calm(events[i]) && (events[i].Deliver? ==> Working(events[i].hw))
    ensures
      var net := NetRun(r, destinations, o, boards, events);
      && Midway(boards[d], after, reply, net, d)
      && (Delivered(events, d) ==> d !in net.pending)
      && (Exchanged(events, d, reply) ==> d in net.session.answers || net.session.verdict != Retry.Waiting)
    decreases |events|
  {
    hide BoardRuns.Proper, NetStep, Working, Calm, Performs, Delivered, Exchanged;
    if events == [] {
      NothingDelivered(d, reply);
    } else {
      var before, ev := events[..|events| - 1], events[|events| - 1];
      MidwayRun(r, destinations, o, boards, after, reply, before, d);
      hide Midway;
      var net := NetRun(r, destinations, o, boards, before);
      MidwayStep(r, destinations, o, boards[d], after, reply, net, ev, d);
      CalmVerdict(r, destinations, o, boards, before);
      DeliveredSnoc(events, d);
      if Exchanged(events, d, reply) {
        ExchangedSnoc(events, d, reply);
      }
    }
  }

  /** Without a timeout the retry loop only waits or completes. */
  lemma {:induction false} CalmVerdict(r: Request, destinations: seq<byte>, o: Retry.Options, boards: map<byte, Board>, events: seq<BusEvent>)
    requires AllProper(boards) && forall i :: 0 <= i < |events| ==> Calm(events[i])
    ensures
      var verdict := NetRun(r, destinations, o, boards, events).session.verdict;
      verdict == Retry.Waiting || verdict == Retry.Complete
    decreases |events|
  {
    hide BoardRuns.Proper, Perform, BoardAfter, Retry.OnSilence;
    if events != [] {
      CalmVerdict(r, destinations, o, boards, events[..|events| - 1]);
    }
  }

  lemma {:induction false} Bystander(r: Request, destinations: seq<byte>, o: Retry.Options, boards: map<byte, Board>,
                                     events: seq<BusEvent>, d: byte)
    requires AllProper(boards) && d in boards && d !in destinations
    requires forall i :: 0 <= i < |events| ==> Calm(events[i])
    ensures
      var net := NetRun(r, destinations, o, boards, events);
      d in net.boards && net.boards[d] == boards[d] && d !in net.pending
    decreases |events|
  {
    hide BoardRuns.Proper, NetStep, Calm;
    if events != [] {
      Bystander(r, destinations, o, boards, events[..|events| - 1], d);
      BystanderStep(r, destinations, o, NetRun(r, destinations, o, boards, events[..|events| - 1]), events[|events| - 1], d);
    }
  }

  lemma NothingDelivered(d: byte, reply: seq<byte>)
    ensures !Delivered([], d) && !Exchanged([], d, reply)
  {
  }

  ghost predicate AllPerform(r: Request, destinations: seq<byte>, boards: map<byte, Board>, after: map<byte, Board>, reply: seq<byte>)
    requires AllProper(boards)
  {
    && after.Keys == boards.Keys
    && forall d :: d in boards ==>
         if d in destinations then Performs(r, boards[d], after[d], reply) else after[d] == boards[d]
  }

  /** An undisturbed request completes with the expected answer from every destination, each having performed it once. */
  lemma AnsweredCompletes(r: Request, destinations: seq<byte>, o: Retry.Options, boards: map<byte, Board>, after: map<byte, Board>,
                          reply: seq<byte>, events: seq<BusEvent>)
    requires AllProper(boards) && Retry.Distinct(destinations) && (forall d :: d in destinations ==> d in boards)
    requires AllPerform(r, destinations, boards, after, reply) && Answered(events, destinations, reply)
    ensures
      var net := NetRun(r, destinations, o, boards, events);
      && net.session.verdict == Retry.Complete
      && net.session.answers.Keys == Retry.SetOf(destinations)
      && (forall d :: d in net.session.answers ==> net.session.answers[d] == reply)
      && net.boards == after
  {
    NetShape(r, destinations, o, boards, events);
    CalmVerdict(r, destinations, o, boards, events);
    hide BoardRuns.Proper, NetRun, Exchanged, Delivered, Perform, Retry.Run, ClientView, Working, Performs, Shaped;
    var net := NetRun(r, destinations, o, boards, events);
    forall d | d in destinations
      ensures Midway(boards[d], after[d], reply, net, d) && (d in net.session.answers || net.session.verdict != Retry.Waiting)
    {
      MidwayRun(r, destinations, o, boards, after[d], reply, events, d);
    }
    if net.session.verdict == Retry.Waiting {
      AllAnsweredCompletes(r, destinations, o, boards, events);
    }
    CompleteMeansAll(r, destinations, o, boards, events);
    forall d | d in boards
      ensures net.boards[d] == after[d]
    {
      if d !in destinations {
        Bystander(r, destinations, o, boards, events, d);
      } else {
        assert d in net.session.answers;
      }
    }
  }

  lemma AllAnsweredCompletes(r: Request, destinations: seq<byte>, o: Retry.Options, boards: map<byte, Board>, events: seq<BusEvent>)
    requires AllProper(boards) && Retry.Distinct(destinations)
    requires forall d :: d in destinations ==> d in NetRun(r, destinations, o, boards, events).session.answers
    ensures NetRun(r, destinations, o, boards, events).session.verdict == Retry.Complete
  {
    NetShape(r, destinations, o, boards, events);
    hide BoardRuns.Proper, NetRun, Retry.Run, ClientView;
    var answers := NetRun(r, destinations, o, boards, events).session.answers;
    Retry.AnswerCount(o, destinations, ClientView(r, destinations, o, boards, events));
    Retry.DistinctSize(destinations);
    SubsetSize(Retry.SetOf(destinations), answers.Keys);
    assert |answers| == |answers.Keys|;
  }

  lemma SubsetSize(a: set<byte>, b: set<byte>)
    requires a <= b
    ensures |a| <= |b|
  {
    assert |b - a| == |b| - |a|;
  }
}
