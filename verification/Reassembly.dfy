/** The client's reassembly of datagrams from interleaved frames, one buffer per source. */
module Reassembly {
  import opened Bytes
  import opened Datagrams

  datatype Event = Timeout | Received(frame: Frame)

  /** What the generator hands out: `None` on a timeout, a datagram with its source otherwise. */
  datatype Yield = Silence | Reply(datagram: Datagram, source: nat)

  type Buffers = map<nat, seq<byte>>

  /** `raised`: an IndexError has ended the generator. */
  datatype Trace = Trace(output: seq<Yield>, buf: Buffers, raised: bool)

  function Source(f: Frame): nat {
    f.id % 0x80
  }

  /** An empty filter admits every source. */
  predicate Admits(ids: set<nat>, source: nat) {
    ids == {} || source in ids
  }

  predicate Relevant(ids: set<nat>, ev: Event) {
    ev.Received? && !ev.frame.extended && Admits(ids, Source(ev.frame))
  }

  function Part(buf: Buffers, source: nat): seq<byte> {
    if source in buf then buf[source] else []
  }

  /** One frame on its source's buffer: a start frame discards what was there. */
  function Append(part: seq<byte>, f: Frame): seq<byte> {
    (if IsStart(f.id) then [] else part) + f.data
  }

  function Handle(ids: set<nat>, buf: Buffers, ev: Event): Trace {
    if ev.Timeout? then Trace([Silence], buf, false)
    else if !Relevant(ids, ev) then Trace([], buf, false)
    else
      var src := Source(ev.frame);
      var buf' := Collect(buf, ev.frame);
      match Decode(buf'[src])
      case Nothing => Trace([], buf', false)
      case Decoded(d) => Trace([Reply(d, src)], buf' - {src}, false)
      case IndexError => Trace([], buf', true)
  }

  function Collect(buf: Buffers, f: Frame): (buf': Buffers)
    ensures Source(f) in buf' && buf'[Source(f)] == Append(Part(buf, Source(f)), f)
  {
    var src := Source(f);
    var kept := if |buf| > 0 && src in buf && IsStart(f.id) then buf - {src} else buf;
    kept[src := Part(kept, src) + f.data]
  }

  function Run(ids: set<nat>, buf: Buffers, events: seq<Event>): Trace
    decreases |events|
  {
    if events == [] then Trace([], buf, false)
    else
      var first := Handle(ids, buf, events[0]);
      if first.raised then first
      else
        Prepend(first.output, Run(ids, first.buf, events[1..]))
  }

  method ReadCanDatagrams(ids: set<nat>, events: seq<Event>) returns (output: seq<Yield>, buf: Buffers, raised: bool)
    ensures Trace(output, buf, raised) == Run(ids, map[], events)
  {
    hide Decode, Run, Append;
    output, buf, raised := [], map[], false;
    var i := 0;
    while i < |events|
      invariant i <= |events|
      invariant Run(ids, map[], events) == Prepend(output, Run(ids, buf, events[i..]))
    {
      ghost var first := Handle(ids, buf, events[i]);
      RunUnfolds(ids, buf, events, i, output);
      hide Prepend;
      var ev := events[i];
      i := i + 1;
      if ev.Timeout? {
        output := output + [Silence];
        continue;
      }
      assert output + [] == output;
      if ev.frame.extended {
        continue;
      }
      var src := ev.frame.id % 0x80;
      if ids != {} && src !in ids {
        continue;
      }
      ghost var collected := Collect(buf, ev.frame);
      if |buf| > 0 && src in buf && IsStart(ev.frame.id) {
        buf := buf - {src};
      }
      buf := buf[src := (if src in buf then buf[src] else []) + ev.frame.data];
      assert buf == collected;
      hide Collect;
      var datagram := Decode(buf[src]);
      if datagram.IndexError? {
        raised := true;
        assert first == Trace([], buf, true);
        RaisedLast(output, first);
        return;
      }
      if datagram.Decoded? {
        buf := buf - {src};
        output := output + [Reply(datagram.datagram, src)];
      }
    }
    RunOfNothing(ids, buf, events);
  }

  lemma RaisedLast(output: seq<Yield>, t: Trace)
    requires t.output == []
    ensures Prepend(output, t) == Trace(output, t.buf, t.raised)
  {
  }

  lemma RunOfNothing(ids: set<nat>, buf: Buffers, events: seq<Event>)
    ensures Run(ids, buf, events[|events|..]) == Trace([], buf, false)
  {
  }

  function Prepend(output: seq<Yield>, t: Trace): Trace {
    t.(output := output + t.output)
  }

  lemma RunUnfolds(ids: set<nat>, buf: Buffers, events: seq<Event>, i: nat, output: seq<Yield>)
    requires i < |events|
    ensures
      var first := Handle(ids, buf, events[i]);
      Prepend(output, Run(ids, buf, events[i..])) ==
        if first.raised then Prepend(output, first)
        else Prepend(output + first.output, Run(ids, first.buf, events[i + 1..]))
  {
    assert events[i..][1..] == events[i + 1..];
  }

  // ----- independence of the sources -----

  /** The frames of one source, in arrival order; timeouts and extended frames are in nobody's lane. */
  function Projection(events: seq<Event>, source: nat): seq<Frame> {
    if events == [] then []
    else if events[0].Received? && !events[0].frame.extended && Source(events[0].frame) == source then
      [events[0].frame] + Projection(events[1..], source)
    else Projection(events[1..], source)
  }

  /** The datagrams handed out for one source. */
  function From(output: seq<Yield>, source: nat): seq<Datagram> {
    if output == [] then []
    else if output[0].Reply? && output[0].source == source then [output[0].datagram] + From(output[1..], source)
    else From(output[1..], source)
  }

  lemma {:induction false} FromConcat(x: seq<Yield>, y: seq<Yield>, source: nat)
    ensures From(x + y, source) == From(x, source) + From(y, source)
  {
    if x == [] {
      assert x + y == y;
    } else {
      FromConcat(x[1..], y, source);
      assert (x + y)[1..] == x[1..] + y && (x + y)[0] == x[0];
      var own := if x[0].Reply? && x[0].source == source then [x[0].datagram] else [];
      assert From(x, source) == own + From(x[1..], source);
      assert From(x + y, source) == own + (From(x[1..], source) + From(y, source));
    }
  }

  datatype Lane = Lane(datagrams: seq<Datagram>, part: seq<byte>, raised: bool)

  /** The reassembly of a single source on its own. */
  function RunLane(part: seq<byte>, frames: seq<Frame>): Lane
    decreases |frames|
  {
    if frames == [] then Lane([], part, false)
    else
      var next := Append(part, frames[0]);
      match Decode(next)
      case Nothing => RunLane(next, frames[1..])
      case Decoded(d) =>
        var rest := RunLane([], frames[1..]);
        Lane([d] + rest.datagrams, rest.part, rest.raised)
      case IndexError => Lane([], next, true)
  }

  /** A run in which no admitted source's lane fails does not fail. */
  lemma {:induction false} RunNotRaised(ids: set<nat>, buf: Buffers, events: seq<Event>)
    requires forall s: nat | Admits(ids, s) :: !RunLane(Part(buf, s), Projection(events, s)).raised
    ensures !Run(ids, buf, events).raised
    decreases |events|
  {
    if events != [] {
      hide Handle, Append, Decode, Part;
      var ev := events[0];
      var first := Handle(ids, buf, ev);
      HandleRaised(ids, buf, ev);
      if Relevant(ids, ev) {
        assert !RunLane(Part(buf, Source(ev.frame)), Projection(events, Source(ev.frame))).raised;
      }
      assert !first.raised;
      forall s: nat | Admits(ids, s)
        ensures !RunLane(Part(first.buf, s), Projection(events[1..], s)).raised
      {
        assert !RunLane(Part(buf, s), Projection(events, s)).raised;
        LaneStep(ids, buf, events, s);
      }
      RunNotRaised(ids, first.buf, events[1..]);
    }
  }

  /** One admitted source sees exactly its own lane. */
  lemma {:induction false} RunIsLane(ids: set<nat>, buf: Buffers, events: seq<Event>, s: nat)
    requires Admits(ids, s) && !Run(ids, buf, events).raised
    requires !RunLane(Part(buf, s), Projection(events, s)).raised
    ensures
      var lane := RunLane(Part(buf, s), Projection(events, s));
      From(Run(ids, buf, events).output, s) == lane.datagrams && Part(Run(ids, buf, events).buf, s) == lane.part
    decreases |events|
  {
    if events != [] {
      hide Handle, Append, Decode, From, Part;
      var first := Handle(ids, buf, events[0]);
      var rest := Run(ids, first.buf, events[1..]);
      assert Run(ids, buf, events) == Prepend(first.output, rest);
      LaneStep(ids, buf, events, s);
      hide RunLane, Projection;
      RunIsLane(ids, first.buf, events[1..], s);
      FromConcat(first.output, rest.output, s);
    } else {
      assert From([], s) == [];
    }
  }

  /** And a source that is not admitted never surfaces. */
  lemma {:induction false} RunIgnores(ids: set<nat>, buf: Buffers, events: seq<Event>, s: nat)
    requires !Admits(ids, s)
    ensures From(Run(ids, buf, events).output, s) == []
    decreases |events|
  {
    if events != [] {
      hide Handle, From;
      var first := Handle(ids, buf, events[0]);
      HandleOther(ids, buf, events[0], s);
      RunIgnores(ids, first.buf, events[1..], s);
      FromConcat(first.output, Run(ids, first.buf, events[1..]).output, s);
    } else {
      assert From([], s) == [];
    }
  }

  /** Whatever the interleaving, each admitted source sees exactly its own lane, and a run in which no
      lane fails does not fail. */
  lemma RunIsLanes(ids: set<nat>, buf: Buffers, events: seq<Event>)
    requires forall s: nat | Admits(ids, s) :: !RunLane(Part(buf, s), Projection(events, s)).raised
    ensures !Run(ids, buf, events).raised
    ensures forall s: nat | Admits(ids, s) ::
              var lane := RunLane(Part(buf, s), Projection(events, s));
              From(Run(ids, buf, events).output, s) == lane.datagrams && Part(Run(ids, buf, events).buf, s) == lane.part
    ensures forall s: nat | !Admits(ids, s) :: From(Run(ids, buf, events).output, s) == []
  {
    hide Run, RunLane, From, Part, Projection, Admits;
    RunNotRaised(ids, buf, events);
    forall s: nat | Admits(ids, s)
      ensures
        var lane := RunLane(Part(buf, s), Projection(events, s));
        From(Run(ids, buf, events).output, s) == lane.datagrams && Part(Run(ids, buf, events).buf, s) == lane.part
    {
      assert !RunLane(Part(buf, s), Projection(events, s)).raised;
      RunIsLane(ids, buf, events, s);
    }
    forall s: nat | !Admits(ids, s)
      ensures From(Run(ids, buf, events).output, s) == []
    {
      RunIgnores(ids, buf, events, s);
    }
  }

  lemma HandleOther(ids: set<nat>, buf: Buffers, ev: Event, s: nat)
    requires !Relevant(ids, ev) || Source(ev.frame) != s
    ensures Part(Handle(ids, buf, ev).buf, s) == Part(buf, s)
    ensures From(Handle(ids, buf, ev).output, s) == []
  {
    hide Decode, IsStart;
  }

  lemma HandleRaised(ids: set<nat>, buf: Buffers, ev: Event)
    ensures Handle(ids, buf, ev).raised <==>
            Relevant(ids, ev) && Decode(Append(Part(buf, Source(ev.frame)), ev.frame)) == IndexError
  {
    hide Decode, Append;
  }

  lemma HandleOwn(ids: set<nat>, buf: Buffers, ev: Event, s: nat)
    requires Relevant(ids, ev) && Source(ev.frame) == s
    requires !Handle(ids, buf, ev).raised
    ensures
      var next := Append(Part(buf, s), ev.frame);
      && Part(Handle(ids, buf, ev).buf, s) == (if Decode(next).Decoded? then [] else next)
      && From(Handle(ids, buf, ev).output, s) == (if Decode(next).Decoded? then [Decode(next).datagram] else [])
  {
  }

  /** One event moves the lane of its own source by one frame, and no other lane. */
  lemma LaneStep(ids: set<nat>, buf: Buffers, events: seq<Event>, s: nat)
    requires events != [] && Admits(ids, s)
    requires !RunLane(Part(buf, s), Projection(events, s)).raised
    ensures
      var first := Handle(ids, buf, events[0]);
      var lane := RunLane(Part(buf, s), Projection(events, s));
      var rest := RunLane(Part(first.buf, s), Projection(events[1..], s));
      lane == rest.(datagrams := From(first.output, s) + rest.datagrams)
  {
    hide Handle, Append;
    var ev := events[0];
    var frames := Projection(events, s);
    if Relevant(ids, ev) && Source(ev.frame) == s {
      assert frames[0] == ev.frame && frames[1..] == Projection(events[1..], s);
      HandleRaised(ids, buf, ev);
      HandleOwn(ids, buf, ev, s);
    } else {
      assert frames == Projection(events[1..], s);
      HandleOther(ids, buf, ev, s);
    }
  }

  // ----- lanes of well-behaved senders -----

  /** The frames of several datagrams sent one after the other. */
  function Stream(sent: seq<Datagram>, source: nat): seq<Frame>
    requires forall d | d in sent :: Encodable(d)
  {
    if sent == [] then [] else Frames(Encode(sent[0]), source) + Stream(sent[1..], source)
  }

  /** What the decoder makes of the first `k` frames followed by frame `k`. */
  lemma FrameCollected(part: seq<byte>, d: Datagram, source: nat, k: nat)
    requires Encodable(d) && source < 0x80
    requires k < |Frames(Encode(d), source)|
    requires k > 0 ==> 8 * k < |Encode(d)| && part == Encode(d)[..8 * k]
    ensures
      var next := Append(part, Frames(Encode(d), source)[k]);
      if k + 1 < |Frames(Encode(d), source)|
      then 8 * (k + 1) < |Encode(d)| && next == Encode(d)[..8 * (k + 1)] && Decode(next) == Nothing
      else Decode(next) == Decoded(d)
  {
    hide Encode, Decode;
    var s := Encode(d);
    FrameAt(s, true, source, k);
    if k + 1 < |Frames(s, source)| {
      assert Append(part, Frames(s, source)[k]) == s[..8 * (k + 1)];
      DecodeStrictPrefix(d, 8 * (k + 1));
    } else {
      assert Append(part, Frames(s, source)[k]) == s;
      DecodeEncode(d);
    }
  }

  /** Frames `k` onwards of a datagram, after the first `k` have been collected, complete it and leave
      an empty buffer for what follows. */
  lemma {:induction false} LaneCompletes(part: seq<byte>, d: Datagram, source: nat, k: nat, more: seq<Frame>)
    requires Encodable(d) && source < 0x80
    requires k < |Frames(Encode(d), source)|
    requires k > 0 ==> 8 * k < |Encode(d)| && part == Encode(d)[..8 * k]
    ensures
      var lane := RunLane(part, Frames(Encode(d), source)[k..] + more);
      var rest := RunLane([], more);
      lane == rest.(datagrams := [d] + rest.datagrams)
    decreases |Frames(Encode(d), source)| - k
  {
    hide Encode, Decode, Frames, Append;
    var frames := Frames(Encode(d), source);
    var all := frames[k..] + more;
    FrameCollected(part, d, source, k);
    assert all[0] == frames[k];
    if k + 1 < |frames| {
      assert all[1..] == frames[k + 1..] + more;
      LaneCompletes(Append(part, frames[k]), d, source, k + 1, more);
    } else {
      assert all[1..] == more;
    }
  }

  lemma {:induction false} LaneOfStream(part: seq<byte>, sent: seq<Datagram>, source: nat)
    requires source < 0x80 && forall d | d in sent :: Encodable(d)
    ensures
      var lane := RunLane(part, Stream(sent, source));
      lane.datagrams == sent && !lane.raised
    decreases |sent|
  {
    if sent != [] {
      hide Encode, Frames, RunLane;
      var frames, more := Frames(Encode(sent[0]), source), Stream(sent[1..], source);
      SomeFrames(Encode(sent[0]), source);
      LaneCompletes(part, sent[0], source, 0, more);
      assert frames[0..] == frames;
      LaneOfStream([], sent[1..], source);
      assert [sent[0]] + sent[1..] == sent;
    }
  }

  lemma SomeFrames(s: seq<byte>, source: nat)
    ensures |Frames(s, source)| > 0
  {
    FrameAt(s, true, source, 0);
  }

  /** Demultiplexing: however the frames of the senders interleave, with timeouts and extended frames
      anywhere and whatever is left in the buffers, each admitted source yields exactly what it sent. */
  lemma Demultiplexing(ids: set<nat>, buf: Buffers, events: seq<Event>, sent: nat -> seq<Datagram>)
    requires forall s: nat, d: Datagram | s < 0x80 && d in sent(s) :: Encodable(d)
    requires forall s: nat | s < 0x80 :: Projection(events, s) == Stream(sent(s), s)
    ensures !Run(ids, buf, events).raised
    ensures forall s: nat | s < 0x80 ::
              From(Run(ids, buf, events).output, s) == if Admits(ids, s) then sent(s) else []
  {
    forall s: nat
      ensures !RunLane(Part(buf, s), Projection(events, s)).raised
      ensures s < 0x80 ==> RunLane(Part(buf, s), Projection(events, s)).datagrams == sent(s)
    {
      if s < 0x80 {
        LaneOfStream(Part(buf, s), sent(s), s);
      } else {
        NoSuchSource(events, s);
      }
    }
    RunIsLanes(ids, buf, events);
  }

  lemma {:induction false} NoSuchSource(events: seq<Event>, s: nat)
    requires s >= 0x80
    ensures Projection(events, s) == []
  {
    if events != [] {
      NoSuchSource(events[1..], s);
    }
  }

  /** Every receive timeout, and nothing else, hands out a `Silence`. */
  function Timeouts(events: seq<Event>): nat {
    if events == [] then 0 else (if events[0].Timeout? then 1 else 0) + Timeouts(events[1..])
  }

  function Silences(output: seq<Yield>): nat {
    if output == [] then 0 else (if output[0].Silence? then 1 else 0) + Silences(output[1..])
  }

  lemma {:induction false} SilencePerTimeout(ids: set<nat>, buf: Buffers, events: seq<Event>)
    requires !Run(ids, buf, events).raised
    ensures Silences(Run(ids, buf, events).output) == Timeouts(events)
    decreases |events|
  {
    if events != [] {
      hide Handle;
      var first := Handle(ids, buf, events[0]);
      HandleSilence(ids, buf, events[0]);
      SilencePerTimeout(ids, first.buf, events[1..]);
      SilencesConcat(first.output, Run(ids, first.buf, events[1..]).output);
    }
  }

  lemma HandleSilence(ids: set<nat>, buf: Buffers, ev: Event)
    ensures Silences(Handle(ids, buf, ev).output) == if ev.Timeout? then 1 else 0
  {
  }

  lemma {:induction false} SilencesConcat(x: seq<Yield>, y: seq<Yield>)
    ensures Silences(x + y) == Silences(x) + Silences(y)
  {
    if x == [] {
      assert x + y == y;
    } else {
      SilencesConcat(x[1..], y);
      assert (x + y)[1..] == x[1..] + y;
    }
  }

  /** What is handed out came off the wire intact: it was decoded from a well-formed buffer. */
  lemma {:induction false} OnlyWellFormed(ids: set<nat>, buf: Buffers, events: seq<Event>, i: nat)
    requires i < |Run(ids, buf, events).output| && Run(ids, buf, events).output[i].Reply?
    ensures exists s :: WellFormed(s, Run(ids, buf, events).output[i].datagram)
    decreases |events|
  {
    hide Handle;
    var first := Handle(ids, buf, events[0]);
    if i < |first.output| {
      HandleWellFormed(ids, buf, events[0], i);
    } else {
      OnlyWellFormed(ids, first.buf, events[1..], i - |first.output|);
    }
  }

  lemma HandleWellFormed(ids: set<nat>, buf: Buffers, ev: Event, i: nat)
    requires i < |Handle(ids, buf, ev).output| && Handle(ids, buf, ev).output[i].Reply?
    ensures exists s :: WellFormed(s, Handle(ids, buf, ev).output[i].datagram)
  {
    hide Decode;
    DecodedIsWellFormed(Collect(buf, ev.frame)[Source(ev.frame)], Handle(ids, buf, ev).output[0].datagram);
  }
}
