/** The client's retry loop: send a command, collect one answer per board, ask the silent ones again. */
module Retry {
  import opened Bytes

  /** What the datagram reader hands out. */
  datatype Event = Silence | Answer(source: byte, data: seq<byte>)

  datatype Options = Options(retryLimit: nat, errorExit: bool, retryForever: bool)

  datatype Verdict = Waiting | Complete | Aborted | GaveUp

  /** `sent` lists the targets of each transmission, the first one included. */
  datatype Session = Session(verdict: Verdict, answers: map<byte, seq<byte>>, retryCount: nat, sent: seq<set<byte>>)

  function SetOf(destinations: seq<byte>): set<byte> {
    set d | d in destinations
  }

  predicate Distinct(destinations: seq<byte>) {
    forall i, j :: 0 <= i < j < |destinations| ==> destinations[i] != destinations[j]
  }

  /** The test at the head of the loop. */
  function Check(destinations: seq<byte>, s: Session): (s': Session)
    ensures s'.sent == s.sent && s'.answers == s.answers && s'.retryCount == s.retryCount
  {
    if |s.answers| < |destinations| then s else s.(verdict := Complete)
  }

  function Start(destinations: seq<byte>): Session {
    Check(destinations, Session(Waiting, map[], 0, [SetOf(destinations)]))
  }

  function Missing(destinations: seq<byte>, s: Session): set<byte> {
    SetOf(destinations) - s.answers.Keys
  }

  function OnSilence(o: Options, destinations: seq<byte>, s: Session): Session {
    var missing := Missing(destinations, s);
    if missing == {} then s
    else if !o.retryForever && s.retryCount >= o.retryLimit then s.(verdict := if o.errorExit then Aborted else GaveUp)
    else s.(sent := s.sent + [missing], retryCount := s.retryCount + 1)
  }

  function Step(o: Options, destinations: seq<byte>, s: Session, ev: Event): Session {
    if s.verdict != Waiting then s
    else
      match ev
      case Silence => OnSilence(o, destinations, s)
      case Answer(source, data) => Check(destinations, s.(answers := s.answers[source := data]))
  }

  function Run(o: Options, destinations: seq<byte>, events: seq<Event>): Session {
    if events == [] then Start(destinations)
    else Step(o, destinations, Run(o, destinations, events[..|events| - 1]), events[|events| - 1])
  }

  lemma RunSnoc(o: Options, destinations: seq<byte>, events: seq<Event>, ev: Event)
    ensures Run(o, destinations, events + [ev]) == Step(o, destinations, Run(o, destinations, events), ev)
  {
    assert (events + [ev])[..|events|] == events;
  }

  /** `events` is what the reader hands out; `Waiting` is returned when they run out first. */
  method WriteCommandRetry(destinations: seq<byte>, o: Options, events: seq<Event>)
    returns (verdict: Verdict, answers: map<byte, seq<byte>>, sent: seq<set<byte>>)
    ensures
      var s := Run(o, destinations, events);
      verdict == s.verdict && answers == s.answers && sent == s.sent
  {
    sent := [SetOf(destinations)];
    answers := map[];
    var retryCount, i := 0, 0;
    while |answers| < |destinations|
      invariant i <= |events|
      invariant
        var s := Session(Waiting, answers, retryCount, sent);
        Run(o, destinations, events[..i]) == Check(destinations, s)
      decreases |events| - i
    {
      if i == |events| {
        assert events[..i] == events;
        return Waiting, answers, sent;
      }
      var dt := events[i];
      assert events[..i + 1][..i] == events[..i];
      i := i + 1;
      if dt.Silence? {
        var timedout := SetOf(destinations) - answers.Keys;
        if |timedout| > 0 {
          if !o.retryForever && retryCount >= o.retryLimit {
            verdict := if o.errorExit then Aborted else GaveUp;
            FinishedStays(o, destinations, events, i);
            return;
          }
          sent := sent + [timedout];
          retryCount := retryCount + 1;
        }
        continue;
      }
      answers := answers[dt.source := dt.data];
    }
    FinishedStays(o, destinations, events, i);
    return Complete, answers, sent;
  }

  /** A session that has ended is not affected by later events. */
  lemma {:induction false} FinishedStays(o: Options, destinations: seq<byte>, events: seq<Event>, i: nat)
    requires i <= |events| && Run(o, destinations, events[..i]).verdict != Waiting
    ensures Run(o, destinations, events) == Run(o, destinations, events[..i])
    decreases |events|
  {
    if i < |events| {
      assert events[..|events| - 1][..i] == events[..i];
      FinishedStays(o, destinations, events[..|events| - 1], i);
    } else {
      assert events[..i] == events;
    }
  }

  // ----- what the loop guarantees -----

  function Sources(events: seq<Event>): set<byte> {
    set i | 0 <= i < |events| && events[i].Answer? :: events[i].source
  }

  lemma SourcesSnoc(events: seq<Event>)
    requires events != []
    ensures
      var last := events[|events| - 1];
      Sources(events) == Sources(events[..|events| - 1]) + (if last.Answer? then {last.source} else {})
  {
    var before := events[..|events| - 1];
    forall b | b in Sources(events)
      ensures b in Sources(before) || (events[|events| - 1].Answer? && b == events[|events| - 1].source)
    {
      var i :| 0 <= i < |events| && events[i].Answer? && events[i].source == b;
      if i < |before| {
        assert before[i] == events[i];
      }
    }
    forall b | b in Sources(before)
      ensures b in Sources(events)
    {
      var i :| 0 <= i < |before| && before[i].Answer? && before[i].source == b;
      assert events[i] == before[i];
    }
  }

  /** While waiting, the answers come from exactly the sources heard so far. */
  lemma {:induction false} AnswersAreSources(o: Options, destinations: seq<byte>, events: seq<Event>)
    requires Run(o, destinations, events).verdict == Waiting
    ensures Run(o, destinations, events).answers.Keys == Sources(events)
  {
    if events != [] {
      AnswersAreSources(o, destinations, events[..|events| - 1]);
      SourcesSnoc(events);
    }
  }

  /** The timeout at position `m` found exactly these destinations unanswered. */
  predicate UnansweredAt(destinations: seq<byte>, events: seq<Event>, m: nat, targets: set<byte>) {
    m < |events| && events[m].Silence? && targets == SetOf(destinations) - Sources(events[..m]) && targets != {}
  }

  /** Each retransmission answers a timeout and goes to exactly the boards that have not answered by then. */
  lemma {:induction false} RetransmitsToUnanswered(o: Options, destinations: seq<byte>, events: seq<Event>, i: nat)
    requires 1 <= i < |Run(o, destinations, events).sent|
    ensures exists m :: UnansweredAt(destinations, events, m, Run(o, destinations, events).sent[i])
  {
    hide Check, Sources;
    var before, last := events[..|events| - 1], |events| - 1;
    var targets := Run(o, destinations, events).sent[i];
    if i < |Run(o, destinations, before).sent| {
      assert targets == Run(o, destinations, before).sent[i];
      RetransmitsToUnanswered(o, destinations, before, i);
      var m: nat :| UnansweredAt(destinations, before, m, targets);
      assert before[..m] == events[..m] && events[m] == before[m];
      assert UnansweredAt(destinations, events, m, targets);
    } else {
      AnswersAreSources(o, destinations, before);
      assert UnansweredAt(destinations, events, last, targets);
    }
  }

  /** The first transmission goes to everybody; without `retryForever` there are at most `retryLimit` more. */
  lemma {:induction false} TransmissionBound(o: Options, destinations: seq<byte>, events: seq<Event>)
    ensures
      var s := Run(o, destinations, events);
      && |s.sent| == s.retryCount + 1 && s.sent[0] == SetOf(destinations)
      && (!o.retryForever ==> |s.sent| <= o.retryLimit + 1)
      && (o.retryForever ==> s.verdict == Waiting || s.verdict == Complete)
  {
    if events != [] {
      TransmissionBound(o, destinations, events[..|events| - 1]);
    }
  }

  /** How many timeouts found some destination unanswered. */
  function UnansweredTimeouts(destinations: seq<byte>, events: seq<Event>): (n: nat)
    ensures n <= |events|
  {
    if events == [] then 0
    else
      var before := events[..|events| - 1];
      UnansweredTimeouts(destinations, before)
      + (if events[|events| - 1].Silence? && !(SetOf(destinations) <= Sources(before)) then 1 else 0)
  }

  /** The limit on retransmissions is not exceeded. */
  predicate WithinLimit(o: Options, timeouts: nat) {
    o.retryForever || timeouts <= o.retryLimit
  }

  /** When the loop goes on, in terms of what happens: exactly while fewer sources than destinations have answered and no more
      timeouts than the limit have found a destination unanswered; each of those has brought one retransmission. */
  lemma {:induction false} WaitingExactly(o: Options, destinations: seq<byte>, events: seq<Event>)
    ensures
      var s, timeouts := Run(o, destinations, events), UnansweredTimeouts(destinations, events);
      && (s.verdict == Waiting <==> |Sources(events)| < |destinations| && WithinLimit(o, timeouts))
      && (s.verdict == Waiting ==> |s.sent| == 1 + timeouts && s.retryCount == timeouts)
  {
    if events == [] {
      assert Sources(events) == {};
    } else {
      WaitingExactly(o, destinations, events[..|events| - 1]);
      if Run(o, destinations, events[..|events| - 1]).verdict == Waiting {
        WaitingStep(o, destinations, events);
      } else {
        SourcesGrow(events);
      }
    }
  }

  lemma WaitingStep(o: Options, destinations: seq<byte>, events: seq<Event>)
    requires events != []
    requires
      var before := events[..|events| - 1];
      var s, timeouts := Run(o, destinations, before), UnansweredTimeouts(destinations, before);
      s.verdict == Waiting && |Sources(before)| < |destinations| && WithinLimit(o, timeouts)
      && |s.sent| == 1 + timeouts && s.retryCount == timeouts
    ensures
      var s, timeouts := Run(o, destinations, events), UnansweredTimeouts(destinations, events);
      && (s.verdict == Waiting <==> |Sources(events)| < |destinations| && WithinLimit(o, timeouts))
      && (s.verdict == Waiting ==> |s.sent| == 1 + timeouts && s.retryCount == timeouts)
  {
    var before := events[..|events| - 1];
    SourcesSnoc(events);
    AnswersAreSources(o, destinations, before);
    AnsweredStep(o, destinations, Run(o, destinations, before), events[|events| - 1]);
    hide Sources;
  }

  lemma SourcesGrow(events: seq<Event>)
    requires events != []
    ensures |Sources(events[..|events| - 1])| <= |Sources(events)|
  {
    SourcesSnoc(events);
    var before, last := Sources(events[..|events| - 1]), events[|events| - 1];
    if last.Answer? && last.source !in before {
      assert Sources(events) == before + {last.source};
    } else {
      assert Sources(events) == before;
    }
  }

  /** One event of a session that goes on until then. */
  lemma AnsweredStep(o: Options, destinations: seq<byte>, s: Session, ev: Event)
    requires s.verdict == Waiting
    ensures
      var s' := Step(o, destinations, s, ev);
      match ev
      case Answer(source, _) =>
        s'.answers.Keys == s.answers.Keys + {source} && |s'.answers| == |s.answers.Keys + {source}|
        && (s'.verdict == Waiting <==> |s.answers.Keys + {source}| < |destinations|)
      case Silence => s'.answers == s.answers && |s.answers| == |s.answers.Keys|
  {
    if ev.Answer? {
      var answers := s.answers[ev.source := ev.data];
      assert answers.Keys == s.answers.Keys + {ev.source};
      assert |answers| == |answers.Keys|;
    } else {
      assert |s.answers| == |s.answers.Keys|;
    }
  }

  /** How the loop is left: normally by the answer that makes as many sources as destinations; otherwise at the timeout after
      `retryLimit` + 1 transmissions, with an exit or not as asked for. */
  lemma LeavesExactly(o: Options, destinations: seq<byte>, events: seq<Event>, ev: Event)
    requires Run(o, destinations, events).verdict == Waiting && Run(o, destinations, events + [ev]).verdict != Waiting
    ensures
      var s := Run(o, destinations, events + [ev]);
      && (s.verdict == Complete <==> ev.Answer?)
      && (ev.Answer? ==> |Sources(events + [ev])| == |destinations|)
      && (ev.Silence? ==>
            && !o.retryForever && |s.sent| == o.retryLimit + 1 && !(SetOf(destinations) <= Sources(events))
            && s.verdict == if o.errorExit then Aborted else GaveUp)
  {
    var all := events + [ev];
    assert all[..|all| - 1] == events;
    RunSnoc(o, destinations, events, ev);
    WaitingExactly(o, destinations, events);
    WaitingExactly(o, destinations, all);
    SourcesSnoc(all);
    AnswersAreSources(o, destinations, events);
    hide Run, UnansweredTimeouts;
    if ev.Answer? {
      OneMore(Sources(events), ev.source);
    }
  }

  lemma OneMore(s: set<byte>, x: byte)
    ensures |s + {x}| <= |s| + 1
  {
    if x in s {
      assert s + {x} == s;
    }
  }

  /** With `errorExit`, a session is never left with answers missing: it completes, aborts or goes on. */
  lemma {:induction false} NeverGivesUp(o: Options, destinations: seq<byte>, events: seq<Event>)
    requires o.errorExit
    ensures Run(o, destinations, events).verdict != GaveUp
  {
    if events != [] {
      NeverGivesUp(o, destinations, events[..|events| - 1]);
    }
  }

  lemma {:induction false} DistinctSize(destinations: seq<byte>)
    requires Distinct(destinations)
    ensures |SetOf(destinations)| == |destinations|
  {
    if destinations != [] {
      var before, last := destinations[..|destinations| - 1], destinations[|destinations| - 1];
      DistinctSize(before);
      assert SetOf(destinations) == SetOf(before) + {last};
      assert last !in SetOf(before);
    }
  }

  lemma {:induction false} AnswerCount(o: Options, destinations: seq<byte>, events: seq<Event>)
    ensures
      var s := Run(o, destinations, events);
      && |s.answers| <= |destinations|
      && (s.verdict == Complete <==> |s.answers| == |destinations|)
  {
    if events != [] {
      AnswerCount(o, destinations, events[..|events| - 1]);
      var s := Run(o, destinations, events[..|events| - 1]);
      var last := events[|events| - 1];
      if last.Answer? {
        var answers := s.answers[last.source := last.data];
        assert answers.Keys == s.answers.Keys + {last.source};
        assert |answers| == |answers.Keys| && |s.answers| == |s.answers.Keys|;
      }
    }
  }

  /** A session that is complete has an answer from every destination if it has one from nobody else. */
  lemma OnlyDestinations(o: Options, destinations: seq<byte>, events: seq<Event>)
    requires Distinct(destinations) && Run(o, destinations, events).verdict == Complete
    requires Run(o, destinations, events).answers.Keys <= SetOf(destinations)
    ensures Run(o, destinations, events).answers.Keys == SetOf(destinations)
  {
    AnswerCount(o, destinations, events);
    DistinctSize(destinations);
    var answers := Run(o, destinations, events).answers;
    assert |answers.Keys| == |answers|;
    SubsetOfSameSize(answers.Keys, SetOf(destinations));
  }

  /** The loop is left normally at event `n`. */
  predicate CompletesAt(o: Options, destinations: seq<byte>, events: seq<Event>, n: nat) {
    && n <= |events|
    && Run(o, destinations, events[..n]).verdict == Complete
    && (n > 0 ==> Run(o, destinations, events[..n - 1]).verdict == Waiting)
  }

  /** Every run that completes does so at some event. */
  lemma {:induction false} CompletionPoint(o: Options, destinations: seq<byte>, events: seq<Event>) returns (n: nat)
    requires Run(o, destinations, events).verdict == Complete
    ensures CompletesAt(o, destinations, events, n)
  {
    assert events[..|events|] == events;
    if events == [] || Run(o, destinations, events[..|events| - 1]).verdict == Waiting {
      n := |events|;
    } else {
      var before := events[..|events| - 1];
      n := CompletionPoint(o, destinations, before);
      assert before[..n] == events[..n] && (n > 0 ==> before[..n - 1] == events[..n - 1]);
    }
  }

  /** The answers of a completed session come from exactly the sources heard until then. */
  lemma AnswersAtCompletion(o: Options, destinations: seq<byte>, events: seq<Event>, n: nat)
    requires CompletesAt(o, destinations, events, n)
    ensures Run(o, destinations, events).answers.Keys == Sources(events[..n])
  {
    FinishedStays(o, destinations, events, n);
    if n > 0 {
      var heard := events[..n];
      assert heard[..|heard| - 1] == events[..n - 1];
      AnswersAreSources(o, destinations, events[..n - 1]);
      SourcesSnoc(heard);
    }
  }

  /** Until the loop is left, and when it is, the answer kept from each source is the last one heard. */
  lemma {:induction false} LatestAnswer(o: Options, destinations: seq<byte>, events: seq<Event>, i: nat)
    requires i < |events| && events[i].Answer? && Run(o, destinations, events[..|events| - 1]).verdict == Waiting
    requires forall j :: i < j < |events| && events[j].Answer? ==> events[j].source != events[i].source
    ensures
      var answers := Run(o, destinations, events).answers;
      events[i].source in answers && answers[events[i].source] == events[i].data
    decreases |events|
  {
    var before, last := events[..|events| - 1], events[|events| - 1];
    var s := Run(o, destinations, before);
    assert Run(o, destinations, events) == Step(o, destinations, s, last);
    if i < |before| {
      assert before[i] == events[i];
      assert Run(o, destinations, before[..|before| - 1]).verdict == Waiting by {
        hide SetOf;
      }
      LatestAnswer(o, destinations, before, i);
    }
    hide Run;
    AnswerKept(o, destinations, s, last);
  }

  lemma AnswerKept(o: Options, destinations: seq<byte>, s: Session, ev: Event)
    requires s.verdict == Waiting
    ensures
      Step(o, destinations, s, ev).answers == if ev.Answer? then s.answers[ev.source := ev.data] else s.answers
  {
  }

  /** Answers are counted whoever sent them: in a run that leaves the loop normally, there is an answer from every destination
      exactly if nobody else was heard before the loop was left. */
  lemma CompleteExactly(o: Options, destinations: seq<byte>, events: seq<Event>, n: nat)
    requires Distinct(destinations) && CompletesAt(o, destinations, events, n)
    ensures Run(o, destinations, events).answers.Keys == SetOf(destinations) <==> Sources(events[..n]) <= SetOf(destinations)
  {
    AnswersAtCompletion(o, destinations, events, n);
    FinishedStays(o, destinations, events, n);
    hide Run, Sources;
    if Sources(events[..n]) <= SetOf(destinations) {
      OnlyDestinations(o, destinations, events);
    }
  }

  lemma SubsetOfSameSize(a: set<byte>, b: set<byte>)
    requires a <= b && |a| == |b|
    ensures a == b
  {
    assert |b - a| == |b| - |a|;
  }

  /** An answer from a stranger is taken for the missing one. */
  lemma StrangerCompletes(o: Options, destination: byte, stranger: byte, data: seq<byte>)
    requires stranger != destination
    ensures
      var s := Run(o, [destination], [Answer(stranger, data)]);
      s.verdict == Complete && destination !in s.answers
  {
    assert [Answer(stranger, data)][..0] == [];
    assert |Start([destination]).answers| == 0;
    var answers: map<byte, seq<byte>> := map[stranger := data];
    assert answers.Keys == {stranger};
    assert |answers| == |answers.Keys| == 1;
  }
}
