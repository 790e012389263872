/** How the flashing tool judges a round of answers, and what it asks in which order. */
module Rounds {
  import opened Bytes
  import opened Wrappers
  import opened Commands
  import opened Network
  import Retry

  // ----- replies -----

  /** `msgpack.unpackb` of a reply, compared as a number; anything but a single byte raises. */
  function Code(reply: seq<byte>): Option<int> {
    if |reply| != 1 then None
    else if reply[0] < 0x80 then Some(reply[0])
    else if reply[0] == TRUE then Some(1)
    else if reply[0] == FALSE then Some(0)
    else None
  }

  /** Which replies are read as a number; 1 and true are the successes. */
  lemma CodeExactly(reply: seq<byte>, c: int)
    ensures Code(reply) == Some(c)
       <==> (0 <= c < 0x80 && reply == [c]) || (c == 1 && reply == [0xC3]) || (c == 0 && reply == [0xC2])
  {
    if |reply| == 1 {
      assert reply == [reply[0]];
    }
  }

  type Answers = map<byte, seq<byte>>

  predicate AnyCode(answers: Answers, codes: set<int>) {
    exists d :: d in answers && Code(answers[d]).Some? && Code(answers[d]).value in codes
  }

  ghost predicate Garbled(answers: Answers) {
    exists d :: d in answers && Code(answers[d]).None?
  }

  ghost predicate AnyFailed(answers: Answers) {
    exists d :: d in answers && Code(answers[d]) != Some(1)
  }

  const RETRIED: set<int> := {2, 6}
  const ERASE_FATAL: set<int> := {10, 11, 12}
  const WRITE_FATAL: set<int> := {20, 21, 22, 24}

  /** The evaluation of one round of answers. */
  method Assess(answers: Answers, fatalCodes: set<int>) returns (raised: bool, failed: bool, retry: bool, fatal: bool)
    requires 1 !in fatalCodes
    ensures raised <==> Garbled(answers)
    ensures !raised ==> (failed <==> AnyFailed(answers))
    ensures !raised ==> (retry <==> AnyCode(answers, RETRIED)) && (fatal <==> AnyCode(answers, fatalCodes))
  {
    raised, failed, retry, fatal := false, false, false, false;
    var left := answers.Keys;
    while left != {}
      invariant left <= answers.Keys
      invariant raised <==> exists d :: d in answers.Keys - left && Code(answers[d]).None?
      invariant failed <==> exists d :: d in answers.Keys - left && Code(answers[d]) != Some(1)
      invariant retry <==> exists d :: d in answers.Keys - left && Code(answers[d]).Some? && Code(answers[d]).value in RETRIED
      invariant fatal <==> exists d :: d in answers.Keys - left && Code(answers[d]).Some? && Code(answers[d]).value in fatalCodes
      decreases left
    {
      var d :| d in left;
      var code := Code(answers[d]);
      if code.None? {
        raised, failed := true, true;
      } else if code.value != 1 {
        failed := true;
        if code.value in RETRIED {
          retry := true;
        }
        if code.value in fatalCodes {
          fatal := true;
        }
      }
      left := left - {d};
    }
  }

  // ----- the record of a procedure -----

  const ERASE_OPTIONS := Retry.Options(5, false, false)
  const WRITE_OPTIONS := Retry.Options(0, false, true)
  const CONFIG_OPTIONS := Retry.Options(3, true, false)

  /** One request with its retries, and what came of it. */
  datatype Exchange = Exchange(request: Request, destinations: seq<byte>, options: Retry.Options, verdict: Retry.Verdict, answers: Answers)

  datatype Status = Interrupted | Raised | Exited | Finished

  /** A round of answers with complaints about the transmission, and nothing worse, is repeated. */
  ghost predicate AskedAgain(e: Exchange, fatal: set<int>) {
    e.verdict != Retry.Waiting && !Garbled(e.answers) && AnyCode(e.answers, {2, 6}) && !AnyCode(e.answers, fatal)
  }

  /** The rounds for one page: the same request as long as it is to be repeated. The last round's answers decide how it ends. */
  ghost predicate PageRounds(rounds: seq<Exchange>, r: Request, destinations: seq<byte>, o: Retry.Options, fatal: set<int>,
                             status: Status, errors: bool) {
    && rounds != []
    && (forall e :: e in rounds ==> e.request == r && e.destinations == destinations && e.options == o)
    && (forall i :: 0 <= i < |rounds| - 1 ==> AskedAgain(rounds[i], fatal))
    && PageEnds(rounds[|rounds| - 1], fatal, status, errors)
  }

  ghost predicate PageEnds(e: Exchange, fatal: set<int>, status: Status, errors: bool) {
    match status
    case Interrupted => e.verdict == Retry.Waiting && !errors
    case Raised => e.verdict != Retry.Waiting && Garbled(e.answers) && !errors
    case Exited => e.verdict != Retry.Waiting && !Garbled(e.answers) && AnyCode(e.answers, fatal) && !errors
    case Finished =>
      && e.verdict != Retry.Waiting && !Garbled(e.answers) && !AnyCode(e.answers, fatal) && !AnyCode(e.answers, {2, 6})
      && errors == AnyFailed(e.answers)
  }

  /** The rounds before the end of a page's loop: each is to be repeated, or the last one is not and ends it. */
  ghost predicate RoundsSoFar(rounds: seq<Exchange>, r: Request, destinations: seq<byte>, o: Retry.Options, fatal: set<int>,
                              retry: bool, errors: bool) {
    && (forall e :: e in rounds ==> e.request == r && e.destinations == destinations && e.options == o)
    && (forall i :: 0 <= i < |rounds| - 1 ==> AskedAgain(rounds[i], fatal))
    && (retry ==> !errors && (rounds != [] ==> AskedAgain(rounds[|rounds| - 1], fatal)))
    && (!retry ==> rounds != [] && PageEnds(rounds[|rounds| - 1], fatal, Finished, errors))
  }

  lemma RoundsBegin(r: Request, destinations: seq<byte>, o: Retry.Options, fatal: set<int>)
    ensures RoundsSoFar([], r, destinations, o, fatal, true, false)
  {
  }

  lemma RoundsDone(rounds: seq<Exchange>, r: Request, destinations: seq<byte>, o: Retry.Options, fatal: set<int>, errors: bool)
    requires RoundsSoFar(rounds, r, destinations, o, fatal, false, errors)
    ensures PageRounds(rounds, r, destinations, o, fatal, Finished, errors)
  {
    hide PageEnds, AskedAgain;
  }

  lemma RoundInterrupted(earlier: seq<Exchange>, e: Exchange, fatal: set<int>)
    requires RoundsSoFar(earlier, e.request, e.destinations, e.options, fatal, true, false) && e.verdict == Retry.Waiting
    ensures PageRounds(earlier + [e], e.request, e.destinations, e.options, fatal, Interrupted, false)
  {
    hide AskedAgain;
  }

  /** What the evaluation of a round's answers means for the page. */
  lemma RoundEnds(earlier: seq<Exchange>, e: Exchange, fatal: set<int>, raised: bool, failed: bool, retry: bool, isFatal: bool)
    requires RoundsSoFar(earlier, e.request, e.destinations, e.options, fatal, true, false)
    requires e.verdict != Retry.Waiting && 1 !in fatal
    requires raised <==> Garbled(e.answers)
    requires !raised ==> (failed <==> AnyFailed(e.answers)) && (retry <==> AnyCode(e.answers, RETRIED)) && (isFatal <==> AnyCode(e.answers, fatal))
    ensures
      var rounds := earlier + [e];
      && (raised ==> PageRounds(rounds, e.request, e.destinations, e.options, fatal, Raised, false))
      && (!raised && failed && isFatal ==> PageRounds(rounds, e.request, e.destinations, e.options, fatal, Exited, false))
      && (!raised && failed && !isFatal && retry ==> RoundsSoFar(rounds, e.request, e.destinations, e.options, fatal, true, false))
      && (!raised && !(failed && (isFatal || retry)) ==> RoundsSoFar(rounds, e.request, e.destinations, e.options, fatal, false, failed))
  {
    var rounds := earlier + [e];
    if !raised && !failed {
      NoneFailed(e.answers, fatal);
      NoneFailed(e.answers, {2, 6});
    }
    hide AnyCode, Garbled, AnyFailed;
    assert rounds[..|earlier|] == earlier && rounds[|rounds| - 1] == e;
  }

  lemma NoneFailed(answers: Answers, codes: set<int>)
    requires !AnyFailed(answers) && 1 !in codes
    ensures !AnyCode(answers, codes)
  {
  }

  lemma NoPages(requests: nat -> Request, destinations: seq<byte>, o: Retry.Options, fatal: set<int>)
    ensures Phase([], requests, destinations, o, fatal, Finished) && Joined([]) == [] && !AnyErrors([])
  {
  }

  lemma NothingJoined()
    ensures Joined([]) == [] && !AnyErrors([])
  {
  }

  /** The rounds for one page, and whether an error was noted for it. */
  datatype PageLog = PageLog(rounds: seq<Exchange>, errors: bool)

  function Joined(pages: seq<PageLog>): seq<Exchange> {
    if pages == [] then [] else Joined(pages[..|pages| - 1]) + pages[|pages| - 1].rounds
  }

  ghost predicate AnyErrors(pages: seq<PageLog>) {
    exists k :: 0 <= k < |pages| && pages[k].errors
  }

  /** The requests of a phase, page by page from the first one on; all pages but the last one begun are finished. */
  ghost predicate Phase(pages: seq<PageLog>, requests: nat -> Request, destinations: seq<byte>, o: Retry.Options, fatal: set<int>,
                        status: Status) {
    forall k :: 0 <= k < |pages| ==>
      PageRounds(pages[k].rounds, requests(k), destinations, o, fatal, if k + 1 < |pages| then Finished else status, pages[k].errors)
  }

  lemma PhaseExtends(pages: seq<PageLog>, page: PageLog, requests: nat -> Request, destinations: seq<byte>, o: Retry.Options,
                     fatal: set<int>, status: Status)
    requires Phase(pages, requests, destinations, o, fatal, Finished)
    requires PageRounds(page.rounds, requests(|pages|), destinations, o, fatal, status, page.errors)
    ensures Phase(pages + [page], requests, destinations, o, fatal, status)
  {
    hide PageRounds;
    var all := pages + [page];
    forall k | 0 <= k < |all|
      ensures PageRounds(all[k].rounds, requests(k), destinations, o, fatal, if k + 1 < |all| then Finished else status, all[k].errors)
    {
      if k < |pages| {
        assert all[k] == pages[k];
      }
    }
  }

  lemma JoinedExtends(pages: seq<PageLog>, page: PageLog)
    ensures Joined(pages + [page]) == Joined(pages) + page.rounds
    ensures AnyErrors(pages + [page]) == (AnyErrors(pages) || page.errors)
  {
    var all := pages + [page];
    assert all[..|pages|] == pages;
    if AnyErrors(pages) {
      var k :| 0 <= k < |pages| && pages[k].errors;
      assert all[k].errors;
    }
    assert page.errors ==> all[|pages|].errors;
  }

  /** The two requests that configure the application: the second only if the first one's retry loop did not end the tool. */
  ghost predicate Configuring(log: seq<Exchange>, size: u32, crc: u32, destinations: seq<byte>, status: Status) {
    var o := Retry.Options(3, true, false);
    && 1 <= |log| <= 2
    && (forall e :: e in log ==> e.destinations == destinations && e.options == o)
    && log[0].request == UpdateRequest(size, crc)
    && (|log| == 2 <==> log[0].verdict !in {Retry.Waiting, Retry.Aborted})
    && (|log| == 2 ==> log[1].request == SaveRequest)
    && var verdict := log[|log| - 1].verdict;
       status == if verdict == Retry.Waiting then Interrupted else if verdict == Retry.Aborted then Exited else Finished
  }
}
