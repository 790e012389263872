/** The receive queue under concurrency: the interrupt handler's and the main loop's individual loads and stores,
    interleaved in any order. */
module FifoRace {

  /** The words of a buffered frame: identifier, length and eight data bytes. */
  type Slot = w: seq<int> | |w| == WORDS witness seq(WORDS, _ => 0)

  const WORDS := 10

  /** Where the interrupt handler stands, with the values in its registers. */
  datatype Isr =
    | Waiting
    | FullCheck(push: nat)
    | Storing(frame: Slot, stored: nat)
    | Advancing
    | AdvanceStore(push: nat)

  /** Where the main loop stands: the two emptiness checks, the copy of the oldest entry, and its removal. */
  datatype Main =
    | Idle
    | EmptyCheck(pop: nat)
    | Recheck
    | RecheckPop(pop: nat)
    | Fetch
    | Copying(index: nat, words: seq<int>)
    | Dropping(frame: Slot)
    | DropStore(frame: Slot, pop: nat)

  /** Shared memory, the two program counters, and the frames accepted and returned so far. */
  datatype State = State(
    buffer: seq<Slot>,
    push: nat,
    pop: nat,
    isr: Isr,
    main: Main,
    accepted: seq<Slot>,
    popped: seq<Slot>)

  /** `Interrupt(f)`: one access by the handler, `f` being the frame the peripheral holds. */
  datatype Access = Interrupt(frame: Slot) | MainLoop

  predicate Ready(s: State) {
    2 <= |s.buffer| && s.push < |s.buffer| && s.pop < |s.buffer|
  }

  function IsrStep(s: State, f: Slot): State
    requires Ready(s)
  {
    var n := |s.buffer|;
    match s.isr
    case Waiting => s.(isr := FullCheck(s.push))
    case FullCheck(push) =>
      if (push + 1) % n == s.pop then s.(isr := Waiting)
      else s.(isr := Storing(f, 0), accepted := s.accepted + [f])
    case Storing(frame, k) =>
      if k < WORDS then
        s.(buffer := s.buffer[s.push := s.buffer[s.push][k := frame[k]]],
           isr := if k + 1 < WORDS then Storing(frame, k + 1) else Advancing)
      else s
    case Advancing => s.(isr := AdvanceStore(s.push))
    case AdvanceStore(push) => s.(push := (push + 1) % n, isr := Waiting)
  }

  function MainStep(s: State): State
    requires Ready(s)
  {
    match s.main
    case Idle => s.(main := EmptyCheck(s.pop))
    case EmptyCheck(pop) => s.(main := if pop == s.push then Idle else Recheck)
    case Recheck => s.(main := RecheckPop(s.pop))
    case RecheckPop(pop) => s.(main := if pop == s.push then Idle else Fetch)
    case Fetch => s.(main := Copying(s.pop, []))
    case Copying(index, words) =>
      if |words| < WORDS && index < |s.buffer| then
        var words' := words + [s.buffer[index][|words|]];
        s.(main := if |words'| < WORDS then Copying(index, words') else Dropping(words'))
      else s
    case Dropping(frame) => s.(main := DropStore(frame, s.pop))
    case DropStore(frame, pop) => s.(pop := (pop + 1) % |s.buffer|, main := Idle, popped := s.popped + [frame])
  }

  function Step(s: State, a: Access): State
    requires Ready(s)
  {
    match a
    case Interrupt(f) => IsrStep(s, f)
    case MainLoop => MainStep(s)
  }

  predicate Initial(s: State) {
    && 2 <= |s.buffer| && s.push == s.pop == 0
    && s.isr == Waiting && s.main == Idle && s.accepted == s.popped == []
  }

  // ----- invariant -----

  /** The slot of the `j`-th frame. */
  function Wrap(j: nat, n: nat): (i: nat)
    requires n > 0
    ensures i < n
    decreases j
  {
    if j < n then j else Wrap(j - n, n)
  }

  lemma {:induction false} WrapNext(j: nat, n: nat)
    requires n > 0
    ensures Wrap(j + 1, n) == (Wrap(j, n) + 1) % n
    decreases j
  {
    if j >= n {
      WrapNext(j - n, n);
    }
  }

  /** Fewer than `n` apart, two frames use different slots. */
  lemma {:induction false} WrapDistinct(i: nat, j: nat, n: nat)
    requires i < j < i + n
    ensures Wrap(i, n) != Wrap(j, n)
    decreases i
  {
    if i >= n {
      WrapDistinct(i - n, j - n, n);
    }
  }

  lemma {:induction false} WrapPeriod(j: nat, n: nat)
    requires n > 0
    ensures Wrap(j + n, n) == Wrap(j, n)
  {
  }

  /** The number of frames completely stored: all accepted ones but the one in the handler's hands. */
  function Stored(s: State): int {
    |s.accepted| - (if s.isr.Storing? || s.isr.Advancing? || s.isr.AdvanceStore? then 1 else 0)
  }

  predicate Indices(s: State) {
    var n, w, r := |s.buffer|, Stored(s), |s.popped|;
    && 2 <= n && 0 <= r <= w <= r + n - 1
    && (w < |s.accepted| ==> w <= r + n - 2)
    && s.push == Wrap(w, n) && s.pop == Wrap(r, n)
  }

  /** Every stored, unread frame is intact in its slot, and what was returned is what was accepted. */
  predicate Contents(s: State)
    requires Indices(s)
  {
    && s.popped == s.accepted[..|s.popped|]
    && forall j :: |s.popped| <= j < Stored(s) ==> s.buffer[Wrap(j, |s.buffer|)] == s.accepted[j]
  }

  predicate IsrInv(s: State)
    requires Indices(s)
  {
    match s.isr
    case Waiting => true
    case FullCheck(push) => push == s.push
    case Storing(f, k) => k < WORDS && f == s.accepted[Stored(s)] && s.buffer[s.push][..k] == f[..k]
    case Advancing => s.buffer[s.push] == s.accepted[Stored(s)]
    case AdvanceStore(push) => push == s.push && s.buffer[s.push] == s.accepted[Stored(s)]
  }

  predicate MainInv(s: State)
    requires Indices(s)
  {
    var r := |s.popped|;
    match s.main
    case Idle => true
    case EmptyCheck(pop) => pop == s.pop
    case Recheck => r < Stored(s)
    case RecheckPop(pop) => pop == s.pop && r < Stored(s)
    case Fetch => r < Stored(s)
    case Copying(index, words) => r < Stored(s) && index == s.pop && |words| < WORDS && words == s.accepted[r][..|words|]
    case Dropping(f) => r < Stored(s) && f == s.accepted[r]
    case DropStore(f, pop) => r < Stored(s) && f == s.accepted[r] && pop == s.pop
  }

  predicate Inv(s: State) {
    Indices(s) && Contents(s) && IsrInv(s) && MainInv(s)
  }

  /** The handler finds the queue full exactly when n - 1 frames are waiting. */
  lemma FullExactly(s: State)
    requires Indices(s)
    ensures (s.push + 1) % |s.buffer| == s.pop <==> Stored(s) == |s.popped| + |s.buffer| - 1
  {
    var n, w, r := |s.buffer|, Stored(s), |s.popped|;
    WrapNext(w, n);
    if w == r + n - 1 {
      WrapPeriod(r, n);
    } else {
      WrapDistinct(r, w + 1, n);
    }
  }

  lemma EmptyExactly(s: State)
    requires Indices(s)
    ensures s.push == s.pop <==> Stored(s) == |s.popped|
  {
    if Stored(s) > |s.popped| {
      WrapDistinct(|s.popped|, Stored(s), |s.buffer|);
    }
  }

  /** The slot being written belongs to no unread frame. */
  lemma WriteSlotIsFree(s: State, j: nat)
    requires Indices(s) && Stored(s) < |s.accepted| && |s.popped| <= j < Stored(s)
    ensures Wrap(j, |s.buffer|) != s.push
  {
    WrapDistinct(j, Stored(s), |s.buffer|);
  }

  lemma StoringKeeps(s: State, f: Slot)
    requires Inv(s) && s.isr.Storing?
    ensures Inv(IsrStep(s, f))
  {
    var s' := IsrStep(s, f);
    var frame, k := s.isr.frame, s.isr.stored;
    forall j | |s.popped| <= j < Stored(s)
      ensures s'.buffer[Wrap(j, |s.buffer|)] == s.buffer[Wrap(j, |s.buffer|)]
    {
      WriteSlotIsFree(s, j);
    }
    assert s'.buffer[s.push][..k + 1] == s.buffer[s.push][..k] + [frame[k]];
    assert k + 1 == WORDS ==> s'.buffer[s.push] == s'.buffer[s.push][..k + 1] && frame[..k + 1] == frame;
  }

  lemma FullCheckKeeps(s: State, f: Slot)
    requires Inv(s) && s.isr.FullCheck?
    ensures Inv(IsrStep(s, f))
  {
    FullExactly(s);
    hide Wrap;
  }

  lemma AdvanceKeeps(s: State, f: Slot)
    requires Inv(s) && s.isr.AdvanceStore?
    ensures Inv(IsrStep(s, f))
  {
    WrapNext(Stored(s), |s.buffer|);
    hide Wrap;
  }

  lemma IsrKeeps(s: State, f: Slot)
    requires Inv(s)
    ensures Inv(IsrStep(s, f))
  {
    match s.isr {
      case FullCheck(push) => FullCheckKeeps(s, f);
      case Storing(frame, k) => StoringKeeps(s, f);
      case AdvanceStore(push) => AdvanceKeeps(s, f);
      case _ =>
    }
  }

  lemma CopyingKeeps(s: State)
    requires Inv(s) && s.main.Copying?
    ensures Inv(MainStep(s))
  {
    var oldest, words := s.accepted[|s.popped|], s.main.words;
    assert s.buffer[s.main.index] == oldest;
    assert words + [oldest[|words|]] == oldest[..|words| + 1];
    assert |words| + 1 == WORDS ==> oldest[..|words| + 1] == oldest;
  }

  lemma DropKeeps(s: State)
    requires Inv(s) && s.main.DropStore?
    ensures Inv(MainStep(s))
  {
    WrapNext(|s.popped|, |s.buffer|);
    hide Wrap;
    var s' := MainStep(s);
    assert s'.popped == s.accepted[..|s'.popped|];
  }

  lemma MainKeeps(s: State)
    requires Inv(s)
    ensures Inv(MainStep(s))
  {
    match s.main {
      case EmptyCheck(pop) => EmptyExactly(s);
      case RecheckPop(pop) => EmptyExactly(s);
      case Copying(index, words) => CopyingKeeps(s);
      case DropStore(frame, pop) => DropKeeps(s);
      case _ =>
    }
  }

  // ----- every run -----

  function Run(s: State, accesses: seq<Access>): (s': State)
    requires Inv(s)
    ensures Inv(s') && |s'.buffer| == |s.buffer|
  {
    if accesses == [] then s
    else
      var before := Run(s, accesses[..|accesses| - 1]);
      StepKeeps(before, accesses[|accesses| - 1]);
      Step(before, accesses[|accesses| - 1])
  }

  lemma StepKeeps(s: State, a: Access)
    requires Inv(s)
    ensures Inv(Step(s, a)) && |Step(s, a).buffer| == |s.buffer|
  {
    match a
    case Interrupt(f) => IsrKeeps(s, f);
    case MainLoop => MainKeeps(s);
  }

  lemma InitialInv(s: State)
    requires Initial(s)
    ensures Inv(s)
  {
  }

  /** For any capacity and any interleaving of the two sides' accesses: the frames returned are a prefix of those
      accepted, untorn and in order, at most n - 1 are pending, and no access overwrites an unread frame. */
  lemma QueueSafety(s0: State, accesses: seq<Access>, a: Access)
    requires Initial(s0)
    ensures Inv(s0)
    ensures
      var s := Run(s0, accesses);
      && |s.buffer| == |s0.buffer|
      && s.popped <= s.accepted
      && Stored(s) - |s.popped| <= |s.buffer| - 1
      && |s.accepted| - |s.popped| <= |s.buffer| - 1
      && forall j :: |s.popped| <= j < Stored(s) ==>
           && s.buffer[Wrap(j, |s.buffer|)] == s.accepted[j]
           && Step(s, a).buffer[Wrap(j, |s.buffer|)] == s.accepted[j]
  {
    InitialInv(s0);
    var s := Run(s0, accesses);
    hide Run, Inv, Wrap;
    QueueIntact(s, a);
  }

  lemma QueueIntact(s: State, a: Access)
    requires Inv(s)
    ensures
      && s.popped <= s.accepted
      && Stored(s) - |s.popped| <= |s.buffer| - 1
      && |s.accepted| - |s.popped| <= |s.buffer| - 1
      && forall j :: |s.popped| <= j < Stored(s) ==>
           && s.buffer[Wrap(j, |s.buffer|)] == s.accepted[j]
           && Step(s, a).buffer[Wrap(j, |s.buffer|)] == s.accepted[j]
  {
    forall j | |s.popped| <= j < Stored(s)
      ensures Step(s, a).buffer[Wrap(j, |s.buffer|)] == s.buffer[Wrap(j, |s.buffer|)]
    {
      if Stored(s) < |s.accepted| {
        WriteSlotIsFree(s, j);
      }
    }
  }

  /** A frame is turned away only while n - 1 complete frames are waiting, and accepted otherwise. */
  lemma AcceptedUnlessFull(s: State, f: Slot)
    requires Inv(s) && s.isr.FullCheck?
    ensures Step(s, Interrupt(f)).accepted ==
            if Stored(s) - |s.popped| == |s.buffer| - 1 then s.accepted else s.accepted + [f]
  {
    FullExactly(s);
  }

  // ----- progress -----

  function Interrupts(accesses: seq<Access>): nat {
    if accesses == [] then 0
    else Interrupts(accesses[..|accesses| - 1]) + (if accesses[|accesses| - 1].Interrupt? then 1 else 0)
  }

  function MainLoops(accesses: seq<Access>): nat {
    if accesses == [] then 0
    else MainLoops(accesses[..|accesses| - 1]) + (if accesses[|accesses| - 1].MainLoop? then 1 else 0)
  }

  /** How many of its accesses the main loop has made since it last stood at `Idle`, on its way to returning a frame. */
  function MainDone(m: Main): nat {
    match m
    case Idle => 0
    case EmptyCheck(_) => 1
    case Recheck => 2
    case RecheckPop(_) => 3
    case Fetch => 4
    case Copying(_, words) => 5 + |words|
    case Dropping(_) => 5 + WORDS
    case DropStore(_, _) => 6 + WORDS
  }

  const MAIN_ACCESSES := 7 + WORDS

  /** The handler's accesses since it decided to accept a frame. */
  function IsrDone(i: Isr): nat {
    match i
    case Waiting => 0
    case FullCheck(_) => 1
    case Storing(_, k) => 2 + k
    case Advancing => 2 + WORDS
    case AdvanceStore(_) => 3 + WORDS
  }

  const ISR_ACCESSES := 4 + WORDS

  lemma MainStepAdvances(s: State)
    requires Inv(s) && |s.popped| < Stored(s)
    ensures
      var s' := MainStep(s);
      && s'.accepted == s.accepted && s'.isr == s.isr && s'.buffer == s.buffer && s'.push == s.push
      && (MainDone(s.main) + 1 < MAIN_ACCESSES ==> MainDone(s'.main) == MainDone(s.main) + 1 && s'.popped == s.popped)
      && (MainDone(s.main) + 1 == MAIN_ACCESSES ==> s'.main == Idle && s'.popped == s.popped + [s.accepted[|s.popped|]])
      && MainDone(s.main) < MAIN_ACCESSES
  {
    EmptyExactly(s);
  }

  lemma IsrStepKeepsMain(s: State, f: Slot)
    requires Inv(s)
    ensures
      var s' := IsrStep(s, f);
      s'.main == s.main && s'.popped == s.popped && s'.pop == s.pop && s.accepted <= s'.accepted && Stored(s) <= Stored(s')
  {
  }

  /** Progress of the main loop: while a complete frame waits, it is returned by its seventeenth access from `Idle`, whatever the
      handler does in between. */
  lemma {:induction false} MainProgress(s: State, accesses: seq<Access>)
    requires Inv(s) && s.main == Idle && |s.popped| < Stored(s) && MainLoops(accesses) <= MAIN_ACCESSES
    ensures
      var s' := Run(s, accesses);
      && s.accepted <= s'.accepted
      && (if MainLoops(accesses) < MAIN_ACCESSES
          then s'.popped == s.popped && MainDone(s'.main) == MainLoops(accesses) && |s.popped| < Stored(s')
          else s'.popped == s.popped + [s.accepted[|s.popped|]] && s'.main == Idle)
    decreases |accesses|
  {
    assert |s.popped| < |s.accepted|;
    hide IsrStep, MainStep, Inv, Stored;
    if accesses != [] {
      var before, a := accesses[..|accesses| - 1], accesses[|accesses| - 1];
      MainProgress(s, before);
      var s1 := Run(s, before);
      match a {
        case Interrupt(f) => IsrStepKeepsMain(s1, f);
        case MainLoop => MainLoopAdvances(s, s1);
      }
    }
  }

  lemma MainLoopAdvances(s: State, s1: State)
    requires Inv(s1) && |s1.popped| < Stored(s1)
    requires s.popped == s1.popped && s.accepted <= s1.accepted && |s.popped| < |s.accepted|
    ensures
      var s' := MainStep(s1);
      && s'.accepted == s1.accepted && Stored(s') == Stored(s1)
      && (MainDone(s1.main) + 1 < MAIN_ACCESSES ==> s'.popped == s.popped && MainDone(s'.main) == MainDone(s1.main) + 1)
      && (MainDone(s1.main) + 1 == MAIN_ACCESSES ==> s'.main == Idle && s'.popped == s.popped + [s.accepted[|s.popped|]])
  {
    MainStepAdvances(s1);
  }

  lemma {:induction false} RunConcat(s: State, xs: seq<Access>, ys: seq<Access>)
    requires Inv(s)
    ensures Run(s, xs + ys) == Run(Run(s, xs), ys) && MainLoops(xs + ys) == MainLoops(xs) + MainLoops(ys)
    decreases |ys|
  {
    hide Inv, Step;
    if ys == [] {
      assert xs + ys == xs;
    } else {
      var all := xs + ys;
      assert all[..|all| - 1] == xs + ys[..|ys| - 1] && all[|all| - 1] == ys[|ys| - 1];
      RunConcat(s, xs, ys[..|ys| - 1]);
    }
  }

  /** A run can be divided where the main loop has made this many accesses. */
  lemma {:induction false} Divide(accesses: seq<Access>, k: nat) returns (i: nat)
    requires k <= MainLoops(accesses)
    ensures i <= |accesses| && MainLoops(accesses[..i]) == k
  {
    if MainLoops(accesses) == k {
      i := |accesses|;
      assert accesses[..i] == accesses;
    } else {
      i := Divide(accesses[..|accesses| - 1], k);
      assert accesses[..|accesses| - 1][..i] == accesses[..i];
    }
  }

  /** So `m` complete frames are returned within `m` times as many accesses; by `QueueSafety` they are the oldest ones, in order. */
  lemma {:induction false} BacklogReturned(s: State, accesses: seq<Access>, m: nat)
    requires Inv(s) && s.main == Idle && |s.popped| + m <= Stored(s)
    requires MainLoops(accesses) == m * MAIN_ACCESSES
    ensures Run(s, accesses).main == Idle && |Run(s, accesses).popped| == |s.popped| + m
    decreases m
  {
    hide Step, Inv, Stored, Run, MainLoops;
    if m == 0 {
      NoMainAccess(s, accesses);
    } else {
      var s1, rest := NextReturned(s, accesses, m);
      BacklogReturned(s1, rest, m - 1);
    }
  }

  /** The run up to the next frame's return, and the rest of it. */
  lemma NextReturned(s: State, accesses: seq<Access>, m: nat) returns (s1: State, rest: seq<Access>)
    requires Inv(s) && s.main == Idle && 0 < m && |s.popped| + m <= Stored(s)
    requires MainLoops(accesses) == m * MAIN_ACCESSES
    ensures Inv(s1) && s1.main == Idle && Stored(s) <= Stored(s1) && |s1.popped| == |s.popped| + 1
    ensures MainLoops(rest) == (m - 1) * MAIN_ACCESSES && Run(s, accesses) == Run(s1, rest)
  {
    Multiple(m);
    StoredBounds(s);
    hide Step, Inv, Stored, Run, MainLoops, MainDone;
    var i := Divide(accesses, MAIN_ACCESSES);
    var first := accesses[..i];
    s1, rest := Run(s, first), accesses[i..];
    assert first + rest == accesses;
    RunConcat(s, first, rest);
    MainProgress(s, first);
    StoredGrows(s, first);
  }

  lemma StoredBounds(s: State)
    requires Inv(s)
    ensures |s.popped| <= Stored(s) <= |s.accepted|
  {
  }

  lemma Multiple(m: nat)
    requires m > 0
    ensures m * MAIN_ACCESSES == (m - 1) * MAIN_ACCESSES + MAIN_ACCESSES >= MAIN_ACCESSES
  {
  }

  lemma {:induction false} NoMainAccess(s: State, accesses: seq<Access>)
    requires Inv(s) && MainLoops(accesses) == 0
    ensures var s' := Run(s, accesses); s'.main == s.main && s'.popped == s.popped && s.accepted <= s'.accepted
  {
    hide IsrStep, MainStep, Inv;
    if accesses != [] {
      var before := accesses[..|accesses| - 1];
      NoMainAccess(s, before);
      IsrStepKeepsMain(Run(s, before), accesses[|accesses| - 1].frame);
    }
  }

  lemma {:induction false} StoredGrows(s: State, accesses: seq<Access>)
    requires Inv(s)
    ensures Stored(s) <= Stored(Run(s, accesses)) && s.accepted <= Run(s, accesses).accepted
  {
    hide IsrStep, MainStep, Inv, Stored;
    if accesses != [] {
      var before, a := accesses[..|accesses| - 1], accesses[|accesses| - 1];
      StoredGrows(s, before);
      match a {
        case Interrupt(f) => IsrStepKeepsMain(Run(s, before), f);
        case MainLoop => MainStepKeepsIsr(Run(s, before));
      }
    }
  }

  lemma MainStepKeepsIsr(s: State)
    requires Inv(s)
    ensures
      var s' := MainStep(s);
      && s'.isr == s.isr && s'.accepted == s.accepted && Stored(s') == Stored(s) && |s'.buffer| == |s.buffer|
      && |s.popped| <= |s'.popped|
  {
  }

  lemma IsrStepAdvances(s: State, f: Slot)
    requires Inv(s) && (s.isr.FullCheck? ==> Stored(s) - |s.popped| < |s.buffer| - 1)
    ensures
      var s' := IsrStep(s, f);
      && s'.popped == s.popped && |s'.buffer| == |s.buffer|
      && s'.accepted == (if s.isr.FullCheck? then s.accepted + [f] else s.accepted)
      && Stored(s') == Stored(s) + (if s.isr.AdvanceStore? then 1 else 0)
      && IsrDone(s'.isr) == (if s.isr.AdvanceStore? then 0 else IsrDone(s.isr) + 1)
      && (s.isr.AdvanceStore? <==> IsrDone(s.isr) == ISR_ACCESSES - 1)
      && (s.isr.FullCheck? <==> IsrDone(s.isr) == 1)
  {
    FullExactly(s);
    hide Wrap;
  }

  /** Progress of the handler: a frame that arrives while fewer than n - 1 frames wait is completely stored, and the index
      advanced, by its fourteenth access, whatever the main loop does in between. */
  lemma {:induction false} HandlerProgress(s: State, accesses: seq<Access>, f: Slot)
    requires Inv(s) && s.isr == Waiting && Stored(s) - |s.popped| < |s.buffer| - 1
    requires forall i :: 0 <= i < |accesses| && accesses[i].Interrupt? ==> accesses[i].frame == f
    requires Interrupts(accesses) <= ISR_ACCESSES
    ensures
      var s' := Run(s, accesses);
      && s'.accepted == (if Interrupts(accesses) < 2 then s.accepted else s.accepted + [f])
      && Stored(s') == (if Interrupts(accesses) < ISR_ACCESSES then Stored(s) else Stored(s) + 1)
      && IsrDone(s'.isr) == (if Interrupts(accesses) < ISR_ACCESSES then Interrupts(accesses) else 0)
      && |s.popped| <= |s'.popped|
    decreases |accesses|
  {
    hide IsrStep, MainStep, Inv, Stored;
    if accesses != [] {
      var before, a := accesses[..|accesses| - 1], accesses[|accesses| - 1];
      HandlerProgress(s, before, f);
      var s1 := Run(s, before);
      match a {
        case Interrupt(_) => IsrStepAdvances(s1, f);
        case MainLoop => MainStepKeepsIsr(s1);
      }
    }
  }
}
