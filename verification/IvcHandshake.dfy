/** The handshake between a requester that holds the channel lock and the kernel
    thread that serves the channel interrupt, over the shared `wait_interrupt`
    state: every interleaving of their atomic steps and of the server's. */
module IvcHandshake {
  import opened Wrappers

  datatype IrqState = NoInterrupt | FirstRequest | IntermediateRequest

  /** For every request the server sends a filler ("DISC") and then a reply ("NVDA"). */
  datatype Msg = Filler(request: nat) | Reply(request: nat)

  /** Where the requester is in `send_ivc_wait`. Failed is the error return. */
  datatype Requester =
    | Unlocked | Sent | ReadsDummy | ChecksValid | ReadsValid | Arms | Waits | Served | Failed

  /** Where the thread is in `tegra_vse_kthread`: waiting for a completion of the
      interrupt handler, woken by one, or in its loop with its copy of the state. */
  datatype Kthread =
    | Asleep | Woken | Looping(local: IrqState) | TakesDummy | ArmsNext | TakesValid | Completes(msg: Msg) | Disarms

  datatype State = State(
    irq: IrqState,
    toSend: seq<Msg>,          // the server's backlog
    toRead: seq<Msg>,          // readable on the channel
    current: nat,              // number of the latest request
    requester: Requester,
    kthread: Kthread,
    irqs: nat,                 // interrupts raised and not handled yet
    wakeups: nat,              // completions of the handler the thread has not consumed
    signals: nat,              // completions the current request has not seen yet
    dummyReads: seq<(nat, Msg)>,  // what each read of a filler got, and for which request
    validReads: seq<(nat, Msg)>,  // the same for reads of a reply
    completed: seq<nat>)          // requests handed back, in order

  const INIT := State(FirstRequest, [], [], 0, Unlocked, Asleep, 0, 0, 0, [], [], [])

  /** Serving a message raises an interrupt only when the channel was empty. */
  datatype Step =
    | Serve                                                                   // server
    | Interrupt                                                               // interrupt handler
    | Send | ReadState | ReadDummy | CheckValid | ReadValid | Arm | SeeCompletion | Unlock  // requester
    | Wake | ReadIrq | Test | TakeDummy | ArmNext | TakeValid | Complete | Disarm        // thread

  predicate RequesterStep(step: Step) {
    match step
    case Send | ReadState | ReadDummy | CheckValid | ReadValid | Arm | SeeCompletion | Unlock => true
    case _ => false
  }

  predicate KthreadStep(step: Step) {
    step != Serve && step != Interrupt && !RequesterStep(step)
  }

  function RequesterNext(s: State, step: Step): Option<State>
    requires RequesterStep(step)
  {
    match step
    case Send =>
      if s.requester != Unlocked then None
      else Some(s.(requester := Sent, current := s.current + 1, signals := 0, toSend := s.toSend + Both(s.current + 1)))
    case ReadState =>
      if s.requester != Sent then None
      else Some(s.(requester := if s.irq == NoInterrupt then ReadsDummy else Waits))
    case ReadDummy =>
      if s.requester != ReadsDummy then None
      else if s.toRead == [] then Some(s.(requester := Failed))
      else
        var m := s.toRead[0];
        Some(s.(requester := if m.Filler? then ChecksValid else Failed,
                toRead := s.toRead[1..], dummyReads := s.dummyReads + [(s.current, m)]))
    case CheckValid =>
      if s.requester != ChecksValid then None
      else Some(s.(requester := if s.toRead == [] then Arms else ReadsValid))
    case ReadValid =>
      if s.requester != ReadsValid || s.toRead == [] then None
      else Some(s.(requester := Served, toRead := s.toRead[1..],
                   validReads := s.validReads + [(s.current, s.toRead[0])], completed := s.completed + [s.current]))
    case Arm =>
      if s.requester != Arms then None else Some(s.(requester := Waits, irq := IntermediateRequest))
    case SeeCompletion =>
      if s.requester != Waits || s.signals == 0 then None
      else Some(s.(requester := Served, signals := s.signals - 1))
    case Unlock =>
      if s.requester != Served then None else Some(s.(requester := Unlocked))
  }

  function KthreadNext(s: State, step: Step): Option<State>
    requires KthreadStep(step)
  {
    match step
    case Wake =>
      if s.kthread != Asleep || s.wakeups == 0 then None else Some(s.(kthread := Woken, wakeups := s.wakeups - 1))
    case ReadIrq =>
      if s.kthread != Woken then None else Some(s.(kthread := Looping(s.irq)))
    case Test =>
      if !s.kthread.Looping? then None
      else Some(s.(kthread :=
        if s.toRead == [] || s.kthread.local == NoInterrupt then Asleep
        else if s.kthread.local == IntermediateRequest then TakesValid
        else TakesDummy))
    case TakeDummy =>
      if s.kthread != TakesDummy || s.toRead == [] then None
      else
        var m := s.toRead[0];
        Some(s.(kthread := if m.Filler? then ArmsNext else Asleep,
                toRead := s.toRead[1..], dummyReads := s.dummyReads + [(s.current, m)]))
    case ArmNext =>
      if s.kthread != ArmsNext then None
      else Some(s.(irq := IntermediateRequest, kthread := Looping(IntermediateRequest)))
    case TakeValid =>
      if s.kthread != TakesValid then None
      else if s.toRead == [] then Some(s.(irq := IntermediateRequest, kthread := Disarms))
      else
        var m := s.toRead[0];
        Some(s.(kthread := if m.Reply? then Completes(m) else Disarms,
                toRead := s.toRead[1..], validReads := s.validReads + [(s.current, m)]))
    case Complete =>
      if !s.kthread.Completes? then None
      else
        var m := s.kthread.msg;
        Some(s.(kthread := Disarms, completed := s.completed + [m.request],
                signals := if m.request == s.current then s.signals + 1 else s.signals))
    case Disarm =>
      if s.kthread != Disarms then None else Some(s.(irq := NoInterrupt, kthread := Asleep))
  }

  function Next(s: State, step: Step): Option<State> {
    if step == Serve then
      if s.toSend == [] then None
      else Some(s.(toSend := s.toSend[1..], toRead := s.toRead + [s.toSend[0]],
                   irqs := if s.toRead == [] then s.irqs + 1 else s.irqs))
    else if step == Interrupt then
      if s.irqs == 0 then None
      else Some(s.(irqs := s.irqs - 1, wakeups := if s.toRead != [] then s.wakeups + 1 else s.wakeups))
    else if RequesterStep(step) then RequesterNext(s, step)
    else KthreadNext(s, step)
  }

  /** Any interleaving; a step that is not enabled ends the run. */
  function Run(s: State, steps: seq<Step>): Option<State>
    decreases |steps|
  {
    if steps == [] then Some(s)
    else match Next(s, steps[0])
      case None => None
      case Some(s') => Run(s', steps[1..])
  }

  // ----- safety --------------------------------------------------------------

  ghost predicate StrictlyIncreasing(xs: seq<nat>) {
    forall i, j :: 0 <= i < j < |xs| ==> xs[i] < xs[j]
  }

  predicate RequesterDequeues(s: State) {
    s.requester in {ReadsDummy, ChecksValid, ReadsValid}
  }

  predicate KthreadDequeues(s: State) {
    s.kthread in {TakesDummy, TakesValid} || (s.kthread.Looping? && s.kthread.local != NoInterrupt)
  }

  /** What the handshake is for. */
  ghost predicate Safe(s: State) {
    && !(RequesterDequeues(s) && KthreadDequeues(s))
    && (forall i :: 0 <= i < |s.dummyReads| ==> s.dummyReads[i].1 == Filler(s.dummyReads[i].0))
    && (forall i :: 0 <= i < |s.validReads| ==> s.validReads[i].1 == Reply(s.validReads[i].0))
    && StrictlyIncreasing(s.completed)
  }

  function Both(k: nat): seq<Msg> { [Filler(k), Reply(k)] }

  /** The messages still to be dequeued, in each reachable combination of places. */
  ghost predicate Phase(s: State) {
    var left := s.toRead + s.toSend;
    var k := s.current;
    match s.irq
    case FirstRequest =>
      s.signals == 0 &&
      if s.kthread == ArmsNext then s.requester in {Sent, Waits} && left == [Reply(k)]
      else
        && s.kthread in {Asleep, Woken, Looping(FirstRequest), TakesDummy}
        && (s.kthread == Asleep && s.toRead != [] ==> s.irqs + s.wakeups > 0)
        && (s.kthread == TakesDummy ==> s.toRead != [])
        && (if s.requester == Unlocked then left == [] else s.requester in {Sent, Waits} && left == Both(k))
    case IntermediateRequest =>
      if s.kthread == Disarms then
        || (s.requester in {Sent, Waits} && left == [] && s.signals == 1)
        || (s.requester in {Served, Unlocked} && left == [] && s.signals == 0)
        || (s.requester in {Sent, Waits} && left == Both(k) && s.signals == 0)
      else
        && s.requester in {Sent, Waits} && s.signals == 0
        && if s.kthread.Completes? then s.kthread.msg == Reply(k) && left == []
           else
             && s.kthread in {Asleep, Woken, Looping(NoInterrupt), Looping(IntermediateRequest), TakesValid}
             && (s.kthread == TakesValid ==> s.toRead != [])
             && left == [Reply(k)]
    case NoInterrupt =>
      && s.kthread in {Asleep, Woken, Looping(NoInterrupt)}
      && (s.requester in {Sent, ReadsDummy, Waits, Failed} ==>
            (left == Both(k) && s.signals == 0) || (left == [] && s.signals == 1))
      && (s.requester in {ChecksValid, ReadsValid, Arms} ==> left == [Reply(k)] && s.signals == 0)
      && (s.requester == ReadsValid ==> s.toRead != [])
      && (s.requester in {Served, Unlocked} ==> left == [] && s.signals == 0)
  }

  /** The current request has not been handed back yet. */
  predicate Outstanding(s: State) {
    s.requester in {Sent, ReadsDummy, ChecksValid, ReadsValid, Arms, Waits, Failed} && s.signals == 0
  }

  ghost predicate Inv(s: State) {
    && Safe(s) && Phase(s)
    && (forall i :: 0 <= i < |s.completed| ==> s.completed[i] <= s.current && (Outstanding(s) ==> s.completed[i] < s.current))
  }

  lemma ServeKeeps(s: State)
    requires Inv(s) && s.toSend != []
    ensures Inv(Next(s, Serve).value)
  {
  }

  lemma InterruptKeeps(s: State)
    requires Inv(s) && s.irqs > 0
    ensures Inv(Next(s, Interrupt).value)
  {
  }

  lemma SendKeeps(s: State)
    requires Inv(s) && s.requester == Unlocked
    ensures Inv(Next(s, Send).value)
  {
  }

  /** Dequeuing takes the first of the messages left. */
  lemma Dequeued(s: State)
    requires s.toRead != []
    ensures s.toRead[0] == (s.toRead + s.toSend)[0]
    ensures s.toRead[1..] + s.toSend == (s.toRead + s.toSend)[1..]
  {
  }

  lemma ReadKeeps(s: State, step: Step)
    requires Inv(s) && step in {ReadDummy, ReadValid} && Next(s, step).Some?
    ensures Inv(Next(s, step).value)
  {
    if s.toRead != [] {
      Dequeued(s);
    }
  }

  lemma LookKeeps(s: State, step: Step)
    requires Inv(s) && step in {ReadState, CheckValid} && Next(s, step).Some?
    ensures Inv(Next(s, step).value)
  {
  }

  lemma ArmKeeps(s: State)
    requires Inv(s) && s.requester == Arms
    ensures Inv(Next(s, Arm).value)
  {
  }

  lemma LeaveKeeps(s: State, step: Step)
    requires Inv(s) && step in {SeeCompletion, Unlock} && Next(s, step).Some?
    ensures Inv(Next(s, step).value)
  {
  }

  lemma RequesterKeeps(s: State, step: Step)
    requires Inv(s) && RequesterStep(step) && step != Send && Next(s, step).Some?
    ensures Inv(Next(s, step).value)
  {
    match step {
      case ReadDummy | ReadValid => ReadKeeps(s, step);
      case ReadState | CheckValid => LookKeeps(s, step);
      case Arm => ArmKeeps(s);
      case SeeCompletion | Unlock => LeaveKeeps(s, step);
    }
  }

  lemma TakeDummyKeeps(s: State)
    requires Inv(s) && s.kthread == TakesDummy && s.toRead != []
    ensures Inv(Next(s, TakeDummy).value)
  {
    Dequeued(s);
  }

  lemma TakeValidKeeps(s: State)
    requires Inv(s) && s.kthread == TakesValid
    ensures Inv(Next(s, TakeValid).value)
  {
    assert s.toRead != [];
    Dequeued(s);
  }

  lemma CompleteKeeps(s: State)
    requires Inv(s) && s.kthread.Completes?
    ensures Inv(Next(s, Complete).value)
  {
  }

  lemma WakingKeeps(s: State, step: Step)
    requires Inv(s) && step in {Wake, ReadIrq, Test} && Next(s, step).Some?
    ensures Inv(Next(s, step).value)
  {
  }

  lemma WritingKeeps(s: State, step: Step)
    requires Inv(s) && step in {ArmNext, Disarm} && Next(s, step).Some?
    ensures Inv(Next(s, step).value)
  {
  }

  lemma KthreadKeeps(s: State, step: Step)
    requires Inv(s) && KthreadStep(step) && Next(s, step).Some?
    ensures Inv(Next(s, step).value)
  {
    match step {
      case TakeDummy => TakeDummyKeeps(s);
      case TakeValid => TakeValidKeeps(s);
      case Complete => CompleteKeeps(s);
      case Wake | ReadIrq | Test => WakingKeeps(s, step);
      case ArmNext | Disarm => WritingKeeps(s, step);
    }
  }

  lemma StepKeeps(s: State, step: Step)
    requires Inv(s) && Next(s, step).Some?
    ensures Inv(Next(s, step).value)
  {
    if step == Serve {
      ServeKeeps(s);
    } else if step == Send {
      SendKeeps(s);
    } else if step == Interrupt {
      InterruptKeeps(s);
    } else if RequesterStep(step) {
      RequesterKeeps(s, step);
    } else {
      KthreadKeeps(s, step);
    }
  }

  lemma {:induction false} RunKeeps(s: State, steps: seq<Step>)
    requires Inv(s) && Run(s, steps).Some?
    ensures Inv(Run(s, steps).value)
    decreases |steps|
  {
    if steps != [] {
      StepKeeps(s, steps[0]);
      RunKeeps(Next(s, steps[0]).value, steps[1..]);
    }
  }

  ghost predicate Reachable(s: State) {
    exists steps :: Run(INIT, steps) == Some(s)
  }

  /** The handshake is safe over every interleaving from probe on. */
  lemma HandshakeSafe(s: State)
    requires Reachable(s)
    ensures Safe(s) && Inv(s)
  {
    var steps :| Run(INIT, steps) == Some(s);
    RunKeeps(INIT, steps);
  }

  // ----- what it does not promise ---------------------------------------------

  /** Nothing is left that could make the thread look at the channel again: the server
      has sent everything, every interrupt is handled, every completion consumed, and
      the thread is asleep or about to be, holding a state it read too early. */
  predicate Unheard(s: State) {
    s.toSend == [] && s.irqs == 0 && s.wakeups == 0 && s.kthread in {Asleep, Looping(NoInterrupt)}
  }

  /** A waiting requester nobody will serve: the thread takes the state back to
      NoInterrupt, or has done so, after the requester looked at it; or the reply has
      come and gone unheard before the requester asked to be told. */
  predicate Doomed(s: State) {
    s.requester == Waits && s.signals == 0 && (s.irq == NoInterrupt || s.kthread == Disarms || Unheard(s))
  }

  /** One more step at the end of a run. */
  lemma {:induction false} RunThen(s: State, steps: seq<Step>, step: Step)
    requires Run(s, steps).Some?
    ensures Run(s, steps + [step]) == Next(Run(s, steps).value, step)
    decreases |steps|
  {
    if steps == [] {
      assert [step][1..] == [] && steps + [step] == [step];
    } else {
      assert (steps + [step])[1..] == steps[1..] + [step];
      RunThen(Next(s, steps[0]).value, steps[1..], step);
    }
  }

  lemma ShortQueues(k: nat)
    ensures [] + Both(k) == Both(k) && Both(k)[1..] == [Reply(k)] && [Reply(k)][1..] == []
    ensures [] + [Filler(k)] == [Filler(k)] && [Filler(k)] + [Reply(k)] == Both(k) && [Filler(k)][1..] == []
    ensures [] + [Reply(k)] == [Reply(k)]
    ensures [] + [(k, Filler(k))] == [(k, Filler(k))] && [] + [(k, Reply(k))] == [(k, Reply(k))] && [] + [k] == [k]
  {
  }

  lemma ReachNext(s: State, step: Step, s': State)
    requires Reachable(s) && Next(s, step) == Some(s')
    ensures Reachable(s')
  {
    var steps :| Run(INIT, steps) == Some(s);
    RunThen(INIT, steps, step);
  }

  // States of one run: the first request is queued, its filler and its reply are taken
  // by the thread, it is handed back, and the thread disarms and goes to sleep.
  const WAITING := INIT.(requester := Waits, current := 1, toSend := Both(1))
  const QUEUED := WAITING.(toRead := Both(1), toSend := [], irqs := 1)
  const FOUND := QUEUED.(kthread := TakesDummy, irqs := 0)
  const FILLER_TAKEN := FOUND.(irq := IntermediateRequest, kthread := Looping(IntermediateRequest),
                               toRead := [Reply(1)], dummyReads := [(1, Filler(1))])
  const REPLY_TAKEN := FILLER_TAKEN.(kthread := Completes(Reply(1)), toRead := [], validReads := [(1, Reply(1))])
  const SERVED := REPLY_TAKEN.(kthread := Disarms, requester := Served, completed := [1])
  const LOST := SERVED.(requester := Waits, current := 2, toSend := Both(2))
  const IDLE := SERVED.(irq := NoInterrupt, kthread := Asleep, requester := Unlocked)

  // The second request on another run: the requester has read the filler and found no
  // reply, which arrives, is signalled and ignored before the requester arms and waits.
  const TOLD := IDLE.(requester := ReadsDummy, current := 2, toSend := [Reply(2)], toRead := [Filler(2)], irqs := 1)
  const DROPPED := TOLD.(irqs := 0)
  const ARMS := DROPPED.(requester := Arms, toRead := [], dummyReads := [(1, Filler(1)), (2, Filler(2))])
  const ANSWERED := ARMS.(toRead := [Reply(2)], toSend := [], irqs := 1)
  const IGNORED := ANSWERED.(irqs := 0)
  const UNHEARD := IGNORED.(requester := Waits, irq := IntermediateRequest)

  lemma StartReachable()
    ensures Reachable(INIT)
  {
    assert Run(INIT, []) == Some(INIT);
  }

  lemma FirstWaits(r: Requester)
    requires r in {Sent, Waits}
    ensures Reachable(WAITING.(requester := r))
  {
    StartReachable();
    ShortQueues(1);
    ReachNext(INIT, Send, WAITING.(requester := Sent));
    if r == Waits {
      ReachNext(WAITING.(requester := Sent), ReadState, WAITING);
    }
  }

  const HALF_QUEUED := WAITING.(toRead := [Filler(1)], toSend := [Reply(1)], irqs := 1)

  lemma FirstHalfQueued(r: Requester)
    requires r in {Sent, Waits}
    ensures Reachable(HALF_QUEUED.(requester := r))
  {
    FirstWaits(r);
    ShortQueues(1);
    ReachNext(WAITING.(requester := r), Serve, HALF_QUEUED.(requester := r));
  }

  lemma FirstQueued(r: Requester)
    requires r in {Sent, Waits}
    ensures Reachable(QUEUED.(requester := r))
  {
    FirstHalfQueued(r);
    ShortQueues(1);
    ReachNext(HALF_QUEUED.(requester := r), Serve, QUEUED.(requester := r));
  }

  lemma HandledAndWoken(s: State)
    requires Reachable(s) && s.kthread == Asleep && s.irqs > 0 && s.toRead != []
    ensures Reachable(s.(irqs := s.irqs - 1, kthread := Woken))
  {
    var handled := s.(irqs := s.irqs - 1, wakeups := s.wakeups + 1);
    ReachNext(s, Interrupt, handled);
    assert handled.(kthread := Woken, wakeups := s.wakeups) == s.(irqs := s.irqs - 1, kthread := Woken);
    ReachNext(handled, Wake, s.(irqs := s.irqs - 1, kthread := Woken));
  }

  /** A handled interrupt that finds a message gets the thread to look at the state. */
  lemma Signalled(s: State)
    requires Reachable(s) && s.kthread == Asleep && s.irqs > 0 && s.toRead != []
    ensures Reachable(s.(irqs := s.irqs - 1, kthread := Looping(s.irq)))
  {
    var woken := s.(irqs := s.irqs - 1, kthread := Woken);
    HandledAndWoken(s);
    ReachNext(woken, ReadIrq, woken.(kthread := Looping(s.irq)));
    assert woken.(kthread := Looping(s.irq)) == s.(irqs := s.irqs - 1, kthread := Looping(s.irq));
  }

  lemma FirstFillerFound(r: Requester)
    requires r in {Sent, Waits}
    ensures Reachable(FOUND.(requester := r))
  {
    FirstQueued(r);
    Signalled(QUEUED.(requester := r));
    Tested(QUEUED.(requester := r, irqs := 0, kthread := Looping(FirstRequest)));
  }

  const FILLER_READ := FILLER_TAKEN.(kthread := ArmsNext, irq := FirstRequest)

  lemma FillerRead(s: State)
    requires Reachable(s) && s.kthread == TakesDummy && s.toRead != [] && s.toRead[0].Filler?
    ensures Reachable(s.(kthread := ArmsNext, toRead := s.toRead[1..], dummyReads := s.dummyReads + [(s.current, s.toRead[0])]))
  {
    ReachNext(s, TakeDummy, Next(s, TakeDummy).value);
  }

  lemma FirstFillerRead(r: Requester)
    requires r in {Sent, Waits}
    ensures Reachable(FILLER_READ.(requester := r))
  {
    FirstFillerFound(r);
    ShortQueues(1);
    FillerRead(FOUND.(requester := r));
  }

  lemma FirstFillerTaken(r: Requester)
    requires r in {Sent, Waits}
    ensures Reachable(FILLER_TAKEN.(requester := r))
  {
    FirstFillerRead(r);
    ReachNext(FILLER_READ.(requester := r), ArmNext, FILLER_TAKEN.(requester := r));
  }

  /** A thread that finds a message takes it as its copy of the state says. */
  lemma Tested(s: State)
    requires Reachable(s) && s.toRead != [] && s.kthread.Looping?
    ensures s.kthread.local == NoInterrupt ==> Reachable(s.(kthread := Asleep))
    ensures s.kthread.local == FirstRequest ==> Reachable(s.(kthread := TakesDummy))
    ensures s.kthread.local == IntermediateRequest ==> Reachable(s.(kthread := TakesValid))
  {
    ReachNext(s, Test, Next(s, Test).value);
  }

  lemma ReplyRead(s: State)
    requires Reachable(s) && s.kthread == TakesValid && s.toRead != [] && s.toRead[0].Reply?
    ensures Reachable(s.(kthread := Completes(s.toRead[0]), toRead := s.toRead[1..],
                         validReads := s.validReads + [(s.current, s.toRead[0])]))
  {
    ReachNext(s, TakeValid, Next(s, TakeValid).value);
  }

  lemma FirstReplyTaken(r: Requester)
    requires r in {Sent, Waits}
    ensures Reachable(REPLY_TAKEN.(requester := r))
  {
    FirstFillerTaken(r);
    ShortQueues(1);
    Tested(FILLER_TAKEN.(requester := r));
    ReplyRead(FILLER_TAKEN.(requester := r, kthread := TakesValid));
  }

  lemma FirstServed()
    ensures Reachable(SERVED)
  {
    FirstReplyTaken(Waits);
    ShortQueues(1);
    ReachNext(REPLY_TAKEN, Complete, SERVED.(requester := Waits, signals := 1));
    ReachNext(SERVED.(requester := Waits, signals := 1), SeeCompletion, SERVED);
  }

  lemma SecondSent()
    ensures Reachable(LOST.(requester := Sent))
  {
    FirstServed();
    ShortQueues(2);
    ReachNext(SERVED, Unlock, SERVED.(requester := Unlocked));
    ReachNext(SERVED.(requester := Unlocked), Send, LOST.(requester := Sent));
  }

  /** Completing a request before the state write lets the next requester read the
      stale state and wait for an interrupt the thread will not act on. */
  lemma LostWakeup()
    ensures Reachable(LOST) && Doomed(LOST)
  {
    SecondSent();
    ReachNext(LOST.(requester := Sent), ReadState, LOST);
  }

  lemma FirstOver()
    ensures Reachable(IDLE)
  {
    FirstServed();
    ReachNext(SERVED, Disarm, IDLE.(requester := Served));
    ReachNext(IDLE.(requester := Served), Unlock, IDLE);
  }

  /** The second request finds NoInterrupt and gets its filler. */
  lemma SecondFiller()
    ensures Reachable(TOLD)
  {
    FirstOver();
    ShortQueues(2);
    var sent := IDLE.(requester := Sent, current := 2, toSend := Both(2));
    ReachNext(IDLE, Send, sent);
    ReachNext(sent, ReadState, sent.(requester := ReadsDummy));
    ReachNext(sent.(requester := ReadsDummy), Serve, TOLD);
  }

  /** The thread does not act on the filler's interrupt. */
  lemma FillerDropped()
    ensures Reachable(DROPPED)
  {
    SecondFiller();
    Signalled(TOLD);
    Tested(TOLD.(irqs := 0, kthread := Looping(NoInterrupt)));
  }

  lemma ReplyMissed()
    ensures Reachable(ARMS)
  {
    FillerDropped();
    ShortQueues(2);
    assert [(1, Filler(1))] + [(2, Filler(2))] == [(1, Filler(1)), (2, Filler(2))];
    var read := ARMS.(requester := ChecksValid);
    ReachNext(DROPPED, ReadDummy, read);
    ReachNext(read, CheckValid, ARMS);
  }

  lemma ReplyIgnored()
    ensures Reachable(IGNORED)
  {
    ReplyMissed();
    ShortQueues(2);
    ReachNext(ARMS, Serve, ANSWERED);
    Signalled(ANSWERED);
    Tested(ANSWERED.(irqs := 0, kthread := Looping(NoInterrupt)));
  }

  /** The second way to lose a wake-up: between the requester's test for the reply and
      its state write, the reply arrives and the thread, seeing NoInterrupt, leaves it. */
  lemma ReplyUnheard()
    ensures Reachable(UNHEARD) && Doomed(UNHEARD) && UNHEARD.irq == IntermediateRequest
  {
    ReplyIgnored();
    ReachNext(IGNORED, Arm, UNHEARD);
  }

  /** Until a second request is sent: the thread finishes the first one before it
      disarms, and never sleeps on a readable reply without being told. */
  ghost predicate FirstOk(s: State) {
    s.current <= 1 ==>
      && (s.current == 0 ==> s.irq == FirstRequest && s.requester == Unlocked)
      && (s.irq == NoInterrupt || s.kthread == Disarms ==> s.toRead + s.toSend == [])
      && (s.irq == IntermediateRequest ==>
            s.kthread != Looping(NoInterrupt) && (s.kthread == Asleep && s.toRead != [] ==> s.irqs + s.wakeups > 0))
  }

  lemma FirstTakeOk(s: State, step: Step)
    requires Inv(s) && FirstOk(s) && step in {ReadDummy, ReadValid, TakeDummy, TakeValid} && Next(s, step).Some?
    ensures FirstOk(Next(s, step).value)
  {
    if s.toRead != [] {
      Dequeued(s);
    }
  }

  lemma FirstKthreadOk(s: State, step: Step)
    requires Inv(s) && FirstOk(s) && step in {Wake, ReadIrq, Test, ArmNext, Complete, Disarm} && Next(s, step).Some?
    ensures FirstOk(Next(s, step).value)
  {
  }

  lemma FirstOtherOk(s: State, step: Step)
    requires Inv(s) && FirstOk(s) && Next(s, step).Some?
    requires step in {Serve, Interrupt, Send, ReadState, CheckValid, Arm, SeeCompletion, Unlock}
    ensures FirstOk(Next(s, step).value)
  {
    if step == Serve {
      assert s.toRead + s.toSend == s.toRead + [s.toSend[0]] + s.toSend[1..];
    }
  }

  lemma FirstStepOk(s: State, step: Step)
    requires Inv(s) && FirstOk(s) && Next(s, step).Some?
    ensures FirstOk(Next(s, step).value)
  {
    match step {
      case ReadDummy | ReadValid | TakeDummy | TakeValid => FirstTakeOk(s, step);
      case Wake | ReadIrq | Test | ArmNext | Complete | Disarm => FirstKthreadOk(s, step);
      case _ => FirstOtherOk(s, step);
    }
  }

  lemma {:induction false} FirstRunOk(s: State, steps: seq<Step>)
    requires Inv(s) && FirstOk(s) && Run(s, steps).Some?
    ensures FirstOk(Run(s, steps).value)
    decreases |steps|
  {
    if steps != [] {
      StepKeeps(s, steps[0]);
      FirstStepOk(s, steps[0]);
      FirstRunOk(Next(s, steps[0]).value, steps[1..]);
    }
  }

  lemma FirstReachOk(s: State)
    requires Reachable(s)
    ensures FirstOk(s)
  {
    var steps :| Run(INIT, steps) == Some(s);
    FirstRunOk(INIT, steps);
  }

  lemma FirstNotDoomed(s: State)
    requires Inv(s) && FirstOk(s) && s.current <= 1
    ensures !Doomed(s)
  {
  }

  /** The very first request cannot be lost. */
  lemma FirstRequestIsHeard(s: State)
    requires Reachable(s) && s.current <= 1
    ensures !Doomed(s)
  {
    HandshakeSafe(s);
    FirstReachOk(s);
    FirstNotDoomed(s);
  }

  lemma DoomedStep(s: State, step: Step)
    requires Inv(s) && Doomed(s) && Next(s, step).Some?
    ensures Doomed(Next(s, step).value)
  {
  }

  lemma {:induction false} DoomedStays(s: State, steps: seq<Step>)
    requires Inv(s) && Doomed(s) && Run(s, steps).Some?
    ensures Doomed(Run(s, steps).value)
    decreases |steps|
  {
    if steps != [] {
      StepKeeps(s, steps[0]);
      DoomedStep(s, steps[0]);
      DoomedStays(Next(s, steps[0]).value, steps[1..]);
    }
  }

  /** The next step towards serving a waiting requester who is not doomed. */
  function Rescue(s: State): Step {
    if s.signals > 0 then SeeCompletion
    else match s.kthread
      case Completes(_) => Complete
      case TakesValid => TakeValid
      case ArmsNext => ArmNext
      case TakesDummy => TakeDummy
      case Disarms => Disarm
      case Asleep => if s.toSend != [] then Serve else if s.wakeups > 0 then Wake else Interrupt
      case Woken => if s.toSend != [] then Serve else ReadIrq
      case Looping(_) => if s.toSend != [] then Serve else Test
  }

  function Distance(s: State): nat {
    if s.signals > 0 then 1
    else 20 * |s.toRead + s.toSend| + |s.toSend| + match s.kthread
      case Completes(_) => 2
      case TakesValid => 3
      case TakesDummy => 4
      case ArmsNext => 18
      case Looping(local) => if local == NoInterrupt then 10 else 6
      case Woken => 7
      case Asleep => if s.wakeups > 0 then 8 else 9
      case Disarms => 0
  }

  ghost predicate Rescues(s: State, step: Step) {
    && Next(s, step).Some?
    && var s' := Next(s, step).value;
       s'.requester == Served || (s'.requester == Waits && !Doomed(s') && Distance(s') < Distance(s))
  }

  lemma RescueByServer(s: State)
    requires Inv(s) && s.requester == Waits && !Doomed(s) && s.signals == 0 && s.toSend != []
    requires s.kthread in {Asleep, Woken} || s.kthread.Looping?
    ensures Rescues(s, Serve)
  {
    assert s.toRead + [s.toSend[0]] + s.toSend[1..] == s.toRead + s.toSend;
  }

  lemma RescueByFiller(s: State)
    requires Inv(s) && s.requester == Waits && s.signals == 0 && s.kthread == TakesDummy
    ensures Rescues(s, TakeDummy)
  {
    Dequeued(s);
    assert s.toRead + s.toSend == Both(s.current);
    var s' := Next(s, TakeDummy).value;
    assert s'.kthread == ArmsNext && s'.toRead + s'.toSend == [Reply(s.current)];
  }

  lemma RescueByReply(s: State)
    requires Inv(s) && s.requester == Waits && s.signals == 0 && s.kthread == TakesValid
    ensures Rescues(s, TakeValid)
  {
    Dequeued(s);
    assert s.toRead + s.toSend == [Reply(s.current)];
    var s' := Next(s, TakeValid).value;
    assert s'.kthread.Completes? && s'.toRead + s'.toSend == [];
  }

  lemma RescueMidway(s: State)
    requires Inv(s) && s.requester == Waits && !Doomed(s) && s.signals == 0
    requires s.kthread == ArmsNext || s.kthread.Completes? || s.kthread == Disarms
    ensures Rescues(s, Rescue(s))
  {
  }

  lemma RescueByWaking(s: State)
    requires Inv(s) && s.requester == Waits && !Doomed(s) && s.signals == 0 && s.toSend == []
    requires s.kthread in {Asleep, Woken} || s.kthread.Looping?
    ensures Rescues(s, Rescue(s))
  {
    assert s.toRead + s.toSend == s.toRead;
    assert s.toRead != [] && s.irq != NoInterrupt;
  }

  lemma RescueStep(s: State)
    requires Inv(s) && s.requester == Waits && !Doomed(s)
    ensures Rescues(s, Rescue(s))
  {
    if s.signals == 0 {
      if s.kthread == TakesDummy {
        RescueByFiller(s);
      } else if s.kthread == TakesValid {
        RescueByReply(s);
      } else if !(s.kthread in {Asleep, Woken} || s.kthread.Looping?) {
        RescueMidway(s);
      } else if s.toSend == [] {
        RescueByWaking(s);
      } else {
        RescueByServer(s);
      }
    }
  }

  /** A waiting requester can still be served exactly when it is not doomed. */
  lemma ServedUnlessDoomed(s: State) returns (steps: seq<Step>)
    requires Inv(s) && s.requester == Waits && !Doomed(s)
    ensures Run(s, steps).Some? && Run(s, steps).value.requester == Served
    decreases Distance(s)
  {
    RescueStep(s);
    var step := Rescue(s);
    var s' := Next(s, step).value;
    StepKeeps(s, step);
    if s'.requester == Served {
      steps := [step];
    } else {
      var rest := ServedUnlessDoomed(s');
      steps := [step] + rest;
    }
  }

  lemma CanBeServedIffNotDoomed(s: State)
    requires Reachable(s) && s.requester == Waits
    ensures (exists steps :: Run(s, steps).Some? && Run(s, steps).value.requester == Served) <==> !Doomed(s)
  {
    HandshakeSafe(s);
    if Doomed(s) {
      forall steps | Run(s, steps).Some? ensures Run(s, steps).value.requester != Served {
        DoomedStays(s, steps);
      }
    } else {
      var steps := ServedUnlessDoomed(s);
    }
  }
}
