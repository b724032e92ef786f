/** What becomes of a request: every one handed back exactly once and in order, from
    which states it still can be, and what each party does by its own steps. */
module IvcOutcome {
  import opened Wrappers
  import opened IvcHandshake

  // ----- handed back exactly once -----------------------------------------------

  /** The numbers of the first n requests. */
  function Numbers(n: nat): seq<nat> { seq(n, i requires 0 <= i => i + 1) }

  /** All requests have been handed back, once each and in order, but for the one that
      is still outstanding. */
  predicate AllBack(s: State) {
    && (s.requester != Unlocked ==> s.current > 0)
    && s.completed == Numbers(if Outstanding(s) && s.current > 0 then s.current - 1 else s.current)
  }

  lemma NextNumber(n: nat)
    ensures Numbers(n) + [n + 1] == Numbers(n + 1)
  {
  }

  /** The steps that hand a request back or start one. */
  lemma BackByCounting(s: State, step: Step)
    requires Inv(s) && AllBack(s) && step in {Send, ReadValid, Complete} && Next(s, step).Some?
    ensures AllBack(Next(s, step).value)
  {
    if s.current > 0 {
      NextNumber(s.current - 1);
    }
    if s.toRead != [] {
      Dequeued(s);
    }
  }

  lemma BackByRequester(s: State, step: Step)
    requires Inv(s) && AllBack(s) && RequesterStep(step) && step !in {Send, ReadValid} && Next(s, step).Some?
    ensures AllBack(Next(s, step).value)
  {
  }

  lemma BackStep(s: State, step: Step)
    requires Inv(s) && AllBack(s) && Next(s, step).Some?
    ensures AllBack(Next(s, step).value)
  {
    if step in {Send, ReadValid, Complete} {
      BackByCounting(s, step);
    } else if RequesterStep(step) {
      BackByRequester(s, step);
    }
  }

  lemma {:induction false} BackRun(s: State, steps: seq<Step>)
    requires Inv(s) && AllBack(s) && Run(s, steps).Some?
    ensures AllBack(Run(s, steps).value)
    decreases |steps|
  {
    if steps != [] {
      StepKeeps(s, steps[0]);
      BackStep(s, steps[0]);
      BackRun(Next(s, steps[0]).value, steps[1..]);
    }
  }

  lemma ReachableBack(s: State)
    requires Reachable(s)
    ensures AllBack(s)
  {
    var steps :| Run(INIT, steps) == Some(s);
    assert INIT.completed == Numbers(0);
    BackRun(INIT, steps);
  }

  /** When a request has been handed back, it and all before it have been completed
      exactly once, in order; until then exactly the ones before it have. */
  lemma HandedBackOnce(s: State)
    requires Reachable(s)
    ensures s.requester in {Served, Unlocked} ==> s.completed == Numbers(s.current)
    ensures Outstanding(s) ==> s.current > 0 && s.completed == Numbers(s.current - 1)
  {
    ReachableBack(s);
    HandshakeSafe(s);
  }

  // ----- by one's own steps -------------------------------------------------------

  lemma OneStep(s: State, a: Step)
    ensures Run(s, [a]) == Next(s, a)
  {
    assert [a][1..] == [];
  }

  lemma TwoSteps(s: State, a: Step, b: Step)
    requires Next(s, a).Some?
    ensures Run(s, [a, b]) == Next(Next(s, a).value, b)
  {
    assert [a, b][1..] == [b];
    OneStep(Next(s, a).value, b);
  }

  /** A requester that finds the reply readable reads it itself and is done. */
  lemma ReadsOwnReply(s: State)
    requires Inv(s) && s.requester == ChecksValid && s.toRead != []
    ensures var after := Run(s, [CheckValid, ReadValid]);
            && after.Some? && after.value.requester == Served && after.value.toRead == s.toRead[1..]
            && after.value.validReads == s.validReads + [(s.current, Reply(s.current))]
            && after.value.completed == s.completed + [s.current] && after.value.irq == s.irq
  {
    Dequeued(s);
    TwoSteps(s, CheckValid, ReadValid);
  }

  /** How far the thread is from waiting again. */
  function Restlessness(s: State): nat {
    match s.kthread
    case Asleep => 0
    case Disarms => 1
    case Completes(_) => 2
    case TakesValid => 3
    case Looping(local) => if local == IntermediateRequest then 4 else 7
    case ArmsNext => 5
    case TakesDummy => 6
    case Woken => 8
  }

  /** What the thread does next. */
  function ThreadStep(s: State): Step {
    match s.kthread
    case Asleep => Wake
    case Woken => ReadIrq
    case Looping(_) => Test
    case TakesDummy => TakeDummy
    case ArmsNext => ArmNext
    case TakesValid => TakeValid
    case Completes(_) => Complete
    case Disarms => Disarm
  }

  lemma ThreadMoves(s: State)
    requires Inv(s) && s.kthread != Asleep
    ensures Next(s, ThreadStep(s)).Some? && KthreadStep(ThreadStep(s)) && ThreadStep(s) != Wake
    ensures Restlessness(Next(s, ThreadStep(s)).value) < Restlessness(s)
  {
    if s.toRead != [] {
      Dequeued(s);
    }
  }

  /** Left to itself, the thread is waiting for the handler again after a few steps. */
  lemma ThreadComesToRest(s: State) returns (steps: seq<Step>)
    requires Inv(s)
    ensures |steps| <= 8 && forall i :: 0 <= i < |steps| ==> KthreadStep(steps[i]) && steps[i] != Wake
    ensures Run(s, steps).Some? && Run(s, steps).value.kthread == Asleep
    ensures |steps| <= Restlessness(s)
    decreases Restlessness(s)
  {
    if s.kthread == Asleep {
      steps := [];
    } else {
      var step := ThreadStep(s);
      ThreadMoves(s);
      StepKeeps(s, step);
      var rest := ThreadComesToRest(Next(s, step).value);
      steps := [step] + rest;
    }
  }

  /** Nothing on the channel, nothing to come and nothing left to wake the thread up. */
  predicate Quiet(s: State) {
    s.toRead == [] && s.toSend == [] && s.wakeups == 0 && s.kthread == Asleep
  }

  /** An interrupt that finds nothing to read wakes nobody: without a new request the
      thread sleeps on, however many interrupts are still to be handled. */
  lemma {:induction false} QuietStays(s: State, steps: seq<Step>)
    requires Quiet(s) && Run(s, steps).Some? && Send !in steps
    ensures Quiet(Run(s, steps).value)
    decreases |steps|
  {
    if steps != [] {
      assert steps[0] != Send;
      QuietStays(Next(s, steps[0]).value, steps[1..]);
    }
  }

  // ----- which requests can still be served -----------------------------------------

  /** A request that will not be handed back to its requester: it has failed, or been
      overtaken (the thread has completed it and disarmed before the requester looked, so
      the requester finds an empty channel), or its wake-up is lost or bound to be. */
  predicate Lost(s: State) {
    match s.requester
    case Failed => true
    case Sent =>
      if s.irq == NoInterrupt then s.toRead + s.toSend == []
      else s.kthread != Disarms && s.signals == 0 && Unheard(s)
    case ReadsDummy => s.toRead + s.toSend == []
    case Arms => Unheard(s)
    case Waits => Doomed(s)
    case _ => false
  }

  predicate Active(s: State) {
    s.requester in {Sent, ReadsDummy, ChecksValid, ReadsValid, Arms, Waits, Failed}
  }

  lemma LostByRequester(s: State, step: Step)
    requires Inv(s) && Lost(s) && RequesterStep(step) && Next(s, step).Some?
    ensures Lost(Next(s, step).value)
  {
  }

  lemma LostByOthers(s: State, step: Step)
    requires Inv(s) && Lost(s) && !RequesterStep(step) && Next(s, step).Some?
    ensures Lost(Next(s, step).value)
  {
    if s.requester == Waits {
      DoomedStep(s, step);
    } else if s.toRead != [] {
      Dequeued(s);
    }
  }

  lemma {:induction false} LostStays(s: State, steps: seq<Step>)
    requires Inv(s) && Lost(s) && Run(s, steps).Some?
    ensures Lost(Run(s, steps).value)
    decreases |steps|
  {
    if steps != [] {
      StepKeeps(s, steps[0]);
      if RequesterStep(steps[0]) {
        LostByRequester(s, steps[0]);
      } else {
        LostByOthers(s, steps[0]);
      }
      LostStays(Next(s, steps[0]).value, steps[1..]);
    }
  }

  /** How far the requester is from waiting or being served. */
  function Rank(s: State): nat {
    match s.requester
    case Sent => if s.kthread == Disarms then 8 else 7
    case ReadsDummy => if s.toRead == [] then 6 else 5
    case ChecksValid => if s.toRead == [] then 4 else 3
    case ReadsValid => 2
    case Arms => 1
    case _ => 0
  }

  /** The next step towards that. */
  function Forward(s: State): Step {
    match s.requester
    case Sent => if s.irq != NoInterrupt && s.kthread == Disarms && s.signals == 0 then Disarm else ReadState
    case ReadsDummy => if s.toRead == [] then Serve else ReadDummy
    case ChecksValid => if s.toRead == [] then Serve else CheckValid
    case ReadsValid => ReadValid
    case Arms => Arm
    case _ => SeeCompletion
  }

  ghost predicate Forwards(s: State) {
    && Next(s, Forward(s)).Some?
    && var s' := Next(s, Forward(s)).value;
       s'.requester == Served || (Active(s') && !Lost(s') && Rank(s') < Rank(s))
  }

  lemma ForwardFromSent(s: State)
    requires Inv(s) && s.requester == Sent && !Lost(s)
    ensures Forwards(s)
  {
  }

  lemma ForwardFromDummy(s: State)
    requires Inv(s) && s.requester == ReadsDummy && !Lost(s)
    ensures Forwards(s)
  {
    var left := s.toRead + s.toSend;
    assert left == Both(s.current);
    if s.toRead != [] {
      Dequeued(s);
    } else {
      assert s.toSend == left;
    }
  }

  lemma ForwardFromValid(s: State)
    requires Inv(s) && s.requester in {ChecksValid, ReadsValid, Arms} && !Lost(s)
    ensures Forwards(s)
  {
    if s.toRead != [] {
      Dequeued(s);
    }
  }

  /** A requester that is not lost can be served. */
  lemma ServedUnlessLost(s: State) returns (steps: seq<Step>)
    requires Inv(s) && Active(s) && !Lost(s)
    ensures Run(s, steps).Some? && Run(s, steps).value.requester == Served
    decreases Rank(s)
  {
    if s.requester == Waits {
      steps := ServedUnlessDoomed(s);
    } else {
      if s.requester == Sent {
        ForwardFromSent(s);
      } else if s.requester == ReadsDummy {
        ForwardFromDummy(s);
      } else {
        ForwardFromValid(s);
      }
      var step := Forward(s);
      var s' := Next(s, step).value;
      StepKeeps(s, step);
      if s'.requester == Served {
        OneStep(s, step);
        steps := [step];
      } else {
        var rest := ServedUnlessLost(s');
        steps := [step] + rest;
      }
    }
  }

  /** From every place of its handshake a request can still be served if and only if it
      is not lost. */
  lemma CanBeServedIffNotLost(s: State)
    requires Reachable(s) && Active(s)
    ensures (exists steps :: Run(s, steps).Some? && Run(s, steps).value.requester == Served) <==> !Lost(s)
  {
    HandshakeSafe(s);
    if Lost(s) {
      forall steps | Run(s, steps).Some? ensures Run(s, steps).value.requester != Served {
        LostStays(s, steps);
      }
    } else {
      var steps := ServedUnlessLost(s);
    }
  }

  // ----- a request completed too early ------------------------------------------------

  const OVERTAKEN := REPLY_TAKEN.(requester := Sent, irq := NoInterrupt, kthread := Asleep, signals := 1, completed := [1])

  lemma FirstOvertaken()
    ensures Reachable(OVERTAKEN)
  {
    FirstReplyTaken(Sent);
    ShortQueues(1);
    var done := OVERTAKEN.(irq := IntermediateRequest, kthread := Disarms);
    ReachNext(REPLY_TAKEN.(requester := Sent), Complete, done);
    ReachNext(done, Disarm, OVERTAKEN);
  }

  /** Even the first request can fail: when the thread reads filler and reply, completes
      the request and disarms before the requester has looked at the state, the requester
      tries to read a filler that is gone. */
  lemma OvertakenFails()
    ensures Reachable(OVERTAKEN) && Lost(OVERTAKEN)
    ensures Reachable(OVERTAKEN.(requester := Failed))
  {
    FirstOvertaken();
    ReachNext(OVERTAKEN, ReadState, OVERTAKEN.(requester := ReadsDummy));
    ReachNext(OVERTAKEN.(requester := ReadsDummy), ReadDummy, OVERTAKEN.(requester := Failed));
  }
}
