/** The suspend-to-idle barrier: any number of CPUs, any interleaving of their
    atomic steps, a fixed set of online CPUs that contains the boot CPU. */
module S2Idle {
  import opened Wrappers

  const BOOT: nat := 0

  /** Where a CPU is in `tegra_auto_enter_s2idle_state`. The boot CPU scans the online
      CPUs in ascending order, issues the guest pause, stores the resume state and
      clears the mask; another CPU sets its bit and parks until the bit is clear. */
  datatype Place =
    | Outside | Scans(next: nat) | Pauses | StoresState | ClearsMask | SetsBit | Parked

  /** `sc7` is the boolean `s2idle_sc7_state`; the last four fields only record history. */
  datatype State = State(
    online: set<nat>, limit: nat,
    place: map<nat, Place>, mask: set<nat>, sc7: bool,
    pauses: nat, resumes: nat, clears: nat,
    parkedAt: map<nat, nat>)     // the number of clears when a CPU set its bit

  datatype Step =
    | SuspendPrepare | PostSuspend       // the suspend notifier
    | Enter(cpu: nat) | SetBit(cpu: nat) | CheckBit(cpu: nat)
    | Scan | PauseReturn | StoreState | ClearMask

  predicate At(s: State, cpu: nat, p: Place) {
    cpu in s.place && s.place[cpu] == p
  }

  function Move(s: State, cpu: nat, p: Place): State {
    s.(place := s.place[cpu := p])
  }

  /** The values of the three-state enumeration as the boolean holds them. */
  function AsBool(state: nat): bool { state != 0 }
  const SC7_NONE: nat := 0
  const SC7_SUSPEND_START: nat := 1
  const SC7_RESUME_START: nat := 2

  /** The entry test compares the boolean with SUSPEND_START, that is, with 1. */
  predicate EntryTest(sc7: bool) {
    (if sc7 then 1 else 0) == SC7_SUSPEND_START
  }

  function Next(s: State, step: Step): Option<State> {
    match step
    case SuspendPrepare => Some(s.(sc7 := AsBool(SC7_SUSPEND_START)))
    case PostSuspend => Some(s.(sc7 := AsBool(SC7_NONE)))
    case Enter(c) =>
      if !At(s, c, Outside) then None
      else if !EntryTest(s.sc7) then Some(s)
      else Some(Move(s, c, if c == BOOT then Scans(0) else SetsBit))
    case SetBit(c) =>
      if !At(s, c, SetsBit) then None
      else Some(Move(s, c, Parked).(mask := s.mask + {c}, parkedAt := s.parkedAt[c := s.clears]))
    case CheckBit(c) =>
      if !At(s, c, Parked) then None
      else if c in s.mask then Some(s) else Some(Move(s, c, Outside))
    case Scan =>
      if !(BOOT in s.place && s.place[BOOT].Scans?) then None
      else
        var c := s.place[BOOT].next;
        if c >= s.limit then Some(Move(s, BOOT, Pauses).(pauses := s.pauses + 1))
        else if c !in s.online || c == BOOT || c in s.mask then Some(Move(s, BOOT, Scans(c + 1)))
        else Some(s)
    case PauseReturn =>
      if !At(s, BOOT, Pauses) then None else Some(Move(s, BOOT, StoresState).(resumes := s.resumes + 1))
    case StoreState =>
      if !At(s, BOOT, StoresState) then None else Some(Move(s, BOOT, ClearsMask).(sc7 := AsBool(SC7_RESUME_START)))
    case ClearMask =>
      if !At(s, BOOT, ClearsMask) then None else Some(Move(s, BOOT, Outside).(mask := {}, clears := s.clears + 1))
  }

  function Run(s: State, steps: seq<Step>): Option<State>
    decreases |steps|
  {
    if steps == [] then Some(s)
    else match Next(s, steps[0])
      case None => None
      case Some(s') => Run(s', steps[1..])
  }

  ghost predicate Initial(s: State) {
    && BOOT in s.online && (forall c :: c in s.online ==> c < s.limit)
    && s.place.Keys == s.online && (forall c :: c in s.place ==> s.place[c] == Outside)
    && s.mask == {} && s.pauses == s.resumes == s.clears == 0 && s.parkedAt == map[]
  }

  /** Every online CPU but the boot CPU is parked with its bit set. */
  ghost predicate AllParked(s: State) {
    forall c :: c in s.online && c != BOOT ==> At(s, c, Parked) && c in s.mask
  }

  predicate BootPlace(p: Place) {
    p == Outside || p.Scans? || p == Pauses || p == StoresState || p == ClearsMask
  }

  ghost predicate BootOk(s: State)
    requires BOOT in s.place
  {
    match s.place[BOOT]
    case Outside => s.pauses == s.resumes == s.clears
    case Scans(next) =>
      s.pauses == s.resumes == s.clears && forall c :: c in s.online && c != BOOT && c < next ==> c in s.mask
    case Pauses => AllParked(s) && s.pauses == s.resumes + 1 && s.resumes == s.clears
    case _ => AllParked(s) && s.pauses == s.resumes == s.clears + 1
  }

  /** A CPU's bit is set exactly while it is parked and the mask has not been
      cleared since. */
  ghost predicate CpuOk(s: State, c: nat)
    requires c in s.place
  {
    if c == BOOT then BootPlace(s.place[c]) && c !in s.mask
    else
      && s.place[c] in {Outside, SetsBit, Parked}
      && (s.place[c] == Parked ==> c in s.parkedAt && s.parkedAt[c] <= s.clears)
      && (c in s.mask <==> s.place[c] == Parked && s.parkedAt[c] == s.clears)
  }

  ghost predicate Inv(s: State) {
    && BOOT in s.online && (forall c :: c in s.online ==> c < s.limit)
    && s.place.Keys == s.online && s.mask <= s.online
    && (forall c :: c in s.online ==> CpuOk(s, c))
    && BootOk(s)
  }

  predicate CpuStep(step: Step) {
    step.Enter? || step.SetBit? || step.CheckBit?
  }

  lemma CpuStepKeeps(s: State, step: Step)
    requires Inv(s) && CpuStep(step) && Next(s, step).Some?
    ensures Inv(Next(s, step).value)
  {
    var s' := Next(s, step).value;
    assert s'.place.Keys == s.online;
    forall c | c in s'.online ensures CpuOk(s', c) {
      assert CpuOk(s, c);
    }
  }

  lemma ScanKeeps(s: State)
    requires Inv(s) && Next(s, Scan).Some?
    ensures Inv(Next(s, Scan).value)
  {
    var s' := Next(s, Scan).value;
    assert s'.place.Keys == s.online;
    forall c | c in s'.online ensures CpuOk(s', c) {
      assert CpuOk(s, c);
    }
    if s.place[BOOT].next >= s.limit {
      forall c | c in s'.online && c != BOOT ensures At(s', c, Parked) && c in s'.mask {
        assert CpuOk(s, c);
      }
    }
  }

  lemma OtherStepKeeps(s: State, step: Step)
    requires Inv(s) && !CpuStep(step) && step != Scan && Next(s, step).Some?
    ensures Inv(Next(s, step).value)
  {
    var s' := Next(s, step).value;
    assert s'.place.Keys == s.online;
    forall c | c in s'.online ensures CpuOk(s', c) {
      assert CpuOk(s, c);
    }
  }

  lemma StepKeeps(s: State, step: Step)
    requires Inv(s) && Next(s, step).Some?
    ensures Inv(Next(s, step).value)
  {
    if CpuStep(step) {
      CpuStepKeeps(s, step);
    } else if step == Scan {
      ScanKeeps(s);
    } else {
      OtherStepKeeps(s, step);
    }
  }

  lemma {:induction false} RunKeeps(s: State, steps: seq<Step>)
    requires Inv(s) && Run(s, steps).Some?
    ensures Inv(Run(s, steps).value)
    decreases |steps|
  {
    if steps != [] {
      StepKeeps(s, steps[0]);
      RunKeeps(Next(s, steps[0]).value, steps[1..]);
    }
  }

  lemma InitialInv(s: State)
    requires Initial(s)
    ensures Inv(s)
  {
  }

  /** The barrier: from the moment the boot CPU issues the pause until it clears the
      mask, every other online CPU sits in its parked loop. */
  lemma PauseFindsAllParked(s: State, steps: seq<Step>)
    requires Initial(s) && Run(s, steps).Some?
    ensures var s' := Run(s, steps).value;
            At(s', BOOT, Pauses) || At(s', BOOT, StoresState) || At(s', BOOT, ClearsMask) ==> AllParked(s')
  {
    InitialInv(s);
    RunKeeps(s, steps);
  }

  /** A CPU whose bit is set stays parked over any run without a clear. */
  lemma {:induction false} ParkedUntilClear(s: State, steps: seq<Step>, c: nat)
    requires Inv(s) && c in s.mask && Run(s, steps).Some? && ClearMask !in steps
    ensures c in Run(s, steps).value.mask && At(Run(s, steps).value, c, Parked)
    decreases |steps|
  {
    assert CpuOk(s, c);
    if steps != [] {
      assert steps[0] != ClearMask;
      StepKeeps(s, steps[0]);
      ParkedUntilClear(Next(s, steps[0]).value, steps[1..], c);
    }
  }

  /** A CPU leaves its parked loop exactly when the mask was cleared, after a pause
      that returned, since the CPU parked. */
  lemma LeavesIffCleared(s: State, steps: seq<Step>, c: nat)
    requires Initial(s) && Run(s, steps).Some? && At(Run(s, steps).value, c, Parked)
    ensures var s' := Run(s, steps).value;
            && Next(s', CheckBit(c)).Some? && c in s'.parkedAt
            && (!At(Next(s', CheckBit(c)).value, c, Parked) <==> s'.parkedAt[c] < s'.clears)
            && s'.clears <= s'.resumes
  {
    InitialInv(s);
    RunKeeps(s, steps);
    assert CpuOk(Run(s, steps).value, c);
  }

  // ----- the resume state as a boolean ----------------------------------------

  /** Stored in a boolean, RESUME_START is indistinguishable from SUSPEND_START. */
  lemma ResumePassesEntryTest()
    ensures forall state: nat :: EntryTest(AsBool(state)) <==> state != SC7_NONE
  {
  }

  lemma {:induction false} StateHeldUntilPostSuspend(s: State, steps: seq<Step>)
    requires s.sc7 && Run(s, steps).Some? && PostSuspend !in steps
    ensures Run(s, steps).value.sc7
    decreases |steps|
  {
    if steps != [] {
      assert steps[0] != PostSuspend;
      StateHeldUntilPostSuspend(Next(s, steps[0]).value, steps[1..]);
    }
  }

  /** An idle CPU enters the barrier exactly while the state is not NONE. */
  lemma EntersIff(s: State, c: nat)
    requires Inv(s) && At(s, c, Outside)
    ensures Next(s, Enter(c)).Some?
    ensures At(Next(s, Enter(c)).value, c, if c == BOOT then Scans(0) else SetsBit) <==> s.sc7
    ensures !s.sc7 ==> Next(s, Enter(c)).value == s
  {
  }

  /** So after the boot CPU has resumed and cleared the mask, a CPU that goes idle
      before the post-suspend notification parks again, and stays parked until the
      boot CPU completes another whole pause. */
  lemma ReenteringCpuParksAgain(s: State, steps: seq<Step>, c: nat, more: seq<Step>)
    requires Inv(s) && At(s, BOOT, StoresState)
    requires Run(s, [StoreState, ClearMask] + steps).Some? && PostSuspend !in steps
    requires c != BOOT && At(Run(s, [StoreState, ClearMask] + steps).value, c, Outside)
    requires var s' := Run(s, [StoreState, ClearMask] + steps).value;
             Run(s', [Enter(c), SetBit(c)] + more).Some? && ClearMask !in more
    ensures var s' := Run(s, [StoreState, ClearMask] + steps).value;
            At(Run(s', [Enter(c), SetBit(c)] + more).value, c, Parked)
  {
    var s0 := Next(Next(s, StoreState).value, ClearMask).value;
    TwoThen(s, StoreState, ClearMask, steps);
    StepKeeps(s, StoreState);
    StepKeeps(Next(s, StoreState).value, ClearMask);
    StateHeldUntilPostSuspend(s0, steps);
    RunKeeps(s0, steps);
    var s1 := Run(s0, steps).value;
    TwoThen(s1, Enter(c), SetBit(c), more);
    StepKeeps(s1, Enter(c));
    var s2 := Next(s1, Enter(c)).value;
    StepKeeps(s2, SetBit(c));
    ParkedUntilClear(Next(s2, SetBit(c)).value, more, c);
  }

  lemma TwoThen(s: State, a: Step, b: Step, rest: seq<Step>)
    requires Run(s, [a, b] + rest).Some?
    ensures Next(s, a).Some? && Next(Next(s, a).value, b).Some?
    ensures Run(s, [a, b] + rest) == Run(Next(Next(s, a).value, b).value, rest)
  {
  }
}
