/** What the suspend-to-idle barrier achieves: it opens and closes with the notifier, the
    scan ends exactly when it may, and from every start there is a whole suspend. */
module S2IdleRuns {
  import opened Wrappers
  import opened S2Idle

  // ----- the notifier ------------------------------------------------------------

  /** After suspend-prepare an idle CPU enters the barrier, after post-suspend none does. */
  lemma NotifierGates(s: State, c: nat)
    requires Inv(s) && At(s, c, Outside)
    ensures var s' := Next(s, SuspendPrepare).value;
            Inv(s') && At(Next(s', Enter(c)).value, c, if c == BOOT then Scans(0) else SetsBit)
    ensures var s' := Next(s, PostSuspend).value;
            Inv(s') && Next(s', Enter(c)).value == s'
  {
    StepKeeps(s, SuspendPrepare);
    StepKeeps(s, PostSuspend);
    EntersIff(Next(s, SuspendPrepare).value, c);
    EntersIff(Next(s, PostSuspend).value, c);
  }

  // ----- running --------------------------------------------------------------------

  /** s' is reached by these steps. */
  predicate Leads(s: State, steps: seq<Step>, s': State) {
    Run(s, steps) == Some(s')
  }

  lemma {:induction false} LeadsThen(s: State, a: seq<Step>, s': State, b: seq<Step>, s'': State)
    requires Leads(s, a, s') && Leads(s', b, s'')
    ensures Leads(s, a + b, s'')
    decreases |a|
  {
    if a == [] {
      assert a + b == b;
    } else {
      assert (a + b)[1..] == a[1..] + b;
      LeadsThen(Next(s, a[0]).value, a[1..], s', b, s'');
    }
  }

  lemma LeadsOne(s: State, step: Step)
    requires Next(s, step).Some?
    ensures Leads(s, [step], Next(s, step).value)
  {
    assert [step][1..] == [];
  }

  // ----- the scan ---------------------------------------------------------------------

  /** Every online CPU from `next` on, but the boot CPU, has its bit set. */
  ghost predicate RestSet(s: State, next: nat) {
    forall c :: c in s.online && c != BOOT && c >= next ==> c in s.mask
  }

  function Scanning(n: nat): (steps: seq<Step>)
    ensures |steps| == n
  {
    seq(n, i => Scan)
  }

  lemma ScanningStep(n: nat)
    requires n > 0
    ensures Scanning(n)[0] == Scan && Scanning(n)[1..] == Scanning(n - 1)
  {
  }

  /** With all remaining bits set, the boot CPU's own steps take it to the pause. */
  lemma {:induction false} ScanEnds(s: State, next: nat) returns (n: nat, s': State)
    requires Inv(s) && At(s, BOOT, Scans(next)) && RestSet(s, next)
    ensures Leads(s, Scanning(n), s') && s' == Move(s, BOOT, Pauses).(pauses := s.pauses + 1)
    decreases if next < s.limit then s.limit - next else 0
  {
    var s1 := Next(s, Scan).value;
    StepKeeps(s, Scan);
    if next >= s.limit {
      LeadsOne(s, Scan);
      assert [Scan] == Scanning(1);
      return 1, s1;
    }
    assert s1 == Move(s, BOOT, Scans(next + 1));
    var m;
    m, s' := ScanEnds(s1, next + 1);
    ScanningStep(m + 1);
    n := m + 1;
    assert s'.place == s.place[BOOT := Pauses];
  }

  /** With one of them clear, they do not. */
  lemma {:induction false} ScanStuck(s: State, next: nat, n: nat)
    requires Inv(s) && At(s, BOOT, Scans(next)) && !RestSet(s, next) && Run(s, Scanning(n)).Some?
    ensures !At(Run(s, Scanning(n)).value, BOOT, Pauses)
    decreases n
  {
    if n > 0 {
      ScanningStep(n);
      var s1 := Next(s, Scan).value;
      StepKeeps(s, Scan);
      var c :| c in s.online && c != BOOT && c >= next && c !in s.mask;
      assert c < s.limit;
      var next1 := s1.place[BOOT].next;
      assert next1 == next || (next1 == next + 1 && c != next);
      assert !RestSet(s1, next1);
      ScanStuck(s1, next1, n - 1);
    }
  }

  /** A scanning boot CPU reaches the pause by its own steps if and only if every CPU it
      has not passed yet is parked. */
  lemma ScanReachesPauseIff(s: State, next: nat)
    requires Inv(s) && At(s, BOOT, Scans(next))
    ensures (exists n: nat :: Run(s, Scanning(n)).Some? && At(Run(s, Scanning(n)).value, BOOT, Pauses)) <==> RestSet(s, next)
  {
    if RestSet(s, next) {
      var n, s' := ScanEnds(s, next);
      assert Run(s, Scanning(n)).Some? && At(Run(s, Scanning(n)).value, BOOT, Pauses);
    } else {
      forall n: nat | Run(s, Scanning(n)).Some? ensures !At(Run(s, Scanning(n)).value, BOOT, Pauses) {
        ScanStuck(s, next, n);
      }
    }
  }

  // ----- a whole suspend -----------------------------------------------------------------

  /** The CPUs below n are parked, the others and the boot CPU outside, and the barrier
      is open. */
  ghost predicate ParkedBelow(s: State, n: nat) {
    && Inv(s) && s.sc7 && At(s, BOOT, Outside)
    && (forall c :: c in s.online && c != BOOT && c < n ==> At(s, c, Parked) && c in s.mask)
    && (forall c :: c in s.online && c != BOOT && c >= n ==> At(s, c, Outside))
  }

  /** One CPU enters and parks. */
  lemma ParkOne(s: State, c: nat) returns (s': State)
    requires ParkedBelow(s, c) && c in s.online && c != BOOT
    ensures Leads(s, [Enter(c), SetBit(c)], s') && ParkedBelow(s', c + 1)
    ensures s'.online == s.online && s'.limit == s.limit
  {
    var s1 := Next(s, Enter(c)).value;
    StepKeeps(s, Enter(c));
    EntersIff(s, c);
    s' := Next(s1, SetBit(c)).value;
    StepKeeps(s1, SetBit(c));
    LeadsOne(s, Enter(c));
    LeadsOne(s1, SetBit(c));
    LeadsThen(s, [Enter(c)], s1, [SetBit(c)], s');
    assert [Enter(c)] + [SetBit(c)] == [Enter(c), SetBit(c)];
  }

  lemma ParkAll(s: State, n: nat) returns (steps: seq<Step>, s': State)
    requires ParkedBelow(s, n) && n <= s.limit
    ensures Leads(s, steps, s') && ParkedBelow(s', s.limit) && s'.online == s.online && s'.limit == s.limit
    decreases s.limit - n
  {
    if n == s.limit {
      return [], s;
    }
    var first, s1 := [], s;
    if n in s.online && n != BOOT {
      s1 := ParkOne(s, n);
      first := [Enter(n), SetBit(n)];
    }
    var rest;
    rest, s' := ParkAll(s1, n + 1);
    LeadsThen(s, first, s1, rest, s');
    steps := first + rest;
  }

  /** The boot CPU enters, scans to the end and issues the pause. */
  lemma BootPauses(s: State) returns (steps: seq<Step>, s': State)
    requires ParkedBelow(s, s.limit)
    ensures Leads(s, steps, s') && Inv(s') && At(s', BOOT, Pauses) && s'.online == s.online && s'.limit == s.limit
  {
    var s1 := Next(s, Enter(BOOT)).value;
    StepKeeps(s, Enter(BOOT));
    EntersIff(s, BOOT);
    LeadsOne(s, Enter(BOOT));
    var n;
    n, s' := ScanEnds(s1, 0);
    RunKeeps(s1, Scanning(n));
    LeadsThen(s, [Enter(BOOT)], s1, Scanning(n), s');
    steps := [Enter(BOOT)] + Scanning(n);
  }

  /** The boot CPU is out and the mask clear; the CPUs below n have left too. */
  ghost predicate OutBelow(s: State, n: nat) {
    && Inv(s) && At(s, BOOT, Outside) && s.mask == {}
    && (forall c :: c in s.online && c != BOOT && c < n ==> At(s, c, Outside))
    && (forall c :: c in s.online && c != BOOT && c >= n ==> At(s, c, Parked))
  }

  lemma MaskCleared(s: State)
    requires Inv(s) && At(s, BOOT, ClearsMask)
    ensures OutBelow(Next(s, ClearMask).value, 0)
  {
    StepKeeps(s, ClearMask);
  }

  /** The pause returns and the boot CPU lets the others go. */
  lemma BootResumes(s: State) returns (steps: seq<Step>, s': State)
    requires Inv(s) && At(s, BOOT, Pauses)
    ensures Leads(s, steps, s') && OutBelow(s', 0) && s'.online == s.online && s'.limit == s.limit
  {
    var s1 := Next(s, PauseReturn).value;
    var s2 := Next(s1, StoreState).value;
    s' := Next(s2, ClearMask).value;
    StepKeeps(s, PauseReturn);
    StepKeeps(s1, StoreState);
    MaskCleared(s2);
    LeadsOne(s, PauseReturn);
    LeadsOne(s1, StoreState);
    LeadsOne(s2, ClearMask);
    LeadsThen(s, [PauseReturn], s1, [StoreState], s2);
    LeadsThen(s, [PauseReturn] + [StoreState], s2, [ClearMask], s');
    steps := [PauseReturn] + [StoreState] + [ClearMask];
  }

  lemma AllLeave(s: State, n: nat) returns (steps: seq<Step>, s': State)
    requires OutBelow(s, n) && n <= s.limit
    ensures Leads(s, steps, s') && OutBelow(s', s.limit) && s'.online == s.online && s'.limit == s.limit
    decreases s.limit - n
  {
    if n == s.limit {
      return [], s;
    }
    var first, s1 := [], s;
    if n in s.online && n != BOOT {
      s1 := Next(s, CheckBit(n)).value;
      StepKeeps(s, CheckBit(n));
      LeadsOne(s, CheckBit(n));
      first := [CheckBit(n)];
    }
    var rest;
    rest, s' := AllLeave(s1, n + 1);
    LeadsThen(s, first, s1, rest, s');
    steps := first + rest;
  }

  /** From every start, with any set of online CPUs, there is a run that pauses the guest
      and then has every CPU outside again with an empty mask. */
  lemma WholeSuspend(s: State) returns (down: seq<Step>, paused: State, up: seq<Step>, over: State)
    requires Initial(s)
    ensures Leads(s, down, paused) && At(paused, BOOT, Pauses) && AllParked(paused)
    ensures Leads(s, down + up, over) && over.mask == {} && over.online == s.online
    ensures forall c :: c in s.online ==> At(over, c, Outside)
  {
    InitialInv(s);
    var s1 := Next(s, SuspendPrepare).value;
    StepKeeps(s, SuspendPrepare);
    LeadsOne(s, SuspendPrepare);
    var park, s2 := ParkAll(s1, 0);
    var pause;
    pause, paused := BootPauses(s2);
    LeadsThen(s, [SuspendPrepare], s1, park, s2);
    LeadsThen(s, [SuspendPrepare] + park, s2, pause, paused);
    down := [SuspendPrepare] + park + pause;
    var resume, s4 := BootResumes(paused);
    var leave;
    leave, over := AllLeave(s4, 0);
    LeadsThen(paused, resume, s4, leave, over);
    up := resume + leave;
    LeadsThen(s, down, paused, up, over);
  }
}
