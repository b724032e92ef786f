/** Whole hashes: runs of updates closed by final, finup or digest. */
module ShaRuns {
  import opened Bytes
  import opened ShaStream

  // ----- one update ---------------------------------------------------------

  /** An update keeps the invariant exactly when it is empty or safe. */
  lemma UpdateExact(blk: nat, shake: bool, st: State, m: seq<byte>, req: Request)
    requires ValidBlockSize(blk) && req.WellFormed() && Inv(blk, st, m)
    ensures Inv(blk, Update(blk, shake, st, req), m + req.Data()) <==> req.nbytes == 0 || Safe(blk, st, req)
  {
    if req.nbytes == 0 {
      assert m + req.Data() == m;
      if st.totalCount == 0 && shake {
        EmptyUpdate(blk, st, m);
      }
    } else {
      var st0 := st.(forceAlign := Aligning(st, req));
      if TakesFastPath(blk, st, req) {
        FastAbsorbGood(blk, st0, m, req.Data());
      } else {
        SlowAbsorbGood(blk, st0, m, req.Data());
      }
    }
  }

  /** An empty SHAKE update sends a task without bytes, which is harmless. */
  lemma EmptyUpdate(blk: nat, st: State, m: seq<byte>)
    requires ValidBlockSize(blk) && Inv(blk, st, m)
    ensures Inv(blk, SendOne(true, st, [], false), m)
  {
  }

  lemma {:induction false} SendBlocksDense(blk: nat, log: Log, buf: seq<byte>, total: nat)
    requires ValidBlockSize(blk) && total <= |buf| && Dense(log)
    ensures Dense(SendBlocks(blk, log, buf, total).0)
    decreases total
  {
    if total >= blk {
      var n := ChunkLen(blk, total);
      SendBlocksDense(blk, SendTask(log, buf[..n], 0, false), buf[n..], total - n);
    }
  }

  lemma UpdateDense(blk: nat, shake: bool, st: State, req: Request)
    requires ValidBlockSize(blk) && req.WellFormed() && req.nbytes > 0 && Dense(st.log)
    ensures Dense(Update(blk, shake, st, req).log)
  {
    if !TakesFastPath(blk, st, req) {
      var buf := st.pending + req.Data();
      SendBlocksDense(blk, st.log, buf, SlowTotal(blk, |buf|));
    }
  }

  /** From a residual of zero or one block the two paths are interchangeable: same
      held-back bytes, same count, same bytes sent. */
  lemma FastAgreesWithSlow(blk: nat, st: State, m: seq<byte>, data: seq<byte>)
    requires ValidBlockSize(blk) && Inv(blk, st, m) && blk <= |data| <= REQUEST_MAX
    requires |st.pending| == 0 || |st.pending| == blk
    requires Fits(blk, SlowTotal(blk, |st.pending| + |data|))
    ensures var fast, slow := FastAbsorb(blk, st, data), SlowAbsorb(blk, st, data);
            fast.pending == slow.pending && fast.totalCount == slow.totalCount
            && Sent(fast.log.tasks) == Sent(slow.log.tasks)
  {
    var fast, slow := FastAbsorb(blk, st, data), SlowAbsorb(blk, st, data);
    FastAbsorbGood(blk, st, m, data);
    SlowAbsorbGood(blk, st, m, data);
    SameSplit(Sent(fast.log.tasks), fast.pending, Sent(slow.log.tasks), slow.pending);
  }

  lemma SameSplit(a: seq<byte>, b: seq<byte>, c: seq<byte>, d: seq<byte>)
    requires a + b == c + d && |b| == |d|
    ensures a == c && b == d
  {
    assert a == (a + b)[..|a|] && c == (c + d)[..|c|];
    assert b == (a + b)[|a|..] && d == (c + d)[|c|..];
  }

  // ----- runs of updates ----------------------------------------------------

  predicate WellFormedRun(reqs: seq<Request>) {
    forall i :: 0 <= i < |reqs| ==> reqs[i].WellFormed()
  }

  function RunUpdates(blk: nat, shake: bool, reqs: seq<Request>): State
    requires ValidBlockSize(blk) && WellFormedRun(reqs)
  {
    if reqs == [] then INIT
    else Update(blk, shake, RunUpdates(blk, shake, reqs[..|reqs| - 1]), reqs[|reqs| - 1])
  }

  function Message(reqs: seq<Request>): seq<byte>
    requires WellFormedRun(reqs)
  {
    if reqs == [] then [] else Message(reqs[..|reqs| - 1]) + reqs[|reqs| - 1].Data()
  }

  predicate SafeRun(blk: nat, shake: bool, reqs: seq<Request>)
    requires ValidBlockSize(blk) && WellFormedRun(reqs)
  {
    reqs == []
    || var n := |reqs| - 1;
       SafeRun(blk, shake, reqs[..n])
       && (reqs[n].nbytes == 0 || Safe(blk, RunUpdates(blk, shake, reqs[..n]), reqs[n]))
  }

  /** Any chunking: after a safe run nothing is lost, doubled or misaligned. */
  lemma {:induction false} RunInv(blk: nat, shake: bool, reqs: seq<Request>)
    requires ValidBlockSize(blk) && WellFormedRun(reqs) && SafeRun(blk, shake, reqs)
    ensures Inv(blk, RunUpdates(blk, shake, reqs), Message(reqs))
    ensures (forall i :: 0 <= i < |reqs| ==> reqs[i].nbytes > 0) ==> Dense(RunUpdates(blk, shake, reqs).log)
  {
    if reqs == [] {
      assert Sent([]) + [] == [];
    } else {
      var n := |reqs| - 1;
      RunInv(blk, shake, reqs[..n]);
      UpdateExact(blk, shake, RunUpdates(blk, shake, reqs[..n]), Message(reqs[..n]), reqs[n]);
      if forall i :: 0 <= i < |reqs| ==> reqs[i].nbytes > 0 {
        UpdateDense(blk, shake, RunUpdates(blk, shake, reqs[..n]), reqs[n]);
      }
    }
  }

  /** A request no client of the driver has to think about: split over several
      scatterlist entries or at least a block long, and small enough when the
      4 MiB buffer is not a whole number of blocks. */
  predicate Ordinary(blk: nat, req: Request)
    requires blk > 0
  {
    && (req.nents > 1 || req.nbytes >= blk)
    && (Rem(BUFFER_LEN, blk) == 0 || req.nbytes + blk <= BUFFER_LEN)
  }

  /** No partial residual unless `force_align` protects it. */
  predicate Guarded(blk: nat, st: State) {
    |st.pending| == 0 || |st.pending| == blk || st.forceAlign
  }

  lemma OrdinaryStep(blk: nat, shake: bool, st: State, m: seq<byte>, req: Request)
    requires ValidBlockSize(blk) && req.WellFormed() && Inv(blk, st, m) && Guarded(blk, st)
    requires req.nbytes > 0 && Ordinary(blk, req)
    ensures Safe(blk, st, req) && Guarded(blk, Update(blk, shake, st, req))
  {
    if TakesFastPath(blk, st, req) {
      FastKeep(blk, req.nbytes);
    }
  }

  lemma {:induction false} OrdinaryRunIsSafe(blk: nat, shake: bool, reqs: seq<Request>)
    requires ValidBlockSize(blk) && WellFormedRun(reqs)
    requires forall i :: 0 <= i < |reqs| ==> reqs[i].nbytes == 0 || Ordinary(blk, reqs[i])
    ensures SafeRun(blk, shake, reqs) && Guarded(blk, RunUpdates(blk, shake, reqs))
  {
    if reqs != [] {
      var n := |reqs| - 1;
      OrdinaryRunIsSafe(blk, shake, reqs[..n]);
      RunInv(blk, shake, reqs[..n]);
      if reqs[n].nbytes > 0 {
        OrdinaryStep(blk, shake, RunUpdates(blk, shake, reqs[..n]), Message(reqs[..n]), reqs[n]);
      }
    }
  }

  // ----- closing a hash -----------------------------------------------------

  function Suffixed(shake: bool, s: seq<byte>): seq<byte> {
    if shake then s + [0xff] else s
  }

  lemma FinishTask(shake: bool, st: State)
    requires st.pending != [] && st.outcome != Undefined
    ensures var tail := Suffixed(shake, st.pending);
            var total := st.totalCount + (if shake then 1 else 0);
            Finish(shake, st).log.tasks == st.log.tasks + [Task(tail, total, |tail|)]
  {
  }

  lemma RunEngineAppend<H>(alg: HashAlg<H>, blk: nat, h: H, tasks: seq<Task>, t: Task)
    requires blk > 0
    ensures RunEngine(alg, blk, h, tasks + [t]) == EngineStep(alg, blk, RunEngine(alg, blk, h, tasks), t)
  {
  }

  lemma TailJoins(shake: bool, sent: seq<byte>, pending: seq<byte>, pad: seq<byte>)
    ensures sent + (Suffixed(shake, pending) + pad) == Suffixed(shake, sent + pending) + pad
    ensures |Suffixed(shake, pending)| == |pending| + (if shake then 1 else 0)
  {
  }

  /** Finishing a nonempty message makes the engine hold its one-shot hash. */
  lemma FinishDigest<H>(alg: HashAlg<H>, blk: nat, shake: bool, h: H, st: State, m: seq<byte>)
    requires ValidBlockSize(blk) && Inv(blk, st, m) && m != []
    ensures RunEngine(alg, blk, h, Finish(shake, st).log.tasks) == OneShot(alg, blk, shake, m)
  {
    var tail := Suffixed(shake, st.pending);
    var total := |Suffixed(shake, m)|;
    var sent := Sent(st.log.tasks);
    TailJoins(shake, sent, st.pending, alg.pad(total));
    FinishTask(shake, st);
    RunEngineAppend(alg, blk, h, st.log.tasks, Task(tail, total, |tail|));
    SentAligned(blk, st.log);
    FoldSplit(alg, blk, alg.init, sent, tail + alg.pad(total));
    if st.log.tasks != [] {
      EngineFold(alg, blk, h, st.log);
    }
  }

  /** The empty SHAKE message is its domain byte. */
  lemma EmptyShakeDigest<H>(alg: HashAlg<H>, blk: nat, h: H, st: State)
    requires ValidBlockSize(blk) && st.totalCount == 0
    ensures RunEngine(alg, blk, h, SendOne(true, st, [], true).log.tasks) == OneShot(alg, blk, true, [])
  {
  }

  /** What a finished hash owes its client: the engine's digest is the one-shot hash of
      m, or the table's vector when there is nothing to hash. */
  predicate Delivers<H(==)>(alg: HashAlg<H>, blk: nat, shake: bool, h: H, st: State, m: seq<byte>)
    requires blk > 0
  {
    if m == [] && !shake then st.outcome == ZeroLengthVector
    else st.outcome == EngineDigest && RunEngine(alg, blk, h, st.log.tasks) == OneShot(alg, blk, shake, m)
  }

  /** Streaming refines one-shot hashing: any safe run of updates closed by final
      leaves the one-shot hash of everything the updates carried in the engine. */
  lemma FinalRefinesOneShot<H>(alg: HashAlg<H>, blk: nat, shake: bool, h: H, reqs: seq<Request>, last: Request)
    requires ValidBlockSize(blk) && WellFormedRun(reqs) && last.WellFormed() && SafeRun(blk, shake, reqs)
    requires Message(reqs) != [] || last.nbytes == 0
    ensures Delivers(alg, blk, shake, h, Final(blk, shake, RunUpdates(blk, shake, reqs), last), Message(reqs))
  {
    RunInv(blk, shake, reqs);
    var before := RunUpdates(blk, shake, reqs);
    var aligned := if last.nbytes == 0 then before else before.(forceAlign := Aligning(before, last));
    if Message(reqs) != [] {
      FinishDigest(alg, blk, shake, h, aligned, Message(reqs));
    } else if shake {
      EmptyShakeDigest(alg, blk, h, before);
    }
  }

  lemma RunAppend(blk: nat, shake: bool, reqs: seq<Request>, last: Request)
    requires ValidBlockSize(blk) && WellFormedRun(reqs) && last.WellFormed()
    ensures WellFormedRun(reqs + [last])
    ensures RunUpdates(blk, shake, reqs + [last]) == Update(blk, shake, RunUpdates(blk, shake, reqs), last)
    ensures Message(reqs + [last]) == Message(reqs) + last.Data()
    ensures SafeRun(blk, shake, reqs + [last])
            == (SafeRun(blk, shake, reqs) && (last.nbytes == 0 || Safe(blk, RunUpdates(blk, shake, reqs), last)))
  {
  }

  /** Finup is update followed by final, except that an empty SHAKE message is not
      announced by an empty task. */
  lemma FinupIsUpdateThenFinish(blk: nat, shake: bool, st: State, req: Request)
    requires ValidBlockSize(blk) && req.WellFormed() && (req.nbytes > 0 || st.totalCount > 0)
    ensures Finup(blk, shake, st, req) == Finish(shake, Update(blk, shake, st, req))
  {
  }

  /** The same for finup, which first absorbs the data of its own request; digest
      is finup straight after init. */
  lemma FinupRefinesOneShot<H>(alg: HashAlg<H>, blk: nat, shake: bool, h: H, reqs: seq<Request>, last: Request)
    requires ValidBlockSize(blk) && WellFormedRun(reqs) && last.WellFormed()
    requires WellFormedRun(reqs + [last]) && SafeRun(blk, shake, reqs + [last])
    ensures Delivers(alg, blk, shake, h, Finup(blk, shake, RunUpdates(blk, shake, reqs), last), Message(reqs + [last]))
  {
    var before := RunUpdates(blk, shake, reqs);
    var m := Message(reqs + [last]);
    RunAppend(blk, shake, reqs, last);
    RunInv(blk, shake, reqs);
    if m != [] {
      RunInv(blk, shake, reqs + [last]);
      FinupIsUpdateThenFinish(blk, shake, before, last);
      FinishDigest(alg, blk, shake, h, RunUpdates(blk, shake, reqs + [last]), m);
    } else if shake {
      EmptyShakeDigest(alg, blk, h, before);
    }
  }

  // ----- first/last signalling ----------------------------------------------

  predicate SaysFirst(t: Task) { t.msgTotal == t.msgLeft }

  predicate SaysLast(t: Task) { t.msgLeft == |t.data| }

  /** In a finished hash exactly the first task says first and exactly the last
      task says last, and the last one carries between 1 and blk bytes of the
      message (one more byte for SHAKE). */
  lemma SignallingExact(blk: nat, shake: bool, st: State, m: seq<byte>)
    requires ValidBlockSize(blk) && Inv(blk, st, m) && m != [] && Dense(st.log)
    ensures var tasks := Finish(shake, st).log.tasks;
            && |tasks| == |st.log.tasks| + 1
            && (forall i :: 0 <= i < |tasks| ==> (SaysFirst(tasks[i]) <==> i == 0))
            && (forall i :: 0 <= i < |tasks| ==> (SaysLast(tasks[i]) <==> i == |tasks| - 1))
            && var tail := |tasks[|tasks| - 1].data| - (if shake then 1 else 0); 1 <= tail <= blk
  {
  }

  // ----- where the code does not meet the promise ---------------------------

  /** A single-entry update shorter than a block is piled up and `force_align` stays
      off, so a single-entry block after it takes the fast path and replaces it. */
  lemma ShortThenLong(shake: bool, first: Request, second: Request)
    requires first.WellFormed() && 0 < first.nbytes < 64 && first.nents == 1
    requires second.WellFormed() && second.nbytes == 64 && second.nents == 1
    ensures Update(64, shake, INIT, first) == State(INIT.log, first.Data(), first.nbytes, false, Pending)
    ensures var st := Update(64, shake, INIT, first);
            Update(64, shake, st, second) == State(INIT.log, second.Data(), first.nbytes + 64, false, Pending)
            && !Safe(64, st, second)
  {
  }

  /** Two single-entry updates, the first shorter than a block, then final: the
      only task claims to continue a hash nobody started, and the first update is
      in no task at all. */
  lemma ShortThenLongLosesData<H>(alg: HashAlg<H>, h: H, first: Request, second: Request)
    requires first.WellFormed() && 0 < first.nbytes < 64 && first.nents == 1
    requires second.WellFormed() && second.nbytes == 64 && second.nents == 1
    ensures var st := Update(64, false, Update(64, false, INIT, first), second);
            var tasks := Final(64, false, st, Request(1, [], 0)).log.tasks;
            && tasks == [Task(second.Data(), first.nbytes + 64, 64)]
            && RunEngine(alg, 64, h, tasks) == FoldBlocks(alg, 64, h, second.Data() + alg.pad(first.nbytes + 64))
  {
  }

  /** The buffer is a whole number of SHA-2 blocks, but not of SHA-3 or SHAKE
      blocks: for those `Fits` bounds the request. */
  lemma WhichBlockSizesDivideTheBuffer(blk: nat)
    requires blk in {64, 72, 104, 128, 136, 168}
    ensures Rem(BUFFER_LEN, blk) == 0 <==> blk in {64, 128}
    ensures forall total: nat :: blk !in {64, 128} && Whole(total, blk) > BUFFER_LEN ==> !Fits(blk, total)
  {
    RemIsMod(BUFFER_LEN, blk);
  }

  lemma LongLeaves(blk: nat, st: State, data: seq<byte>)
    requires blk == 136 && st.pending == [] && st.outcome == Pending && |data| == 4_194_512
    ensures var st' := SlowAbsorb(blk, st, data); |st'.pending| == 208 && st'.outcome == Pending
  {
    var buf := st.pending + data;
    RemIsMod(|buf|, blk);
    var total := SlowTotal(blk, |buf|);
    RemIsMod(total, blk);
    assert ChunkLen(blk, total) == BUFFER_LEN;
    var next := SendTask(st.log, buf[..BUFFER_LEN], 0, false);
    assert SendBlocks(blk, next, buf[BUFFER_LEN..], total - BUFFER_LEN) == (next, buf[BUFFER_LEN..]);
  }

  /** A request of 4194512 bytes is a whole number of 136-byte blocks, but the 4 MiB
      chunk is not, so 208 bytes stay behind; the copy of ten more bytes then wraps. */
  lemma LongRequestWraps(blk: nat, first: Request, second: Request)
    requires blk == 136 && first.WellFormed() && first.nbytes == 4_194_512 && first.nents > 1
    requires second.WellFormed() && second.nbytes == 10
    ensures var st := Update(blk, false, INIT, first); |st.pending| == 208 && st.outcome == Pending
    ensures Update(blk, false, Update(blk, false, INIT, first), second).outcome == Undefined
  {
    var st := SlowAbsorb(blk, INIT.(forceAlign := true), first.Data());
    LongLeaves(blk, INIT.(forceAlign := true), first.Data());
    var total := |st.pending| + second.nbytes;
    RemIsMod(total, blk);
    assert CopyWraps(blk, |st.pending|, SlowTotal(blk, total));
  }

  /** Final with a stale byte count and no data sends no last task: what is copied
      to the client is whatever the result buffer held. */
  lemma FinalSendsLastIff(blk: nat, shake: bool, reqs: seq<Request>, last: Request)
    requires ValidBlockSize(blk) && WellFormedRun(reqs) && last.WellFormed() && SafeRun(blk, shake, reqs)
    ensures var before := RunUpdates(blk, shake, reqs);
            (Final(blk, shake, before, last).log.tasks != before.log.tasks)
            == (Message(reqs) != [] || (shake && last.nbytes == 0))
  {
    RunInv(blk, shake, reqs);
  }
}
