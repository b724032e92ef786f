/** Which runs are safe, read off the requests alone: what `force_align` remembers of
    them, and which request finds a residual it destroys. */
module ShaGuards {
  import opened Bytes
  import opened ShaStream
  import opened ShaRuns
  import opened ShaExact

  // ----- one update -----------------------------------------------------------

  /** A nonempty update leaves `force_align` on exactly when it was on, or the request
      would turn it on (several entries, or the fast path), and no whole block is held
      back. In particular a short single-entry request never turns it off early. */
  lemma UpdateGuards(blk: nat, shake: bool, st: State, m: seq<byte>, req: Request)
    requires ValidBlockSize(blk) && req.WellFormed() && req.nbytes > 0 && Inv(blk, st, m)
    ensures var st' := Update(blk, shake, st, req);
            st'.forceAlign <==> |st'.pending| != blk && (st.forceAlign || !Small(blk, req))
  {
    if TakesFastPath(blk, st, req) {
      FastKeep(blk, req.nbytes);
    }
  }

  /** An empty update touches nothing but, for SHAKE, the very first time: then it sends
      a task without bytes, which opens the hash. */
  lemma EmptyUpdateIs(blk: nat, shake: bool, st: State, m: seq<byte>, req: Request)
    requires ValidBlockSize(blk) && req.WellFormed() && req.nbytes == 0 && Inv(blk, st, m)
    ensures var st' := Update(blk, shake, st, req);
            && st'.(log := st.log) == st
            && |st'.log.tasks| == |st.log.tasks| + (if shake && m == [] then 1 else 0)
            && (shake && m == [] ==> !st'.log.isFirst && st'.log.tasks[|st.log.tasks|].data == [])
  {
  }

  /** The fast path sends at most two tasks, however long the request: the held-back
      block, if there is one, and all other whole blocks of the request at once. */
  lemma FastPathTasks(blk: nat, shake: bool, st: State, m: seq<byte>, req: Request)
    requires ValidBlockSize(blk) && req.WellFormed() && Inv(blk, st, m) && TakesFastPath(blk, st, req)
    ensures |Update(blk, shake, st, req).log.tasks|
         == |st.log.tasks| + (if |st.pending| == blk then 1 else 0) + (if req.nbytes > blk then 1 else 0)
  {
    FastKeep(blk, req.nbytes);
    WholeFacts(0, blk);
  }

  /** The slow path sends one task when a block is covered and the 4 MiB buffer holds
      all whole blocks, and none when no block is. */
  lemma SlowPathTasks(blk: nat, shake: bool, st: State, m: seq<byte>, req: Request)
    requires ValidBlockSize(blk) && req.WellFormed() && req.nbytes > 0 && Inv(blk, st, m) && !TakesFastPath(blk, st, req)
    requires Whole(SlowTotal(blk, |st.pending| + req.nbytes), blk) <= BUFFER_LEN
    ensures |Update(blk, shake, st, req).log.tasks|
         == |st.log.tasks| + (if |st.pending| + req.nbytes > blk then 1 else 0)
  {
    var buf := st.pending + req.Data();
    var total := SlowTotal(blk, |buf|);
    WholeFacts(|buf|, blk);
    if |buf| > blk {
      CoversBlock(blk, |buf|);
      OneChunk(blk, st.log, buf, total);
    }
  }

  lemma OneChunk(blk: nat, log: Log, buf: seq<byte>, total: nat)
    requires ValidBlockSize(blk) && blk <= total <= |buf| && Whole(total, blk) <= BUFFER_LEN
    ensures |SendBlocks(blk, log, buf, total).0.tasks| == |log.tasks| + 1
  {
    var n := ChunkLen(blk, total);
    assert total - n == Rem(total, blk);
    var next := SendTask(log, buf[..n], 0, false);
    assert SendBlocks(blk, next, buf[n..], total - n) == (next, buf[n..]);
  }

  lemma CoversBlock(blk: nat, t: nat)
    requires 0 < blk < t
    ensures SlowTotal(blk, t) >= blk
  {
    WholeFacts(t - blk, blk);
  }

  // ----- runs -------------------------------------------------------------------

  /** A single-entry request shorter than a block. */
  predicate Small(blk: nat, req: Request) {
    req.nents <= 1 && req.nbytes < blk
  }

  /** How many bytes the requests bring. */
  function Total(reqs: seq<Request>): nat {
    if reqs == [] then 0 else Total(reqs[..|reqs| - 1]) + reqs[|reqs| - 1].nbytes
  }

  lemma {:induction false} TotalIs(reqs: seq<Request>)
    requires WellFormedRun(reqs)
    ensures |Message(reqs)| == Total(reqs)
  {
    if reqs != [] {
      TotalIs(reqs[..|reqs| - 1]);
    }
  }

  /** Since the first `a` requests, which bring whole blocks, only small ones came. */
  predicate OnlySmallSince(blk: nat, reqs: seq<Request>, a: nat)
    requires blk > 0
  {
    a <= |reqs| && Rem(Total(reqs[..a]), blk) == 0
    && forall i :: a <= i < |reqs| ==> reqs[i].nbytes == 0 || Small(blk, reqs[i])
  }

  /** The residual, if any, is built from small requests only. */
  ghost predicate Unprotected(blk: nat, reqs: seq<Request>)
    requires blk > 0
  {
    exists a: nat :: OnlySmallSince(blk, reqs, a)
  }

  lemma AlignedIsUnprotected(blk: nat, reqs: seq<Request>)
    requires blk > 0 && Rem(Total(reqs), blk) == 0
    ensures Unprotected(blk, reqs)
  {
    assert reqs[..|reqs|] == reqs;
    assert OnlySmallSince(blk, reqs, |reqs|);
  }

  /** One more request. */
  lemma UnprotectedStep(blk: nat, reqs: seq<Request>)
    requires blk > 0 && reqs != []
    ensures var n := |reqs| - 1;
            Unprotected(blk, reqs) <==> Rem(Total(reqs), blk) == 0
                                        || (Unprotected(blk, reqs[..n]) && (reqs[n].nbytes == 0 || Small(blk, reqs[n])))
  {
    var n := |reqs| - 1;
    assert reqs[..|reqs|] == reqs;
    if Unprotected(blk, reqs) {
      var a: nat :| OnlySmallSince(blk, reqs, a);
      if a <= n {
        assert reqs[..n][..a] == reqs[..a];
        assert OnlySmallSince(blk, reqs[..n], a);
      }
    }
    if Unprotected(blk, reqs[..n]) && (reqs[n].nbytes == 0 || Small(blk, reqs[n])) {
      var a: nat :| OnlySmallSince(blk, reqs[..n], a);
      assert reqs[..n][..a] == reqs[..a];
      assert forall i :: 0 <= i < n ==> reqs[..n][i] == reqs[i];
      assert OnlySmallSince(blk, reqs, a);
    }
    if Rem(Total(reqs), blk) == 0 {
      AlignedIsUnprotected(blk, reqs);
    }
  }

  /** A block is held back exactly behind a nonzero number of whole blocks. */
  lemma HeldBlock(blk: nat, n: nat)
    requires blk > 0
    ensures Keep(blk, n) == blk <==> n > 0 && Rem(n, blk) == 0
    ensures Keep(blk, n) == 0 || Keep(blk, n) == blk <==> Rem(n, blk) == 0
  {
  }

  /** `force_align` says exactly that the residual is not built from small requests only. */
  lemma {:induction false} GuardIff(blk: nat, shake: bool, reqs: seq<Request>)
    requires ValidBlockSize(blk) && WellFormedRun(reqs) && SafeRun(blk, shake, reqs)
    ensures RunUpdates(blk, shake, reqs).forceAlign <==> !Unprotected(blk, reqs)
  {
    if reqs == [] {
      AlignedIsUnprotected(blk, reqs);
    } else {
      var n := |reqs| - 1;
      GuardIff(blk, shake, reqs[..n]);
      GuardStep(blk, shake, reqs);
    }
  }

  lemma GuardStep(blk: nat, shake: bool, reqs: seq<Request>)
    requires ValidBlockSize(blk) && WellFormedRun(reqs) && SafeRun(blk, shake, reqs) && reqs != []
    requires RunUpdates(blk, shake, reqs[..|reqs| - 1]).forceAlign <==> !Unprotected(blk, reqs[..|reqs| - 1])
    ensures RunUpdates(blk, shake, reqs).forceAlign <==> !Unprotected(blk, reqs)
  {
    var n := |reqs| - 1;
    var before := RunUpdates(blk, shake, reqs[..n]);
    RunInv(blk, shake, reqs[..n]);
    UnprotectedStep(blk, reqs);
    if reqs[n].nbytes == 0 {
      EmptyUpdateIs(blk, shake, before, Message(reqs[..n]), reqs[n]);
      if Rem(Total(reqs[..n]), blk) == 0 {
        AlignedIsUnprotected(blk, reqs[..n]);
      }
    } else {
      UpdateGuards(blk, shake, before, Message(reqs[..n]), reqs[n]);
      RunInv(blk, shake, reqs);
      TotalIs(reqs);
      HeldBlock(blk, Total(reqs));
    }
  }

  /** Whether a nonempty request behind the others is safe, from the requests alone. */
  ghost predicate RequestSafe(blk: nat, before: seq<Request>, req: Request)
    requires blk > 0
  {
    if Unprotected(blk, before) && req.nents <= 1 && req.nbytes >= blk then Rem(Total(before), blk) == 0
    else Fits(blk, SlowTotal(blk, Keep(blk, Total(before)) + req.nbytes))
  }

  ghost predicate AllSafe(blk: nat, reqs: seq<Request>)
    requires blk > 0
  {
    forall k :: 0 <= k < |reqs| && reqs[k].nbytes > 0 ==> RequestSafe(blk, reqs[..k], reqs[k])
  }

  lemma RunFacts(blk: nat, shake: bool, before: seq<Request>)
    requires ValidBlockSize(blk) && WellFormedRun(before) && SafeRun(blk, shake, before)
    ensures |RunUpdates(blk, shake, before).pending| == Keep(blk, Total(before))
    ensures RunUpdates(blk, shake, before).forceAlign <==> !Unprotected(blk, before)
  {
    RunInv(blk, shake, before);
    TotalIs(before);
    GuardIff(blk, shake, before);
  }

  lemma StateSafeIff(blk: nat, st: State, before: seq<Request>, req: Request)
    requires blk > 0 && |st.pending| == Keep(blk, Total(before)) && (st.forceAlign <==> !Unprotected(blk, before))
    ensures Safe(blk, st, req) <==> RequestSafe(blk, before, req)
  {
    HeldBlock(blk, Total(before));
  }

  lemma RequestSafeIff(blk: nat, shake: bool, before: seq<Request>, req: Request)
    requires ValidBlockSize(blk) && WellFormedRun(before) && SafeRun(blk, shake, before) && req.WellFormed()
    ensures Safe(blk, RunUpdates(blk, shake, before), req) <==> RequestSafe(blk, before, req)
  {
    RunFacts(blk, shake, before);
    StateSafeIff(blk, RunUpdates(blk, shake, before), before, req);
  }

  /** A run is safe exactly when every request in it is, seen from the requests alone. */
  lemma {:induction false} SafeRunIff(blk: nat, shake: bool, reqs: seq<Request>)
    requires ValidBlockSize(blk) && WellFormedRun(reqs)
    ensures SafeRun(blk, shake, reqs) <==> AllSafe(blk, reqs)
  {
    if reqs != [] {
      var n := |reqs| - 1;
      SafeRunIff(blk, shake, reqs[..n]);
      AllSafeStep(blk, reqs);
      if SafeRun(blk, shake, reqs[..n]) {
        RequestSafeIff(blk, shake, reqs[..n], reqs[n]);
      }
    }
  }

  lemma AllSafeStep(blk: nat, reqs: seq<Request>)
    requires blk > 0 && reqs != []
    ensures var n := |reqs| - 1;
            AllSafe(blk, reqs) <==> AllSafe(blk, reqs[..n]) && (reqs[n].nbytes == 0 || RequestSafe(blk, reqs[..n], reqs[n]))
  {
    var n := |reqs| - 1;
    forall k | 0 <= k < n ensures reqs[..n][k] == reqs[k] && reqs[..n][..k] == reqs[..k] {
    }
  }

  /** When blocks divide the buffer, a run is unsafe exactly when a single-entry request
      of at least a block follows a partial residual built from small requests only. */
  lemma UnsafeRunIff(blk: nat, shake: bool, reqs: seq<Request>)
    requires ValidBlockSize(blk) && WellFormedRun(reqs) && Rem(BUFFER_LEN, blk) == 0
    ensures !SafeRun(blk, shake, reqs) <==>
            exists k :: 0 <= k < |reqs| && reqs[k].nents <= 1 && reqs[k].nbytes >= blk
                        && Rem(Total(reqs[..k]), blk) != 0 && Unprotected(blk, reqs[..k])
  {
    SafeRunIff(blk, shake, reqs);
    forall k | 0 <= k < |reqs| && reqs[k].nbytes > 0
      ensures RequestSafe(blk, reqs[..k], reqs[k])
              <==> !(reqs[k].nents <= 1 && reqs[k].nbytes >= blk && Rem(Total(reqs[..k]), blk) != 0 && Unprotected(blk, reqs[..k]))
    {
    }
  }

  /** The exact condition on a whole hash, from its requests alone. */
  lemma FinalExactFromRequests(blk: nat, shake: bool, reqs: seq<Request>, last: Request)
    requires ValidBlockSize(blk) && WellFormedRun(reqs) && last.WellFormed()
    ensures AlwaysDelivers(blk, shake, Final(blk, shake, RunUpdates(blk, shake, reqs), last), Message(reqs))
            <==> AllSafe(blk, reqs) && (Total(reqs) > 0 || last.nbytes == 0)
  {
    FinalExactIff(blk, shake, reqs, last);
    SafeRunIff(blk, shake, reqs);
    TotalIs(reqs);
  }
}
